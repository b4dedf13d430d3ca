/**
  The nearest-timestamp resolution shared by both scripts: build the list of
  names whose embedded time can be read (in listing order, each with its
  time), then pick the first name whose time is nearest the target.
*/
module Resolver {
  import opened Wrappers
  import opened Calendar
  import opened Strings
  import opened Timestamps

  /** The errors that end a search: each is an exception in the scripts. */
  datatype Error =
    | UnparseableTimestamp(name: string)  // ValueError from strptime on this name
    | DateOutOfRange                      // OverflowError from date - timedelta
    | NoRadarFiles                        // ValueError raised when both days are empty
    | EmptyArgMin                         // ValueError from np.argmin of an empty array

  /** A name with the time read from it (the pair `(key, file_dt)`). */
  datatype Candidate = Candidate(name: string, time: Instant)

  /** How one search window reads a name: the script's parse step for that archive. */
  type Extractor = string -> Extraction

  /**
    The candidates of a listing, visited in order: names that do not match
    are skipped, and the first name whose timestamp does not parse ends the
    loop with its error.
  */
  function Collect(extract: Extractor, names: seq<string>): (r: Result<seq<Candidate>, Error>)
    ensures r.Ok? ==> |r.value| <= |names|
    ensures r.Err? ==> r.error.UnparseableTimestamp?
  {
    if |names| == 0 then Ok([])
    else
      var last := names[|names| - 1];
      match Collect(extract, names[..|names| - 1])
      case Err(e) => Err(e)
      case Ok(c) =>
        match extract(last)
        case NoMatch => Ok(c)
        case Extracted(t) => Ok(c + [Candidate(last, t)])
        case Unparseable => Err(UnparseableTimestamp(last))
  }

  /** One more name: what the loop does with the next name of the listing. */
  lemma {:induction false} CollectStep(extract: Extractor, names: seq<string>, i: nat)
    requires i < |names|
    ensures Collect(extract, names[..i]).Err? ==> Collect(extract, names[..i + 1]) == Collect(extract, names[..i])
    ensures Collect(extract, names[..i]).Ok? ==>
              Collect(extract, names[..i + 1]) ==
                match extract(names[i])
                case NoMatch => Collect(extract, names[..i])
                case Extracted(t) => Ok(Collect(extract, names[..i]).value + [Candidate(names[i], t)])
                case Unparseable => Err(UnparseableTimestamp(names[i]))
  {
    assert names[..i + 1][..i] == names[..i];
  }

  /** An error stops the loop: the rest of the listing is not looked at. */
  lemma {:induction false} CollectErrorStops(extract: Extractor, names: seq<string>, i: nat)
    requires i <= |names| && Collect(extract, names[..i]).Err?
    ensures Collect(extract, names) == Collect(extract, names[..i])
  {
    CollectAppend(extract, names[..i], names[i..]);
    assert names[..i] + names[i..] == names;
  }

  /**
    The filter loop of both scripts: visit the names in order, apply the
    parse step to each, append a pair for each time found, and stop at the
    first name whose timestamp does not parse.
  */
  method CollectCandidates(extract: Extractor, names: seq<string>) returns (r: Result<seq<Candidate>, Error>)
    ensures r == Collect(extract, names)
  {
    var acc: seq<Candidate> := [];
    var i := 0;
    while i < |names|
      invariant 0 <= i <= |names|
      invariant Collect(extract, names[..i]) == Ok(acc)
    {
      var name := names[i];
      CollectStep(extract, names, i);
      match extract(name) {
        case Unparseable =>
          CollectErrorStops(extract, names, i + 1);
          return Err(UnparseableTimestamp(name));
        case NoMatch =>
        case Extracted(t) =>
          acc := acc + [Candidate(name, t)];
      }
      i := i + 1;
    }
    assert names[..i] == names;
    r := Ok(acc);
  }

  function NamesOf(cs: seq<Candidate>): (r: seq<string>)
    ensures |r| == |cs| && forall j | 0 <= j < |cs| :: r[j] == cs[j].name
  {
    seq(|cs|, j requires 0 <= j < |cs| => cs[j].name)
  }

  function TimesOf(cs: seq<Candidate>): (r: seq<Instant>)
    ensures |r| == |cs| && forall j | 0 <= j < |cs| :: r[j] == cs[j].time
  {
    seq(|cs|, j requires 0 <= j < |cs| => cs[j].time)
  }

  /** Listing `a` then `b` collects `a`'s candidates then `b`'s; the first error wins. */
  lemma {:induction false} CollectAppend(extract: Extractor, a: seq<string>, b: seq<string>)
    ensures Collect(extract, a).Err? ==> Collect(extract, a + b) == Collect(extract, a)
    ensures Collect(extract, a).Ok? && Collect(extract, b).Err? ==> Collect(extract, a + b) == Collect(extract, b)
    ensures Collect(extract, a).Ok? && Collect(extract, b).Ok? ==>
              Collect(extract, a + b) == Ok(Collect(extract, a).value + Collect(extract, b).value)
  {
    if |b| == 0 {
      assert a + b == a;
      if Collect(extract, a).Ok? {
        assert Collect(extract, a).value + [] == Collect(extract, a).value;
      }
    } else {
      var b' := b[..|b| - 1];
      CollectAppend(extract, a, b');
      assert (a + b)[..|a + b| - 1] == a + b';
      assert (a + b)[|a + b| - 1] == b[|b| - 1];
      var x := b[|b| - 1];
      if Collect(extract, a).Ok? && Collect(extract, b').Ok? && extract(x).Extracted? {
        var ca, cb := Collect(extract, a).value, Collect(extract, b').value;
        assert (ca + cb) + [Candidate(x, extract(x).time)] == ca + (cb + [Candidate(x, extract(x).time)]);
      }
    }
  }

  /** The collected candidates are exactly the listed names that parse, each with its time. */
  lemma {:induction false} CollectKeeps(extract: Extractor, names: seq<string>)
    requires Collect(extract, names).Ok?
    ensures var c := Collect(extract, names).value;
            forall j | 0 <= j < |c| :: extract(c[j].name) == Extracted(c[j].time)
    ensures var c := Collect(extract, names).value;
            forall x :: x in NamesOf(c) <==> x in names && extract(x).Extracted?
  {
    if |names| > 0 {
      var init := names[..|names| - 1];
      CollectKeeps(extract, init);
      assert names == init + [names[|names| - 1]];
      var c := Collect(extract, names).value;
      var c0 := Collect(extract, init).value;
      assert NamesOf(c) == NamesOf(c0) || NamesOf(c) == NamesOf(c0) + [names[|names| - 1]];
    }
  }

  /** Every candidate is a listed name. */
  lemma {:induction false} CollectListed(extract: Extractor, names: seq<string>)
    requires Collect(extract, names).Ok?
    ensures forall j | 0 <= j < |Collect(extract, names).value| :: Collect(extract, names).value[j].name in names
  {
    var c := Collect(extract, names).value;
    CollectKeeps(extract, names);
    forall j | 0 <= j < |c| ensures c[j].name in names {
      assert c[j].name in NamesOf(c);
    }
  }

  /** The names `extract` does not skip, in listing order. */
  function Kept(extract: Extractor, names: seq<string>): seq<string> {
    if |names| == 0 then []
    else
      var last := names[|names| - 1];
      Kept(extract, names[..|names| - 1]) + (if extract(last) != NoMatch then [last] else [])
  }

  /** The loop keeps exactly the names `extract` does not skip, in listing order. */
  lemma {:induction false} CollectInOrder(extract: Extractor, names: seq<string>)
    requires Collect(extract, names).Ok?
    ensures NamesOf(Collect(extract, names).value) == Kept(extract, names)
  {
    if |names| > 0 {
      var init := names[..|names| - 1];
      var last := names[|names| - 1];
      CollectInOrder(extract, init);
      var c0 := Collect(extract, init).value;
      if extract(last).Extracted? {
        assert NamesOf(c0 + [Candidate(last, extract(last).time)]) == NamesOf(c0) + [last];
      }
    }
  }

  /** A listing none of whose names is recognised yields no candidate and no error. */
  lemma {:induction false} CollectNothingKept(extract: Extractor, names: seq<string>)
    requires Kept(extract, names) == []
    ensures Collect(extract, names) == Ok([])
  {
    if |names| > 0 {
      CollectNothingKept(extract, names[..|names| - 1]);
    }
  }

  /** The loop fails exactly when some listed name matches but its timestamp does not parse. */
  lemma {:induction false} CollectFails(extract: Extractor, names: seq<string>)
    ensures Collect(extract, names).Err? <==>
              exists i | 0 <= i < |names| :: extract(names[i]).Unparseable?
    ensures Collect(extract, names).Err? ==>
              Collect(extract, names).error == UnparseableTimestamp(names[FirstUnparseable(extract, names)])
  {
    if |names| > 0 {
      var init := names[..|names| - 1];
      CollectFails(extract, init);
      if Collect(extract, init).Err? {
        var i :| 0 <= i < |init| && extract(init[i]).Unparseable?;
        assert names[i] == init[i];
      } else {
        forall i | 0 <= i < |init| ensures !extract(names[i]).Unparseable? {
          assert names[i] == init[i];
        }
      }
    }
  }

  /** The position of the first listed name whose timestamp does not parse. */
  function FirstUnparseable(extract: Extractor, names: seq<string>): (i: nat)
    requires exists i | 0 <= i < |names| :: extract(names[i]).Unparseable?
    ensures i < |names| && extract(names[i]).Unparseable?
    ensures forall j | 0 <= j < i :: !extract(names[j]).Unparseable?
  {
    if extract(names[0]).Unparseable? then 0
    else
      assert exists i | 0 <= i < |names[1..]| :: extract(names[1..][i]).Unparseable? by {
        var i :| 0 <= i < |names| && extract(names[i]).Unparseable?;
        assert names[1..][i - 1] == names[i];
      }
      1 + FirstUnparseable(extract, names[1..])
  }

  /** `abs(t - target)` for every time, in order (`np.abs(np.array(times) - date)`). */
  function Distances(times: seq<Instant>, target: Instant): (ds: seq<nat>)
    ensures |ds| == |times|
  {
    if |times| == 0 then []
    else Distances(times[..|times| - 1], target) + [Distance(times[|times| - 1], target)]
  }

  /** Each entry is the distance of the time at the same position. */
  lemma {:induction false} DistancesAt(times: seq<Instant>, target: Instant, j: nat)
    requires j < |times|
    ensures Distances(times, target)[j] == Distance(times[j], target)
  {
    var n := |times| - 1;
    var init := Distances(times[..n], target);
    assert Distances(times, target) == init + [Distance(times[n], target)];
    if j < n {
      DistancesAt(times[..n], target, j);
      assert times[..n][j] == times[j];
    }
  }

  /** Position `k` holds the first smallest value of `ds`. */
  ghost predicate IsFirstMinimum(ds: seq<nat>, k: int) {
    && 0 <= k < |ds|
    && (forall j | 0 <= j < |ds| :: ds[k] <= ds[j])
    && (forall j | 0 <= j < k :: ds[j] > ds[k])
  }

  /**
    The position of the first smallest value: a left-to-right scan that
    moves only on a strictly smaller value (`np.argmin`).
  */
  function FirstMinimum(ds: seq<nat>): (k: nat)
    requires |ds| > 0
    ensures k < |ds|
  {
    if |ds| == 1 then 0
    else
      var n := |ds| - 1;
      var k := FirstMinimum(ds[..n]);
      if ds[n] < ds[k] then n else k
  }

  /** The scan finds the first smallest value. */
  lemma {:induction false} FirstMinimumIsFirst(ds: seq<nat>)
    requires |ds| > 0
    ensures IsFirstMinimum(ds, FirstMinimum(ds))
  {
    if |ds| > 1 {
      var n := |ds| - 1;
      FirstMinimumIsFirst(ds[..n]);
      assert forall j | 0 <= j < n :: ds[..n][j] == ds[j];
    }
  }

  /** Extending the scanned prefix by one value moves the minimum only to a strictly smaller value. */
  lemma {:induction false} FirstMinimumStep(ds: seq<nat>, i: nat)
    requires i < |ds|
    ensures i == 0 ==> FirstMinimum(ds[..i + 1]) == 0
    ensures i > 0 ==> var k := FirstMinimum(ds[..i]);
                      FirstMinimum(ds[..i + 1]) == if ds[i] < ds[k] then i else k
  {
    assert ds[..i + 1][..i] == ds[..i];
  }

  /** Nothing before the first minimum is as small as it. */
  lemma {:induction false} FirstMinimumBefore(ds: seq<nat>, k: int, j: int)
    requires IsFirstMinimum(ds, k) && 0 <= j < |ds| && ds[j] <= ds[k]
    ensures k <= j
  {
  }

  /** There is one first minimum. */
  lemma {:induction false} FirstMinimumUnique(ds: seq<nat>, k1: int, k2: int)
    requires IsFirstMinimum(ds, k1) && IsFirstMinimum(ds, k2)
    ensures k1 == k2
  {
    FirstMinimumBefore(ds, k1, k2);
    FirstMinimumBefore(ds, k2, k1);
  }

  /** `key` names a candidate whose time is the first nearest `target`. */
  ghost predicate IsClosestKey(cs: seq<Candidate>, target: Instant, key: string)
  {
    exists k | 0 <= k < |cs| :: cs[k].name == key && IsFirstMinimum(Distances(TimesOf(cs), target), k)
  }

  /**
    The name of the first candidate whose time is nearest `target`, or None
    when there is no candidate (`find_closest_file`; `files[np.argmin(...)]`).
  */
  function ClosestFile(filesTimes: seq<Candidate>, target: Instant): (r: Option<string>)
    ensures r.None? <==> |filesTimes| == 0
  {
    if |filesTimes| == 0 then None
    else Some(filesTimes[FirstMinimum(Distances(TimesOf(filesTimes), target))].name)
  }

  /** The key returned names the first entry nearest the target. */
  lemma {:induction false} ClosestFileIsClosest(filesTimes: seq<Candidate>, target: Instant)
    requires ClosestFile(filesTimes, target).Some?
    ensures IsClosestKey(filesTimes, target, ClosestFile(filesTimes, target).value)
  {
    FirstMinimumIsFirst(Distances(TimesOf(filesTimes), target));
  }

  /**
    The key returned is listed, no entry is strictly nearer the target, and
    every entry before it is strictly farther.
  */
  lemma {:induction false} ClosestFileIsNearest(filesTimes: seq<Candidate>, target: Instant)
    requires ClosestFile(filesTimes, target).Some?
    ensures exists k | 0 <= k < |filesTimes| ::
              && filesTimes[k].name == ClosestFile(filesTimes, target).value
              && (forall j | 0 <= j < |filesTimes| ::
                    Distance(filesTimes[k].time, target) <= Distance(filesTimes[j].time, target))
              && (forall j | 0 <= j < k ::
                    Distance(filesTimes[j].time, target) > Distance(filesTimes[k].time, target))
  {
    var ds := Distances(TimesOf(filesTimes), target);
    var k := FirstMinimum(ds);
    FirstMinimumIsFirst(ds);
    forall j | 0 <= j < |filesTimes|
      ensures ds[j] == Distance(filesTimes[j].time, target)
    {
      DistancesAt(TimesOf(filesTimes), target, j);
    }
    assert filesTimes[k].name == ClosestFile(filesTimes, target).value;
    assert forall j | 0 <= j < |filesTimes| :: ds[k] <= ds[j];
    assert forall j | 0 <= j < k :: ds[j] > ds[k];
  }
}
