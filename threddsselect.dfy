/**
  The THREDDS script's choice of a catalog dataset: keep the dataset names
  that contain the requested hour `YYYYMMDD_HH`, read each one's time from
  its characters `[-18:-5]`, fall back to the previous hour only when none
  is kept, and return the position in the catalog of the kept name nearest
  the requested time.
*/
module ThreddsSelect {
  import opened Wrappers
  import opened Calendar
  import opened Strings
  import opened Timestamps
  import opened Resolver

  /** Catalog names are kept when they contain the hour tag, and read at `[-18:-5]`. */
  function HourExtractor(hourTag: string): (extract: Extractor)
    ensures forall name :: extract(name) != NoMatch <==> Contains(name, hourTag)
  {
    name => if Contains(name, hourTag) then SliceTime(name) else NoMatch
  }

  /** `[file for file in datasets if tag in file]`. */
  function Matching(datasets: seq<string>, tag: string): seq<string> {
    if |datasets| == 0 then []
    else
      var last := datasets[|datasets| - 1];
      Matching(datasets[..|datasets| - 1], tag) + (if Contains(last, tag) then [last] else [])
  }

  /** `list(datasets).index(x)`: the first position holding `x`. */
  function IndexOf(s: seq<string>, x: string): (i: nat)
    requires x in s
    ensures i < |s| && s[i] == x
    ensures forall j | 0 <= j < i :: s[j] != x
  {
    if s[0] == x then 0 else 1 + IndexOf(s[1..], x)
  }

  /** The pairs `(file, time)` of the hour `tag`, in catalog order. */
  function HourFiles(datasets: seq<string>, tag: string): Result<seq<Candidate>, Error> {
    Collect(HourExtractor(tag), datasets)
  }

  /**
    The lists the arg-min runs over: the requested hour's, or, when that
    hour keeps no name, the previous hour's.
  */
  function HourCandidates(datasets: seq<string>, date: Instant): (r: Result<seq<Candidate>, Error>)
    ensures r.Ok? ==> forall j | 0 <= j < |r.value| :: r.value[j].name in datasets
  {
    var current :- HourFiles(datasets, HourTag(date));
    CollectListed(HourExtractor(HourTag(date)), datasets);
    if current != [] then Ok(current)
    else
      match PrevHour(date)
      case None => Err(DateOutOfRange)
      case Some(prev) =>
        var previous :- HourFiles(datasets, HourTag(prev));
        CollectListed(HourExtractor(HourTag(prev)), datasets);
        Ok(previous)
  }

  /**
    What `get_radar_file_url` returns: the catalog position of the first
    kept name nearest `date`, measured against `date` itself in both hours.
  */
  function RadarFileIndex(datasets: seq<string>, date: Instant): Result<nat, Error> {
    var filesTimes :- HourCandidates(datasets, date);
    match ClosestFile(filesTimes, date)
    case None => Err(EmptyArgMin)
    case Some(name) => Ok(IndexOf(datasets, name))
  }

  /**
    `get_radar_file_url`: filter and parse the requested hour, filter and
    parse the previous hour into the same (empty) lists when nothing was
    kept, then take the first arg-min of `|t - date|` and look its name up.
  */
  method GetRadarFileUrl(datasets: seq<string>, date: Instant) returns (r: Result<nat, Error>)
    ensures r == RadarFileIndex(datasets, date)
  {
    var radDateHour := HourTag(date);
    var collected := CollectCandidates(HourExtractor(radDateHour), datasets);
    if collected.Err? {
      return Err(collected.error);
    }
    CollectListed(HourExtractor(radDateHour), datasets);
    var filesTimes := collected.value;
    if |filesTimes| == 0 {
      var prev := PrevHour(date);
      if prev.None? {
        return Err(DateOutOfRange);
      }
      radDateHour := HourTag(prev.value);
      collected := CollectCandidates(HourExtractor(radDateHour), datasets);
      if collected.Err? {
        return Err(collected.error);
      }
      CollectListed(HourExtractor(radDateHour), datasets);
      assert filesTimes + collected.value == collected.value;
      filesTimes := filesTimes + collected.value;
    }
    var files, times := NamesOf(filesTimes), TimesOf(filesTimes);
    if |times| == 0 {
      return Err(EmptyArgMin);
    }
    var k := FirstMinimum(Distances(times, date));
    assert files[k] in datasets;
    r := Ok(IndexOf(datasets, files[k]));
  }

  /** Keeping the names the hour's parse step does not skip is the comprehension over the tag. */
  lemma {:induction false} KeptByHour(datasets: seq<string>, tag: string)
    ensures Kept(HourExtractor(tag), datasets) == Matching(datasets, tag)
  {
    if |datasets| > 0 {
      KeptByHour(datasets[..|datasets| - 1], tag);
    }
  }

  /** The `files` list is exactly the names containing the hour tag, in catalog order. */
  lemma {:induction false} CandidatesAreMatchingNames(datasets: seq<string>, tag: string)
    requires HourFiles(datasets, tag).Ok?
    ensures NamesOf(HourFiles(datasets, tag).value) == Matching(datasets, tag)
  {
    CollectInOrder(HourExtractor(tag), datasets);
    KeptByHour(datasets, tag);
  }

  /**
    Each kept name carries its time at `[-18:-5]` as `YYYYMMDD_HHMM`, and
    the time has no seconds.
  */
  lemma {:induction false} CandidateTimesFromSlice(datasets: seq<string>, tag: string)
    requires HourFiles(datasets, tag).Ok?
    ensures var c := HourFiles(datasets, tag).value;
            forall j | 0 <= j < |c| ::
              && |c[j].name| >= 18
              && c[j].name[|c[j].name| - 18..|c[j].name| - 5] == MinuteStamp(c[j].time)
              && c[j].time.second == 0 && c[j].time.microsecond == 0
  {
    var c := HourFiles(datasets, tag).value;
    CollectKeeps(HourExtractor(tag), datasets);
    forall j | 0 <= j < |c|
      ensures |c[j].name| >= 18
      ensures c[j].name[|c[j].name| - 18..|c[j].name| - 5] == MinuteStamp(c[j].time)
      ensures c[j].time.second == 0 && c[j].time.microsecond == 0
    {
      var n := c[j].name;
      assert SliceTime(n) == Extracted(c[j].time);
      ParsedStampIsMinuteStamp(n[|n| - 18..|n| - 5]);
    }
  }

  /** The previous hour is searched only when no catalog name contains the requested hour's tag. */
  lemma {:induction false} FallbackOnlyWhenEmpty(datasets: seq<string>, date: Instant)
    requires HourFiles(datasets, HourTag(date)).Ok?
    ensures Matching(datasets, HourTag(date)) != [] ==>
              HourCandidates(datasets, date) == HourFiles(datasets, HourTag(date))
    ensures Matching(datasets, HourTag(date)) == [] ==>
              HourCandidates(datasets, date) ==
                match PrevHour(date)
                case None => Err(DateOutOfRange)
                case Some(prev) => HourFiles(datasets, HourTag(prev))
  {
    CandidatesAreMatchingNames(datasets, HourTag(date));
  }

  /** Looking up the closest name gives its first position, and that name is a nearest candidate. */
  lemma {:induction false} IndexOfClosest(datasets: seq<string>, c: seq<Candidate>, target: Instant)
    requires ClosestFile(c, target).Some? && ClosestFile(c, target).value in datasets
    ensures var i := IndexOf(datasets, ClosestFile(c, target).value);
            && i < |datasets|
            && (forall j | 0 <= j < i :: datasets[j] != datasets[i])
            && exists k | 0 <= k < |c| ::
                 && c[k].name == datasets[i]
                 && (forall j | 0 <= j < |c| :: Distance(c[k].time, target) <= Distance(c[j].time, target))
                 && (forall j | 0 <= j < k :: Distance(c[j].time, target) > Distance(c[k].time, target))
  {
    ClosestFileIsNearest(c, target);
  }

  /**
    The index is the first position of a kept name whose time is nearest
    the requested `date` (not the shifted hour), the first such in the
    kept order.
  */
  lemma {:induction false} RadarFileIndexIsNearest(datasets: seq<string>, date: Instant)
    requires RadarFileIndex(datasets, date).Ok?
    ensures var i := RadarFileIndex(datasets, date).value;
            var c := HourCandidates(datasets, date).value;
            && i < |datasets|
            && (forall j | 0 <= j < i :: datasets[j] != datasets[i])
            && exists k | 0 <= k < |c| ::
                 && c[k].name == datasets[i]
                 && (forall j | 0 <= j < |c| :: Distance(c[k].time, date) <= Distance(c[j].time, date))
                 && (forall j | 0 <= j < k :: Distance(c[j].time, date) > Distance(c[k].time, date))
  {
    var c := HourCandidates(datasets, date).value;
    assert RadarFileIndex(datasets, date).value == IndexOf(datasets, ClosestFile(c, date).value);
    IndexOfClosest(datasets, c, date);
  }

  /**
    What the lookup returns, case by case: the first position of the closest
    kept name when a name is kept; the parse error of the hour searched;
    and the failure of `np.argmin` when no name is kept.
  */
  lemma {:induction false} RadarFileIndexOutcome(datasets: seq<string>, date: Instant)
    ensures HourFiles(datasets, HourTag(date)).Err? ==>
              HourCandidates(datasets, date) == HourFiles(datasets, HourTag(date))
    ensures var c := HourCandidates(datasets, date);
            c.Ok? && c.value != [] ==>
              && ClosestFile(c.value, date).value in datasets
              && RadarFileIndex(datasets, date) == Ok(IndexOf(datasets, ClosestFile(c.value, date).value))
    ensures var c := HourCandidates(datasets, date);
            c.Err? ==> RadarFileIndex(datasets, date) == Err(c.error)
    ensures HourCandidates(datasets, date) == Ok([]) ==> RadarFileIndex(datasets, date) == Err(EmptyArgMin)
  {
  }

  /** A catalog name containing the requested hour's tag, and no unreadable one, means a name is found. */
  lemma {:induction false} RadarFileIndexFound(datasets: seq<string>, date: Instant)
    requires HourFiles(datasets, HourTag(date)).Ok?
    requires Matching(datasets, HourTag(date)) != []
    ensures RadarFileIndex(datasets, date).Ok?
    ensures HourCandidates(datasets, date) == HourFiles(datasets, HourTag(date))
  {
    FallbackOnlyWhenEmpty(datasets, date);
    CandidatesAreMatchingNames(datasets, HourTag(date));
    RadarFileIndexOutcome(datasets, date);
  }

  /**
    The chosen name contains the requested hour's tag, or else no name
    does and it contains the previous hour's tag.
  */
  lemma {:induction false} RadarFileIndexHour(datasets: seq<string>, date: Instant)
    requires RadarFileIndex(datasets, date).Ok?
    ensures var name := datasets[RadarFileIndex(datasets, date).value];
            || Contains(name, HourTag(date))
            || (&& Matching(datasets, HourTag(date)) == []
                && PrevHour(date).Some?
                && Contains(name, HourTag(PrevHour(date).value)))
  {
    var c := HourCandidates(datasets, date).value;
    var k := FirstMinimum(Distances(TimesOf(c), date));
    var tag := HourTag(date);
    FallbackOnlyWhenEmpty(datasets, date);
    if Matching(datasets, tag) != [] {
      CollectKeeps(HourExtractor(tag), datasets);
      assert HourExtractor(tag)(c[k].name) != NoMatch;
    } else {
      var ptag := HourTag(PrevHour(date).value);
      CollectKeeps(HourExtractor(ptag), datasets);
      assert HourExtractor(ptag)(c[k].name) != NoMatch;
    }
  }

  /**
    `np.argmin` fails on an empty array exactly when neither the requested
    hour nor the hour before has a catalog name containing its tag.
  */
  lemma {:induction false} EmptyArgMinExactly(datasets: seq<string>, date: Instant)
    ensures RadarFileIndex(datasets, date) == Err(EmptyArgMin) <==>
              && Matching(datasets, HourTag(date)) == []
              && PrevHour(date).Some?
              && Matching(datasets, HourTag(PrevHour(date).value)) == []
  {
    var tag := HourTag(date);
    KeptByHour(datasets, tag);
    if Matching(datasets, tag) == [] {
      CollectNothingKept(HourExtractor(tag), datasets);
      if PrevHour(date).Some? {
        var ptag := HourTag(PrevHour(date).value);
        KeptByHour(datasets, ptag);
        if Matching(datasets, ptag) == [] {
          CollectNothingKept(HourExtractor(ptag), datasets);
        } else if HourFiles(datasets, ptag).Ok? {
          CandidatesAreMatchingNames(datasets, ptag);
        }
      }
    } else if HourFiles(datasets, tag).Ok? {
      CandidatesAreMatchingNames(datasets, tag);
    }
  }
}
