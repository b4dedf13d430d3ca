/**
  The AWS script's choice of a Level II archive object: list the bucket
  under the day's `YYYY/MM/DD/STATION/` prefix, keep the keys whose basename
  carries a timestamp, take the key nearest the requested time, and when
  the day has none, retry once on the previous day (with the target moved
  back one day as well).
*/
module AwsSelect {
  import opened Wrappers
  import opened Calendar
  import opened Strings
  import opened Timestamps
  import opened Resolver

  const BUCKET_NAME := "noaa-nexrad-level2"

  /** `list_files(bucket, prefix)`: the keys of every listed page, in listing order. */
  type Lister = (string, string) -> seq<string>

  /**
    The parse step of the filter loop: a key is read by the station's
    file-name pattern applied to its basename.
  */
  function ArchiveExtractor(station: string): Extractor
  {
    key => DatetimeFromFilename(station, Basename(key))
  }

  /** A key is kept exactly when its basename matches the station's pattern. */
  lemma {:induction false} ArchiveExtractorKeeps(station: string, key: string)
    ensures ArchiveExtractor(station)(key) != NoMatch <==> MatchesArchivePattern(station, Basename(key))
  {
    var b := Basename(key);
    var r := DatetimeFromFilename(station, b);
    assert r == NoMatch <==> !MatchesArchivePattern(station, b);
    assert ArchiveExtractor(station)(key) == r;
  }

  /** The search prefix `f"{date:%Y/%m/%d}/{station}/"`. */
  function DayPrefix(date: Instant, station: string): (p: string)
    ensures |p| == 12 + |station| && p[|p| - 1] == '/'
  {
    PadDigits(date.year, 4) + "/" + PadDigits(date.month, 2) + "/" + PadDigits(date.day, 2) + "/" + station + "/"
  }

  /** The prefix names the calendar day: two valid dates share a prefix only when they share a day. */
  lemma {:induction false} DayPrefixInjective(d1: Instant, d2: Instant, station: string)
    requires DayPrefix(d1, station) == DayPrefix(d2, station)
    ensures d1.year == d2.year && d1.month == d2.month && d1.day == d2.day
  {
    var p1, p2 := DayPrefix(d1, station), DayPrefix(d2, station);
    assert p1[..4] == PadDigits(d1.year, 4) && p2[..4] == PadDigits(d2.year, 4);
    assert p1[5..7] == PadDigits(d1.month, 2) && p2[5..7] == PadDigits(d2.month, 2);
    assert p1[8..10] == PadDigits(d1.day, 2) && p2[8..10] == PadDigits(d2.day, 2);
    PadInjective(d1.year, d2.year, 4);
    PadInjective(d1.month, d2.month, 2);
    PadInjective(d1.day, d2.day, 2);
  }

  /** The prefix is the day, then the station, each followed by '/'. */
  lemma {:induction false} DayPrefixShape(date: Instant, station: string)
    ensures var p := DayPrefix(date, station);
            && |p| == 12 + |station|
            && p[4] == '/' && p[7] == '/' && p[10] == '/' && p[|p| - 1] == '/'
            && p[11..|p| - 1] == station
            && DigitsValue(p[..4]) == date.year && DigitsValue(p[5..7]) == date.month
            && DigitsValue(p[8..10]) == date.day
  {
    var p := DayPrefix(date, station);
    assert p[..4] == PadDigits(date.year, 4);
    assert p[5..7] == PadDigits(date.month, 2);
    assert p[8..10] == PadDigits(date.day, 2);
    ValueOfPad(date.year, 4);
    ValueOfPad(date.month, 2);
    ValueOfPad(date.day, 2);
  }

  /**
    `find_closest_file`: one pass keeping the smallest difference seen so
    far, starting from `timedelta.max` and replacing it only on a strictly
    smaller difference.
  */
  method FindClosestFile(filesTimes: seq<Candidate>, desiredTime: Instant) returns (closestFile: Option<string>)
    ensures closestFile == ClosestFile(filesTimes, desiredTime)
  {
    ghost var ds := Distances(TimesOf(filesTimes), desiredTime);
    ghost var k := 0;
    var minDiff: nat := TIMEDELTA_MAX;
    closestFile := None;
    var i := 0;
    while i < |filesTimes|
      invariant 0 <= i <= |filesTimes|
      invariant i == 0 ==> closestFile == None && minDiff == TIMEDELTA_MAX
      invariant i > 0 ==> k == FirstMinimum(ds[..i]) && closestFile == Some(filesTimes[k].name) && minDiff == ds[k]
    {
      var key, fileTime := filesTimes[i].name, filesTimes[i].time;
      var diff := Distance(fileTime, desiredTime);
      DistancesAt(TimesOf(filesTimes), desiredTime, i);
      DistanceBelowTimedeltaMax(fileTime, desiredTime);
      FirstMinimumStep(ds, i);
      if diff < minDiff {
        minDiff := diff;
        closestFile := Some(key);
        k := i;
      }
      i := i + 1;
    }
    assert ds[..i] == ds;
  }

  /** `not closest_file_key`: None, or a key that is the empty string. */
  predicate Falsy(key: Option<string>)
    ensures !Falsy(key) ==> key.Some? && |key.value| > 0
  {
    key.None? || key.value == ""
  }

  /** The pairs `(key, file_dt)` of one day's listing, read by `extract`. */
  function DayCandidates(extract: Extractor, station: string, date: Instant, listFiles: Lister): Result<seq<Candidate>, Error> {
    Collect(extract, listFiles(BUCKET_NAME, DayPrefix(date, station)))
  }

  /**
    The key the script downloads when keys are read by `extract`: the
    nearest key of the requested day, or failing that the key of the
    previous day nearest the requested time moved back one day.
  */
  function Selection(extract: Extractor, station: string, date: Instant, listFiles: Lister): Result<string, Error> {
    var first :- DayCandidates(extract, station, date, listFiles);
    var key := ClosestFile(first, date);
    if !Falsy(key) then Ok(key.value)
    else
      match PrevDay(date)
      case None => Err(DateOutOfRange)
      case Some(prev) =>
        var second :- DayCandidates(extract, station, prev, listFiles);
        var key := ClosestFile(second, prev);
        if Falsy(key) then Err(NoRadarFiles) else Ok(key.value)
  }

  /**
    The driver: list the day of `date` and read its keys' timestamps; if no
    key is found, move `date` back one day and do the same again; if still
    none, fail. The script reads keys with `ArchiveExtractor(station)`.
  */
  method SelectAwsFile(extract: Extractor, station: string, now: Instant, listFiles: Lister) returns (r: Result<string, Error>)
    ensures r == Selection(extract, station, now, listFiles)
  {
    var date := now;
    var prefix := DayPrefix(date, station);
    var files := listFiles(BUCKET_NAME, prefix);
    var filesTimes := CollectCandidates(extract, files);
    if filesTimes.Err? {
      return Err(filesTimes.error);
    }
    var closestFileKey := FindClosestFile(filesTimes.value, date);
    if Falsy(closestFileKey) {
      var prev := PrevDay(date);
      if prev.None? {
        return Err(DateOutOfRange);
      }
      date := prev.value;
      prefix := DayPrefix(date, station);
      files := listFiles(BUCKET_NAME, prefix);
      filesTimes := CollectCandidates(extract, files);
      if filesTimes.Err? {
        return Err(filesTimes.error);
      }
      closestFileKey := FindClosestFile(filesTimes.value, date);
      if Falsy(closestFileKey) {
        return Err(NoRadarFiles);
      }
    }
    r := Ok(closestFileKey.value);
  }

  /** Key parsers that accept only non-empty keys. */
  ghost predicate AcceptsOnlyNonEmpty(extract: Extractor) {
    forall key :: extract(key).Extracted? ==> key != ""
  }

  /** Every key the station's pattern accepts is long enough to hold it, so never empty. */
  lemma {:induction false} ArchiveKeysNonEmpty(station: string, key: string)
    requires ArchiveExtractor(station)(key).Extracted?
    ensures |key| >= PATTERN_LENGTH + |station|
  {
    var b := Basename(key);
    assert DatetimeFromFilename(station, b).Extracted?;
    ExtractedNameIsArchiveName(station, b);
  }

  lemma {:induction false} ArchiveExtractorNonEmpty(station: string)
    ensures AcceptsOnlyNonEmpty(ArchiveExtractor(station))
  {
    forall key | ArchiveExtractor(station)(key).Extracted? ensures key != "" {
      ArchiveKeysNonEmpty(station, key);
    }
  }

  /** With non-empty keys, a day yields no key exactly when none of its keys carries a timestamp. */
  lemma {:induction false} ClosestFileFalsy(extract: Extractor, names: seq<string>, target: Instant)
    requires AcceptsOnlyNonEmpty(extract) && Collect(extract, names).Ok?
    ensures Falsy(ClosestFile(Collect(extract, names).value, target)) <==> Collect(extract, names).value == []
    ensures Collect(extract, names).value == [] <==> forall i | 0 <= i < |names| :: !extract(names[i]).Extracted?
  {
    var c := Collect(extract, names).value;
    CollectKeeps(extract, names);
    if |c| > 0 {
      var k := FirstMinimum(Distances(TimesOf(c), target));
      assert c[k].name in NamesOf(c);
      assert c[0].name in NamesOf(c);
    } else {
      forall i | 0 <= i < |names| ensures !extract(names[i]).Extracted? {
        assert names[i] in names;
      }
    }
  }

  /**
    The retry policy: a selected key is either the nearest key of the
    requested day, or, only when that day has none, the key of the previous
    day nearest the requested time moved back one day (24 hours earlier).
  */
  lemma {:induction false} SelectionRetryPolicy(extract: Extractor, station: string, date: Instant, listFiles: Lister)
    requires AcceptsOnlyNonEmpty(extract)
    requires Selection(extract, station, date, listFiles).Ok?
    ensures var key := Selection(extract, station, date, listFiles).value;
            var first := DayCandidates(extract, station, date, listFiles);
            && first.Ok?
            && (|| (first.value != [] && IsClosestKey(first.value, date, key))
                || (&& first.value == []
                    && PrevDay(date).Some?
                    && var prev := PrevDay(date).value;
                       var second := DayCandidates(extract, station, prev, listFiles);
                       && second.Ok? && second.value != []
                       && IsClosestKey(second.value, prev, key)
                       && Micros(prev) == Micros(date) - MICROS_PER_DAY))
  {
    var day0 := listFiles(BUCKET_NAME, DayPrefix(date, station));
    ClosestFileFalsy(extract, day0, date);
    var first := Collect(extract, day0).value;
    if first != [] {
      ClosestFileIsClosest(first, date);
    } else {
      var prev := PrevDay(date).value;
      var day1 := listFiles(BUCKET_NAME, DayPrefix(prev, station));
      ClosestFileFalsy(extract, day1, prev);
      ClosestFileIsClosest(Collect(extract, day1).value, prev);
      PrevDayShift(date);
    }
  }

  /**
    What the driver returns, case by case: the nearest key of the requested
    day when that day has one; the day's parse error when it has one;
    "out of range" when the day is empty and is 0001-01-01; otherwise the
    nearest key of the previous day, or that day's parse error.
  */
  lemma {:induction false} SelectionOutcome(extract: Extractor, station: string, date: Instant, listFiles: Lister)
    requires AcceptsOnlyNonEmpty(extract)
    ensures var first := DayCandidates(extract, station, date, listFiles);
            first.Ok? && first.value != [] ==>
              Selection(extract, station, date, listFiles) == Ok(ClosestFile(first.value, date).value)
    ensures var first := DayCandidates(extract, station, date, listFiles);
            first.Err? ==> Selection(extract, station, date, listFiles) == Err(first.error)
    ensures DayCandidates(extract, station, date, listFiles) == Ok([]) && PrevDay(date).None? ==>
              Selection(extract, station, date, listFiles) == Err(DateOutOfRange)
    ensures DayCandidates(extract, station, date, listFiles) == Ok([]) && PrevDay(date).Some? ==>
              var prev := PrevDay(date).value;
              var second := DayCandidates(extract, station, prev, listFiles);
              && (second.Ok? && second.value != [] ==>
                    Selection(extract, station, date, listFiles) == Ok(ClosestFile(second.value, prev).value))
              && (second.Err? ==> Selection(extract, station, date, listFiles) == Err(second.error))
  {
    var day0 := listFiles(BUCKET_NAME, DayPrefix(date, station));
    var c0 := DayCandidates(extract, station, date, listFiles);
    if c0.Ok? {
      ClosestFileFalsy(extract, day0, date);
      if c0.value == [] && PrevDay(date).Some? {
        var prev := PrevDay(date).value;
        var day1 := listFiles(BUCKET_NAME, DayPrefix(prev, station));
        if DayCandidates(extract, station, prev, listFiles).Ok? {
          ClosestFileFalsy(extract, day1, prev);
        }
      }
    }
  }

  /**
    The script raises "No radar files found" exactly when neither the day
    nor the day before has a key carrying a timestamp, and no timestamp
    fails to parse.
  */
  lemma {:induction false} NoRadarFilesExactly(extract: Extractor, station: string, date: Instant, listFiles: Lister)
    requires AcceptsOnlyNonEmpty(extract)
    ensures Selection(extract, station, date, listFiles) == Err(NoRadarFiles) <==>
              && DayCandidates(extract, station, date, listFiles) == Ok([])
              && PrevDay(date).Some?
              && DayCandidates(extract, station, PrevDay(date).value, listFiles) == Ok([])
  {
    var day0 := listFiles(BUCKET_NAME, DayPrefix(date, station));
    var c0 := DayCandidates(extract, station, date, listFiles);
    if c0.Ok? {
      ClosestFileFalsy(extract, day0, date);
      if PrevDay(date).Some? {
        var prev := PrevDay(date).value;
        var day1 := listFiles(BUCKET_NAME, DayPrefix(prev, station));
        var c1 := DayCandidates(extract, station, prev, listFiles);
        if c1.Ok? {
          ClosestFileFalsy(extract, day1, prev);
        }
      }
    }
  }

  /** Only the listings of the two day prefixes decide the selection. */
  lemma {:induction false} SelectionReadsTwoPrefixes(extract: Extractor, station: string, date: Instant, l1: Lister, l2: Lister)
    requires l1(BUCKET_NAME, DayPrefix(date, station)) == l2(BUCKET_NAME, DayPrefix(date, station))
    requires PrevDay(date).Some? ==>
               l1(BUCKET_NAME, DayPrefix(PrevDay(date).value, station))
               == l2(BUCKET_NAME, DayPrefix(PrevDay(date).value, station))
    ensures Selection(extract, station, date, l1) == Selection(extract, station, date, l2)
  {
  }
}
