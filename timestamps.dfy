/**
  The two timestamp layouts embedded in radar file names, each with its
  formatter and its parser.

  - Archive object keys end in `<STATION>YYYYMMDD_HHMMSS_V06...`; the
    parser is the regular expression `^<STATION>([0-9]{8})_([0-9]{6})_V06`
    (anchored at the start only) followed by `strptime(..., '%Y%m%d%H%M%S')`.
  - Catalog dataset names carry `YYYYMMDD_HHMM` in the 13 characters
    `name[-18:-5]`, read by `strptime(..., '%Y%m%d_%H%M')`; the catalog is
    searched by the hour tag `strftime('%Y%m%d_%H')`.

  `strptime` on a string of this fixed width can only split it into its
  two-digit fields, so it succeeds exactly when those fields form a valid
  `datetime`; otherwise it raises ValueError, modelled as `Unparseable`.
*/
module Timestamps {
  import opened Calendar
  import opened Strings

  /** What a parser makes of a name: no match (`None`), a time, or a ValueError. */
  datatype Extraction = NoMatch | Extracted(time: Instant) | Unparseable

  /** The `datetime` constructor at the end of `strptime` (microseconds are 0). */
  function FromFields(year: int, month: int, day: int, hour: int, minute: int, second: int): Extraction {
    var dt := DateTime(year, month, day, hour, minute, second, 0);
    if dt.Valid() then Extracted(dt) else Unparseable
  }

  /** `dt` with its seconds and microseconds dropped. */
  function TruncateToMinute(dt: DateTime): DateTime {
    dt.(second := 0, microsecond := 0)
  }

  // ---------------------------------------------------------------- archive keys

  /** The characters the key pattern needs after the station code. */
  const PATTERN_LENGTH := 19

  /** `dt.strftime('%Y%m%d')`. */
  function DateDigits(dt: DateTime): string
    requires dt.Valid()
  {
    PadDigits(dt.year, 4) + PadDigits(dt.month, 2) + PadDigits(dt.day, 2)
  }

  /** `dt.strftime('%H%M%S')`. */
  function TimeDigits(dt: DateTime): string
    requires dt.Valid()
  {
    PadDigits(dt.hour, 2) + PadDigits(dt.minute, 2) + PadDigits(dt.second, 2)
  }

  /** `f"{station}{dt:%Y%m%d_%H%M%S}_V06"`. */
  function ArchiveName(station: string, dt: DateTime): string
    requires dt.Valid()
  {
    station + DateDigits(dt) + "_" + TimeDigits(dt) + "_V06"
  }

  /** A name of the shape the pattern accepts, from its parts. */
  function PatternName(station: string, date8: string, time6: string, rest: string): string {
    station + date8 + "_" + time6 + "_V06" + rest
  }

  /** `re.match(r'^<station>([0-9]{8})_([0-9]{6})_V06', name)` succeeds (the station taken literally). */
  predicate MatchesArchivePattern(station: string, name: string) {
    var n := |station|;
    && |name| >= n + PATTERN_LENGTH
    && name[..n] == station
    && AllDigits(name[n..n + 8])
    && name[n + 8] == '_'
    && AllDigits(name[n + 9..n + 15])
    && name[n + 15..n + 19] == "_V06"
  }

  /** The `strptime` step applied to the two digit groups. */
  function FieldsOf(date8: string, time6: string): Extraction
    requires |date8| == 8 && AllDigits(date8) && |time6| == 6 && AllDigits(time6)
  {
    FromFields(DigitsValue(date8[0..4]), DigitsValue(date8[4..6]), DigitsValue(date8[6..8]),
               DigitsValue(time6[0..2]), DigitsValue(time6[2..4]), DigitsValue(time6[4..6]))
  }

  /** `get_datetime_from_filename`, with the station code as a parameter. */
  function DatetimeFromFilename(station: string, filename: string): (r: Extraction)
    ensures r == NoMatch <==> !MatchesArchivePattern(station, filename)
    ensures r.Extracted? ==> r.time.microsecond == 0
  {
    if !MatchesArchivePattern(station, filename) then NoMatch
    else
      var n := |station|;
      FieldsOf(filename[n..n + 8], filename[n + 9..n + 15])
  }

  /** The digit groups of a formatted time read back as its fields. */
  lemma {:induction false} FieldsOfFormatted(dt: DateTime)
    requires dt.Valid() && dt.microsecond == 0
    ensures FieldsOf(DateDigits(dt), TimeDigits(dt)) == Extracted(dt)
  {
    var date8, time6 := DateDigits(dt), TimeDigits(dt);
    assert date8[0..4] == PadDigits(dt.year, 4);
    assert date8[4..6] == PadDigits(dt.month, 2);
    assert date8[6..8] == PadDigits(dt.day, 2);
    assert time6[0..2] == PadDigits(dt.hour, 2);
    assert time6[2..4] == PadDigits(dt.minute, 2);
    assert time6[4..6] == PadDigits(dt.second, 2);
    ValueOfPad(dt.year, 4);
    ValueOfPad(dt.month, 2);
    ValueOfPad(dt.day, 2);
    ValueOfPad(dt.hour, 2);
    ValueOfPad(dt.minute, 2);
    ValueOfPad(dt.second, 2);
  }

  /**
    The pattern matches exactly the names built from the station code, eight
    digits, '_', six digits, "_V06" and any trailing text; the digit groups
    alone then decide between a time and a ValueError.
  */
  lemma {:induction false} PatternNameParses(station: string, date8: string, time6: string, rest: string)
    requires |date8| == 8 && AllDigits(date8) && |time6| == 6 && AllDigits(time6)
    ensures DatetimeFromFilename(station, PatternName(station, date8, time6, rest)) == FieldsOf(date8, time6)
  {
    var name := PatternName(station, date8, time6, rest);
    var n := |station|;
    assert name[..n] == station;
    assert name[n..n + 8] == date8;
    assert name[n + 9..n + 15] == time6;
    assert name[n + 15..n + 19] == "_V06";
  }

  /** Every name the pattern matches is such a name. */
  lemma {:induction false} MatchedNameIsPatternName(station: string, name: string)
    requires DatetimeFromFilename(station, name) != NoMatch
    ensures var n := |station|;
            && |name| >= n + PATTERN_LENGTH
            && name == PatternName(station, name[n..n + 8], name[n + 9..n + 15], name[n + 19..])
  {
    var n := |station|;
    JoinPrefix(name, n, n + 8);
    assert name[n + 8..n + 9] == "_";
    JoinPrefix(name, n + 8, n + 9);
    JoinPrefix(name, n + 9, n + 15);
    JoinPrefix(name, n + 15, n + 19);
    assert name[..n + 19] + name[n + 19..] == name;
  }

  /** Round trip: a formatted key name, with anything after it, parses to its time. */
  lemma {:induction false} ArchiveNameRoundTrip(station: string, dt: DateTime, rest: string)
    requires dt.Valid() && dt.microsecond == 0
    ensures DatetimeFromFilename(station, ArchiveName(station, dt) + rest) == Extracted(dt)
  {
    var date8, time6 := DateDigits(dt), TimeDigits(dt);
    assert ArchiveName(station, dt) + rest == PatternName(station, date8, time6, rest);
    PatternNameParses(station, date8, time6, rest);
    FieldsOfFormatted(dt);
  }

  /** Conversely, a name parses to `dt` only if it starts with the formatted name of `dt`. */
  lemma {:induction false} ExtractedNameIsArchiveName(station: string, name: string)
    requires DatetimeFromFilename(station, name).Extracted?
    ensures var dt := DatetimeFromFilename(station, name).time;
            |ArchiveName(station, dt)| <= |name| && name[..|ArchiveName(station, dt)|] == ArchiveName(station, dt)
  {
    var dt := DatetimeFromFilename(station, name).time;
    var n := |station|;
    var date8, time6 := name[n..n + 8], name[n + 9..n + 15];
    MatchedNameIsPatternName(station, name);
    GroupsOfExtracted(date8, time6);
    assert ArchiveName(station, dt) == station + date8 + "_" + time6 + "_V06";
  }

  /** Digit groups that parse are the formatted fields of the time they parse to. */
  lemma {:induction false} GroupsOfExtracted(date8: string, time6: string)
    requires |date8| == 8 && AllDigits(date8) && |time6| == 6 && AllDigits(time6)
    requires FieldsOf(date8, time6).Extracted?
    ensures var dt := FieldsOf(date8, time6).time;
            dt.Valid() && date8 == DateDigits(dt) && time6 == TimeDigits(dt)
  {
    var dt := FieldsOf(date8, time6).time;
    assert && dt.year == DigitsValue(date8[0..4]) && dt.month == DigitsValue(date8[4..6])
           && dt.day == DigitsValue(date8[6..8]) && dt.hour == DigitsValue(time6[0..2])
           && dt.minute == DigitsValue(time6[2..4]) && dt.second == DigitsValue(time6[4..6]);
    PadOfSplit3(date8, 4, 6);
    PadOfSplit3(time6, 2, 4);
  }

  // ---------------------------------------------------------------- catalog names

  /** `dt.strftime('%Y%m%d_%H')`: the substring an hour's datasets are searched by. */
  function HourTag(dt: DateTime): (tag: string)
    requires dt.Valid()
    ensures |tag| == 11 && tag[8] == '_'
  {
    DateDigits(dt) + "_" + PadDigits(dt.hour, 2)
  }

  /** `dt.strftime('%Y%m%d_%H%M')`: the stamp in a dataset name. */
  function MinuteStamp(dt: DateTime): string
    requires dt.Valid()
  {
    HourTag(dt) + PadDigits(dt.minute, 2)
  }

  /** `datetime.strptime(s, '%Y%m%d_%H%M')` for the fixed-width layout; never `NoMatch`. */
  function ParseMinuteStamp(s: string): (r: Extraction)
    ensures r != NoMatch
    ensures r.Extracted? ==> r.time.second == 0 && r.time.microsecond == 0
  {
    if |s| == 13 && AllDigits(s[..8]) && s[8] == '_' && AllDigits(s[9..]) then
      var date8, hm := s[..8], s[9..];
      FromFields(DigitsValue(date8[0..4]), DigitsValue(date8[4..6]), DigitsValue(date8[6..8]),
                 DigitsValue(hm[0..2]), DigitsValue(hm[2..4]), 0)
    else
      Unparseable
  }

  /** The time of a catalog dataset name: its characters `name[-18:-5]`, parsed. */
  function SliceTime(name: string): (r: Extraction)
    ensures r != NoMatch
    ensures |name| >= 18 ==> r == ParseMinuteStamp(name[|name| - 18..|name| - 5])
    ensures |name| < 18 ==> r == Unparseable
  {
    ParseMinuteStamp(PySlice(name, -18, -5))
  }

  /** Round trip: a formatted stamp parses to the time truncated to the minute. */
  lemma {:induction false} MinuteStampRoundTrip(dt: DateTime)
    requires dt.Valid()
    ensures ParseMinuteStamp(MinuteStamp(dt)) == Extracted(TruncateToMinute(dt))
  {
    var s := MinuteStamp(dt);
    var date8, hm := s[..8], s[9..];
    assert date8 == DateDigits(dt);
    assert date8[0..4] == PadDigits(dt.year, 4);
    assert date8[4..6] == PadDigits(dt.month, 2);
    assert date8[6..8] == PadDigits(dt.day, 2);
    assert hm == PadDigits(dt.hour, 2) + PadDigits(dt.minute, 2);
    assert hm[0..2] == PadDigits(dt.hour, 2);
    assert hm[2..4] == PadDigits(dt.minute, 2);
    ValueOfPad(dt.year, 4);
    ValueOfPad(dt.month, 2);
    ValueOfPad(dt.day, 2);
    ValueOfPad(dt.hour, 2);
    ValueOfPad(dt.minute, 2);
  }

  /** Conversely, a stamp parses to `t` only if it is the formatted stamp of `t`. */
  lemma {:induction false} ParsedStampIsMinuteStamp(s: string)
    requires ParseMinuteStamp(s).Extracted?
    ensures s == MinuteStamp(ParseMinuteStamp(s).time)
  {
    var t := ParseMinuteStamp(s).time;
    var date8, hm := s[..8], s[9..];
    assert && t.year == DigitsValue(date8[0..4]) && t.month == DigitsValue(date8[4..6])
           && t.day == DigitsValue(date8[6..8]) && t.hour == DigitsValue(hm[0..2])
           && t.minute == DigitsValue(hm[2..4]);
    PadOfSplit3(date8, 4, 6);
    PadOfSplit(hm, 2);
    assert date8 == DateDigits(t);
    assert hm == PadDigits(t.hour, 2) + PadDigits(t.minute, 2);
    CutAround(s, 8);
  }

  /**
    A dataset name `prefix + YYYYMMDD_HHMM + five characters` (such as
    ".ar2v") carries its time at `[-18:-5]` and contains its hour tag.
  */
  lemma {:induction false} CatalogNameTime(prefix: string, dt: DateTime, suffix: string)
    requires dt.Valid() && |suffix| == 5
    ensures SliceTime(prefix + MinuteStamp(dt) + suffix) == Extracted(TruncateToMinute(dt))
    ensures Contains(prefix + MinuteStamp(dt) + suffix, HourTag(dt))
  {
    var name := prefix + MinuteStamp(dt) + suffix;
    assert name[|name| - 18..|name| - 5] == MinuteStamp(dt);
    MinuteStampRoundTrip(dt);
    assert OccursAt(name, HourTag(dt), |prefix|) by {
      assert name[|prefix|..|prefix| + |HourTag(dt)|] == HourTag(dt);
    }
  }
}
