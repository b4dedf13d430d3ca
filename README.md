# Choosing the NEXRAD Level II file nearest a requested time

`nexrad-in-the-cloud` holds two scripts that fetch a NEXRAD Level II radar
volume for one station and plot its reflectivity. One reads the public
`noaa-nexrad-level2` S3 bucket. The other reads the UCAR THREDDS catalog.
The only logic in them that is not a library call is choosing the file.
This project models that choice and proves what it promises.

- **AWS script.**
  - It lists the bucket under the prefix `YYYY/MM/DD/STATION/`.
  - It reads the timestamp embedded in each key's basename with the anchored
    pattern `^STATIONdddddddd_dddddd_V06` followed by `strptime`.
  - It keeps the keys that carry one, in listing order.
  - `find_closest_file` takes the first key whose time is nearest the
    requested time.
  - When the day yields no key, it retries once on the previous day.
    Both the prefix and the target move back 24 hours.
  - When that day also yields nothing, it fails.
- **THREDDS script.** `get_radar_file_url` keeps the catalog names that
  contain the hour tag `YYYYMMDD_HH` of the requested time. It reads each
  one's time from the characters `name[-18:-5]` (`YYYYMMDD_HHMM`). When the
  hour keeps no name, it does the same for the previous hour, but it still
  measures distance against the requested time. It takes the first
  `np.argmin` of the distances and returns the first catalog position
  holding that name.

Modules:

| module | file | content |
|---|---|---|
| `Wrappers` | `wrappers.dfy` | `Option`, `Result` |
| `Calendar` | `calendar.dfy` | Python `datetime` as an integer record; validity; day ordinal; microsecond count; `timedelta.max`; minus one day; minus one hour |
| `Strings` | `strings.dfy` | zero-padded decimal fields; `os.path.basename`; `sub in s`; slices with negative bounds |
| `Timestamps` | `timestamps.dfy` | the two name layouts; each has its formatter and parser, with round trips |
| `Resolver` | `resolver.dfy` | the filter loop shared by both scripts (`Collect`, `CollectCandidates`); the first arg-min (`FirstMinimum`); the nearest candidate (`ClosestFile`) |
| `AwsSelect` | `awsselect.dfy` | the day prefix; `find_closest_file`; the one-day retry driver |
| `ThreddsSelect` | `threddsselect.dfy` | `get_radar_file_url` and its properties |

Exceptions become `Err(...)` of `Resolver.Error`:

- `UnparseableTimestamp(name)`: `strptime` raised ValueError on this name.
- `DateOutOfRange`: `date - timedelta(...)` raised OverflowError before year 1.
- `NoRadarFiles`: the AWS driver's own ValueError.
- `EmptyArgMin`: `np.argmin` of an empty array raised ValueError.

Both filter loops are one method, `Resolver.CollectCandidates`. It takes a
parameter `extract`, the parse step that decides whether a name is skipped,
read, or makes `strptime` raise. The AWS script's parse step is
`AwsSelect.ArchiveExtractor(station)`, which applies the key pattern to the
basename. The THREDDS script's is `ThreddsSelect.HourExtractor(tag)`, which checks
the hour tag and then parses the slice. The AWS driver `AwsSelect.SelectAwsFile`
and its lemmas take the parse step as a parameter, with
`extract = ArchiveExtractor(station)` in the script. The lemmas that depend on
the parse step never accepting an empty key assume `AcceptsOnlyNonEmpty(extract)`.
`AwsSelect.ArchiveExtractorNonEmpty` proves that for the script's parse step.

## Model

| member | source | states |
|---|---|---|
| `Timestamps.DatetimeFromFilename` | NEXRAD_Level2_SingleSite_AWS.py:26-36 | The result is "no match" (`None`) exactly when the name fails the pattern anchored at its start. A time that is read has no microseconds. |
| `Timestamps.PatternNameParses` | NEXRAD_Level2_SingleSite_AWS.py:28-33 | A name made of station, 8 digits, `_`, 6 digits, `_V06` and any trailing text is read as its two digit groups. They give a time when they form a valid datetime, and ValueError otherwise. |
| `Timestamps.MatchedNameIsPatternName` | NEXRAD_Level2_SingleSite_AWS.py:28 | Every name the pattern accepts is made of those parts. |
| `Timestamps.FieldsOfFormatted` | NEXRAD_Level2_SingleSite_AWS.py:30-33 | The formatted date and time groups of a valid time are read back as that time. |
| `Timestamps.GroupsOfExtracted` | NEXRAD_Level2_SingleSite_AWS.py:30-33 | Digit groups that are read give a valid time, and they are exactly that time's zero-padded fields. |
| `Timestamps.ArchiveNameRoundTrip` | NEXRAD_Level2_SingleSite_AWS.py:28-34 | Round trip: `STATION` + `YYYYMMDD_HHMMSS` + `_V06` of a whole-second time, followed by anything, is read as that time. |
| `Timestamps.ExtractedNameIsArchiveName` | NEXRAD_Level2_SingleSite_AWS.py:28-34 | Converse round trip: a name is read as time t only if it starts with the formatted name of t. |
| `Timestamps.ParseMinuteStamp` | NEXRAD_Level2_SingleSite_Thredds.py:16 | `strptime(s, '%Y%m%d_%H%M')` never reports "no match": it returns a time or raises. The time has zero seconds and microseconds. The model reads only the 13-character layout `YYYYMMDD_HHMM` of ASCII digits; the shorter forms `strptime` also accepts are under Left out. |
| `Timestamps.SliceTime` | NEXRAD_Level2_SingleSite_Thredds.py:16 | The time of a name of at least 18 characters is the parse of its characters `[-18:-5]`. The model lets a shorter name raise; in Python some of 14 to 17 characters parse (see Left out). |
| `Timestamps.HourTag` | NEXRAD_Level2_SingleSite_Thredds.py:12 | `date.strftime('%Y%m%d_%H')` is 11 characters with `_` after the 8 date digits; line 19 formats the previous hour the same way. |
| `Timestamps.MinuteStampRoundTrip` | NEXRAD_Level2_SingleSite_Thredds.py:16 | Round trip: a formatted `YYYYMMDD_HHMM` stamp is read as the time truncated to the minute. |
| `Timestamps.ParsedStampIsMinuteStamp` | NEXRAD_Level2_SingleSite_Thredds.py:16 | A stamp that is read as t is the formatted stamp of t. |
| `Timestamps.CatalogNameTime` | NEXRAD_Level2_SingleSite_Thredds.py:12-16 | A name `prefix` + `YYYYMMDD_HHMM` + five characters contains its hour tag, and its time is read as its stamp. |
| `Calendar.PrevDay` | NEXRAD_Level2_SingleSite_AWS.py:78 | `date - timedelta(days=1)` fails exactly on 0001-01-01. Otherwise it is a valid date one ordinal earlier, with the same time of day. |
| `Calendar.PrevDayShift` | NEXRAD_Level2_SingleSite_AWS.py:78 | The previous day is exactly 24 hours earlier. |
| `Calendar.PrevHour` | NEXRAD_Level2_SingleSite_Thredds.py:19 | `date - timedelta(hours=1)` fails exactly during the first hour of 0001-01-01. Otherwise it is valid and keeps minutes, seconds and microseconds. |
| `Calendar.PrevHourShift` | NEXRAD_Level2_SingleSite_Thredds.py:19 | The previous hour is exactly one hour earlier. |
| `Calendar.Distance` | NEXRAD_Level2_SingleSite_AWS.py:42 | `abs(file_time - desired_time)` is zero exactly when the two times are the same instant. |
| `Calendar.DistanceBelowTimedeltaMax` | NEXRAD_Level2_SingleSite_AWS.py:39-43 | Any two valid times are less than `timedelta.max` apart, so the first entry always replaces the starting value. |
| `Strings.Basename` | NEXRAD_Level2_SingleSite_AWS.py:69 | `os.path.basename` is a suffix of the path without `/`, and it is preceded by `/` when shorter than the path. |
| `Strings.Contains` | NEXRAD_Level2_SingleSite_Thredds.py:15 | `tag in file`: the empty tag is in every name, and a tag longer than the name is in none; line 21 tests the same way. |
| `Strings.PySlice` | NEXRAD_Level2_SingleSite_Thredds.py:16 | `s[-18:-5]` is the 13 characters ending five before the end, when `s` has at least 18 characters. |
| `Strings.PadInjective` | NEXRAD_Level2_SingleSite_AWS.py:63 | Zero-padded fields of numbers below the width's bound are equal only for equal numbers. |
| `Resolver.Collect` | NEXRAD_Level2_SingleSite_AWS.py:67-72 | The filter loop keeps at most one pair per name. Its only error is a timestamp that does not parse. |
| `Resolver.CollectCandidates` | NEXRAD_Level2_SingleSite_AWS.py:67-72 | The loop's result is `Collect` of the listing; the same loop is lines 81-86 and Thredds lines 14-17 and 20-23. |
| `Resolver.CollectStep` | NEXRAD_Level2_SingleSite_AWS.py:68-72 | One more name: it is skipped, appended with its time, or ends the loop with its error. An error already raised stays. |
| `Resolver.CollectErrorStops` | NEXRAD_Level2_SingleSite_AWS.py:70 | After a name raises, the rest of the listing does not change the outcome. |
| `Resolver.CollectAppend` | NEXRAD_Level2_SingleSite_AWS.py:67-72 | Collecting a listing `a + b` gives `a`'s pairs then `b`'s pairs, and the first error wins. |
| `Resolver.CollectKeeps` | NEXRAD_Level2_SingleSite_AWS.py:67-72 | Each pair holds its name's own time. A name is kept exactly when it is listed and its timestamp is read. |
| `Resolver.CollectInOrder` | NEXRAD_Level2_SingleSite_AWS.py:67-72 | The kept names are exactly the names not skipped, in listing order. |
| `Resolver.CollectListed` | NEXRAD_Level2_SingleSite_Thredds.py:14-17 | Every kept name is in the listing, so `list.index` finds it. |
| `Resolver.CollectNothingKept` | NEXRAD_Level2_SingleSite_Thredds.py:14-18 | A listing in which every name is skipped yields an empty list and no error. |
| `Resolver.CollectFails` | NEXRAD_Level2_SingleSite_AWS.py:70 | The loop fails exactly when some name is recognised but its timestamp does not parse. The error names the first such name. |
| `Resolver.FirstUnparseable` | NEXRAD_Level2_SingleSite_AWS.py:68-70 | The first position whose timestamp does not parse. |
| `Resolver.DistancesAt` | NEXRAD_Level2_SingleSite_Thredds.py:24 | Entry j of `np.abs(np.array(times) - date)` is the distance of time j. |
| `Resolver.FirstMinimum` | NEXRAD_Level2_SingleSite_Thredds.py:24 | `np.argmin` of a non-empty array is a position of that array. |
| `Resolver.FirstMinimumIsFirst` | NEXRAD_Level2_SingleSite_Thredds.py:24 | `np.argmin` picks a smallest value, and no earlier position holds one as small. |
| `Resolver.FirstMinimumStep` | NEXRAD_Level2_SingleSite_AWS.py:43-45 | Scanning one more value moves the minimum only when that value is strictly smaller. |
| `Resolver.FirstMinimumUnique` | NEXRAD_Level2_SingleSite_Thredds.py:24 | The first smallest position is unique. |
| `Resolver.ClosestFile` | NEXRAD_Level2_SingleSite_AWS.py:38-46 | There is no key exactly when the list is empty. |
| `Resolver.ClosestFileIsClosest` | NEXRAD_Level2_SingleSite_AWS.py:41-45 | The key returned names an entry that is the first nearest the target. |
| `Resolver.ClosestFileIsNearest` | NEXRAD_Level2_SingleSite_AWS.py:41-45 | The key returned belongs to an entry that no entry is strictly nearer than. Every entry before it is strictly farther. |
| `AwsSelect.ArchiveExtractorKeeps` | NEXRAD_Level2_SingleSite_AWS.py:69-71 | A key is kept exactly when its basename matches the station's file-name pattern. |
| `AwsSelect.DayPrefix` | NEXRAD_Level2_SingleSite_AWS.py:63 | `f"{date:%Y/%m/%d}/{station}/"` is 12 characters longer than the station code and ends in `/`; line 79 builds the previous day's prefix the same way. |
| `AwsSelect.DayPrefixInjective` | NEXRAD_Level2_SingleSite_AWS.py:63 | Two dates share a prefix only when they share year, month and day. |
| `AwsSelect.DayPrefixShape` | NEXRAD_Level2_SingleSite_AWS.py:63 | The prefix is `YYYY/MM/DD/STATION/`: separators in place, the station in the middle, and the fields reading back as the date. |
| `AwsSelect.FindClosestFile` | NEXRAD_Level2_SingleSite_AWS.py:38-46 | The loop that starts from `timedelta.max` and replaces only on strictly smaller returns the first nearest key, or None for an empty list. |
| `AwsSelect.SelectAwsFile` | NEXRAD_Level2_SingleSite_AWS.py:62-89 | The driver's outcome is `Selection`: day, then at most one retry on the previous day, then failure. |
| `AwsSelect.ArchiveKeysNonEmpty` | NEXRAD_Level2_SingleSite_AWS.py:28 | A key whose basename is read is at least as long as the station code plus the pattern. |
| `AwsSelect.ArchiveExtractorNonEmpty` | NEXRAD_Level2_SingleSite_AWS.py:76 | The script's parse step never accepts the empty key, so `not closest_file_key` cannot see `""`. |
| `AwsSelect.Falsy` | NEXRAD_Level2_SingleSite_AWS.py:76 | `not closest_file_key` is false only for a key that is present and non-empty; line 88 tests the same way. |
| `AwsSelect.ClosestFileFalsy` | NEXRAD_Level2_SingleSite_AWS.py:75-76 | With non-empty keys, `not closest_file_key` holds exactly when no listed key is read. |
| `AwsSelect.SelectionRetryPolicy` | NEXRAD_Level2_SingleSite_AWS.py:74-89 | A selected key is either the requested day's first nearest key, or the previous day's first nearest key to a target exactly 24 hours earlier. The second case happens only when the requested day has none. |
| `AwsSelect.SelectionOutcome` | NEXRAD_Level2_SingleSite_AWS.py:74-89 | For every listing: a requested day with a readable key gives its first nearest key; a parse error on the requested day is raised; an empty 0001-01-01 raises OverflowError; otherwise the previous day's first nearest key is returned, or its parse error raised. |
| `AwsSelect.NoRadarFilesExactly` | NEXRAD_Level2_SingleSite_AWS.py:76-89 | "No radar files found" is raised exactly when the day and the day before both yield no pair without error. |
| `AwsSelect.SelectionReadsTwoPrefixes` | NEXRAD_Level2_SingleSite_AWS.py:63-80 | Only the two listings under the day's prefix and the previous day's prefix decide the outcome. |
| `ThreddsSelect.HourExtractor` | NEXRAD_Level2_SingleSite_Thredds.py:15-16 | A catalog name is looked at exactly when it contains the hour tag. |
| `ThreddsSelect.IndexOf` | NEXRAD_Level2_SingleSite_Thredds.py:24 | `list.index` returns a position holding the name, and no earlier position holds it. |
| `ThreddsSelect.HourCandidates` | NEXRAD_Level2_SingleSite_Thredds.py:12-23 | Every name the arg-min runs over is a catalog name. |
| `ThreddsSelect.GetRadarFileUrl` | NEXRAD_Level2_SingleSite_Thredds.py:11-24 | The method's result is `RadarFileIndex`: both filter loops, the fallback, the arg-min and the lookup. |
| `ThreddsSelect.KeptByHour` | NEXRAD_Level2_SingleSite_Thredds.py:14-15 | The names the hour's parse step does not skip are `[f for f in datasets if tag in f]`. |
| `ThreddsSelect.CandidatesAreMatchingNames` | NEXRAD_Level2_SingleSite_Thredds.py:12-17 | `files` is exactly the catalog names containing the hour tag, in catalog order. |
| `ThreddsSelect.CandidateTimesFromSlice` | NEXRAD_Level2_SingleSite_Thredds.py:16 | Under the model's parse of the slice, each kept name is at least 18 characters long, and its characters `[-18:-5]` are its time's `YYYYMMDD_HHMM`. The time has zero seconds. |
| `ThreddsSelect.FallbackOnlyWhenEmpty` | NEXRAD_Level2_SingleSite_Thredds.py:18-23 | The previous hour is searched exactly when no catalog name contains the requested hour's tag. |
| `ThreddsSelect.IndexOfClosest` | NEXRAD_Level2_SingleSite_Thredds.py:24 | Looking up the first nearest name gives its first position. |
| `ThreddsSelect.RadarFileIndexIsNearest` | NEXRAD_Level2_SingleSite_Thredds.py:19-24 | The index is valid and is the name's first position. The name is the first nearest candidate to the requested `date`, not to the shifted hour. |
| `ThreddsSelect.RadarFileIndexOutcome` | NEXRAD_Level2_SingleSite_Thredds.py:18-24 | For every catalog: kept names give `Ok` of the first position of the first nearest one; a parse error is raised; no kept name makes the arg-min raise. A parse error in the requested hour is raised without the fallback. |
| `ThreddsSelect.RadarFileIndexFound` | NEXRAD_Level2_SingleSite_Thredds.py:14-24 | When a catalog name contains the requested hour's tag and no slice raises, an index is returned, from the requested hour's names alone. |
| `ThreddsSelect.RadarFileIndexHour` | NEXRAD_Level2_SingleSite_Thredds.py:12-23 | The chosen name contains the requested hour's tag. Otherwise no name does, and it contains the previous hour's tag. |
| `ThreddsSelect.EmptyArgMinExactly` | NEXRAD_Level2_SingleSite_Thredds.py:18-24 | The arg-min fails on an empty array exactly when neither hour has a catalog name containing its tag. |

## Left out

- The S3 listing (`list_files`, NEXRAD_Level2_SingleSite_AWS.py:15-24) is network I/O. The listing is the parameter `listFiles`, a function of bucket and prefix giving the keys of all pages in order.
- Downloading, the temporary file, its removal, radar decoding with pyart, the polar-to-map projection and all plotting are network and file I/O, a foreign binary decoder, and floating-point rendering.
- The THREDDS catalog and the OPeNDAP dataset (siphon, xarray) are remote I/O. The catalog's dataset names are the parameter `datasets`.
- `datetime.utcnow()` is a clock. The requested time is the parameter `now` (AWS) or `date` (THREDDS).
- AwsSelect.SelectAwsFile: takes the parse step as a parameter. The script's is `ArchiveExtractor(station)`. The script reads the global `station`, which is a parameter here.
- Timestamps.DatetimeFromFilename: takes the station code as literal text. Regular-expression metacharacters in a station code are not modelled; station codes are four capital letters.
- Timestamps.ParseMinuteStamp: models `strptime(..., '%Y%m%d_%H%M')` on the layout of 8 ASCII digits, `_`, 4 ASCII digits. `strptime` also accepts one-digit month, day, hour and minute fields in strings of 9 to 12 characters (`20240901_12` is 2024-09-01 01:02), a space-padded day, and non-ASCII decimal digits; the model reports ValueError for those. For the AWS layout the pattern admits only ASCII digits, so that parse is exact.
- Timestamps.SliceTime: a name of 14 to 17 characters has `[-18:-5]` equal to its first 9 to 12 characters. Python may parse those with one-digit fields (`["20240901_12.ar2v"]` at 12:30 gives index 0); the model raises ValueError for any name under 18 characters. `ThreddsSelect.CandidateTimesFromSlice`'s length bound holds only for the model's parse.
- AwsSelect.DayPrefix: writes years below 1000 with four digits. On some C libraries, Python's `strftime('%Y')` writes them unpadded.
- Timestamps.HourTag: has the same four-digit year as `AwsSelect.DayPrefix`.
- Datetimes are naive and have no time zone, as in the scripts.
