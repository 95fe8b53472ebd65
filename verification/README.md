# SSH auth-log brute-force analysis, modelled in Dafny

The analyser turns SSH authentication-log lines into brute-force alerts in
three pure steps, separated in the repository by file and CSV plumbing:

1. **Line parser** (`parse_log_line`, scripts/analyzer.py). Three independent
   regular-expression searches over one line extract a syslog timestamp, the
   token after `rhost=` and the token after `user ` or `user=`; the line is
   also right-trimmed into `raw_line`.
2. **Host filter and time enrichment** (scripts/utils.py).
   `filter_attack_events` keeps the rows whose `rhost` is present and not
   blank, stripping it. `add_time_features` prepends a year to the
   timestamp, parses it strictly as `%Y %b %d %H:%M:%S`, and derives the hour
   and the minute bucket `floor_minutes`.
3. **Window detector** (`detect_bruteforce_windows`, scripts/analysis.py).
   Rows are grouped by (rhost, minute bucket) and the groups counted; the
   groups whose count reaches the threshold (default 5) are reported.

Files:

- `wrappers.dfy` (`Wrappers`): `Option` (Python's `None`) and `Result` (a
  raised error).
- `text.dfy` (`Text`): Python's whitespace set, ASCII digits and word
  characters, `rstrip`/`lstrip`/`strip`, maximal runs, digit values.
- `analyzer.dfy` (`Analyzer`): the three patterns, each as a scanner next to
  a declarative description of a leftmost match, and `parse_log_line`.
- `calendar.dfy` (`Calendar`): proleptic Gregorian date-times as integer
  fields, validity, the instant they denote, the minute floor.
- `utils.dfy` (`Utils`): `filter_attack_events`, the strict timestamp parse,
  its inverse (the way syslog writes a time), and `add_time_features`.
- `analysis.dfy` (`Analysis`): `THRESHOLD`, `detect_bruteforce_windows`,
  and the filter-enrich-detect pipeline.

Every regular expression is given twice: as a predicate saying what a match
is (a leftmost start, a lookbehind literal ending there, a maximal run of
non-whitespace, word boundaries around the date) and as a scanner; the
scanner is proved to return exactly that match, or `None` exactly when there
is none. The strict timestamp parse is given as a `Spells` relation (the text
has the layout and names the date-time) and a parser proved to find the one
date-time spelled, plus a round trip through the syslog rendering of a
date-time. The detector is given as a count function and a map
comprehension, and as the one-pass counting loop, proved equal.

Two behaviours of the code are modelled as written.
`add_time_features` raises `ValueError` on a timestamp that does not match
the format (its docstring, scripts/utils.py:79-81, and the conversion at
scripts/utils.py:86), so one bad row fails the whole call and with it the
detection run of `main`. `detect_bruteforce_windows` does not validate
`threshold` (scripts/analysis.py:34-58), so a threshold of zero or less
reports every group.

## Model

| member | source | states |
|---|---|---|
| Analyzer.ParseLogLine | scripts/analyzer.py:31-55 | Total. `time` is `None` exactly when the date pattern matches nowhere, else the text of the leftmost match, which has the date shape. `rhost`/`user` are `None` exactly when no lookbehind literal ends before a non-whitespace character, else a non-empty, whitespace-free, maximal token at the leftmost such position. `raw_line` is a prefix of the line, does not end in whitespace, and everything dropped is whitespace. Each field's contract refers only to its own pattern. |
| Analyzer.TimeEndAt | scripts/analyzer.py:24 | The date scanner at one position returns an end exactly when the pattern (letters, whitespace run, one or two digits, one whitespace, clock, word boundaries) matches there, and that end. |
| Analyzer.TimeShapeRuns | scripts/analyzer.py:24 | In a date-shaped text the whitespace run and the digit run are maximal, so greedy scanning finds them. |
| Analyzer.TimeMatchUnique | scripts/analyzer.py:24 | At a given start the date pattern matches at most one slice. |
| Analyzer.FindTime | scripts/analyzer.py:42 | The search returns the first position with a date match and its end, or `None` exactly when no position matches. |
| Analyzer.TimeField | scripts/analyzer.py:46 | The time field is `None` exactly when nothing matches, else the leftmost match's text, which has the date shape. |
| Analyzer.TimeTextHasShape | scripts/analyzer.py:46 | The text of a date match has the date shape on its own. |
| Analyzer.LeftmostTimeUnique | scripts/analyzer.py:42 | Only one span is the leftmost date match. |
| Analyzer.TimeFieldIsLeftmost | scripts/analyzer.py:42-46 | Whatever the leftmost date match is, the time field is its text. |
| Analyzer.FindToken | scripts/analyzer.py:43-44 | The lookbehind search returns the first position where a literal ends and a non-whitespace character follows, running to the next whitespace or the end; `None` exactly when there is no such position. |
| Analyzer.TokenField | scripts/analyzer.py:47-48 | A token field is `None` exactly when nothing matches, else a non-empty whitespace-free text of the leftmost match. |
| Analyzer.LeftmostTokenUnique | scripts/analyzer.py:43-44 | Only one span is the leftmost token match. |
| Analyzer.RhostFieldIsLeftmost | scripts/analyzer.py:25 | Whatever the leftmost `(?<=rhost=)\S+` match is, the rhost field is its text. |
| Analyzer.UserFieldIsLeftmost | scripts/analyzer.py:26 | Whatever the leftmost `(?<=user[ ]\|user=)\S+` match is, the user field is its text. |
| Analyzer.UserLookbehindsExclusive | scripts/analyzer.py:26 | The two user lookbehinds never both hold at one position, so the user pattern's precedence is purely leftmost. |
| Analyzer.ExampleLineParses | scripts/analyzer.py:42-54 | A typical sshd failed-password line gives time "Jun 14 15:16:01", rhost "10.0.0.5", user "admin" and itself as raw line. |
| Text.RStrip | scripts/analyzer.py:54 | `rstrip` keeps a prefix, which does not end in whitespace, and drops only whitespace. |
| Text.Strip | scripts/utils.py:51 | `strip` returns a slice that neither starts nor ends in whitespace, with only whitespace around it. |
| Text.StripIdempotent | scripts/utils.py:51 | Stripping twice is stripping once. |
| Text.BlankIffStripsToEmpty | scripts/utils.py:51-54 | A string strips to "" exactly when it is all whitespace. |
| Text.TokenEnd | scripts/analyzer.py:25-26 | `\S+` from a position stops at the first whitespace or the end, consuming no whitespace. |
| Utils.Normalized | scripts/utils.py:51 | Stripping the rhost changes no other field; the stripped rhost is non-empty exactly when the row is attributable, and then has no whitespace at either end. |
| Utils.FilterOne | scripts/utils.py:48-54 | One row yields nothing or one row whose rhost is present, non-empty and trimmed. |
| Utils.FilterAttackEvents | scripts/utils.py:35-56 | The result is no longer than the input and every kept row's rhost is present, non-empty and has no whitespace at either end. |
| Utils.StrippedRhostNonEmpty | scripts/utils.py:51-54 | A row is kept exactly when its rhost is present and its stripped form is not "". |
| Utils.KeptPositionsExact | scripts/utils.py:48-54 | The positions the filter keeps are increasing and are exactly the attributable ones. |
| Utils.FilterKeepsAttributableInOrder | scripts/utils.py:48-54 | The k-th kept row is the k-th attributable row with its rhost stripped and every other field unchanged. |
| Utils.FilterAppend | scripts/utils.py:48-54 | Each row is kept or dropped on its own: filtering distributes over concatenation. |
| Utils.FilterIdempotent | scripts/utils.py:48-54 | Filtering filtered rows changes nothing. |
| Utils.MonthNumber | scripts/utils.py:86 | `%b` reads a month exactly when the text equals one of the twelve English abbreviations ignoring case. |
| Utils.MonthNumberOfAbbreviation | scripts/utils.py:86 | Each abbreviation reads as its own month. |
| Utils.FindCuts | scripts/utils.py:86 | A layout found for a text is a layout of `%b\s+%d\s+%H:%M:%S`. |
| Utils.FindCutsComplete | scripts/utils.py:86 | Any layout the text has is the one found: the layout is unambiguous. |
| Utils.SpellsUnique | scripts/utils.py:86 | A text spells at most one date-time for a year. |
| Utils.ParseStamp | scripts/utils.py:86 | The strict parse returns a valid date-time of the year that the text spells, or `None` when every date-time it spells is invalid (February 30, February 29 of a common year, hour 24, ...). |
| Utils.ParseTimestamp | scripts/utils.py:85-86 | A missing time fails; a present one is stripped and then parsed strictly. |
| Utils.ParseTimestampExact | scripts/utils.py:85-86 | A timestamp parses exactly when its stripped text spells a valid date-time of the year. |
| Utils.ParseSyslogStamp | scripts/utils.py:85-86 | Parsing the way syslog writes a date-time gives that date-time back. |
| Utils.SyslogStampHasTimeShape | scripts/analyzer.py:24 | What syslog writes has the shape the date pattern extracts. |
| Utils.ShapedTimeIsLaidOut | scripts/utils.py:85-86 | Every text the date pattern extracts is already stripped and has the layout the strict parse expects. |
| Utils.ExampleTimestamp | scripts/utils.py:63-65 | "Jun 14 15:16:01" in 2026 is 2026-06-14 15:16:01. |
| Utils.EnrichRow | scripts/utils.py:85-89 | One row gets derived columns exactly when its timestamp parses, and then the columns `EnrichedFrom` describes: the parsed date-time, its hour in 0..23, and the minute floor. |
| Utils.ConvertAll | scripts/utils.py:86 | An all-or-nothing column conversion: success exactly when every element converts, with the values in order; otherwise the first element that does not. |
| Utils.AddTimeFeatures | scripts/utils.py:59-91 | Succeeds exactly when every row's time parses; then one enriched row per input row, in order, the record unchanged, `complete_time` the parsed date-time, `hour` its hour in 0..23, `floor_minutes` valid and a whole minute with `floor_minutes <= complete_time < floor_minutes + 60s`. Otherwise fails naming the first bad row. |
| Utils.EnrichRowDerives | scripts/utils.py:85-89 | One row is enriched exactly when its time parses, with the derived columns. |
| Calendar.FloorMinute | scripts/utils.py:89 | The floor is a valid whole minute no later than the instant and less than a minute before it. |
| Calendar.FloorMinuteRoundsDown | scripts/utils.py:89 | The floor is the instant minus its remainder modulo 60 seconds. |
| Calendar.BeforeIsEarlier | scripts/utils.py:86 | The field order of valid date-times is the order of the instants they denote. |
| Calendar.EpochSecondsInjective | scripts/analysis.py:54 | Distinct valid date-times are distinct instants, so grouping by fields groups by instant. |
| Analysis.KeyOf | scripts/analysis.py:53-54 | A row has a group exactly when its rhost is present (grouping drops missing keys), and the group is its rhost with its minute bucket. |
| Analysis.Count | scripts/analysis.py:53-55 | A group's count never exceeds the number of rows; `CountIsPositions` states it is the number of rows in the group. |
| Analysis.KeysOfCounted | scripts/analysis.py:53-56 | A group occurs exactly when it has at least one row. |
| Analysis.CountIsPositions | scripts/analysis.py:55 | A group's count is the number of rows in it. |
| Analysis.CountAppend | scripts/analysis.py:55 | Counting splits over concatenation. |
| Analysis.SuspiciousWindows | scripts/analysis.py:53-58 | The reported groups are exactly those with rows whose count reaches the threshold, each once, with its count. |
| Analysis.DetectBruteforceWindows | scripts/analysis.py:34-58 | The counting pass reports exactly the groups whose count reaches the threshold, with their counts; it equals `SuspiciousWindows`. |
| Analysis.ThresholdBoundary | scripts/analysis.py:58 | A group of exactly `threshold` rows is reported; one of `threshold - 1` is not. |
| Analysis.ThresholdMonotone | scripts/analysis.py:58 | Raising the threshold keeps a subset of the report, with the same counts. |
| Analysis.CountPermutation | scripts/analysis.py:53-56 | Rearranging the rows does not change any count. |
| Analysis.OrderIndependent | scripts/analysis.py:53-58 | Rearranging the rows does not change the report. |
| Analysis.LowThresholdReportsAll | scripts/analysis.py:53-58 | With a threshold of 1 or less every group is reported and the counts add up to the number of grouped rows. |
| Analysis.OneGroupReport | scripts/analysis.py:53-58 | A burst from one host in one minute is one window with its size when the size reaches the threshold, else nothing. |
| Analysis.DefaultThresholdBursts | scripts/analysis.py:19 | With the default threshold 5, five attempts in one minute are reported and four are not. |
| Analysis.Detect | scripts/analysis.py:72-76 | Every window the filter-enrich-detect run reports has a count of at least 1 and at least the threshold; `DetectReportsStrippedHosts`, `UnattributableIgnored` and `DetectFailsExactly` state what the run reports and when it fails. |
| Analysis.DetectFailsExactly | scripts/utils.py:79-86 | The run fails exactly when some attributable row has a timestamp that does not parse; rows the filter drops never fail it. |
| Analysis.KeptTimesAll | scripts/utils.py:48-54 | A property of the timestamp holds for every kept row exactly when it holds for every attributable input row. |
| Analysis.KeptRowFromInput | scripts/utils.py:48-54 | Every kept row is the stripped form of an attributable input row. |
| Analysis.UntimedHostFailsRun | scripts/analysis.py:73-74 | One row with a host but no timestamp aborts the whole run, wherever it stands. |
| Analysis.DetectReportsStrippedHosts | scripts/analysis.py:72-76 | Every window the pipeline reports names a non-empty trimmed host that is the stripped rhost of an input row. |
| Analysis.UnattributableIgnored | scripts/analysis.py:72-76 | A row without a usable rhost does not change the pipeline's outcome, wherever it stands. |
| Analysis.LineWithoutHostDropped | scripts/utils.py:48 | A line with no rhost match gives a record the filter drops. |

## Left out

- File and CSV plumbing is I/O and is not modelled. This covers
  `parse_log_file`, `write_csv` and `main` in scripts/analyzer.py, with its
  `errors="replace"` decoding; `load_data` in scripts/utils.py; and the CSV
  export and prints of `main` in scripts/analysis.py. `Detect` chains the
  three pure steps the way `main` does.
- scripts/visualizations.py is not part of this model. It is plotting, and
  its grouping repeats the detector's.
- pandas artefacts are not modelled. `read_csv` turns empty cells into NaN,
  and `astype(str)` turns NaN into "nan". Absence is modelled directly as
  `None`. An absent time fails the parse, as "nan" would.
- The row order `groupby` imposes (sorted keys) is not modelled. The report
  is a `map`, each group once.
- `\d` and `\w` are the ASCII digits and word characters. Python's are
  Unicode-wide, as is its `\b`. Whitespace is exactly Python's `str.isspace`
  set, for `\s` and for stripping alike.
- `%b` accepts the twelve English abbreviations in any ASCII letter case.
  Locale month names and Unicode case folding are left out.
- A second of 60 or 61, which `strptime` reads, is rejected. Every
  date-time is required to be valid, with the second in 0..59.
- The 1677-2262 range of pandas' nanosecond timestamps is not modelled.
  Years run over 1..9999.
- The year is an integer parameter rather than the string prepended to the
  time. A year outside 1..9999 makes every parse fail.
- A threshold of zero or less is accepted and reports every group, as the
  code does; rejecting it is left out.
- Utils.ParseTimestamp: its own contract gives only the success direction;
  the failure direction is stated by Utils.ParseTimestampExact.
