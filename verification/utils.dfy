/** The shared helpers of scripts/utils.py: the host filter applied before
    detection, and the time enrichment that turns a year-less syslog
    timestamp into a date-time, its hour and its minute bucket. */
module Utils {
  import opened Wrappers
  import opened Text
  import opened Calendar
  import opened Analyzer

  // ---------------------------------------------------------------------
  // filter_attack_events
  // ---------------------------------------------------------------------

  /** A row can be attributed to an external source: its rhost is present
      and holds a character that is not whitespace, so that stripping it
      leaves a non-empty string (`StrippedRhostNonEmpty`). */
  predicate Attributable(x: LogRecord) {
    x.rhost.Some? && !AllSpace(x.rhost.value)
  }

  /** A row is attributable exactly when its rhost is present and its
      stripped form is not the empty string. */
  lemma StrippedRhostNonEmpty(x: LogRecord)
    ensures Attributable(x) <==> x.rhost.Some? && Strip(x.rhost.value) != []
  {
    if x.rhost.Some? {
      BlankIffStripsToEmpty(x.rhost.value);
    }
  }

  /** The row with its rhost stripped: every other field is unchanged, and
      the rhost stays non-empty exactly when the row is attributable, and
      then has no whitespace at either end. */
  function Normalized(x: LogRecord): (y: LogRecord)
    requires x.rhost.Some?
    ensures y.time == x.time && y.user == x.user && y.rawLine == x.rawLine
    ensures y.rhost.Some? && (|y.rhost.value| > 0 <==> Attributable(x))
    ensures |y.rhost.value| > 0 ==> !IsSpace(y.rhost.value[0]) && !IsSpace(y.rhost.value[|y.rhost.value| - 1])
  {
    BlankIffStripsToEmpty(x.rhost.value);
    x.(rhost := Some(Strip(x.rhost.value)))
  }

  /** The rhost is present, non-empty and has no whitespace at either
      end. */
  predicate HostTrimmed(y: LogRecord) {
    y.rhost.Some? && |y.rhost.value| > 0
    && !IsSpace(y.rhost.value[0]) && !IsSpace(y.rhost.value[|y.rhost.value| - 1])
  }

  /** What the filter makes of a single row: nothing, or the row with its
      rhost stripped. */
  function FilterOne(x: LogRecord): (r: seq<LogRecord>)
    ensures |r| <= 1
    ensures |r| == 1 ==> HostTrimmed(r[0])
  {
    if Attributable(x) then
      StrippedRhostNonEmpty(x);
      [Normalized(x)]
    else []
  }

  /** `filter_attack_events`: drop rows without an rhost, strip the rhost
      of the others, then drop those whose rhost became empty. */
  function FilterAttackEvents(rows: seq<LogRecord>): (r: seq<LogRecord>)
    ensures |r| <= |rows|
    ensures forall k :: 0 <= k < |r| ==> HostTrimmed(r[k])
  {
    if |rows| == 0 then []
    else
      var p := FilterAttackEvents(rows[..|rows| - 1]);
      var q := FilterOne(rows[|rows| - 1]);
      assert forall k :: 0 <= k < |p| ==> (p + q)[k] == p[k];
      assert forall k :: |p| <= k < |p + q| ==> (p + q)[k] == q[k - |p|];
      p + q
  }

  /** The positions of the attributable rows. */
  function KeptPositions(rows: seq<LogRecord>): seq<nat> {
    if |rows| == 0 then []
    else
      KeptPositions(rows[..|rows| - 1])
        + (if Attributable(rows[|rows| - 1]) then [|rows| - 1] else [])
  }

  /** `ps` lists, in increasing order, exactly the positions of the
      attributable rows of `rows`. */
  predicate ListsAttributable(rows: seq<LogRecord>, ps: seq<nat>) {
    && (forall k :: 0 <= k < |ps| ==> ps[k] < |rows| && Attributable(rows[ps[k]]))
    && (forall k, l :: 0 <= k < l < |ps| ==> ps[k] < ps[l])
    && (forall i :: 0 <= i < |rows| && Attributable(rows[i]) ==> i in ps)
  }

  lemma {:induction false} KeptPositionsExact(rows: seq<LogRecord>)
    ensures ListsAttributable(rows, KeptPositions(rows))
  {
    KeptPositionsSound(rows);
    KeptPositionsIncreasing(rows);
    KeptPositionsComplete(rows);
  }

  lemma {:induction false} KeptPositionsSound(rows: seq<LogRecord>)
    ensures forall k :: 0 <= k < |KeptPositions(rows)| ==>
      KeptPositions(rows)[k] < |rows| && Attributable(rows[KeptPositions(rows)[k]])
  {
    if |rows| > 0 {
      var n := |rows| - 1;
      var p := rows[..n];
      KeptPositionsSound(p);
      var ps := KeptPositions(p);
      var all := ps + (if Attributable(rows[n]) then [n] else []);
      assert KeptPositions(rows) == all;
      forall k | 0 <= k < |all| ensures all[k] < |rows| && Attributable(rows[all[k]]) {
        if k < |ps| {
          assert all[k] == ps[k];
          assert p[ps[k]] == rows[ps[k]];
        }
      }
    }
  }

  lemma {:induction false} KeptPositionsIncreasing(rows: seq<LogRecord>)
    ensures forall k :: 0 <= k < |KeptPositions(rows)| ==> KeptPositions(rows)[k] < |rows|
    ensures forall k, l :: 0 <= k < l < |KeptPositions(rows)| ==> KeptPositions(rows)[k] < KeptPositions(rows)[l]
  {
    if |rows| > 0 {
      var n := |rows| - 1;
      var p := rows[..n];
      KeptPositionsIncreasing(p);
      var ps := KeptPositions(p);
      var all := ps + (if Attributable(rows[n]) then [n] else []);
      assert KeptPositions(rows) == all;
      forall k | 0 <= k < |all| ensures all[k] < |rows| {
        if k < |ps| {
          assert all[k] == ps[k];
        }
      }
      forall k, l | 0 <= k < l < |all| ensures all[k] < all[l] {
        assert all[k] == ps[k];
        if l < |ps| {
          assert all[l] == ps[l];
        }
      }
    }
  }

  lemma {:induction false} KeptPositionsComplete(rows: seq<LogRecord>)
    ensures forall i :: 0 <= i < |rows| && Attributable(rows[i]) ==> i in KeptPositions(rows)
  {
    if |rows| > 0 {
      var n := |rows| - 1;
      var p := rows[..n];
      KeptPositionsComplete(p);
      var ps := KeptPositions(p);
      var all := ps + (if Attributable(rows[n]) then [n] else []);
      assert KeptPositions(rows) == all;
      forall i | 0 <= i < |rows| && Attributable(rows[i]) ensures i in all {
        if i < n {
          assert p[i] == rows[i];
          assert i in ps;
        }
      }
    }
  }

  /** The filter keeps exactly the attributable rows, in their original
      order, each with its rhost stripped and every other field unchanged:
      entry `k` of the result is the row at the `k`-th attributable
      position (`KeptPositionsExact`), normalized. */
  lemma {:induction false} FilterKeepsAttributableInOrder(rows: seq<LogRecord>)
    ensures |FilterAttackEvents(rows)| == |KeptPositions(rows)|
    ensures forall k :: 0 <= k < |KeptPositions(rows)| ==>
      KeptPositions(rows)[k] < |rows| && Attributable(rows[KeptPositions(rows)[k]])
      && FilterAttackEvents(rows)[k] == Normalized(rows[KeptPositions(rows)[k]])
  {
    if |rows| > 0 {
      var n := |rows| - 1;
      var p := rows[..n];
      FilterKeepsAttributableInOrder(p);
      var ps := KeptPositions(p);
      var fs := FilterAttackEvents(p);
      var x := rows[n];
      var all := ps + (if Attributable(x) then [n] else []);
      var kept := fs + FilterOne(x);
      assert KeptPositions(rows) == all;
      assert FilterAttackEvents(rows) == kept;
      forall k | 0 <= k < |ps|
        ensures all[k] < |rows| && Attributable(rows[all[k]]) && kept[k] == Normalized(rows[all[k]])
      {
          assert all[k] == ps[k] && kept[k] == fs[k];
          assert p[ps[k]] == rows[ps[k]];
      }
      assert forall k :: |ps| <= k < |all| ==> all[k] == n && kept[k] == Normalized(x);
    }
  }

  /** Filtering distributes over concatenation: each row is kept or dropped
      on its own. */
  lemma {:induction false} FilterAppend(a: seq<LogRecord>, b: seq<LogRecord>)
    ensures FilterAttackEvents(a + b) == FilterAttackEvents(a) + FilterAttackEvents(b)
    decreases |b|
  {
    if |b| == 0 {
      assert a + b == a;
    } else {
      var b' := b[..|b| - 1];
      var x := b[|b| - 1];
      assert (a + b)[..|a + b| - 1] == a + b';
      assert (a + b)[|a + b| - 1] == x;
      FilterAppend(a, b');
      var fa, fb', o := FilterAttackEvents(a), FilterAttackEvents(b'), FilterOne(x);
      assert FilterAttackEvents(a + b) == fa + fb' + o;
      assert FilterAttackEvents(b) == fb' + o;
      assert fa + fb' + o == fa + (fb' + o);
    }
  }

  /** The filter of a single row. */
  lemma FilterSingle(x: LogRecord)
    ensures FilterAttackEvents([x]) == FilterOne(x)
  {
    assert [x][..0] == [];
  }

  /** Filtering an already filtered sequence changes nothing. */
  lemma {:induction false} FilterIdempotent(rows: seq<LogRecord>)
    ensures FilterAttackEvents(FilterAttackEvents(rows)) == FilterAttackEvents(rows)
  {
    if |rows| > 0 {
      var p := rows[..|rows| - 1];
      var x := rows[|rows| - 1];
      var fp := FilterAttackEvents(p);
      FilterIdempotent(p);
      assert FilterAttackEvents(rows) == fp + FilterOne(x);
      FilterAppend(fp, FilterOne(x));
      if Attributable(x) {
        var y := Normalized(x);
        StripIdempotent(x.rhost.value);
        StrippedRhostNonEmpty(x);
        StrippedRhostNonEmpty(y);
        assert Normalized(y) == y;
        FilterSingle(y);
      } else {
        assert FilterAttackEvents([]) == [];
      }
    }
  }

  // ---------------------------------------------------------------------
  // Strict parse of "%Y %b %d %H:%M:%S"
  // ---------------------------------------------------------------------

  /** The English month abbreviations `%b` accepts (in any letter case). */
  const MonthAbbreviations: seq<string> :=
    ["Jan", "Feb", "Mar", "Apr", "May", "Jun", "Jul", "Aug", "Sep", "Oct", "Nov", "Dec"]

  function LowerAscii(c: char): char {
    if IsUpper(c) then (c as int + 32) as char else c
  }

  /** `a` and `b` are equal ignoring the case of ASCII letters. */
  predicate SameIgnoringCase(a: string, b: string) {
    |a| == |b| && forall j :: 0 <= j < |a| ==> LowerAscii(a[j]) == LowerAscii(b[j])
  }

  /** The month whose abbreviation, ignoring case, is `name`, searching
      from month `m`. */
  function MonthFrom(name: string, m: int): (r: Option<int>)
    requires 1 <= m <= 13
    ensures r.Some? ==> m <= r.value <= 12 && SameIgnoringCase(name, MonthAbbreviations[r.value - 1])
    ensures r.None? ==> forall j :: m - 1 <= j < 12 ==> !SameIgnoringCase(name, MonthAbbreviations[j])
    decreases 13 - m
  {
    if m == 13 then None
    else if SameIgnoringCase(name, MonthAbbreviations[m - 1]) then Some(m)
    else MonthFrom(name, m + 1)
  }

  /** `%b`: the month number of an abbreviation. */
  function MonthNumber(name: string): (r: Option<int>)
    ensures r.Some? ==> 1 <= r.value <= 12 && SameIgnoringCase(name, MonthAbbreviations[r.value - 1])
    ensures r.None? ==> forall j :: 0 <= j < 12 ==> !SameIgnoringCase(name, MonthAbbreviations[j])
  {
    MonthFrom(name, 1)
  }

  /** A numeric field of one or two ASCII digits spanning `t[i..j]`. */
  predicate NumberField(t: string, i: int, j: int) {
    0 <= i < j <= i + 2 && DigitIn(t, i, j)
  }

  /** Where the fields of a stripped timestamp text lie: the month is
      `t[..3]`, then whitespace up to `dayStart`, the day up to `dayEnd`,
      whitespace up to `hourStart`, the hour up to `hourEnd`, ':', the minute
      up to `minuteEnd`, ':', and the second up to the end of the text. */
  datatype Cuts = Cuts(dayStart: nat, dayEnd: nat, hourStart: nat, hourEnd: nat, minuteEnd: nat)

  /** `t` has the layout `%b\s+%d\s+%H:%M:%S` with the cuts `k`. (The
      regular expression strptime builds turns each space of the format into
      `\s+`; each numeric directive takes one or two digits.) */
  predicate LaidOut(t: string, k: Cuts) {
    && 3 < k.dayStart
    && NumberField(t, k.dayStart, k.dayEnd)
    && k.dayEnd < k.hourStart
    && NumberField(t, k.hourStart, k.hourEnd)
    && k.hourEnd < |t| && t[k.hourEnd] == ':'
    && NumberField(t, k.hourEnd + 1, k.minuteEnd)
    && k.minuteEnd < |t| && t[k.minuteEnd] == ':'
    && NumberField(t, k.minuteEnd + 1, |t|)
    && SpaceIn(t, 3, k.dayStart)
    && SpaceIn(t, k.dayEnd, k.hourStart)
  }

  /** The date-time the fields of `t` denote, with the given year. */
  function FieldsAt(year: int, t: string, k: Cuts, month: int): DateTime
    requires LaidOut(t, k)
  {
    DateTime(year, month,
             NumberIn(t, k.dayStart, k.dayEnd),
             NumberIn(t, k.hourStart, k.hourEnd),
             NumberIn(t, k.hourEnd + 1, k.minuteEnd),
             NumberIn(t, k.minuteEnd + 1, |t|))
  }

  /** `t` spells the date-time `dt` of year `year`: it is laid out as
      `%b\s+%d\s+%H:%M:%S`, its month abbreviation names `dt.month`, and its
      numbers are `dt`'s day, hour, minute and second. */
  ghost predicate Spells(t: string, year: int, dt: DateTime) {
    exists k :: && LaidOut(t, k)
                && MonthNumber(t[..3]) == Some(dt.month)
                && dt == FieldsAt(year, t, k, dt.month)
  }

  /** The layout is unambiguous: each cut is where a maximal run of spaces
      or digits stops. */
  lemma LaidOutRuns(t: string, k: Cuts)
    requires LaidOut(t, k)
    ensures SpaceRunEnd(t, 3) == k.dayStart
    ensures DigitRunEnd(t, k.dayStart) == k.dayEnd
    ensures SpaceRunEnd(t, k.dayEnd) == k.hourStart
    ensures DigitRunEnd(t, k.hourStart) == k.hourEnd
    ensures DigitRunEnd(t, k.hourEnd + 1) == k.minuteEnd
    ensures DigitRunEnd(t, k.minuteEnd + 1) == |t|
  {
    LaidOutDateRuns(t, k);
    LaidOutClockRuns(t, k);
  }

  lemma LaidOutDateRuns(t: string, k: Cuts)
    requires LaidOut(t, k)
    ensures SpaceRunEnd(t, 3) == k.dayStart
    ensures DigitRunEnd(t, k.dayStart) == k.dayEnd
    ensures SpaceRunEnd(t, k.dayEnd) == k.hourStart
  {
    DateRuns(t, k.dayStart, k.dayEnd, k.hourStart, k.hourEnd);
  }

  lemma LaidOutClockRuns(t: string, k: Cuts)
    requires LaidOut(t, k)
    ensures DigitRunEnd(t, k.hourStart) == k.hourEnd
    ensures DigitRunEnd(t, k.hourEnd + 1) == k.minuteEnd
    ensures DigitRunEnd(t, k.minuteEnd + 1) == |t|
  {
    ClockRuns(t, k.hourStart, k.hourEnd, k.minuteEnd);
  }

  /** The runs of `%b\s+%d\s+%H`. */
  lemma DateRuns(t: string, ds: nat, de: nat, hs: nat, he: nat)
    requires 3 < ds < de < hs < he <= |t|
    requires SpaceIn(t, 3, ds) && DigitIn(t, ds, de) && SpaceIn(t, de, hs) && DigitIn(t, hs, he)
    ensures SpaceRunEnd(t, 3) == ds && DigitRunEnd(t, ds) == de && SpaceRunEnd(t, de) == hs
  {
    SpaceThenDigits(t, 3, ds, de);
    DigitsThenSpace(t, ds, de, hs);
    SpaceThenDigits(t, de, hs, he);
  }

  /** The runs of `%H:%M:%S`. */
  lemma ClockRuns(t: string, hs: nat, he: nat, me: nat)
    requires hs <= he < me < |t| && t[he] == ':' && t[me] == ':'
    requires DigitIn(t, hs, he) && DigitIn(t, he + 1, me) && DigitIn(t, me + 1, |t|)
    ensures DigitRunEnd(t, hs) == he && DigitRunEnd(t, he + 1) == me && DigitRunEnd(t, me + 1) == |t|
  {
    DigitRunEndUnique(t, hs, he);
    DigitRunEndUnique(t, he + 1, me);
    DigitRunEndUnique(t, me + 1, |t|);
  }

  /** A whitespace run `t[i..j]` followed by a digit run `t[j..e]` ends at
      `j`. */
  lemma SpaceThenDigits(t: string, i: nat, j: nat, e: nat)
    requires i <= j < e <= |t| && SpaceIn(t, i, j) && DigitIn(t, j, e)
    ensures SpaceRunEnd(t, i) == j
  {
    SpaceRunEndUnique(t, i, j);
  }

  /** A digit run `t[i..j]` followed by a whitespace run `t[j..e]` ends at
      `j`. */
  lemma DigitsThenSpace(t: string, i: nat, j: nat, e: nat)
    requires i <= j < e <= |t| && DigitIn(t, i, j) && SpaceIn(t, j, e)
    ensures DigitRunEnd(t, i) == j
  {
    DigitRunEndUnique(t, i, j);
  }

  /** The cuts of `t`, if it has the layout: found by following the maximal
      runs of spaces and digits. */
  function FindCuts(t: string): (r: Option<Cuts>)
    ensures r.Some? ==> LaidOut(t, r.value)
  {
    if |t| < 3 then None
    else
      var ds := SpaceRunEnd(t, 3);
      var de := DigitRunEnd(t, ds);
      var hs := SpaceRunEnd(t, de);
      var he := DigitRunEnd(t, hs);
      if he < |t| then
        var k := Cuts(ds, de, hs, he, DigitRunEnd(t, he + 1));
        if LaidOut(t, k) then Some(k) else None
      else None
  }

  /** `FindCuts` finds every layout there is. */
  lemma FindCutsComplete(t: string, k: Cuts)
    requires LaidOut(t, k)
    ensures FindCuts(t) == Some(k)
  {
    LaidOutRuns(t, k);
  }

  /** No two month abbreviations are equal ignoring case. */
  lemma AbbreviationsDistinct()
    ensures forall i, j :: 0 <= i < j < 12 ==> !SameIgnoringCase(MonthAbbreviations[i], MonthAbbreviations[j])
  {
    forall i, j | 0 <= i < j < 12 ensures !SameIgnoringCase(MonthAbbreviations[i], MonthAbbreviations[j]) {
      var a, b := MonthAbbreviations[i], MonthAbbreviations[j];
      assert LowerAscii(a[0]) != LowerAscii(b[0]) || LowerAscii(a[1]) != LowerAscii(b[1]) || LowerAscii(a[2]) != LowerAscii(b[2]);
    }
  }

  /** `MonthFrom` returns the first month from `j` whose abbreviation
      matches. */
  lemma {:induction false} MonthFromFinds(name: string, j: int, m: int)
    requires 1 <= j <= m <= 12
    requires SameIgnoringCase(name, MonthAbbreviations[m - 1])
    requires forall i :: j - 1 <= i < m - 1 ==> !SameIgnoringCase(name, MonthAbbreviations[i])
    ensures MonthFrom(name, j) == Some(m)
    decreases m - j
  {
    if j < m {
      MonthFromFinds(name, j + 1, m);
    }
  }

  /** A month abbreviation names its own month. */
  lemma MonthNumberOfAbbreviation(m: int)
    requires 1 <= m <= 12
    ensures MonthNumber(MonthAbbreviations[m - 1]) == Some(m)
  {
    AbbreviationsDistinct();
    MonthFromFinds(MonthAbbreviations[m - 1], 1, m);
  }

  /** Two texts of the layout spell at most one date-time for a year. */
  lemma SpellsUnique(t: string, year: int, dt1: DateTime, dt2: DateTime)
    requires Spells(t, year, dt1) && Spells(t, year, dt2)
    ensures dt1 == dt2
  {
    var k1 :| LaidOut(t, k1) && MonthNumber(t[..3]) == Some(dt1.month) && dt1 == FieldsAt(year, t, k1, dt1.month);
    var k2 :| LaidOut(t, k2) && MonthNumber(t[..3]) == Some(dt2.month) && dt2 == FieldsAt(year, t, k2, dt2.month);
    FindCutsComplete(t, k1);
    FindCutsComplete(t, k2);
  }

  /** The parse of a stripped timestamp text `t` under
      `format="%Y %b %d %H:%M:%S"`, the year already prepended: the text
      must have the layout, name a month, and denote an existing second. */
  function ParseStamp(year: int, t: string): (r: Option<DateTime>)
    ensures r.Some? ==> Valid(r.value) && r.value.year == year && Spells(t, year, r.value)
    ensures r.None? ==> forall dt :: Spells(t, year, dt) ==> !Valid(dt)
  {
    match FindCuts(t)
    case None => SpellingIsFound(t, year); None
    case Some(k) =>
      match MonthNumber(t[..3])
      case None => SpellingIsFound(t, year); None
      case Some(m) =>
        var dt := FieldsAt(year, t, k, m);
        if Valid(dt) then Some(dt) else SpellingIsFound(t, year); None
  }

  /** Whatever `t` spells is what the cuts `FindCuts` follows and the month
      `MonthNumber` reads give. */
  lemma SpellingIsFound(t: string, year: int)
    ensures forall dt :: Spells(t, year, dt) ==>
      && FindCuts(t).Some? && MonthNumber(t[..3]) == Some(dt.month)
      && dt == FieldsAt(year, t, FindCuts(t).value, dt.month)
  {
    forall dt | Spells(t, year, dt)
      ensures FindCuts(t).Some? && MonthNumber(t[..3]) == Some(dt.month)
      ensures dt == FieldsAt(year, t, FindCuts(t).value, dt.month)
    {
      var k :| LaidOut(t, k) && MonthNumber(t[..3]) == Some(dt.month) && dt == FieldsAt(year, t, k, dt.month);
      FindCutsComplete(t, k);
    }
  }

  /** The `complete_time` of one row: `year + " " + str(time).strip()`
      parsed with `%Y %b %d %H:%M:%S`. A missing time does not parse. */
  function ParseTimestamp(year: int, time: Option<string>): (r: Option<DateTime>)
    ensures r.Some? ==> time.Some? && Valid(r.value) && r.value.year == year && Spells(Strip(time.value), year, r.value)
  {
    if time.None? then None else ParseStamp(year, Strip(time.value))
  }

  /** A timestamp parses exactly when its stripped text spells an existing
      second of the year. */
  lemma ParseTimestampExact(year: int, time: Option<string>)
    ensures ParseTimestamp(year, time).Some? <==>
      time.Some? && exists dt :: Spells(Strip(time.value), year, dt) && Valid(dt)
  {
    if time.Some? && ParseTimestamp(year, time).Some? {
      var dt := ParseTimestamp(year, time).value;
      assert Spells(Strip(time.value), year, dt) && Valid(dt);
    }
  }

  // ---------------------------------------------------------------------
  // The syslog rendering of a date-time (the inverse of the parse)
  // ---------------------------------------------------------------------

  function Digit(n: int): (c: char)
    requires 0 <= n <= 9
    ensures IsDigit(c) && c as int - '0' as int == n
  {
    ('0' as int + n) as char
  }

  /** `n` as two digits, zero-padded. */
  function TwoDigits(n: int): (s: string)
    requires 0 <= n <= 99
    ensures |s| == 2 && DigitIn(s, 0, 2) && NumberIn(s, 0, 2) == n
  {
    [Digit(n / 10), Digit(n % 10)]
  }

  /** A day of the month the way syslog writes it: padded with a space to
      two characters. */
  function DayText(d: int): (s: string)
    requires 1 <= d <= 31
    ensures |s| == 2 && IsDigit(s[1]) && (IsDigit(s[0]) || s[0] == ' ')
  {
    if d < 10 then [' ', Digit(d)] else TwoDigits(d)
  }

  /** How syslog writes the time of an entry, "Jun  4 15:16:01": the month
      abbreviation, the space-padded day and the zero-padded clock. The
      year is not written. */
  function SyslogStamp(dt: DateTime): (s: string)
    requires Valid(dt)
    ensures |s| == 15
  {
    MonthAbbreviations[dt.month - 1] + " " + DayText(dt.day) + " "
      + TwoDigits(dt.hour) + ":" + TwoDigits(dt.minute) + ":" + TwoDigits(dt.second)
  }

  /** The cuts of a syslog stamp. */
  lemma SyslogStampLaidOut(dt: DateTime) returns (k: Cuts)
    requires Valid(dt)
    ensures LaidOut(SyslogStamp(dt), k)
    ensures SyslogStamp(dt)[..3] == MonthAbbreviations[dt.month - 1]
    ensures FieldsAt(dt.year, SyslogStamp(dt), k, dt.month) == dt
  {
    var t := SyslogStamp(dt);
    var dd := DayText(dt.day);
    var ds := if dt.day < 10 then 5 else 4;
    k := Cuts(ds, 6, 7, 9, 12);
    assert t[..3] == MonthAbbreviations[dt.month - 1];
    assert t[3] == ' ' && t[4] == dd[0] && t[5] == dd[1] && t[6] == ' ';
    assert t[7..9] == TwoDigits(dt.hour);
    NumberInEqual(TwoDigits(dt.hour), 0, t, 7, 2);
    assert t[9] == ':';
    assert t[10..12] == TwoDigits(dt.minute);
    NumberInEqual(TwoDigits(dt.minute), 0, t, 10, 2);
    assert t[12] == ':';
    assert t[13..] == TwoDigits(dt.second);
    NumberInEqual(TwoDigits(dt.second), 0, t, 13, 2);
    if dt.day >= 10 {
      NumberInEqual(dd, 0, t, 4, 2);
    }
  }

  /** Parsing what syslog writes gives back the date-time, for the year
      it is given. */
  lemma ParseSyslogStamp(dt: DateTime)
    requires Valid(dt)
    ensures ParseTimestamp(dt.year, Some(SyslogStamp(dt))) == Some(dt)
  {
    var t := SyslogStamp(dt);
    var k := SyslogStampLaidOut(dt);
    StripUnchanged(t);
    FindCutsComplete(t, k);
    MonthNumberOfAbbreviation(dt.month);
  }

  /** A syslog stamp is what the line parser's date pattern extracts: the
      two stages agree on the timestamp's shape. */
  lemma SyslogStampHasTimeShape(dt: DateTime)
    requires Valid(dt)
    ensures TimeShape(SyslogStamp(dt))
  {
    var t := SyslogStamp(dt);
    var k := SyslogStampLaidOut(dt);
    var a := MonthAbbreviations[dt.month - 1];
    assert IsUpper(a[0]) && IsLower(a[1]) && IsLower(a[2]);
    assert t[..3] == a;
    assert TimeShapeAt(t, 0, k.dayStart - 3, 6 - k.dayStart);
  }

  /** Every time text the line parser can extract has the layout the
      timestamp parse expects, and stripping leaves it as it is; whether it
      parses then depends only on its month name and its numbers. */
  lemma ShapedTimeIsLaidOut(t: string)
    requires TimeShape(t)
    ensures Strip(t) == t
    ensures FindCuts(t).Some?
  {
    var w, d :| TimeShapeAt(t, 0, w, d) && |t| == 12 + w + d;
    StripUnchanged(t);
    var k := Cuts(3 + w, 3 + w + d, 4 + w + d, 6 + w + d, 9 + w + d);
    assert LaidOut(t, k);
    FindCutsComplete(t, k);
  }

  /** The documented example: the year 2026 and the time "Jun 14 15:16:01"
      give 2026-06-14 15:16:01. */
  lemma ExampleTimestamp()
    ensures ParseTimestamp(2026, Some("Jun 14 15:16:01")) == Some(DateTime(2026, 6, 14, 15, 16, 1))
  {
    var dt := DateTime(2026, 6, 14, 15, 16, 1);
    assert SyslogStamp(dt) == "Jun 14 15:16:01";
    ParseSyslogStamp(dt);
  }

  // ---------------------------------------------------------------------
  // add_time_features
  // ---------------------------------------------------------------------

  /** A row with its derived time columns. */
  datatype EnrichedRecord = EnrichedRecord(
    record: LogRecord,
    completeTime: DateTime,   // complete_time
    hour: int,                // hour
    floorMinutes: DateTime)   // floor_minutes

  /** The `ValueError` the conversion raises: the first row whose timestamp
      does not match the format. */
  datatype TimeError = MalformedTimestamp(position: nat)

  /** What the enrichment derives from one well-formed row. */
  predicate EnrichedFrom(e: EnrichedRecord, x: LogRecord, year: int) {
    && e.record == x
    && ParseTimestamp(year, x.time) == Some(e.completeTime)
    && Valid(e.completeTime)
    && e.hour == e.completeTime.hour && 0 <= e.hour <= 23
    && Valid(e.floorMinutes)
    && EpochSeconds(e.floorMinutes) % 60 == 0
    && EpochSeconds(e.floorMinutes) <= EpochSeconds(e.completeTime) < EpochSeconds(e.floorMinutes) + 60
  }

  /** The derived columns of one row, if its timestamp parses. */
  function EnrichRow(x: LogRecord, year: int): (r: Option<EnrichedRecord>)
    ensures r.Some? <==> ParseTimestamp(year, x.time).Some?
    ensures r.Some? ==> EnrichedFrom(r.value, x, year)
  {
    match ParseTimestamp(year, x.time)
    case None => None
    case Some(t) => Some(EnrichedRecord(x, t, t.hour, FloorMinute(t)))
  }

  /** A row is enriched exactly when its timestamp parses, and then with
      the columns `EnrichedFrom` describes. */
  lemma EnrichRowDerives(x: LogRecord, year: int)
    ensures EnrichRow(x, year).Some? <==> ParseTimestamp(year, x.time).Some?
    ensures EnrichRow(x, year).Some? ==> EnrichedFrom(EnrichRow(x, year).value, x, year)
  {
  }

  /** Converts every element with `f`, all or nothing: the converted
      sequence if every conversion succeeds, else the position of the first
      element that does not convert. This is how a column conversion that
      raises on a bad value behaves. */
  function ConvertAll<A, B>(xs: seq<A>, f: A -> Option<B>): (r: Result<seq<B>, nat>)
    ensures r.Success? <==> forall i :: 0 <= i < |xs| ==> f(xs[i]).Some?
    ensures r.Success? ==> |r.value| == |xs| && forall i :: 0 <= i < |xs| ==> f(xs[i]) == Some(r.value[i])
    ensures r.Failure? ==>
      && r.error < |xs| && f(xs[r.error]).None?
      && forall i :: 0 <= i < r.error ==> f(xs[i]).Some?
  {
    if |xs| == 0 then Success([])
    else
      var n := |xs| - 1;
      var p := xs[..n];
      assert forall i :: 0 <= i < n ==> p[i] == xs[i];
      match ConvertAll(p, f)
      case Failure(pos) => Failure(pos)
      case Success(ys) =>
        match f(xs[n])
        case None => Failure(n)
        case Some(y) =>
          assert forall i :: 0 <= i < n ==> (ys + [y])[i] == ys[i];
          Success(ys + [y])
  }

  /** `add_time_features`: every row gets its `complete_time`, `hour` and
      `floor_minutes`; the conversion is all or nothing, so one row whose
      timestamp does not parse fails the whole call, naming the first such
      row. */
  function AddTimeFeatures(rows: seq<LogRecord>, year: int): (r: Result<seq<EnrichedRecord>, TimeError>)
    ensures r.Success? <==> forall i :: 0 <= i < |rows| ==> ParseTimestamp(year, rows[i].time).Some?
    ensures r.Success? ==>
      && |r.value| == |rows|
      && forall i :: 0 <= i < |rows| ==> EnrichedFrom(r.value[i], rows[i], year)
    ensures r.Failure? ==>
      && r.error.position < |rows|
      && ParseTimestamp(year, rows[r.error.position].time).None?
      && forall i :: 0 <= i < r.error.position ==> ParseTimestamp(year, rows[i].time).Some?
  {
    EnrichAllRows(rows, year);
    match ConvertAll(rows, x => EnrichRow(x, year))
    case Failure(pos) => Failure(MalformedTimestamp(pos))
    case Success(es) => Success(es)
  }

  /** `EnrichRowDerives` for every row. */
  lemma EnrichAllRows(rows: seq<LogRecord>, year: int)
    ensures forall i :: 0 <= i < |rows| ==>
      && (EnrichRow(rows[i], year).Some? <==> ParseTimestamp(year, rows[i].time).Some?)
      && (EnrichRow(rows[i], year).Some? ==> EnrichedFrom(EnrichRow(rows[i], year).value, rows[i], year))
  {
    forall i | 0 <= i < |rows| {
      EnrichRowDerives(rows[i], year);
    }
  }
}
