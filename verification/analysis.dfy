/** The brute-force detector of scripts/analysis.py: group the enriched rows
    by source host and minute, count each group, and report the groups whose
    count reaches a threshold. */
module Analysis {
  import opened Wrappers
  import opened Text
  import opened Calendar
  import opened Analyzer
  import opened Utils

  /** `THRESHOLD`: the default number of attempts from one host within one
      minute that makes the window suspicious. */
  const DefaultThreshold: int := 5

  /** A detection window: a source host and the minute bucket of an event. */
  datatype WindowKey = WindowKey(rhost: string, minute: DateTime)

  /** The group a row falls into. A row whose rhost is missing belongs to no
      group: grouping leaves out missing keys. */
  function KeyOf(e: EnrichedRecord): (k: Option<WindowKey>)
    ensures k.Some? <==> e.record.rhost.Some?
    ensures k.Some? ==> k.value.rhost == e.record.rhost.value && k.value.minute == e.floorMinutes
  {
    match e.record.rhost
    case None => None
    case Some(h) => Some(WindowKey(h, e.floorMinutes))
  }

  /** The number of rows in group `k` (`CountIsPositions` says which). */
  function Count(rows: seq<EnrichedRecord>, k: WindowKey): (c: nat)
    ensures c <= |rows|
  {
    if |rows| == 0 then 0
    else Count(rows[..|rows| - 1], k) + (if KeyOf(rows[|rows| - 1]) == Some(k) then 1 else 0)
  }

  /** The groups that occur in `rows`. */
  function KeysOf(rows: seq<EnrichedRecord>): set<WindowKey> {
    if |rows| == 0 then {}
    else
      var x := rows[|rows| - 1];
      KeysOf(rows[..|rows| - 1]) + (if KeyOf(x).Some? then {KeyOf(x).value} else {})
  }

  /** A group occurs exactly when it has at least one row. */
  lemma {:induction false} KeysOfCounted(rows: seq<EnrichedRecord>)
    ensures forall k :: k in KeysOf(rows) <==> Count(rows, k) >= 1
  {
    if |rows| > 0 {
      KeysOfCounted(rows[..|rows| - 1]);
    }
  }

  /** Counting splits over concatenation. */
  lemma {:induction false} CountAppend(a: seq<EnrichedRecord>, b: seq<EnrichedRecord>, k: WindowKey)
    ensures Count(a + b, k) == Count(a, k) + Count(b, k)
    decreases |b|
  {
    if |b| == 0 {
      assert a + b == a;
    } else {
      var b' := b[..|b| - 1];
      assert (a + b)[..|a + b| - 1] == a + b';
      assert (a + b)[|a + b| - 1] == b[|b| - 1];
      CountAppend(a, b', k);
    }
  }

  /** The count of group `k` is the number of positions whose row is in
      group `k`. */
  lemma {:induction false} CountIsPositions(rows: seq<EnrichedRecord>, k: WindowKey)
    ensures Count(rows, k) == |set i | 0 <= i < |rows| && KeyOf(rows[i]) == Some(k)|
  {
    var s := set i | 0 <= i < |rows| && KeyOf(rows[i]) == Some(k);
    if |rows| > 0 {
      var n := |rows| - 1;
      var p := rows[..n];
      CountIsPositions(p, k);
      var sp := set i | 0 <= i < n && KeyOf(p[i]) == Some(k);
      if KeyOf(rows[n]) == Some(k) {
        assert s == sp + {n};
      } else {
        assert s == sp;
      }
    }
  }

  /** The suspicious windows with their counts: every group of `rows`
      whose count is at least `threshold`. A map holds each group once. */
  function SuspiciousWindows(rows: seq<EnrichedRecord>, threshold: int): (r: map<WindowKey, nat>)
    ensures forall k :: k in r <==> Count(rows, k) >= 1 && Count(rows, k) >= threshold
    ensures forall k :: k in r ==> r[k] == Count(rows, k)
  {
    KeysOfCounted(rows);
    map k | k in KeysOf(rows) && Count(rows, k) >= threshold :: Count(rows, k)
  }

  /** One more row adds one to the count of its own group and nothing to
      the others. */
  lemma {:induction false} CountStep(rows: seq<EnrichedRecord>, i: nat, k: WindowKey)
    requires i < |rows|
    ensures Count(rows[..i + 1], k) == Count(rows[..i], k) + (if KeyOf(rows[i]) == Some(k) then 1 else 0)
  {
    assert rows[..i + 1][..i] == rows[..i];
  }

  /** `detect_bruteforce_windows`: one pass that counts each group in a
      table, then the groups that reach the threshold. The threshold is not
      checked: any integer is accepted. */
  method DetectBruteforceWindows(rows: seq<EnrichedRecord>, threshold: int) returns (r: map<WindowKey, nat>)
    ensures forall k :: k in r <==> Count(rows, k) >= 1 && Count(rows, k) >= threshold
    ensures forall k :: k in r ==> r[k] == Count(rows, k)
    ensures r == SuspiciousWindows(rows, threshold)
  {
    var counts: map<WindowKey, nat> := map[];
    var i := 0;
    while i < |rows|
      invariant 0 <= i <= |rows|
      invariant forall k :: k in counts <==> Count(rows[..i], k) >= 1
      invariant forall k :: k in counts ==> counts[k] == Count(rows[..i], k)
    {
      forall k {
        CountStep(rows, i, k);
      }
      match KeyOf(rows[i]) {
        case None =>
        case Some(k) =>
          var c := if k in counts then counts[k] else 0;
          counts := counts[k := c + 1];
      }
      i := i + 1;
    }
    assert rows[..i] == rows;
    r := map k | k in counts && counts[k] >= threshold :: counts[k];
  }

  // ---------------------------------------------------------------------
  // Properties of the threshold rule
  // ---------------------------------------------------------------------

  /** The comparison is inclusive: a group of exactly `threshold` rows is
      reported, one row fewer is not. */
  lemma ThresholdBoundary(rows: seq<EnrichedRecord>, threshold: int, k: WindowKey)
    requires threshold >= 1
    ensures Count(rows, k) == threshold ==> k in SuspiciousWindows(rows, threshold)
    ensures Count(rows, k) == threshold - 1 ==> k !in SuspiciousWindows(rows, threshold)
  {
  }

  /** Raising the threshold keeps a part of the report, with the same
      counts. */
  lemma ThresholdMonotone(rows: seq<EnrichedRecord>, t1: int, t2: int)
    requires t1 <= t2
    ensures SuspiciousWindows(rows, t2).Keys <= SuspiciousWindows(rows, t1).Keys
    ensures forall k :: k in SuspiciousWindows(rows, t2) ==>
      SuspiciousWindows(rows, t2)[k] == SuspiciousWindows(rows, t1)[k]
  {
  }

  /** The order of the rows does not matter: two inputs holding the same
      rows give the same report. */
  lemma {:induction false} CountPermutation(a: seq<EnrichedRecord>, b: seq<EnrichedRecord>, k: WindowKey)
    requires multiset(a) == multiset(b)
    ensures Count(a, k) == Count(b, k)
    decreases |a|
  {
    if |a| > 0 {
      var n := |a| - 1;
      var x := a[n];
      assert x in multiset(b);
      var j :| 0 <= j < |b| && b[j] == x;
      var b' := b[..j] + b[j + 1..];
      assert b == b[..j] + [x] + b[j + 1..];
      assert a == a[..n] + [x];
      assert multiset(a) == multiset(a[..n]) + multiset{x};
      assert multiset(b) == multiset(b[..j]) + multiset{x} + multiset(b[j + 1..]);
      assert multiset(b') == multiset(b[..j]) + multiset(b[j + 1..]);
      assert multiset(a[..n]) == multiset(a) - multiset{x};
      assert multiset(b') == multiset(b) - multiset{x};
      CountPermutation(a[..n], b', k);
      CountAppend(b[..j], [x], k);
      CountAppend(b[..j] + [x], b[j + 1..], k);
      CountAppend(b[..j], b[j + 1..], k);
      assert Count([x], k) == Count(a, k) - Count(a[..n], k) by {
        assert [x][..0] == [];
      }
    }
  }

  /** The report does not depend on the order of the rows. */
  lemma OrderIndependent(a: seq<EnrichedRecord>, b: seq<EnrichedRecord>, threshold: int)
    requires multiset(a) == multiset(b)
    ensures SuspiciousWindows(a, threshold) == SuspiciousWindows(b, threshold)
  {
    forall k {
      CountPermutation(a, b, k);
    }
  }

  // ---------------------------------------------------------------------
  // A threshold of one or less reports every group
  // ---------------------------------------------------------------------

  /** The number of rows that belong to some group. */
  function NumKeyed(rows: seq<EnrichedRecord>): nat {
    if |rows| == 0 then 0
    else NumKeyed(rows[..|rows| - 1]) + (if KeyOf(rows[|rows| - 1]).Some? then 1 else 0)
  }

  /** The total of the counts of the groups in `keys`. */
  ghost function SumCounts(rows: seq<EnrichedRecord>, keys: set<WindowKey>): nat
    decreases |keys|
  {
    if keys == {} then 0
    else
      var k :| k in keys;
      Count(rows, k) + SumCounts(rows, keys - {k})
  }

  /** The number of rows whose group is in `keys`. */
  function CountIn(rows: seq<EnrichedRecord>, keys: set<WindowKey>): nat {
    if |rows| == 0 then 0
    else
      var x := rows[|rows| - 1];
      CountIn(rows[..|rows| - 1], keys) + (if KeyOf(x).Some? && KeyOf(x).value in keys then 1 else 0)
  }

  lemma {:induction false} CountInSplit(rows: seq<EnrichedRecord>, keys: set<WindowKey>, k: WindowKey)
    requires k in keys
    ensures CountIn(rows, keys) == Count(rows, k) + CountIn(rows, keys - {k})
  {
    if |rows| > 0 {
      CountInSplit(rows[..|rows| - 1], keys, k);
    }
  }

  /** Summing the counts of the groups in `keys`, in any order, counts the
      rows whose group is in `keys`. */
  lemma {:induction false} SumCountsIsCountIn(rows: seq<EnrichedRecord>, keys: set<WindowKey>)
    ensures SumCounts(rows, keys) == CountIn(rows, keys)
    decreases |keys|
  {
    if keys != {} {
      var k :| k in keys && SumCounts(rows, keys) == Count(rows, k) + SumCounts(rows, keys - {k});
      SumCountsIsCountIn(rows, keys - {k});
      CountInSplit(rows, keys, k);
    } else {
      CountInNone(rows);
    }
  }

  lemma {:induction false} CountInNone(rows: seq<EnrichedRecord>)
    ensures CountIn(rows, {}) == 0
  {
    if |rows| > 0 {
      CountInNone(rows[..|rows| - 1]);
    }
  }

  /** Every grouped row's group is among the groups of the rows. */
  lemma {:induction false} CountInAllKeys(rows: seq<EnrichedRecord>, keys: set<WindowKey>)
    requires KeysOf(rows) <= keys
    ensures CountIn(rows, keys) == NumKeyed(rows)
  {
    if |rows| > 0 {
      CountInAllKeys(rows[..|rows| - 1], keys);
    }
  }

  /** With a threshold of one or less every group is reported, and the
      reported counts add up to the number of grouped rows. */
  lemma LowThresholdReportsAll(rows: seq<EnrichedRecord>, threshold: int)
    requires threshold <= 1
    ensures SuspiciousWindows(rows, threshold).Keys == KeysOf(rows)
    ensures SumCounts(rows, SuspiciousWindows(rows, threshold).Keys) == NumKeyed(rows)
  {
    KeysOfCounted(rows);
    SumCountsIsCountIn(rows, KeysOf(rows));
    CountInAllKeys(rows, KeysOf(rows));
  }

  // ---------------------------------------------------------------------
  // One group
  // ---------------------------------------------------------------------

  /** All rows fall into group `k`. */
  predicate OneGroup(rows: seq<EnrichedRecord>, k: WindowKey) {
    forall i :: 0 <= i < |rows| ==> KeyOf(rows[i]) == Some(k)
  }

  lemma {:induction false} OneGroupCounts(rows: seq<EnrichedRecord>, k: WindowKey, k': WindowKey)
    requires OneGroup(rows, k)
    ensures Count(rows, k') == if k' == k then |rows| else 0
  {
    if |rows| > 0 {
      var p := rows[..|rows| - 1];
      assert OneGroup(p, k) by {
        forall i | 0 <= i < |p| ensures KeyOf(p[i]) == Some(k) {
          assert p[i] == rows[i];
        }
      }
      OneGroupCounts(p, k, k');
    }
  }

  /** A burst of `n` attempts from one host within one minute is one
      suspicious window of count `n` when `n` reaches the threshold, and
      nothing otherwise. */
  lemma OneGroupReport(rows: seq<EnrichedRecord>, k: WindowKey, threshold: int)
    requires OneGroup(rows, k) && |rows| > 0
    ensures SuspiciousWindows(rows, threshold) ==
      if |rows| >= threshold then map[k := |rows|] else map[]
  {
    forall k' {
      OneGroupCounts(rows, k, k');
    }
  }

  /** Five attempts in one minute meet the default threshold; four do
      not. */
  lemma DefaultThresholdBursts(rows: seq<EnrichedRecord>, k: WindowKey)
    requires OneGroup(rows, k)
    ensures |rows| == 5 ==> SuspiciousWindows(rows, DefaultThreshold) == map[k := 5]
    ensures |rows| == 4 ==> SuspiciousWindows(rows, DefaultThreshold) == map[]
  {
    if |rows| > 0 {
      OneGroupReport(rows, k, DefaultThreshold);
    }
  }

  // ---------------------------------------------------------------------
  // The pipeline: filter, enrich, detect
  // ---------------------------------------------------------------------

  /** The detection run on parsed records: keep the attributable rows, add
      the time features for the assumed year, then report the windows that
      reach the threshold. A malformed timestamp among the kept rows fails
      the run. */
  function Detect(rows: seq<LogRecord>, year: int, threshold: int): (r: Result<map<WindowKey, nat>, TimeError>)
    ensures r.Success? ==> forall k :: k in r.value ==> 1 <= r.value[k] && threshold <= r.value[k]
  {
    match AddTimeFeatures(FilterAttackEvents(rows), year)
    case Failure(err) => Failure(err)
    case Success(es) => Success(SuspiciousWindows(es, threshold))
  }

  /** A group with rows has a row in it. */
  lemma {:induction false} CountedHasRow(rows: seq<EnrichedRecord>, k: WindowKey)
    requires Count(rows, k) >= 1
    ensures exists i :: 0 <= i < |rows| && KeyOf(rows[i]) == Some(k)
  {
    var n := |rows| - 1;
    if KeyOf(rows[n]) != Some(k) {
      CountedHasRow(rows[..n], k);
      var i :| 0 <= i < n && KeyOf(rows[..n][i]) == Some(k);
      assert rows[..n][i] == rows[i];
    }
  }

  /** Every reported window names a host as the filter left it: present,
      non-empty and without surrounding whitespace, and one of the kept
      rows carries it. */
  lemma DetectReportsStrippedHosts(rows: seq<LogRecord>, year: int, threshold: int)
    ensures Detect(rows, year, threshold).Success? ==>
      forall k :: k in Detect(rows, year, threshold).value ==>
        && |k.rhost| > 0 && !IsSpace(k.rhost[0]) && !IsSpace(k.rhost[|k.rhost| - 1])
        && exists x :: x in rows && Attributable(x) && Normalized(x).rhost == Some(k.rhost)
  {
    var kept := FilterAttackEvents(rows);
    var r := AddTimeFeatures(kept, year);
    if r.Success? {
      var es := r.value;
      forall k | k in SuspiciousWindows(es, threshold)
        ensures && |k.rhost| > 0 && !IsSpace(k.rhost[0]) && !IsSpace(k.rhost[|k.rhost| - 1])
                && exists x :: x in rows && Attributable(x) && Normalized(x).rhost == Some(k.rhost)
      {
        CountedHasRow(es, k);
        var i :| 0 <= i < |es| && KeyOf(es[i]) == Some(k);
        assert es[i].record == kept[i];
        assert HostTrimmed(kept[i]);
        KeptRowFromInput(rows, i);
      }
    }
  }

  /** A kept row is the normalized form of an attributable input row. */
  lemma KeptRowFromInput(rows: seq<LogRecord>, i: int)
    requires 0 <= i < |FilterAttackEvents(rows)|
    ensures exists x :: x in rows && Attributable(x) && Normalized(x) == FilterAttackEvents(rows)[i]
  {
    FilterKeepsAttributableInOrder(rows);
    var ps := KeptPositions(rows);
    assert rows[ps[i]] in rows;
  }

  /** A row that cannot be attributed to a source does not change the
      outcome, wherever it stands. */
  lemma UnattributableIgnored(a: seq<LogRecord>, x: LogRecord, b: seq<LogRecord>, year: int, threshold: int)
    requires !Attributable(x)
    ensures Detect(a + [x] + b, year, threshold) == Detect(a + b, year, threshold)
  {
    FilterSkips(a, x, b);
  }

  /** The run fails exactly when some attributable row has a timestamp
      that does not parse; rows the filter drops never fail it. */
  lemma DetectFailsExactly(rows: seq<LogRecord>, year: int, threshold: int)
    ensures Detect(rows, year, threshold).Success? <==>
      forall i :: 0 <= i < |rows| && Attributable(rows[i]) ==> ParseTimestamp(year, rows[i].time).Some?
  {
    KeptTimesAll(rows, t => ParseTimestamp(year, t).Some?);
  }

  /** A property of the timestamp holds for every kept row exactly when it
      holds for every attributable row. */
  lemma KeptTimesAll(rows: seq<LogRecord>, p: Option<string> -> bool)
    ensures (forall j :: 0 <= j < |FilterAttackEvents(rows)| ==> p(FilterAttackEvents(rows)[j].time))
      <==> (forall i :: 0 <= i < |rows| && Attributable(rows[i]) ==> p(rows[i].time))
  {
    var kept := FilterAttackEvents(rows);
    var ps := KeptPositions(rows);
    FilterKeepsAttributableInOrder(rows);
    KeptPositionsExact(rows);
    assert forall j :: 0 <= j < |kept| ==> kept[j].time == rows[ps[j]].time;
    if forall j :: 0 <= j < |kept| ==> p(kept[j].time) {
      forall i | 0 <= i < |rows| && Attributable(rows[i])
        ensures p(rows[i].time)
      {
        assert i in ps;
        var j :| 0 <= j < |ps| && ps[j] == i;
      }
    }
  }

  /** One row with a host but no timestamp aborts the whole run, wherever
      it stands. */
  lemma UntimedHostFailsRun(a: seq<LogRecord>, x: LogRecord, b: seq<LogRecord>, year: int, threshold: int)
    requires Attributable(x) && x.time.None?
    ensures Detect(a + [x] + b, year, threshold).Failure?
  {
    var rows := a + [x] + b;
    assert rows[|a|] == x;
    DetectFailsExactly(rows, year, threshold);
  }

  /** Filtering skips an unattributable row. */
  lemma FilterSkips(a: seq<LogRecord>, x: LogRecord, b: seq<LogRecord>)
    requires !Attributable(x)
    ensures FilterAttackEvents(a + [x] + b) == FilterAttackEvents(a + b)
  {
    FilterAppend(a + [x], b);
    FilterAppend(a, [x]);
    FilterAppend(a, b);
    FilterSingle(x);
    assert FilterAttackEvents(a) + [] == FilterAttackEvents(a);
  }

  /** A line that never mentions a host (no "rhost=" followed by a
      non-whitespace character) yields a record the filter drops. */
  lemma LineWithoutHostDropped(line: string)
    requires forall p :: !TokenStartsAt(line, p, RhostLookbehind)
    ensures !Attributable(ParseLogLine(line))
    ensures FilterAttackEvents([ParseLogLine(line)]) == []
  {
    FilterSingle(ParseLogLine(line));
  }
}
