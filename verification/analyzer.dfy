/** The line parser (scripts/analyzer.py): three independent regular
    expression searches over one auth-log line, plus the right-trimmed line.
    Each regular expression is written here as a hand-made scanner next to a
    declarative description of what a match of that expression is, and each
    scanner is proved to return exactly the leftmost match or nothing. */
module Analyzer {
  import opened Wrappers
  import opened Text

  /** One parsed line: the row written to the structured dataset. An absent
      field is `None`, never the empty string. */
  datatype LogRecord = LogRecord(
    time: Option<string>,
    rhost: Option<string>,
    user: Option<string>,
    rawLine: string)

  /** The matched slice `s[start..end]` of a search. */
  datatype Span = Span(start: nat, end: nat)

  // ---------------------------------------------------------------------
  // DATE_PATTERN: \b[A-Z][a-z]{2}\s+\d{1,2}\s\d{2}:\d{2}:\d{2}\b
  // ---------------------------------------------------------------------

  /** `\d{2}:\d{2}:\d{2}` at position `k` of `s`. */
  predicate ClockAt(s: string, k: int) {
    && 0 <= k && k + 8 <= |s|
    && IsDigit(s[k]) && IsDigit(s[k + 1]) && s[k + 2] == ':'
    && IsDigit(s[k + 3]) && IsDigit(s[k + 4]) && s[k + 5] == ':'
    && IsDigit(s[k + 6]) && IsDigit(s[k + 7])
  }

  /** The body of the date pattern laid out from `i`: three letters, `w`
      whitespace characters, `d` digits (one or two), one whitespace character
      and a clock. It covers `12 + w + d` characters. */
  predicate TimeShapeAt(s: string, i: int, w: int, d: int) {
    && 0 <= i && 1 <= w && 1 <= d <= 2 && i + 12 + w + d <= |s|
    && IsUpper(s[i]) && IsLower(s[i + 1]) && IsLower(s[i + 2])
    && SpaceIn(s, i + 3, i + 3 + w)
    && DigitIn(s, i + 3 + w, i + 3 + w + d)
    && IsSpace(s[i + 3 + w + d])
    && ClockAt(s, i + 4 + w + d)
  }

  /** A whole string of the date pattern's shape, such as "Jun 14 15:16:01". */
  ghost predicate TimeShape(t: string) {
    exists w, d :: TimeShapeAt(t, 0, w, d) && |t| == 12 + w + d
  }

  /** The date pattern matches `s[i..e]`: the shape, with a word boundary on
      each side (the first character is a letter and the last a digit, so
      the neighbours must be non-word characters or the ends of the line). */
  ghost predicate TimeMatch(s: string, i: int, e: int) {
    && 0 <= i < e <= |s|
    && (i == 0 || !IsWord(s[i - 1]))
    && (e == |s| || !IsWord(s[e]))
    && exists w, d :: TimeShapeAt(s, i, w, d) && e == i + 12 + w + d
  }

  /** What `DATE_PATTERN.search` returns: the match starting leftmost. */
  ghost predicate LeftmostTime(s: string, sp: Span) {
    && TimeMatch(s, sp.start, sp.end)
    && forall i, e :: 0 <= i < sp.start ==> !TimeMatch(s, i, e)
  }

  /** The runs of a date-shaped text are maximal: the whitespace run stops
      at a digit and the digit run stops at whitespace. So the greedy
      scanner finds them. */
  lemma TimeShapeRuns(s: string, i: nat)
    requires i + 3 <= |s|
    ensures forall w, d :: TimeShapeAt(s, i, w, d) ==>
      SpaceRunEnd(s, i + 3) == i + 3 + w && DigitRunEnd(s, i + 3 + w) == i + 3 + w + d
  {
    forall w, d | TimeShapeAt(s, i, w, d)
      ensures SpaceRunEnd(s, i + 3) == i + 3 + w && DigitRunEnd(s, i + 3 + w) == i + 3 + w + d
    {
      SpaceRunEndUnique(s, i + 3, i + 3 + w);
      DigitRunEndUnique(s, i + 3 + w, i + 3 + w + d);
    }
  }

  /** At a given start the date pattern matches at most one slice. */
  lemma TimeMatchUnique(s: string, i: int, e1: int, e2: int)
    requires TimeMatch(s, i, e1) && TimeMatch(s, i, e2)
    ensures e1 == e2
  {
    TimeShapeRuns(s, i);
  }

  /** The end of the date-pattern match starting at `i`, if there is one. */
  function TimeEndAt(s: string, i: nat): (r: Option<nat>)
    requires i <= |s|
    ensures r.Some? ==> TimeMatch(s, i, r.value)
    ensures r.None? ==> forall e :: !TimeMatch(s, i, e)
  {
    if i + 3 <= |s| && (i == 0 || !IsWord(s[i - 1]))
       && IsUpper(s[i]) && IsLower(s[i + 1]) && IsLower(s[i + 2])
    then
      var p := SpaceRunEnd(s, i + 3);
      var q := DigitRunEnd(s, p);
      if TimeTailAt(s, i, p, q) then
        assert TimeShapeAt(s, i, p - (i + 3), q - p);
        Some(q + 9)
      else
        NoTimeTail(s, i);
        None
    else None
  }

  /** What the date scanner checks once the letters and both runs are
      found: the runs are non-empty, the digits are one or two, and a
      whitespace character, a clock and a word boundary follow. */
  predicate TimeTailAt(s: string, i: int, p: int, q: int) {
    && 0 <= i && i + 3 < p <= q && 1 <= q - p <= 2 && q + 9 <= |s|
    && IsSpace(s[q]) && ClockAt(s, q + 1)
    && (q + 9 == |s| || !IsWord(s[q + 9]))
  }

  /** If the greedy runs from `i` do not end in a clock and a word
      boundary, nothing matches at `i`. */
  lemma NoTimeTail(s: string, i: nat)
    requires i + 3 <= |s|
    requires !TimeTailAt(s, i, SpaceRunEnd(s, i + 3), DigitRunEnd(s, SpaceRunEnd(s, i + 3)))
    ensures forall e :: !TimeMatch(s, i, e)
  {
    TimeShapeRuns(s, i);
  }

  /** The leftmost date-pattern match starting at or after `from`. */
  function FindTime(s: string, from: nat): (r: Option<Span>)
    requires from <= |s|
    ensures r.Some? ==> && from <= r.value.start
                        && TimeMatch(s, r.value.start, r.value.end)
                        && forall i, e :: from <= i < r.value.start ==> !TimeMatch(s, i, e)
    ensures r.None? ==> forall i, e :: from <= i ==> !TimeMatch(s, i, e)
    decreases |s| - from
  {
    match TimeEndAt(s, from)
    case Some(e) => Some(Span(from, e))
    case None => if from == |s| then None else FindTime(s, from + 1)
  }

  // ---------------------------------------------------------------------
  // RHOST_PATTERN (?<=rhost=)\S+ and USER_PATTERN (?<=user[ ]|user=)\S+
  // ---------------------------------------------------------------------

  /** The lookbehind alternatives of the two token patterns. */
  const RhostLookbehind: seq<string> := ["rhost="]
  const UserLookbehind: seq<string> := ["user ", "user="]

  /** `marker` ends exactly at position `p` of `s`. */
  predicate Preceded(s: string, p: int, marker: string) {
    |marker| <= p <= |s| && s[p - |marker|..p] == marker
  }

  /** A `(?<=m1|m2|...)\S+` match can start at `p`: one of the markers ends
      at `p` and a non-whitespace character follows. */
  predicate TokenStartsAt(s: string, p: int, markers: seq<string>) {
    && 0 <= p < |s|
    && !IsSpace(s[p])
    && exists m :: m in markers && Preceded(s, p, m)
  }

  /** The leftmost match of `(?<=markers)\S+`: the start is the first
      position where a match can start, and the greedy `\S+` runs to the next
      whitespace or the end of the line. */
  predicate LeftmostToken(s: string, markers: seq<string>, sp: Span) {
    && TokenStartsAt(s, sp.start, markers)
    && sp.start < sp.end <= |s|
    && NoSpaceIn(s, sp.start, sp.end)
    && (sp.end == |s| || IsSpace(s[sp.end]))
    && forall q :: 0 <= q < sp.start ==> !TokenStartsAt(s, q, markers)
  }

  /** The leftmost match of `(?<=markers)\S+` starting at or after `from`. */
  function FindToken(s: string, markers: seq<string>, from: nat): (r: Option<Span>)
    requires from <= |s|
    ensures r.Some? ==> && from <= r.value.start < r.value.end <= |s|
                        && TokenStartsAt(s, r.value.start, markers)
                        && NoSpaceIn(s, r.value.start, r.value.end)
                        && (r.value.end == |s| || IsSpace(s[r.value.end]))
                        && forall q :: from <= q < r.value.start ==> !TokenStartsAt(s, q, markers)
    ensures r.None? ==> forall q :: from <= q ==> !TokenStartsAt(s, q, markers)
    decreases |s| - from
  {
    if from == |s| then None
    else if TokenStartsAt(s, from, markers) then Some(Span(from, TokenEnd(s, from)))
    else FindToken(s, markers, from + 1)
  }

  /** The two user lookbehinds differ in their last character, so they never
      both hold at one position: the user pattern's precedence is purely
      leftmost. */
  lemma UserLookbehindsExclusive(s: string, p: int)
    ensures !(Preceded(s, p, "user ") && Preceded(s, p, "user="))
  {
  }

  // ---------------------------------------------------------------------
  // parse_log_line
  // ---------------------------------------------------------------------

  /** `parse_log_line`: total; each field is the leftmost match of its own
      pattern, searched independently of the others. */
  function ParseLogLine(line: string): (r: LogRecord)
    // raw_line: the line without trailing whitespace
    ensures |r.rawLine| <= |line| && r.rawLine == line[..|r.rawLine|]
    ensures |r.rawLine| == 0 || !IsSpace(r.rawLine[|r.rawLine| - 1])
    ensures SpaceIn(line, |r.rawLine|, |line|)
    // time
    ensures r.time.None? <==> forall i, e :: !TimeMatch(line, i, e)
    ensures r.time.Some? ==> && TimeShape(r.time.value)
                             && exists sp :: LeftmostTime(line, sp) && r.time.value == line[sp.start..sp.end]
    // rhost
    ensures r.rhost.None? <==> forall p :: !TokenStartsAt(line, p, RhostLookbehind)
    ensures r.rhost.Some? ==> && |r.rhost.value| > 0 && NoSpace(r.rhost.value)
                              && exists sp :: LeftmostToken(line, RhostLookbehind, sp)
                                              && r.rhost.value == line[sp.start..sp.end]
    // user
    ensures r.user.None? <==> forall p :: !TokenStartsAt(line, p, UserLookbehind)
    ensures r.user.Some? ==> && |r.user.value| > 0 && NoSpace(r.user.value)
                             && exists sp :: LeftmostToken(line, UserLookbehind, sp)
                                             && r.user.value == line[sp.start..sp.end]
  {
    var time := TimeField(line);
    var rhost := TokenField(line, RhostLookbehind);
    var user := TokenField(line, UserLookbehind);
    LogRecord(time, rhost, user, RStrip(line))
  }

  /** The time field: the text of the leftmost date match, if any. */
  function TimeField(line: string): (r: Option<string>)
    ensures r.None? <==> forall i, e :: !TimeMatch(line, i, e)
    ensures r.Some? ==> && TimeShape(r.value)
                        && exists sp :: LeftmostTime(line, sp) && r.value == line[sp.start..sp.end]
  {
    var m := FindTime(line, 0);
    if m.Some? then
      TimeTextHasShape(line, m.value);
      assert LeftmostTime(line, m.value);
      Some(line[m.value.start..m.value.end])
    else None
  }

  /** A token field: the text of the leftmost `(?<=markers)\S+` match, if
      any. */
  function TokenField(line: string, markers: seq<string>): (r: Option<string>)
    ensures r.None? <==> forall p :: !TokenStartsAt(line, p, markers)
    ensures r.Some? ==> && |r.value| > 0 && NoSpace(r.value)
                        && exists sp :: LeftmostToken(line, markers, sp)
                                        && r.value == line[sp.start..sp.end]
  {
    var m := FindToken(line, markers, 0);
    if m.Some? then
      SliceNoSpace(line, m.value.start, m.value.end);
      assert LeftmostToken(line, markers, m.value);
      Some(line[m.value.start..m.value.end])
    else None
  }

  /** The text of a date-pattern match has the date shape on its own. */
  lemma TimeTextHasShape(s: string, sp: Span)
    requires TimeMatch(s, sp.start, sp.end)
    ensures TimeShape(s[sp.start..sp.end])
  {
    var w, d :| TimeShapeAt(s, sp.start, w, d) && sp.end == sp.start + 12 + w + d;
    var t := s[sp.start..sp.end];
    assert forall j :: 0 <= j < |t| ==> t[j] == s[sp.start + j];
    assert TimeShapeAt(t, 0, w, d);
  }

  /** The leftmost date match is unique: `LeftmostTime` describes one span. */
  lemma LeftmostTimeUnique(s: string, sp1: Span, sp2: Span)
    requires LeftmostTime(s, sp1) && LeftmostTime(s, sp2)
    ensures sp1 == sp2
  {
    assert sp1.start == sp2.start;
    TimeMatchUnique(s, sp1.start, sp1.end, sp2.end);
  }

  /** The leftmost token match is unique: `LeftmostToken` describes one span. */
  lemma LeftmostTokenUnique(s: string, markers: seq<string>, sp1: Span, sp2: Span)
    requires LeftmostToken(s, markers, sp1) && LeftmostToken(s, markers, sp2)
    ensures sp1 == sp2
  {
    assert sp1.start == sp2.start;
    TokenEndUnique(s, sp1.start, sp1.end);
    TokenEndUnique(s, sp2.start, sp2.end);
  }

  /** The time field is the text of the leftmost date match. */
  lemma TimeFieldIsLeftmost(line: string, sp: Span)
    requires LeftmostTime(line, sp)
    ensures ParseLogLine(line).time == Some(line[sp.start..sp.end])
  {
    var r := ParseLogLine(line);
    var sp' :| LeftmostTime(line, sp') && r.time.value == line[sp'.start..sp'.end];
    LeftmostTimeUnique(line, sp, sp');
  }

  /** The rhost field is the text of the leftmost rhost match. */
  lemma RhostFieldIsLeftmost(line: string, sp: Span)
    requires LeftmostToken(line, RhostLookbehind, sp)
    ensures ParseLogLine(line).rhost == Some(line[sp.start..sp.end])
  {
    var r := ParseLogLine(line);
    var sp' :| LeftmostToken(line, RhostLookbehind, sp') && r.rhost.value == line[sp'.start..sp'.end];
    LeftmostTokenUnique(line, RhostLookbehind, sp, sp');
  }

  /** The user field is the text of the leftmost user match. */
  lemma UserFieldIsLeftmost(line: string, sp: Span)
    requires LeftmostToken(line, UserLookbehind, sp)
    ensures ParseLogLine(line).user == Some(line[sp.start..sp.end])
  {
    var r := ParseLogLine(line);
    var sp' :| LeftmostToken(line, UserLookbehind, sp') && r.user.value == line[sp'.start..sp'.end];
    LeftmostTokenUnique(line, UserLookbehind, sp, sp');
  }

  // ---------------------------------------------------------------------
  // A typical sshd failed-password line
  // ---------------------------------------------------------------------

  /** A typical sshd failed-password line, in four pieces. */
  const ExampleLine: string :=
    "Jun 14 15:16:01 " + "sshd[123]: Failed password for invalid " + "user admin from " + "rhost=10.0.0.5"

  /** The only '=' of the example line is the one ending "rhost=". */
  lemma ExampleNoEquals(line: string)
    requires line == ExampleLine
    ensures |line| == 85
    ensures forall j :: 0 <= j < 76 ==> line[j] != '='
  {
    var c1, c2, c3, c4 := "Jun 14 15:16:01 ", "sshd[123]: Failed password for invalid ", "user admin from ", "rhost=10.0.0.5";
    var a := c1 + c2 + c3;
    assert '=' !in c1 && '=' !in c2 && '=' !in c3;
    assert '=' !in a;
    forall j | 0 <= j < 76 ensures line[j] != '=' {
      if j < 71 {
        assert line[j] == a[j];
        assert a[j] in a;
      } else {
        assert line[j] == c4[j - 71];
      }
    }
  }

  /** Before "user", the example line's only 'u' is the one of "Jun". */
  lemma ExampleOneU(line: string)
    requires line == ExampleLine
    ensures |line| == 85
    ensures forall j :: 0 <= j < 55 && line[j] == 'u' ==> j == 1
  {
    var c1 := "Jun 14 15:16:01 ";
    forall j | 2 <= j < 16 ensures line[j] != 'u' {
      assert line[j] == c1[j];
    }
    ExampleNoUAfterDate(line);
  }

  /** The part of the example line from "sshd" to "user" has no 'u'. */
  lemma ExampleNoUAfterDate(line: string)
    requires line == ExampleLine
    ensures forall j :: 16 <= j < 55 ==> line[j] != 'u'
  {
    var c2 := "sshd[123]: Failed password for invalid ";
    assert 'u' !in c2;
    forall j | 16 <= j < 55 ensures line[j] != 'u' {
      assert line[j] == c2[j - 16];
      assert c2[j - 16] in c2;
    }
  }

  /** The example line opens with a date match. */
  lemma ExampleTimeMatch(line: string)
    requires line == ExampleLine
    ensures LeftmostTime(line, Span(0, 15))
    ensures line[0..15] == "Jun 14 15:16:01"
  {
    var c1 := "Jun 14 15:16:01 ";
    forall j | 0 <= j < 16 ensures line[j] == c1[j] {
    }
    assert line[0..15] == c1[..15];
    assert TimeShapeAt(line, 0, 1, 2);
    assert TimeMatch(line, 0, 15);
  }

  /** The example line's timestamp is its first 15 characters. */
  lemma ExampleTime(line: string)
    requires line == ExampleLine
    ensures ParseLogLine(line).time == Some("Jun 14 15:16:01")
  {
    ExampleTimeMatch(line);
    TimeFieldIsLeftmost(line, Span(0, 15));
  }

  /** No rhost match starts before the host: the only '=' before it is the
      one ending "rhost=". */
  lemma ExampleNoEarlierRhost(line: string)
    requires line == ExampleLine
    ensures forall q :: 0 <= q < 77 ==> !TokenStartsAt(line, q, RhostLookbehind)
  {
    ExampleNoEquals(line);
    forall q | 0 <= q < 77 ensures !Preceded(line, q, "rhost=") {
      if 6 <= q {
        assert line[q - 6..q][5] == line[q - 1] != '=';
      }
    }
  }

  /** No user match starts before "admin": before it the only 'u' is the one
      of "Jun", which is not followed by "ser". */
  lemma ExampleNoEarlierUser(line: string)
    requires line == ExampleLine
    ensures forall q :: 0 <= q < 60 ==> !TokenStartsAt(line, q, UserLookbehind)
  {
    ExampleOneU(line);
    forall q | 0 <= q < 60 ensures !Preceded(line, q, "user ") && !Preceded(line, q, "user=") {
      if 5 <= q {
        assert line[q - 5..q][0] == line[q - 5];
        assert line[q - 5..q][1] == line[q - 4];
        assert q - 5 != 1 || line[q - 4] == 'n';
      }
    }
  }

  lemma ExampleRhost(line: string)
    requires line == ExampleLine
    ensures ParseLogLine(line).rhost == Some("10.0.0.5")
  {
    ExampleNoEarlierRhost(line);
    assert line[77..] == "10.0.0.5";
    assert Preceded(line, 77, RhostLookbehind[0]);
    assert LeftmostToken(line, RhostLookbehind, Span(77, 85));
    RhostFieldIsLeftmost(line, Span(77, 85));
  }

  lemma ExampleUser(line: string)
    requires line == ExampleLine
    ensures ParseLogLine(line).user == Some("admin")
  {
    ExampleNoEarlierUser(line);
    assert line[60..65] == "admin";
    assert Preceded(line, 60, UserLookbehind[0]);
    assert LeftmostToken(line, UserLookbehind, Span(60, 65));
    UserFieldIsLeftmost(line, Span(60, 65));
  }

  /** The sample line: time "Jun 14 15:16:01", rhost "10.0.0.5",
      user "admin", and the line itself as raw_line. */
  lemma ExampleLineParses(line: string)
    requires line == ExampleLine
    ensures ParseLogLine(line) == LogRecord(Some("Jun 14 15:16:01"), Some("10.0.0.5"), Some("admin"), line)
  {
    ExampleTime(line);
    ExampleRhost(line);
    ExampleUser(line);
    ExampleRawLine(line);
  }

  /** The example line has no trailing whitespace, so it is its own raw
      line. */
  lemma ExampleRawLine(line: string)
    requires line == ExampleLine
    ensures RStrip(line) == line
  {
    var c4 := "rhost=10.0.0.5";
    assert line[84] == c4[13];
    RStripKeeps(line);
  }
}
