/** Character classes and whitespace trimming, shared by the line parser and
    the timestamp parser. */
module Text {

  /** Python's `str.isspace()`, which is also what `\s` matches in a `str`
      regular expression and what `str.strip()`/`str.rstrip()` remove. */
  predicate IsSpace(c: char) {
    var n := c as int;
    || 9 <= n <= 13        // \t \n \v \f \r
    || 28 <= n <= 32       // file/group/record/unit separators, space
    || n == 0x85 || n == 0xA0 || n == 0x1680
    || 0x2000 <= n <= 0x200A
    || n == 0x2028 || n == 0x2029 || n == 0x202F || n == 0x205F || n == 0x3000
  }

  /** `\d`, restricted to the ASCII digits. */
  predicate IsDigit(c: char) {
    '0' <= c <= '9'
  }

  /** The regex class `[A-Z]`. */
  predicate IsUpper(c: char) {
    'A' <= c <= 'Z'
  }

  /** The regex class `[a-z]`. */
  predicate IsLower(c: char) {
    'a' <= c <= 'z'
  }

  /** `\w`, restricted to ASCII: letters, digits and underscore. */
  predicate IsWord(c: char) {
    IsUpper(c) || IsLower(c) || IsDigit(c) || c == '_'
  }

  /** `s[i..j]` is all whitespace (and `i..j` is a range of `s`). */
  predicate SpaceIn(s: string, i: int, j: int) {
    0 <= i <= j <= |s| && forall x :: i <= x < j ==> IsSpace(s[x])
  }

  /** `s[i..j]` has no whitespace. */
  predicate NoSpaceIn(s: string, i: int, j: int) {
    0 <= i <= j <= |s| && forall x :: i <= x < j ==> !IsSpace(s[x])
  }

  /** `s[i..j]` is all ASCII digits. */
  predicate DigitIn(s: string, i: int, j: int) {
    0 <= i <= j <= |s| && forall x :: i <= x < j ==> IsDigit(s[x])
  }

  predicate AllSpace(s: string) {
    SpaceIn(s, 0, |s|)
  }

  predicate NoSpace(s: string) {
    NoSpaceIn(s, 0, |s|)
  }

  /** A slice without whitespace, as a string of its own. */
  lemma SliceNoSpace(s: string, i: int, j: int)
    requires NoSpaceIn(s, i, j)
    ensures NoSpace(s[i..j])
  {
    assert forall x :: 0 <= x < j - i ==> s[i..j][x] == s[i + x];
  }

  /** `str.rstrip()`: the longest prefix of `s` that does not end in
      whitespace. Everything it drops is whitespace, so leading whitespace is
      kept. */
  function RStrip(s: string): (r: string)
    ensures |r| <= |s| && r == s[..|r|]
    ensures |r| == 0 || !IsSpace(r[|r| - 1])
    ensures SpaceIn(s, |r|, |s|)
  {
    if |s| > 0 && IsSpace(s[|s| - 1]) then
      var r := RStrip(s[..|s| - 1]);
      assert r == s[..|r|];
      r
    else s
  }

  /** A string that does not end in whitespace is its own `str.rstrip()`. */
  lemma RStripKeeps(s: string)
    requires |s| == 0 || !IsSpace(s[|s| - 1])
    ensures RStrip(s) == s
  {
  }

  /** `str.lstrip()`: the longest suffix of `s` that does not start with
      whitespace. */
  function LStrip(s: string): (r: string)
    ensures |r| <= |s| && r == s[|s| - |r|..]
    ensures |r| == 0 || !IsSpace(r[0])
    ensures SpaceIn(s, 0, |s| - |r|)
  {
    if |s| > 0 && IsSpace(s[0]) then
      var t := s[1..];
      var r := LStrip(t);
      SpaceInShift(s, t, |t| - |r|);
      assert r == s[|s| - |r|..];
      r
    else s
  }

  /** Whitespace at the front of `s[1..]`, with the whitespace character
      before it, is whitespace at the front of `s`. */
  lemma SpaceInShift(s: string, t: string, n: int)
    requires |s| > 0 && IsSpace(s[0]) && t == s[1..]
    requires SpaceIn(t, 0, n)
    ensures SpaceIn(s, 0, n + 1)
  {
    forall x | 0 < x < n + 1
      ensures IsSpace(s[x])
    {
      assert s[x] == t[x - 1];
    }
  }

  /** `r` is the slice of `s` starting at `a`, with whitespace only on
      either side of it. */
  predicate TrimmedAt(s: string, r: string, a: int) {
    0 <= a <= |s| - |r| && r == s[a..a + |r|] && SpaceIn(s, 0, a) && SpaceIn(s, a + |r|, |s|)
  }

  /** `str.strip()`: `s` without its leading and trailing whitespace. */
  function Strip(s: string): (r: string)
    ensures |r| == 0 || (!IsSpace(r[0]) && !IsSpace(r[|r| - 1]))
    ensures exists a :: TrimmedAt(s, r, a)
  {
    var t := RStrip(s);
    var r := LStrip(t);
    StripSlices(s, t, r);
    r
  }

  /** Where the stripped text lies in `s`, and that its last character is
      the last one `str.rstrip()` kept. */
  lemma StripSlices(s: string, t: string, r: string)
    requires |t| <= |s| && t == s[..|t|] && SpaceIn(s, |t|, |s|)
    requires |t| == 0 || !IsSpace(t[|t| - 1])
    requires |r| <= |t| && r == t[|t| - |r|..] && SpaceIn(t, 0, |t| - |r|)
    ensures TrimmedAt(s, r, |t| - |r|)
    ensures |r| == 0 || !IsSpace(r[|r| - 1])
  {
    var a := |t| - |r|;
    assert forall x :: 0 <= x < |t| ==> t[x] == s[x];
    assert r == s[a..a + |r|];
    if |r| > 0 {
      assert r[|r| - 1] == t[|t| - 1];
    }
  }

  /** Stripping is idempotent. */
  lemma StripIdempotent(s: string)
    ensures Strip(Strip(s)) == Strip(s)
  {
    var r := Strip(s);
    assert RStrip(r) == r;
    assert LStrip(r) == r;
  }

  /** A string that neither starts nor ends with whitespace is its own
      stripped form. */
  lemma StripUnchanged(s: string)
    requires |s| == 0 || (!IsSpace(s[0]) && !IsSpace(s[|s| - 1]))
    ensures Strip(s) == s
  {
    var r := Strip(s);
    var a :| TrimmedAt(s, r, a);
  }

  /** A string strips to the empty string exactly when it is all
      whitespace. */
  lemma BlankIffStripsToEmpty(s: string)
    ensures Strip(s) == [] <==> AllSpace(s)
  {
    var t := RStrip(s);
    var r := LStrip(t);
    assert forall x :: 0 <= x < |t| ==> t[x] == s[x];
    if r != [] {
      assert r[0] == t[|t| - |r|];
    }
  }

  /** The end of the maximal run of whitespace starting at `i`. */
  function SpaceRunEnd(s: string, i: nat): (e: nat)
    requires i <= |s|
    ensures i <= e <= |s|
    ensures SpaceIn(s, i, e)
    ensures e == |s| || !IsSpace(s[e])
    decreases |s| - i
  {
    if i < |s| && IsSpace(s[i]) then SpaceRunEnd(s, i + 1) else i
  }

  /** The end of the maximal run of ASCII digits starting at `i`. */
  function DigitRunEnd(s: string, i: nat): (e: nat)
    requires i <= |s|
    ensures i <= e <= |s|
    ensures DigitIn(s, i, e)
    ensures e == |s| || !IsDigit(s[e])
    decreases |s| - i
  {
    if i < |s| && IsDigit(s[i]) then DigitRunEnd(s, i + 1) else i
  }

  /** The end of the maximal run of non-whitespace characters starting at
      `i`: what a greedy `\S+` consumes. */
  function TokenEnd(s: string, i: nat): (e: nat)
    requires i <= |s|
    ensures i <= e <= |s|
    ensures NoSpaceIn(s, i, e)
    ensures e == |s| || IsSpace(s[e])
    decreases |s| - i
  {
    if i < |s| && !IsSpace(s[i]) then TokenEnd(s, i + 1) else i
  }

  /** A maximal run is determined by where it stops: a run of whitespace
      from `i` that stops at a non-space character at `e` is the one
      `SpaceRunEnd` finds. */
  lemma {:induction false} SpaceRunEndUnique(s: string, i: nat, e: nat)
    requires SpaceIn(s, i, e)
    requires e == |s| || !IsSpace(s[e])
    ensures SpaceRunEnd(s, i) == e
    decreases e - i
  {
    if i < e {
      SpaceRunEndUnique(s, i + 1, e);
    }
  }

  /** As `SpaceRunEndUnique`, for digit runs. */
  lemma {:induction false} DigitRunEndUnique(s: string, i: nat, e: nat)
    requires DigitIn(s, i, e)
    requires e == |s| || !IsDigit(s[e])
    ensures DigitRunEnd(s, i) == e
    decreases e - i
  {
    if i < e {
      DigitRunEndUnique(s, i + 1, e);
    }
  }

  /** As `SpaceRunEndUnique`, for runs of non-whitespace. */
  lemma {:induction false} TokenEndUnique(s: string, i: nat, e: nat)
    requires NoSpaceIn(s, i, e)
    requires e == |s| || IsSpace(s[e])
    ensures TokenEnd(s, i) == e
    decreases e - i
  {
    if i < e {
      TokenEndUnique(s, i + 1, e);
    }
  }

  /** The numeric value of the ASCII digits `s[i..j]`, most significant
      first. */
  function NumberIn(s: string, i: int, j: int): (v: nat)
    requires DigitIn(s, i, j)
    ensures j - i == 1 ==> v <= 9
    ensures j - i == 2 ==> v <= 99
    decreases j - i
  {
    if i == j then 0 else NumberIn(s, i, j - 1) * 10 + (s[j - 1] as int - '0' as int)
  }

  /** Equal digits have equal values, wherever they stand. */
  lemma {:induction false} NumberInEqual(s: string, i: int, t: string, a: int, n: int)
    requires 0 <= n && DigitIn(s, i, i + n) && 0 <= a && a + n <= |t|
    requires forall x :: a <= x < a + n ==> t[x] == s[i + (x - a)]
    ensures DigitIn(t, a, a + n) && NumberIn(t, a, a + n) == NumberIn(s, i, i + n)
    decreases n
  {
    if n > 0 {
      NumberInEqual(s, i, t, a, n - 1);
    }
  }
}
