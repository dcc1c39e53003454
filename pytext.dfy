/**
 * The parts of Python's `str` behaviour and of its `re` patterns that both
 * scripts rely on: whitespace as `str.isspace`, `\s` and `str.strip` see it,
 * ASCII case mapping, runs of spaces and digits, substring search, and the
 * parenthesis-group deletion `re.sub(r"\([^)]*\)", "", s)`.
 */
module PyText {

  /** Python's whitespace set (`str.isspace`, the regex class `\s` and `str.strip()` agree on it). */
  predicate IsSpace(c: char) {
    c == ' ' || ('\t' <= c <= '\r') || ('\U{1c}' <= c <= '\U{1f}') ||
    c == '\U{85}' || c == '\U{a0}' || c == '\U{1680}' ||
    ('\U{2000}' <= c <= '\U{200a}') || c == '\U{2028}' || c == '\U{2029}' ||
    c == '\U{202f}' || c == '\U{205f}' || c == '\U{3000}'
  }

  /** The regex class `\d`, restricted to ASCII digits. */
  predicate IsDigit(c: char) {
    '0' <= c <= '9'
  }

  /** The ASCII letters in alphabetical order, as tables for the two case mappings. */
  const LowerLetters: string := "abcdefghijklmnopqrstuvwxyz"
  const UpperLetters: string := "ABCDEFGHIJKLMNOPQRSTUVWXYZ"

  /** Lower-casing of one ASCII character: each capital letter becomes the small letter at the same place in the alphabet. */
  function AsciiLower(c: char): (r: char)
    ensures 'A' <= c <= 'Z' ==> r == LowerLetters[c as int - 'A' as int]
    ensures !('A' <= c <= 'Z') ==> r == c
  {
    if 'A' <= c <= 'Z' then (c as int + 32) as char else c
  }

  /** Upper-casing of one ASCII character: each small letter becomes the capital letter at the same place in the alphabet. */
  function AsciiUpper(c: char): (r: char)
    ensures 'a' <= c <= 'z' ==> r == UpperLetters[c as int - 'a' as int]
    ensures !('a' <= c <= 'z') ==> r == c
  {
    if 'a' <= c <= 'z' then (c as int - 32) as char else c
  }

  /** `str.lower()` on the ASCII letters; every other character is kept. */
  function LowerAscii(s: string): (r: string)
    ensures |r| == |s|
    ensures forall i :: 0 <= i < |s| ==> r[i] == AsciiLower(s[i])
  {
    seq(|s|, i requires 0 <= i < |s| => AsciiLower(s[i]))
  }

  /** No whitespace at either end: what `str.strip()` guarantees of its result. */
  predicate NoEdgeSpace(s: string) {
    s == [] || (!IsSpace(s[0]) && !IsSpace(s[|s| - 1]))
  }

  /** `str.lstrip()`: the suffix left after dropping every leading whitespace character. */
  function TrimLeft(s: string): (r: string)
    ensures |r| <= |s|
    ensures r != [] ==> !IsSpace(r[0])
  {
    if s != [] && IsSpace(s[0]) then TrimLeft(s[1..]) else s
  }

  /** What `TrimLeft` drops is whitespace, and what it keeps is a suffix. */
  lemma {:induction false} TrimLeftSlice(s: string)
    ensures TrimLeft(s) == s[|s| - |TrimLeft(s)|..]
    ensures forall k :: 0 <= k < |s| - |TrimLeft(s)| ==> IsSpace(s[k])
  {
    if s != [] && IsSpace(s[0]) {
      TrimLeftSlice(s[1..]);
    }
  }

  /** `str.rstrip()`: the prefix left after dropping every trailing whitespace character. */
  function TrimRight(s: string): (r: string)
    ensures |r| <= |s|
    ensures r != [] ==> !IsSpace(r[|r| - 1]) && r[0] == s[0]
  {
    if s != [] && IsSpace(s[|s| - 1]) then TrimRight(s[..|s| - 1]) else s
  }

  /** What `TrimRight` drops is whitespace, and what it keeps is a prefix. */
  lemma {:induction false} TrimRightSlice(s: string)
    ensures TrimRight(s) == s[..|TrimRight(s)|]
    ensures forall k :: |TrimRight(s)| <= k < |s| ==> IsSpace(s[k])
  {
    if s != [] && IsSpace(s[|s| - 1]) {
      TrimRightSlice(s[..|s| - 1]);
    }
  }

  /** `str.strip()`. */
  function Strip(s: string): (r: string)
    ensures NoEdgeSpace(r)
    ensures |r| <= |s|
  {
    TrimRight(TrimLeft(s))
  }

  /** `Strip(s)` is the slice of `s` between a run of leading and a run of trailing whitespace. */
  lemma StripSlice(s: string) returns (i: nat, j: nat)
    ensures i <= j <= |s| && Strip(s) == s[i..j]
    ensures forall k :: 0 <= k < i ==> IsSpace(s[k])
    ensures forall k :: j <= k < |s| ==> IsSpace(s[k])
  {
    var t := TrimLeft(s);
    TrimLeftSlice(s);
    TrimRightSlice(t);
    i := |s| - |t|;
    j := i + |TrimRight(t)|;
    assert t == s[i..];
    assert s[i..j] == t[..j - i];
    forall k | j <= k < |s|
      ensures IsSpace(s[k])
    {
      assert s[k] == t[k - i];
    }
  }

  /** Stripping text that already has no edge whitespace changes nothing. */
  lemma StripFixed(s: string)
    requires NoEdgeSpace(s)
    ensures Strip(s) == s
  {
    if s != [] {
      assert TrimLeft(s) == s;
      assert TrimRight(s) == s;
    }
  }

  /** The end of the run of whitespace that starts at `i` (the greedy `\s*` from `i`). */
  function SpanSpace(s: string, i: nat): (j: nat)
    requires i <= |s|
    ensures i <= j <= |s|
    ensures forall k :: i <= k < j ==> IsSpace(s[k])
    ensures j < |s| ==> !IsSpace(s[j])
    decreases |s| - i
  {
    if i < |s| && IsSpace(s[i]) then SpanSpace(s, i + 1) else i
  }

  /** The end of the run of digits that starts at `i` (the greedy `\d*` from `i`). */
  function SpanDigits(s: string, i: nat): (j: nat)
    requires i <= |s|
    ensures i <= j <= |s|
    ensures forall k :: i <= k < j ==> IsDigit(s[k])
    ensures j < |s| ==> !IsDigit(s[j])
    decreases |s| - i
  {
    if i < |s| && IsDigit(s[i]) then SpanDigits(s, i + 1) else i
  }

  /** `s[lo..hi]` is all whitespace (possibly empty). */
  predicate SpaceRun(s: string, lo: nat, hi: nat) {
    lo <= hi <= |s| && forall k :: lo <= k < hi ==> IsSpace(s[k])
  }

  /** `s[lo..hi]` is a non-empty run of digits. */
  predicate DigitRun(s: string, lo: nat, hi: nat) {
    lo < hi <= |s| && forall k :: lo <= k < hi ==> IsDigit(s[k])
  }

  /** A whitespace run that stops before a non-space character ends where the greedy span does. */
  lemma SpaceRunEnd(s: string, lo: nat, hi: nat)
    requires SpaceRun(s, lo, hi) && (hi < |s| ==> !IsSpace(s[hi]))
    ensures SpanSpace(s, lo) == hi
  {
  }

  /** Any whitespace run from `lo` ends at or before the greedy span. */
  lemma SpaceRunWithin(s: string, lo: nat, hi: nat)
    requires SpaceRun(s, lo, hi)
    ensures hi <= SpanSpace(s, lo)
  {
  }

  /** A digit run that stops before a non-digit ends where the greedy span does. */
  lemma DigitRunEnd(s: string, lo: nat, hi: nat)
    requires DigitRun(s, lo, hi) && (hi < |s| ==> !IsDigit(s[hi]))
    ensures SpanDigits(s, lo) == hi
  {
  }

  /** Python's `sub in s`. */
  predicate Contains(s: string, sub: string) {
    exists i | 0 <= i <= |s| - |sub| :: OccursAt(s, sub, i)
  }

  /** `sub` occurs in `s` starting at index `i`. */
  predicate OccursAt(s: string, sub: string, i: int) {
    0 <= i <= |s| - |sub| && s[i..i + |sub|] == sub
  }

  /** A word with no whitespace in it occurs in `s` exactly when it occurs in `s.strip()`. */
  lemma ContainsStrip(s: string, w: string)
    requires w != [] && forall k :: 0 <= k < |w| ==> !IsSpace(w[k])
    ensures Contains(Strip(s), w) <==> Contains(s, w)
  {
    var i, j := StripSlice(s);
    if Contains(Strip(s), w) {
      var p :| OccursAt(Strip(s), w, p);
      InfixOccurs(s, i, j, w, p);
    }
    if Contains(s, w) {
      var p :| OccursAt(s, w, p);
      OccursInsideStrip(s, i, j, w, p);
    }
  }

  lemma InfixOccurs(s: string, i: nat, j: nat, w: string, p: int)
    requires i <= j <= |s| && OccursAt(s[i..j], w, p)
    ensures OccursAt(s, w, i + p)
  {
    assert 0 <= p && p + |w| <= j - i;
    forall k | 0 <= k < |w|
      ensures s[i + p..i + p + |w|][k] == w[k]
    {
      assert s[i..j][p..p + |w|][k] == w[k];
    }
  }

  lemma OccursInsideStrip(s: string, i: nat, j: nat, w: string, p: int)
    requires i <= j <= |s|
    requires forall k :: 0 <= k < i ==> IsSpace(s[k])
    requires forall k :: j <= k < |s| ==> IsSpace(s[k])
    requires w != [] && forall k :: 0 <= k < |w| ==> !IsSpace(w[k])
    requires OccursAt(s, w, p)
    ensures OccursAt(s[i..j], w, p - i)
  {
    var q := p + |w| - 1;
    assert s[p] == s[p..p + |w|][0] == w[0];
    assert s[q] == s[p..p + |w|][|w| - 1] == w[|w| - 1];
    assert i <= p && p + |w| <= j;
    forall k | 0 <= k < |w|
      ensures s[i..j][p - i..p - i + |w|][k] == w[k]
    {
      assert s[p..p + |w|][k] == w[k];
    }
  }

  /** The index of the first `c` in `s`. */
  function IndexOf(s: string, c: char): (i: nat)
    requires c in s
    ensures i < |s| && s[i] == c && c !in s[..i]
  {
    if s[0] == c then 0 else IndexOf(s[1..], c) + 1
  }

  /** No `(` is followed, anywhere later, by a `)`: no `\([^)]*\)` match is left. */
  predicate NoParenGroup(s: string) {
    forall i, j :: 0 <= i < j < |s| && s[i] == '(' ==> s[j] != ')'
  }

  /**
   * `re.sub(r"\([^)]*\)", "", s)`: scanning left to right, every `(` that has
   * a `)` somewhere after it is deleted together with everything up to and
   * including the first such `)`; a `(` with no `)` after it is kept.
   */
  function RemoveParenGroups(s: string): (r: string)
    ensures |r| <= |s|
    ensures forall k :: 0 <= k < |r| ==> r[k] in s
    ensures NoParenGroup(r)
    decreases |s|
  {
    if s == [] then []
    else if s[0] == '(' && ')' in s[1..] then
      RemoveParenGroups(s[IndexOf(s[1..], ')') + 2..])
    else
      var rest := RemoveParenGroups(s[1..]);
      assert forall k :: 0 <= k < |rest| ==> rest[k] in s[1..];
      [s[0]] + rest
  }

  /** Text without a complete parenthesised group goes through the deletion unchanged. */
  lemma {:induction false} RemoveParenGroupsFixed(s: string)
    requires NoParenGroup(s)
    ensures RemoveParenGroups(s) == s
    decreases |s|
  {
    if s != [] {
      RemoveParenGroupsFixed(s[1..]);
    }
  }

  /** The deletion is idempotent. */
  lemma RemoveParenGroupsIdempotent(s: string)
    ensures RemoveParenGroups(RemoveParenGroups(s)) == RemoveParenGroups(s)
  {
    RemoveParenGroupsFixed(RemoveParenGroups(s));
  }

  /** Text without parentheses goes through the deletion unchanged, whatever follows it. */
  lemma {:induction false} RemoveParenGroupsConcat(a: string, b: string)
    requires '(' !in a && ')' !in a
    ensures RemoveParenGroups(a + b) == a + RemoveParenGroups(b)
  {
    if a == [] {
      assert a + b == b;
    } else {
      assert a + b == [a[0]] + (a[1..] + b);
      RemoveParenGroupsCons(a[0], a[1..] + b);
      RemoveParenGroupsConcat(a[1..], b);
      assert [a[0]] + (a[1..] + RemoveParenGroups(b)) == a + RemoveParenGroups(b);
    }
  }

  /** A first character other than `(` is kept. */
  lemma RemoveParenGroupsCons(c: char, t: string)
    requires c != '('
    ensures RemoveParenGroups([c] + t) == [c] + RemoveParenGroups(t)
  {
    assert ([c] + t)[1..] == t;
  }

  /** A leading group `(g)`, where `g` holds no `)`, is deleted whole and the rest is processed as on its own. */
  lemma RemoveParenGroupsGroup(g: string, b: string)
    requires ')' !in g
    ensures RemoveParenGroups("(" + g + ")" + b) == RemoveParenGroups(b)
  {
    var s := "(" + g + ")" + b;
    assert s[1..] == g + ")" + b;
    assert s[1..][|g|] == ')';
    assert s[1..][..|g|] == g;
    assert s[|g| + 2..] == b;
  }

  /** A `(` with no `)` after it is kept, together with the rest. */
  lemma OpenParenKept(b: string)
    requires ')' !in b
    ensures RemoveParenGroups("(" + b) == "(" + b
  {
    var s := "(" + b;
    forall i, j | 0 <= i < j < |s| && s[i] == '('
      ensures s[j] != ')'
    {
      assert s[j] == b[j - 1];
    }
    RemoveParenGroupsFixed(s);
  }

  /** A slice of text without a complete parenthesised group has none either. */
  lemma NoParenGroupSlice(s: string, i: nat, j: nat)
    requires i <= j <= |s| && NoParenGroup(s)
    ensures NoParenGroup(s[i..j])
  {
    var t := s[i..j];
    forall a, b | 0 <= a < b < |t| && t[a] == '('
      ensures t[b] != ')'
    {
      assert t[a] == s[i + a] && t[b] == s[i + b];
    }
  }
}
