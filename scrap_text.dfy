/**
 * The text handling of scrap.py: `clean_title` (lines 38-42), the two date
 * patterns used on a performance's date cell (lines 67-68 and 97-103) and
 * `str.capitalize` on the genre cell (line 105).
 *
 * `\d`, `\w` and `\b` are taken over ASCII: a digit is `0`-`9` and a word
 * character is an ASCII letter, digit or `_`.
 */
module ScrapText {
  import opened Results
  import opened PyText

  // ---------------------------------------------------------------------------
  // clean_title
  // ---------------------------------------------------------------------------

  /** `s[..n]` matches `\s*\d+\s+` (a leading number and the whitespace after it). */
  ghost predicate NumberPrefixAt(s: string, n: nat) {
    exists a: nat, b: nat :: SpaceRun(s, 0, a) && DigitRun(s, a, b) && b < n && SpaceRun(s, b, n)
  }

  /** `s[..n]` is the longest prefix of `s` that matches the number pattern. */
  ghost predicate LongestNumberPrefix(s: string, n: nat) {
    n <= |s| && NumberPrefixAt(s, n) && forall m :: n < m <= |s| ==> !NumberPrefixAt(s, m)
  }

  /** Where the anchored, greedy match of `\s*\d+\s+` ends, if it matches at all. */
  function NumberPrefixEnd(s: string): (r: Option<nat>)
    ensures r.Some? ==> 0 < r.value <= |s|
  {
    var a := SpanSpace(s, 0);
    var b := SpanDigits(s, a);
    if b == a then None
    else
      var c := SpanSpace(s, b);
      if c == b then None else Some(c)
  }

  /** The end found is a match. */
  lemma NumberPrefixEndSound(s: string)
    requires NumberPrefixEnd(s).Some?
    ensures NumberPrefixAt(s, NumberPrefixEnd(s).value)
  {
    var a := SpanSpace(s, 0);
    var b := SpanDigits(s, a);
    assert SpaceRun(s, 0, a) && DigitRun(s, a, b);
  }

  /** Every match ends at or before the greedy end. */
  lemma NumberPrefixEndLongest(s: string, m: nat)
    requires NumberPrefixAt(s, m)
    ensures NumberPrefixEnd(s).Some? && m <= NumberPrefixEnd(s).value
  {
    var a: nat, b: nat :| SpaceRun(s, 0, a) && DigitRun(s, a, b) && b < m && SpaceRun(s, b, m);
    SpaceRunEnd(s, 0, a);
    DigitRunEnd(s, a, b);
    SpaceRunWithin(s, b, m);
  }

  lemma GreedyNumberIsLongest(s: string)
    requires NumberPrefixEnd(s).Some?
    ensures LongestNumberPrefix(s, NumberPrefixEnd(s).value)
  {
    NumberPrefixEndSound(s);
    forall m | NumberPrefixEnd(s).value < m <= |s|
      ensures !NumberPrefixAt(s, m)
    {
      if NumberPrefixAt(s, m) {
        NumberPrefixEndLongest(s, m);
      }
    }
  }

  /** `re.sub(r"^\s*\d+\s+", "", t)`. */
  function DropNumberPrefix(t: string): (r: string)
    ensures |r| <= |t| && r == t[|t| - |r|..]
    ensures NumberPrefixEnd(t).None? ==> r == t
    ensures NumberPrefixEnd(t).Some? ==> LongestNumberPrefix(t, |t| - |r|)
  {
    match NumberPrefixEnd(t)
    case None => t
    case Some(n) =>
      GreedyNumberIsLongest(t);
      t[n..]
  }

  /** `clean_title`: drop a leading track number, delete every `(...)` group, trim. */
  function CleanTitle(t: string): (r: string)
    ensures NoEdgeSpace(r)
    ensures NoParenGroup(r)
    ensures |r| <= |t|
  {
    var u := RemoveParenGroups(DropNumberPrefix(t));
    StripNoParenGroup(u);
    Strip(u)
  }

  /** Trimming cannot create a parenthesised group. */
  lemma StripNoParenGroup(s: string)
    requires NoParenGroup(s)
    ensures NoParenGroup(Strip(s))
  {
    var i, j := StripSlice(s);
    NoParenGroupSlice(s, i, j);
  }

  /**
   * A leading number goes, with the whitespace around it, exactly when
   * whitespace follows it; the longest such prefix goes. Then every
   * parenthesised group is deleted and the rest trimmed.
   */
  lemma CleanTitleMeaning(t: string)
    ensures (forall n :: !NumberPrefixAt(t, n)) ==> CleanTitle(t) == Strip(RemoveParenGroups(t))
    ensures (exists n :: NumberPrefixAt(t, n)) ==>
              exists e: nat :: LongestNumberPrefix(t, e) && CleanTitle(t) == Strip(RemoveParenGroups(t[e..]))
  {
    if NumberPrefixEnd(t).Some? {
      GreedyNumberIsLongest(t);
    } else if exists n :: NumberPrefixAt(t, n) {
      var n :| NumberPrefixAt(t, n);
      NumberPrefixEndLongest(t, n);
    }
  }

  /** Number and separator, but no whitespace before the title: nothing is dropped. */
  lemma NumberNeedsSpace(t: string, k: nat)
    requires 0 < k < |t| && forall i :: 0 <= i < k ==> IsDigit(t[i])
    requires !IsSpace(t[k]) && !IsDigit(t[k])
    ensures forall n :: !NumberPrefixAt(t, n)
  {
    assert SpanSpace(t, 0) == 0;
    DigitRunEnd(t, 0, k);
    assert SpanSpace(t, k) == k;
    assert NumberPrefixEnd(t).None?;
    forall n | NumberPrefixAt(t, n)
      ensures false
    {
      NumberPrefixEndLongest(t, n);
    }
  }

  /** The example of the source's documentation. */
  lemma CleanTitleExample()
    ensures CleanTitle("01 La Cumparsita (Tango)") == "La Cumparsita"
  {
    var v := "La Cumparsita ";
    ExampleNumber();
    ExampleParens(v);
    ExampleStrip(v);
  }

  lemma ExampleNumber()
    ensures DropNumberPrefix("01 La Cumparsita (Tango)") == "La Cumparsita (Tango)"
  {
    var t := "01 La Cumparsita (Tango)";
    assert SpanSpace(t, 0) == 0;
    DigitRunEnd(t, 0, 2);
    SpaceRunEnd(t, 2, 3);
  }

  lemma ExampleParens(v: string)
    requires v == "La Cumparsita "
    ensures RemoveParenGroups("La Cumparsita (Tango)") == v
  {
    var g := "(Tango)";
    assert IndexOf(g[1..], ')') == 5;
    assert RemoveParenGroups(g) == [];
    RemoveParenGroupsConcat(v, g);
    assert v + g == "La Cumparsita (Tango)";
  }

  lemma ExampleStrip(v: string)
    requires v == "La Cumparsita "
    ensures Strip(v) == "La Cumparsita"
  {
    assert TrimLeft(v) == v;
    assert v[..|v| - 1] == "La Cumparsita";
    assert TrimRight(v) == "La Cumparsita";
  }

  // ---------------------------------------------------------------------------
  // The date patterns \b(19|20)\d{2}-\d{2}-\d{2}\b and \b(19|20)\d{2}\b
  // ---------------------------------------------------------------------------

  /** The class `\w`, over ASCII. */
  predicate IsWordChar(c: char) {
    'a' <= c <= 'z' || 'A' <= c <= 'Z' || '0' <= c <= '9' || c == '_'
  }

  /** `\b` before a word character at `i`: nothing, or a non-word character, precedes it. */
  predicate WordStartAt(s: string, i: nat)
    requires i <= |s|
  {
    i == 0 || !IsWordChar(s[i - 1])
  }

  /** `\b` after a word character that ends at `j`. */
  predicate WordEndAt(s: string, j: nat)
    requires j <= |s|
  {
    j == |s| || !IsWordChar(s[j])
  }

  /** A year of the 1900s or 2000s (`(19|20)\d{2}`) at `s[i..i + 4]`. */
  predicate YearDigitsAt(s: string, i: nat)
    requires i + 4 <= |s|
  {
    ((s[i] == '1' && s[i + 1] == '9') || (s[i] == '2' && s[i + 1] == '0')) &&
    IsDigit(s[i + 2]) && IsDigit(s[i + 3])
  }

  /** `\b(19|20)\d{2}-\d{2}-\d{2}\b` matches at `i`. */
  predicate FullDateAt(s: string, i: nat) {
    i + 10 <= |s| && YearDigitsAt(s, i) &&
    s[i + 4] == '-' && IsDigit(s[i + 5]) && IsDigit(s[i + 6]) &&
    s[i + 7] == '-' && IsDigit(s[i + 8]) && IsDigit(s[i + 9]) &&
    WordStartAt(s, i) && WordEndAt(s, i + 10)
  }

  /** `\b(19|20)\d{2}\b` matches at `i`. */
  predicate YearAt(s: string, i: nat) {
    i + 4 <= |s| && YearDigitsAt(s, i) && WordStartAt(s, i) && WordEndAt(s, i + 4)
  }

  /** `re.search` for the full date from `from` on: the leftmost match. */
  function FirstFullDate(s: string, from: nat): (r: Option<nat>)
    requires from <= |s|
    ensures r.None? ==> forall i :: from <= i ==> !FullDateAt(s, i)
    ensures r.Some? ==> from <= r.value && FullDateAt(s, r.value)
    ensures r.Some? ==> forall i :: from <= i < r.value ==> !FullDateAt(s, i)
    decreases |s| - from
  {
    if FullDateAt(s, from) then Some(from)
    else if from == |s| then None
    else FirstFullDate(s, from + 1)
  }

  /** `re.search` for the year from `from` on: the leftmost match. */
  function FirstYear(s: string, from: nat): (r: Option<nat>)
    requires from <= |s|
    ensures r.None? ==> forall i :: from <= i ==> !YearAt(s, i)
    ensures r.Some? ==> from <= r.value && YearAt(s, r.value)
    ensures r.Some? ==> forall i :: from <= i < r.value ==> !YearAt(s, i)
    decreases |s| - from
  {
    if YearAt(s, from) then Some(from)
    else if from == |s| then None
    else FirstYear(s, from + 1)
  }

  /** The recording date of a date cell: a full date if there is one, else a year, else empty. */
  function ExtractDate(cell: string): (r: string)
    ensures r == [] || |r| == 10 || |r| == 4
    ensures r != [] ==> (r[..2] == "19" || r[..2] == "20")
  {
    match FirstFullDate(cell, 0)
    case Some(i) => cell[i..i + 10]
    case None =>
      match FirstYear(cell, 0)
      case Some(i) => cell[i..i + 4]
      case None => []
  }

  /**
   * The date is the leftmost full `YYYY-MM-DD` match if there is one; else
   * the leftmost year; else the empty string, when the cell holds neither.
   */
  lemma ExtractDateMeaning(cell: string) returns (i: nat)
    ensures (exists k :: FullDateAt(cell, k)) ==>
              FullDateAt(cell, i) && ExtractDate(cell) == cell[i..i + 10] &&
              forall k :: 0 <= k < i ==> !FullDateAt(cell, k)
    ensures (forall k :: !FullDateAt(cell, k)) && (exists k :: YearAt(cell, k)) ==>
              YearAt(cell, i) && ExtractDate(cell) == cell[i..i + 4] &&
              forall k :: 0 <= k < i ==> !YearAt(cell, k)
    ensures (forall k :: !FullDateAt(cell, k)) && (forall k :: !YearAt(cell, k)) ==> ExtractDate(cell) == []
  {
    match FirstFullDate(cell, 0)
    case Some(k) => i := k;
    case None =>
      match FirstYear(cell, 0)
      case Some(k) => i := k;
      case None => i := 0;
  }

  /** A cell holding only a full date gives that date. */
  lemma ExtractDateExample()
    ensures ExtractDate("1938-12-20") == "1938-12-20"
    ensures ExtractDate("c. 1941") == "1941"
    ensures ExtractDate("18") == ""
  {
    assert FullDateAt("1938-12-20", 0);
    var y := "c. 1941";
    assert !FullDateAt(y, 0) && !FullDateAt(y, 1);
    assert FirstFullDate(y, 0) == None;
    assert !YearAt(y, 0) && !YearAt(y, 1) && !YearAt(y, 2) && YearAt(y, 3);
    assert FirstYear(y, 0) == Some(3);
  }

  // ---------------------------------------------------------------------------
  // str.capitalize
  // ---------------------------------------------------------------------------

  /** `str.capitalize` on ASCII letters: the first character upper case, the rest lower case. */
  function Capitalize(s: string): (r: string)
    ensures |r| == |s|
    ensures r != [] ==> r[0] == AsciiUpper(s[0])
    ensures forall i :: 1 <= i < |s| ==> r[i] == AsciiLower(s[i])
  {
    if s == [] then [] else [AsciiUpper(s[0])] + LowerAscii(s[1..])
  }

  /** Capitalising twice is capitalising once. */
  lemma CapitalizeIdempotent(s: string)
    ensures Capitalize(Capitalize(s)) == Capitalize(s)
  {
    var r := Capitalize(s);
    var rr := Capitalize(r);
    assert forall i :: 0 <= i < |r| ==> rr[i] == r[i];
  }
}
