/**
 * Lookup keys derived from titles and file names (bpm.py lines 37-56):
 * `slugify`, `strip_track_number`, `base_title_from_stem` and
 * `slug_candidates`.
 */
module Slugs {
  import opened Results
  import opened PyText

  /**
   * What `unicodedata.normalize("NFD", c.lower())` yields for one non-ASCII
   * character. The Unicode case and decomposition tables are not part of this
   * model, so every operation that needs them takes this mapping as a parameter.
   * (For ASCII characters lowering is `AsciiLower` and NFD is the identity.)
   */
  type CharFold = char -> seq<char>

  /** The characters a key may contain: `[a-z0-9]`. */
  predicate IsSlugChar(c: char) {
    'a' <= c <= 'z' || '0' <= c <= '9'
  }

  predicate IsSlug(s: string) {
    forall i :: 0 <= i < |s| ==> IsSlugChar(s[i])
  }

  /** Lowering and canonical decomposition of one character. */
  function FoldChar(c: char, fold: CharFold): seq<char> {
    if c < '\U{80}' then [AsciiLower(c)] else fold(c)
  }

  /**
   * `unicodedata.normalize("NFD", text.lower())`, character by character.
   * Canonical reordering only moves combining marks, which are non-ASCII and
   * are dropped afterwards, so the character-wise form yields the same key.
   */
  function FoldText(s: string, fold: CharFold): string {
    if s == [] then [] else FoldChar(s[0], fold) + FoldText(s[1..], fold)
  }

  /** `.encode("ascii", "ignore")` followed by `re.sub(r"[^a-z0-9]+", "", ...)`. */
  function KeepSlugChars(s: string): (r: string)
    ensures IsSlug(r)
    ensures |r| <= |s|
  {
    if s == [] then []
    else (if IsSlugChar(s[0]) then [s[0]] else []) + KeepSlugChars(s[1..])
  }

  /** `slugify`: the lookup key of a text. */
  function Slugify(text: string, fold: CharFold): (r: string)
    ensures IsSlug(r)
  {
    KeepSlugChars(FoldText(text, fold))
  }

  lemma {:induction false} KeepSlugCharsFixed(s: string)
    requires IsSlug(s)
    ensures KeepSlugChars(s) == s
  {
    if s != [] {
      KeepSlugCharsFixed(s[1..]);
    }
  }

  lemma {:induction false} FoldTextFixed(s: string, fold: CharFold)
    requires IsSlug(s)
    ensures FoldText(s, fold) == s
  {
    if s != [] {
      FoldTextFixed(s[1..], fold);
    }
  }

  /** A key is its own key, and only keys are: `Slugify` is a projection onto `[a-z0-9]*`. */
  lemma SlugifyFixedPoint(s: string, fold: CharFold)
    ensures Slugify(s, fold) == s <==> IsSlug(s)
  {
    if IsSlug(s) {
      FoldTextFixed(s, fold);
      KeepSlugCharsFixed(s);
    }
  }

  /** Applying `slugify` to its own output changes nothing. */
  lemma SlugifyIdempotent(text: string, fold: CharFold)
    ensures Slugify(Slugify(text, fold), fold) == Slugify(text, fold)
  {
    SlugifyFixedPoint(Slugify(text, fold), fold);
  }

  lemma {:induction false} FoldTextConcat(a: string, b: string, fold: CharFold)
    ensures FoldText(a + b, fold) == FoldText(a, fold) + FoldText(b, fold)
  {
    if a != [] {
      assert (a + b)[0] == a[0] && (a + b)[1..] == a[1..] + b;
      FoldTextConcat(a[1..], b, fold);
      calc {
        FoldText(a + b, fold);
        FoldChar(a[0], fold) + FoldText(a[1..] + b, fold);
        FoldChar(a[0], fold) + (FoldText(a[1..], fold) + FoldText(b, fold));
        (FoldChar(a[0], fold) + FoldText(a[1..], fold)) + FoldText(b, fold);
      }
    } else {
      assert a + b == b;
    }
  }

  lemma {:induction false} KeepSlugCharsConcat(a: string, b: string)
    ensures KeepSlugChars(a + b) == KeepSlugChars(a) + KeepSlugChars(b)
  {
    if a != [] {
      assert (a + b)[0] == a[0] && (a + b)[1..] == a[1..] + b;
      KeepSlugCharsConcat(a[1..], b);
      var h := if IsSlugChar(a[0]) then [a[0]] else [];
      calc {
        KeepSlugChars(a + b);
        h + KeepSlugChars(a[1..] + b);
        h + (KeepSlugChars(a[1..]) + KeepSlugChars(b));
        (h + KeepSlugChars(a[1..])) + KeepSlugChars(b);
      }
    } else {
      assert a + b == b;
    }
  }

  /** Keys are computed character by character: the key of a concatenation is the concatenation of keys. */
  lemma SlugifyConcat(a: string, b: string, fold: CharFold)
    ensures Slugify(a + b, fold) == Slugify(a, fold) + Slugify(b, fold)
  {
    FoldTextConcat(a, b, fold);
    KeepSlugCharsConcat(FoldText(a, fold), FoldText(b, fold));
  }

  /** One character survives into a key exactly when it is a key character. */
  lemma KeepSlugCharsOne(c: char)
    ensures KeepSlugChars([c]) == (if IsSlugChar(c) then [c] else [])
  {
    assert [c][1..] == [];
  }

  /**
   * Text without a single key character has an empty key, whatever its
   * characters are: non-ASCII letters, combining marks and punctuation all go.
   */
  lemma {:induction false} KeepSlugCharsNone(s: string)
    requires forall i :: 0 <= i < |s| ==> !IsSlugChar(s[i])
    ensures KeepSlugChars(s) == []
  {
    if s != [] {
      KeepSlugCharsNone(s[1..]);
    }
  }

  /** A non-ASCII character contributes the key characters of its lowered, decomposed form. */
  lemma SlugifyNonAsciiChar(c: char, fold: CharFold)
    requires c >= '\U{80}'
    ensures Slugify([c], fold) == KeepSlugChars(fold(c))
  {
    assert [c][1..] == [];
    assert FoldText([c], fold) == FoldChar(c, fold) + FoldText([], fold);
    assert fold(c) + [] == fold(c);
  }

  /**
   * Diacritics are stripped: a non-ASCII letter whose decomposition is a key
   * character followed by combining marks (all non-ASCII) keys to that base
   * character alone.
   */
  lemma SlugifyAccented(c: char, fold: CharFold)
    requires c >= '\U{80}'
    requires |fold(c)| >= 1 && IsSlugChar(fold(c)[0])
    requires forall i :: 1 <= i < |fold(c)| ==> fold(c)[i] >= '\U{80}'
    ensures Slugify([c], fold) == [fold(c)[0]]
  {
    var f := fold(c);
    SlugifyNonAsciiChar(c, fold);
    assert f == [f[0]] + f[1..];
    KeepSlugCharsConcat([f[0]], f[1..]);
    KeepSlugCharsOne(f[0]);
    KeepSlugCharsNone(f[1..]);
  }

  /** With `é` decomposing to `e` and a combining acute accent, `Café` keys as `cafe`. */
  lemma CafeExample(fold: CharFold)
    requires fold('\U{E9}') == ['e', '\U{301}']
    ensures Slugify(['C'] + "af" + ['\U{E9}'], fold) == "cafe"
  {
    SlugifyWord('C', "af", fold);
    SlugifyAccented('\U{E9}', fold);
    SlugifyConcat(['C'] + "af", ['\U{E9}'], fold);
  }

  /** All characters of `s` are ASCII, so no Unicode table is needed for its key. */
  predicate IsAsciiText(s: string) {
    forall i :: 0 <= i < |s| ==> s[i] < '\U{80}'
  }

  lemma {:induction false} FoldTextAscii(s: string, fold: CharFold)
    requires IsAsciiText(s)
    ensures FoldText(s, fold) == LowerAscii(s)
  {
    if s != [] {
      FoldTextAscii(s[1..], fold);
      assert LowerAscii(s) == [AsciiLower(s[0])] + LowerAscii(s[1..]);
    }
  }

  /**
   * On ASCII text `slugify` is `lower()` followed by dropping every character
   * outside `[a-z0-9]`; the Unicode mapping plays no part.
   */
  lemma SlugifyAscii(s: string, fold: CharFold)
    requires IsAsciiText(s)
    ensures Slugify(s, fold) == KeepSlugChars(LowerAscii(s))
  {
    FoldTextAscii(s, fold);
  }

  /**
   * The key of one ASCII character is its lower-case form when that is a
   * letter or a digit, and nothing otherwise: capital and small letters give
   * the same key, and distinct letters give distinct keys.
   */
  lemma SlugifyAsciiChar(c: char, fold: CharFold)
    requires c < '\U{80}'
    ensures Slugify([c], fold) == (if IsSlugChar(AsciiLower(c)) then [AsciiLower(c)] else [])
  {
    SlugifyAscii([c], fold);
    assert LowerAscii([c]) == [AsciiLower(c)];
    assert [AsciiLower(c)][1..] == [];
  }

  /** The key of a word: its first letter lower-cased, followed by the rest, already a key. */
  lemma SlugifyWord(c: char, rest: string, fold: CharFold)
    requires 'A' <= c <= 'Z' && IsSlug(rest)
    ensures Slugify([c] + rest, fold) == [AsciiLower(c)] + rest
  {
    SlugifyConcat([c], rest, fold);
    SlugifyAsciiChar(c, fold);
    SlugifyFixedPoint(rest, fold);
  }

  lemma {:induction false} FoldTextLowerAscii(s: string, fold: CharFold)
    ensures FoldText(LowerAscii(s), fold) == FoldText(s, fold)
  {
    if s != [] {
      var t := LowerAscii(s);
      assert t[0] == AsciiLower(s[0]) && t[1..] == LowerAscii(s[1..]);
      FoldTextLowerAscii(s[1..], fold);
    }
  }

  /** Keys ignore ASCII case: a text and its lower-cased form have the same key. */
  lemma SlugifyIgnoresAsciiCase(s: string, fold: CharFold)
    ensures Slugify(LowerAscii(s), fold) == Slugify(s, fold)
  {
    FoldTextLowerAscii(s, fold);
  }

  /** ASCII text without letters or digits (spaces, dashes, dots, ...) contributes nothing to a key. */
  lemma {:induction false} SlugifyNoKeyChars(s: string, fold: CharFold)
    requires IsAsciiText(s)
    requires forall i :: 0 <= i < |s| ==> !IsSlugChar(AsciiLower(s[i]))
    ensures Slugify(s, fold) == []
  {
    if s != [] {
      SlugifyConcat([s[0]], s[1..], fold);
      assert [s[0]] + s[1..] == s;
      SlugifyAsciiChar(s[0], fold);
      SlugifyNoKeyChars(s[1..], fold);
    }
  }

  /** Keys of two texts whose keys are known, joined. */
  lemma SlugifyJoin(x: string, y: string, fold: CharFold, kx: string, ky: string)
    requires Slugify(x, fold) == kx && Slugify(y, fold) == ky
    ensures Slugify(x + y, fold) == kx + ky
  {
    SlugifyConcat(x, y, fold);
  }

  /** The key of two capitalised words separated by a space: both lowered, the space dropped. */
  lemma SlugifyTwoWords(c: char, r: string, d: char, t: string, fold: CharFold)
    requires 'A' <= c <= 'Z' && IsSlug(r) && 'A' <= d <= 'Z' && IsSlug(t)
    ensures Slugify(([c] + r) + " " + ([d] + t), fold) == ([AsciiLower(c)] + r) + ([AsciiLower(d)] + t)
  {
    var x, y := [c] + r, [d] + t;
    SlugifyWord(c, r, fold);
    SlugifyWord(d, t, fold);
    SpaceKey(fold);
    SlugifyJoin(x, " ", fold, Slugify(x, fold), []);
    SlugifyJoin(x + " ", y, fold, Slugify(x, fold), Slugify(y, fold));
  }

  /** A space has an empty key. */
  lemma SpaceKey(fold: CharFold)
    ensures Slugify(" ", fold) == []
  {
    SlugifyNoKeyChars(" ", fold);
  }

  /** A track number, ` - ` and a title: the key is the number followed by the key of the title. */
  lemma SlugifyNumbered(n: string, title: string, fold: CharFold)
    requires IsSlug(n)
    ensures Slugify(n + " - " + title, fold) == n + Slugify(title, fold)
  {
    SlugifyFixedPoint(n, fold);
    DashKey(fold);
    SlugifyJoin(n, " - ", fold, n, []);
    SlugifyJoin(n + " - ", title, fold, n, Slugify(title, fold));
  }

  /** A spaced dash has an empty key. */
  lemma DashKey(fold: CharFold)
    ensures Slugify(" - ", fold) == []
  {
    SlugifyNoKeyChars(" - ", fold);
  }

  /** The example title and stem, cut into their words and separators. */
  lemma ExampleParts()
    ensures "La Cumparsita" == (['L'] + "a") + " " + (['C'] + "umparsita")
    ensures "01 - La Cumparsita" == "01" + " - " + ((['L'] + "a") + " " + (['C'] + "umparsita"))
  {
  }

  /** The key of the example title, cut into words. */
  lemma ExampleTitleKey(fold: CharFold)
    ensures Slugify((['L'] + "a") + " " + (['C'] + "umparsita"), fold) == "lacumparsita"
  {
    SlugifyTwoWords('L', "a", 'C', "umparsita", fold);
    assert ([AsciiLower('L')] + "a") + ([AsciiLower('C')] + "umparsita") == "lacumparsita";
  }

  /** The key of a title: capitals are lowered and the space goes. */
  lemma TitleKeyExample(fold: CharFold)
    ensures Slugify("La Cumparsita", fold) == "lacumparsita"
  {
    ExampleTitleKey(fold);
    ExampleParts();
  }

  /** The key of the example stem, cut into number, separator and words. */
  lemma ExampleNumberedKey(fold: CharFold)
    ensures Slugify("01" + " - " + ((['L'] + "a") + " " + (['C'] + "umparsita")), fold) == "01lacumparsita"
  {
    ExampleTitleKey(fold);
    SlugifyNumbered("01", (['L'] + "a") + " " + (['C'] + "umparsita"), fold);
    assert "01" + "lacumparsita" == "01lacumparsita";
  }

  /** The key of a typical file stem: the track number stays, capitals are lowered, spaces and dashes go. */
  lemma SlugifyExample(fold: CharFold)
    ensures Slugify("01 - La Cumparsita", fold) == "01lacumparsita"
  {
    ExampleNumberedKey(fold);
    ExampleParts();
  }

  // ---------------------------------------------------------------------------
  // strip_track_number: re.sub(r"^\s*\d+\s*[-_. ]\s*", "", stem).strip()
  // ---------------------------------------------------------------------------

  /** The separator class `[-_. ]`. */
  predicate IsTrackSep(c: char) {
    c == '-' || c == '_' || c == '.' || c == ' '
  }

  /** `s[..n]` matches `\s*\d+\s*[-_. ]\s*` (a leading track number and its separator). */
  ghost predicate TrackPrefixAt(s: string, n: nat) {
    exists a: nat, b: nat, c: nat ::
      SpaceRun(s, 0, a) && DigitRun(s, a, b) && SpaceRun(s, b, c) &&
      c < n && SpaceRun(s, c + 1, n) && IsTrackSep(s[c])
  }

  /** `s[..n]` is the longest prefix of `s` that matches the track-number pattern. */
  ghost predicate LongestTrackPrefix(s: string, n: nat) {
    n <= |s| && TrackPrefixAt(s, n) && forall m :: n < m <= |s| ==> !TrackPrefixAt(s, m)
  }

  /**
   * Where the anchored, greedy match of the track-number pattern ends, if it
   * matches at all. The digit run is always taken whole; the separator is a
   * `-`, `_` or `.` right after the whitespace that follows the digits, or
   * else a space inside that whitespace.
   */
  function TrackPrefixEnd(s: string): (r: Option<nat>)
    ensures r.Some? ==> r.value <= |s|
  {
    var a := SpanSpace(s, 0);
    var b := SpanDigits(s, a);
    if b == a then None
    else
      var c := SpanSpace(s, b);
      if c < |s| && (s[c] == '-' || s[c] == '_' || s[c] == '.') then Some(SpanSpace(s, c + 1))
      else if ' ' in s[b..c] then Some(c)
      else None
  }

  /** The end found is a match. */
  lemma TrackPrefixEndSound(s: string)
    requires TrackPrefixEnd(s).Some?
    ensures TrackPrefixAt(s, TrackPrefixEnd(s).value)
  {
    var a := SpanSpace(s, 0);
    var b := SpanDigits(s, a);
    var c := SpanSpace(s, b);
    assert SpaceRun(s, 0, a) && DigitRun(s, a, b) && SpaceRun(s, b, c);
    if c < |s| && (s[c] == '-' || s[c] == '_' || s[c] == '.') {
      var n := SpanSpace(s, c + 1);
      assert SpaceRun(s, c + 1, n);
    } else {
      var k :| b <= k < c && s[k] == ' ';
      assert SpaceRun(s, b, k) && SpaceRun(s, k + 1, c) && IsTrackSep(s[k]);
    }
  }

  /**
   * Any match takes the greedy leading whitespace and the whole digit run;
   * only the position `c` of its separator is left to choose.
   */
  lemma TrackPrefixParts(s: string, m: nat) returns (c: nat)
    requires TrackPrefixAt(s, m)
    ensures var b := SpanDigits(s, SpanSpace(s, 0));
      && b > SpanSpace(s, 0) && SpaceRun(s, b, c)
      && c < m && SpaceRun(s, c + 1, m) && IsTrackSep(s[c])
  {
    var a: nat, b: nat, c': nat :| SpaceRun(s, 0, a) && DigitRun(s, a, b) && SpaceRun(s, b, c') &&
      c' < m && SpaceRun(s, c' + 1, m) && IsTrackSep(s[c']);
    SpaceRunEnd(s, 0, a);
    DigitRunEnd(s, a, b);
    c := c';
  }

  /** Every match ends at or before the greedy end: the greedy match is the longest one. */
  lemma TrackPrefixEndLongest(s: string, m: nat)
    requires TrackPrefixAt(s, m)
    ensures TrackPrefixEnd(s).Some? && m <= TrackPrefixEnd(s).value
  {
    var c := TrackPrefixParts(s, m);
    var b := SpanDigits(s, SpanSpace(s, 0));
    var k := SpanSpace(s, b);
    SpaceRunWithin(s, b, c);
    if s[c] == ' ' {
      if k < |s| && (s[k] == '-' || s[k] == '_' || s[k] == '.') {
        SpaceRunWithin(s, k + 1, k + 1);
      } else {
        assert s[b..k][c - b] == ' ';
        assert SpaceRun(s, b, m);
        SpaceRunWithin(s, b, m);
      }
    } else {
      SpaceRunEnd(s, b, c);
      SpaceRunWithin(s, c + 1, m);
    }
  }

  /** `strip_track_number`. */
  function StripTrackNumber(stem: string): (r: string)
    ensures NoEdgeSpace(r)
  {
    match TrackPrefixEnd(stem)
    case None => Strip(stem)
    case Some(n) => Strip(stem[n..])
  }

  /**
   * A leading digit run is removed, with its separator and surrounding
   * whitespace, exactly when a `-`, `_`, `.` or space follows it (after optional
   * whitespace); the longest such prefix goes. Otherwise the stem is only trimmed.
   */
  lemma StripTrackNumberMeaning(stem: string)
    ensures (forall n :: !TrackPrefixAt(stem, n)) ==> StripTrackNumber(stem) == Strip(stem)
    ensures (exists n :: TrackPrefixAt(stem, n)) ==>
              exists e: nat :: LongestTrackPrefix(stem, e) && StripTrackNumber(stem) == Strip(stem[e..])
  {
    if TrackPrefixEnd(stem).Some? {
      GreedyIsLongest(stem);
    } else if exists n :: TrackPrefixAt(stem, n) {
      var n :| TrackPrefixAt(stem, n);
      TrackPrefixEndLongest(stem, n);
    }
  }

  lemma GreedyIsLongest(stem: string)
    requires TrackPrefixEnd(stem).Some?
    ensures LongestTrackPrefix(stem, TrackPrefixEnd(stem).value)
  {
    var e := TrackPrefixEnd(stem).value;
    TrackPrefixEndSound(stem);
    forall m | e < m <= |stem|
      ensures !TrackPrefixAt(stem, m)
    {
      if TrackPrefixAt(stem, m) {
        TrackPrefixEndLongest(stem, m);
      }
    }
  }

  // ---------------------------------------------------------------------------
  // base_title_from_stem: re.split(r"[-–—]", strip_track_number(stem), maxsplit=1)[0].strip()
  // ---------------------------------------------------------------------------

  /** The dash class `[-–—]`: hyphen-minus, en dash, em dash. */
  predicate IsDash(c: char) {
    c == '-' || c == '\U{2013}' || c == '\U{2014}'
  }

  /** The first field of a split at the first dash. */
  function BeforeDash(s: string): (r: string)
    ensures |r| <= |s| && r == s[..|r|]
    ensures forall k :: 0 <= k < |r| ==> !IsDash(r[k])
    ensures |r| < |s| ==> IsDash(s[|r|])
  {
    if s == [] || IsDash(s[0]) then [] else [s[0]] + BeforeDash(s[1..])
  }

  /** `base_title_from_stem`. */
  function BaseTitleFromStem(stem: string): (r: string)
    ensures NoEdgeSpace(r)
    ensures forall k :: 0 <= k < |r| ==> !IsDash(r[k])
  {
    var head := BeforeDash(StripTrackNumber(stem));
    StripKeepsChars(head);
    Strip(head)
  }

  lemma StripKeepsChars(s: string)
    ensures forall k :: 0 <= k < |Strip(s)| ==> Strip(s)[k] in s
  {
    var i, j := StripSlice(s);
    forall k | 0 <= k < |Strip(s)|
      ensures Strip(s)[k] in s
    {
      assert Strip(s)[k] == s[i + k];
    }
  }

  /** The base title is the track-number-stripped stem up to its first dash, trimmed. */
  lemma BaseTitleIsHead(stem: string) returns (i: nat)
    ensures i <= |StripTrackNumber(stem)|
    ensures BaseTitleFromStem(stem) == Strip(StripTrackNumber(stem)[..i])
    ensures forall k :: 0 <= k < i ==> !IsDash(StripTrackNumber(stem)[k])
    ensures i < |StripTrackNumber(stem)| ==> IsDash(StripTrackNumber(stem)[i])
  {
    var t := StripTrackNumber(stem);
    var h := BeforeDash(t);
    i := |h|;
    assert h == t[..i];
    assert forall k :: 0 <= k < i ==> t[k] == h[k];
  }

  /** Text without any of the three dashes is its own first field. */
  lemma BeforeDashNoDash(s: string)
    requires forall k :: 0 <= k < |s| ==> !IsDash(s[k])
    ensures BeforeDash(s) == s
  {
    assert s[..|s|] == s;
  }

  /** Where the track-number match ends in a stem that starts like `01 - L`. */
  lemma ExampleTrackPrefixEnd(s: string)
    requires |s| >= 6 && s[0] == '0' && s[1] == '1' && s[2] == ' ' && s[3] == '-' && s[4] == ' ' && s[5] == 'L'
    ensures TrackPrefixEnd(s) == Some(5)
  {
    assert SpanSpace(s, 0) == 0 && SpanDigits(s, 2) == 2 && SpanDigits(s, 1) == 2 && SpanDigits(s, 0) == 2;
    assert SpanSpace(s, 3) == 3 && SpanSpace(s, 2) == 3;
    assert SpanSpace(s, 5) == 5 && SpanSpace(s, 4) == 5;
  }

  /** What is left of the example stem after its track number is already trimmed. */
  lemma ExampleTitleAfterNumber()
    ensures "01 - La Cumparsita"[5..] == "La Cumparsita"
    ensures Strip("La Cumparsita") == "La Cumparsita"
  {
  }

  /** The example title has no dash, so it is its own first field. */
  lemma ExampleTitleNoDash()
    ensures BeforeDash("La Cumparsita") == "La Cumparsita"
  {
    BeforeDashNoDash("La Cumparsita");
  }

  /** The track number and its separator go, and the title is kept: `01 - La Cumparsita` has base title `La Cumparsita`. */
  lemma BaseTitleExample()
    ensures StripTrackNumber("01 - La Cumparsita") == "La Cumparsita"
    ensures BaseTitleFromStem("01 - La Cumparsita") == "La Cumparsita"
  {
    ExampleTrackPrefixEnd("01 - La Cumparsita");
    ExampleTitleAfterNumber();
    ExampleTitleNoDash();
  }

  // ---------------------------------------------------------------------------
  // slug_candidates
  // ---------------------------------------------------------------------------

  /** `" -"` starts at index `k` of `s`. */
  predicate SpaceDashAt(s: string, k: int) {
    0 <= k < |s| - 1 && s[k] == ' ' && s[k + 1] == '-'
  }

  predicate NoSpaceDash(s: string) {
    forall k | 0 <= k < |s| :: !SpaceDashAt(s, k)
  }

  /** `s.split(" -")[0]`: everything before the first `" -"`. */
  function CutAtSpaceDash(s: string): (r: string)
    ensures |r| <= |s| && r == s[..|r|]
    ensures forall k :: 0 <= k < |r| ==> !SpaceDashAt(s, k)
    ensures |r| < |s| ==> SpaceDashAt(s, |r|)
  {
    if |s| < 2 then s
    else if s[0] == ' ' && s[1] == '-' then []
    else
      var rest := CutAtSpaceDash(s[1..]);
      assert forall k :: 1 <= k < |rest| + 1 ==> SpaceDashAt(s, k) == SpaceDashAt(s[1..], k - 1);
      [s[0]] + rest
  }

  lemma CutHasNoSpaceDash(s: string)
    ensures NoSpaceDash(CutAtSpaceDash(s))
  {
    var r := CutAtSpaceDash(s);
    forall k | SpaceDashAt(r, k)
      ensures false
    {
      assert SpaceDashAt(s, k);
    }
  }

  /**
   * The four simplified titles of `slug_candidates`, empty ones dropped: the
   * trimmed title `t0`, `t1` without its parenthesised groups, and the parts
   * of `t0` and `t1` before their first `" -"`, each trimmed.
   */
  function TitleVariants(title: string): (r: set<string>)
    ensures |r| <= 4
    ensures "" !in r
    ensures forall t :: t in r ==> NoEdgeSpace(t)
    ensures Strip(title) != "" ==> Strip(title) in r
    ensures Strip(RemoveParenGroups(Strip(title))) != "" ==> Strip(RemoveParenGroups(Strip(title))) in r
    ensures Strip(CutAtSpaceDash(Strip(title))) != "" ==> Strip(CutAtSpaceDash(Strip(title))) in r
    ensures var t1 := Strip(RemoveParenGroups(Strip(title)));
      Strip(CutAtSpaceDash(t1)) != "" ==> Strip(CutAtSpaceDash(t1)) in r
  {
    var t0 := Strip(title);
    var t1 := Strip(RemoveParenGroups(t0));
    var t2 := Strip(CutAtSpaceDash(t0));
    var t3 := Strip(CutAtSpaceDash(t1));
    var all := {t0, t1, t2, t3};
    CardAtMostFour(t0, t1, t2, t3);
    SubsetCard(all - {""}, all);
    all - {""}
  }

  /** There are no other variants than the four simplified titles. */
  lemma TitleVariantsOnly(title: string)
    ensures var t0 := Strip(title);
      var t1 := Strip(RemoveParenGroups(t0));
      forall t :: t in TitleVariants(title) ==>
        t == t0 || t == t1 || t == Strip(CutAtSpaceDash(t0)) || t == Strip(CutAtSpaceDash(t1))
  {
  }

  lemma CardAtMostFour(a: string, b: string, c: string, d: string)
    ensures |{a, b, c, d}| <= 4
  {
    assert {a, b, c, d} == {a} + {b} + {c} + {d};
  }

  lemma SubsetCard<T>(a: set<T>, b: set<T>)
    requires a <= b
    ensures |a| <= |b|
  {
    assert b == a + (b - a);
  }

  /** Stripping a text without `" -"` leaves a text without `" -"`. */
  lemma StripNoSpaceDash(s: string)
    requires NoSpaceDash(s)
    ensures NoSpaceDash(Strip(s))
  {
    var i, j := StripSlice(s);
    var t := Strip(s);
    forall k | 0 <= k < |t|
      ensures !SpaceDashAt(t, k)
    {
      if k < |t| - 1 {
        assert t[k] == s[i + k] && t[k + 1] == s[i + k + 1];
        assert !SpaceDashAt(s, i + k);
      }
    }
  }

  /**
   * Every variant is the trimmed title, the title with its parenthesised
   * groups removed, or a pre-dash variant, which contains no `" -"`.
   */
  lemma PreDashVariants(title: string)
    ensures forall t :: t in TitleVariants(title) ==>
      t == Strip(title) || t == Strip(RemoveParenGroups(Strip(title))) || NoSpaceDash(t)
  {
    var t0 := Strip(title);
    var t1 := Strip(RemoveParenGroups(t0));
    CutHasNoSpaceDash(t0);
    CutHasNoSpaceDash(t1);
    StripNoSpaceDash(CutAtSpaceDash(t0));
    StripNoSpaceDash(CutAtSpaceDash(t1));
  }

  /** The image of a set under a function is no larger than the set. */
  lemma ImageCard(s: set<string>, fold: CharFold)
    ensures |set t | t in s :: Slugify(t, fold)| <= |s|
    decreases |s|
  {
    if s != {} {
      var x :| x in s;
      var rest := s - {x};
      ImageCard(rest, fold);
      var img := set t | t in s :: Slugify(t, fold);
      var imgRest := set t | t in rest :: Slugify(t, fold);
      assert img == imgRest + {Slugify(x, fold)};
    }
  }

  /** `slug_candidates`: the keys of the title's variants, as a set (the source's order is hash-dependent). */
  function SlugCandidates(title: string, fold: CharFold): (r: set<string>)
    ensures |r| <= 4
    ensures forall s :: s in r ==> IsSlug(s)
    ensures Strip(title) != "" ==> Slugify(Strip(title), fold) in r
  {
    ImageCard(TitleVariants(title), fold);
    set t | t in TitleVariants(title) :: Slugify(t, fold)
  }

  /** Each candidate is the key of a non-empty variant, and each non-empty variant yields a candidate. */
  lemma SlugCandidatesFromVariants(title: string, fold: CharFold)
    ensures forall s :: s in SlugCandidates(title, fold) <==>
      exists t :: t in TitleVariants(title) && t != "" && Slugify(t, fold) == s
  {
  }
}
