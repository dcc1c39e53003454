/**
 * Genre normalisation and tempo octave correction (bpm.py lines 27-32 and
 * 88-111). BPM values are exact reals; `round(x, 1)` is rounding half to even
 * at one decimal and `np.isclose` is exact equality.
 */
module Tempo {
  import opened Results
  import opened PyText

  /** `GENRE_RANGES`: the accepted BPM interval of each genre key. */
  const GenreRanges: map<string, (int, int)> :=
    map["tango" := (55, 95), "vals" := (55, 95), "waltz" := (55, 95), "milonga" := (85, 130)]

  /** `GENRE_RANGES.get(genre_key, GENRE_RANGES["tango"])`. */
  function RangeOf(key: string): (r: (int, int))
    ensures key in GenreRanges ==> r == GenreRanges[key]
    ensures key !in GenreRanges ==> r == (55, 95)
    ensures 1 < r.0 < r.1
  {
    if key in GenreRanges then GenreRanges[key] else GenreRanges["tango"]
  }

  // ---------------------------------------------------------------------------
  // normalise_genre
  // ---------------------------------------------------------------------------

  /**
   * `normalise_genre`: a missing or empty genre is `tango`; otherwise the
   * lower-cased, trimmed text is searched for `milonga` first, then for
   * `vals`, `valse` or `waltz`.
   */
  function NormaliseGenre(raw: Option<string>): (r: string)
    ensures r == "tango" || r == "milonga" || r == "vals"
    ensures r in GenreRanges
  {
    var t := Strip(LowerAscii(raw.GetOr("")));
    if t == "" then "tango"
    else if Contains(t, "milonga") then "milonga"
    else if Contains(t, "vals") || Contains(t, "valse") || Contains(t, "waltz") then "vals"
    else "tango"
  }

  /** Every text that contains `valse` contains `vals`: the middle keyword never decides anything. */
  lemma ValseHasVals(s: string)
    requires Contains(s, "valse")
    ensures Contains(s, "vals")
  {
    var i :| 0 <= i <= |s| - |"valse"| && OccursAt(s, "valse", i);
    var w := s[i..i + 5];
    assert w[0] == 'v' && w[1] == 'a' && w[2] == 'l' && w[3] == 's';
    assert s[i..i + 4] == w[..4] == "vals";
    assert OccursAt(s, "vals", i);
  }

  /**
   * The genre key depends only on which keywords the lower-cased text holds
   * (trimming and the empty-text shortcut change nothing): `milonga` wins,
   * then `vals`/`waltz`, and everything else, including a missing genre, is `tango`.
   */
  lemma NormaliseGenreByKeywords(raw: Option<string>)
    ensures var t := LowerAscii(raw.GetOr(""));
      && (NormaliseGenre(raw) == "milonga" <==> Contains(t, "milonga"))
      && (NormaliseGenre(raw) == "vals" <==>
            !Contains(t, "milonga") && (Contains(t, "vals") || Contains(t, "waltz")))
      && (NormaliseGenre(raw) == "tango" <==>
            !Contains(t, "milonga") && !Contains(t, "vals") && !Contains(t, "waltz"))
  {
    var t := LowerAscii(raw.GetOr(""));
    ContainsStrip(t, "milonga");
    ContainsStrip(t, "vals");
    ContainsStrip(t, "valse");
    ContainsStrip(t, "waltz");
    if Contains(Strip(t), "valse") {
      ValseHasVals(Strip(t));
    }
    if Strip(t) == "" {
      NothingInEmpty("milonga");
      NothingInEmpty("vals");
      NothingInEmpty("waltz");
    }
  }

  /** An upper-case genre name is recognised: `MILONGA` is a milonga. */
  lemma NormaliseGenreExample()
    ensures NormaliseGenre(Some("MILONGA")) == "milonga"
  {
    MilongaLowered();
    NormaliseGenreByKeywords(Some("MILONGA"));
  }

  lemma MilongaLowered()
    ensures LowerAscii("MILONGA") == "milonga" && Contains("milonga", "milonga")
  {
    assert OccursAt("milonga", "milonga", 0);
  }

  lemma NothingInEmpty(w: string)
    requires w != ""
    ensures !Contains("", w)
  {
  }

  // ---------------------------------------------------------------------------
  // round(x, 1)
  // ---------------------------------------------------------------------------

  /** The nearest integer to `x`, ties going to the even neighbour. */
  function RoundHalfEven(x: real): (n: int)
    ensures x - 1.0 / 2.0 <= n as real <= x + 1.0 / 2.0
  {
    var f := x.Floor;
    var d := x - f as real;
    if d < 1.0 / 2.0 then f
    else if d > 1.0 / 2.0 then f + 1
    else if f % 2 == 0 then f
    else f + 1
  }

  lemma RoundHalfEvenMonotone(x: real, y: real)
    requires x <= y
    ensures RoundHalfEven(x) <= RoundHalfEven(y)
  {
  }

  lemma RoundHalfEvenInt(n: int)
    ensures RoundHalfEven(n as real) == n
  {
  }

  /** `round(x, 1)`: `x` rounded to one decimal place. */
  function Round1(x: real): (r: real)
    ensures x - 1.0 / 20.0 <= r <= x + 1.0 / 20.0
    ensures (r * 10.0).Floor as real == r * 10.0
  {
    RoundHalfEven(x * 10.0) as real / 10.0
  }

  /** Rounding never reorders two values. */
  lemma Round1Monotone(x: real, y: real)
    requires x <= y
    ensures Round1(x) <= Round1(y)
  {
    RoundHalfEvenMonotone(x * 10.0, y * 10.0);
  }

  /** A value with at most one decimal is its own rounding; in particular every integer is. */
  lemma Round1Fixed(x: real)
    requires (x * 10.0).Floor as real == x * 10.0
    ensures Round1(x) == x
  {
    RoundHalfEvenInt((x * 10.0).Floor);
  }

  // ---------------------------------------------------------------------------
  // The two loops of adjust_bpm, as functions
  // ---------------------------------------------------------------------------

  /** `x` doubled `k` times. */
  function Doubled(x: real, k: nat): real
    decreases k
  {
    if k == 0 then x else Doubled(2.0 * x, k - 1)
  }

  /** `x` halved `k` times. */
  function Halved(x: real, k: nat): real
    decreases k
  {
    if k == 0 then x else Halved(x / 2.0, k - 1)
  }

  /** The measure that the doubling loop decreases. */
  function DoublingsLeft(x: real, lo: int): nat {
    if x < lo as real then (lo as real - x).Floor + 1 else 0
  }

  /** The measure that the halving loop decreases. */
  function HalvingsLeft(x: real, hi: int): nat
    requires hi > 1
  {
    if x > hi as real then x.Floor else 0
  }

  lemma HalvingsDecrease(x: real, hi: int)
    requires hi > 1 && x > hi as real
    ensures HalvingsLeft(x / 2.0, hi) < HalvingsLeft(x, hi)
  {
  }

  /** The first loop: double while below `lo` and above 1. */
  function DoubleUp(x: real, lo: int): (r: real)
    ensures x <= 1.0 || lo as real <= x ==> r == x
    ensures x > 1.0 ==> lo as real <= r
    ensures 1.0 < x < lo as real ==> r < 2.0 * lo as real
    decreases DoublingsLeft(x, lo)
  {
    if x < lo as real && x > 1.0 then DoubleUp(2.0 * x, lo) else x
  }

  /** The second loop: halve while above `hi`. */
  function HalveDown(x: real, hi: int): (r: real)
    requires hi > 1
    ensures r <= hi as real
    ensures x <= hi as real ==> r == x
    ensures x > hi as real ==> hi as real < 2.0 * r
    decreases HalvingsLeft(x, hi)
  {
    if x > hi as real then HalveDown(x / 2.0, hi) else x
  }

  /** The doubling loop doubles some number of times. */
  lemma {:induction false} DoubleUpCount(x: real, lo: int) returns (k: nat)
    ensures DoubleUp(x, lo) == Doubled(x, k)
    decreases DoublingsLeft(x, lo)
  {
    if x < lo as real && x > 1.0 {
      var j := DoubleUpCount(2.0 * x, lo);
      k := j + 1;
    } else {
      k := 0;
    }
  }

  /** The halving loop halves some number of times. */
  lemma {:induction false} HalveDownCount(x: real, hi: int) returns (k: nat)
    requires hi > 1
    ensures HalveDown(x, hi) == Halved(x, k)
    decreases HalvingsLeft(x, hi)
  {
    if x > hi as real {
      HalvingsDecrease(x, hi);
      var j := HalveDownCount(x / 2.0, hi);
      k := j + 1;
    } else {
      k := 0;
    }
  }

  // ---------------------------------------------------------------------------
  // adjust_bpm
  // ---------------------------------------------------------------------------

  /**
   * What `adjust_bpm(bpm, key)` returns: the octave-corrected value rounded to
   * one decimal with a flag telling whether it differs from the input, or the
   * input with `false` when the corrected value is still outside the range.
   */
  function AdjustSpec(bpm: real, key: string): (r: (real, bool))
    ensures var (lo, hi) := RangeOf(key);
      r == (bpm, false) || (lo as real <= r.0 <= hi as real && r.1 == (r.0 != bpm))
  {
    var (lo, hi) := RangeOf(key);
    var v := Round1(HalveDown(DoubleUp(bpm, lo), hi));
    if v < lo as real || v > hi as real then (bpm, false) else (v, v != bpm)
  }

  /** `adjust_bpm`, with its two loops. */
  method AdjustBpm(bpm: real, genreKey: string) returns (adj: real, changed: bool)
    ensures (adj, changed) == AdjustSpec(bpm, genreKey)
  {
    var (lo, hi) := RangeOf(genreKey);
    adj := bpm;
    while adj < lo as real && adj > 1.0
      invariant DoubleUp(adj, lo) == DoubleUp(bpm, lo)
      decreases DoublingsLeft(adj, lo)
    {
      adj := adj * 2.0;
    }
    ghost var doubled := adj;
    while adj > hi as real
      invariant HalveDown(adj, hi) == HalveDown(doubled, hi)
      decreases HalvingsLeft(adj, hi)
    {
      adj := adj / 2.0;
    }
    adj := Round1(adj);
    changed := adj != bpm;
    if adj < lo as real || adj > hi as real {
      return bpm, false;
    }
  }

  /** An input already inside the range goes through neither loop: it comes back rounded. */
  lemma AdjustInRange(bpm: real, key: string)
    requires RangeOf(key).0 as real <= bpm <= RangeOf(key).1 as real
    ensures AdjustSpec(bpm, key) == (Round1(bpm), Round1(bpm) != bpm)
  {
    var (lo, hi) := RangeOf(key);
    Round1Monotone(lo as real, bpm);
    Round1Monotone(bpm, hi as real);
    Round1Fixed(lo as real);
    Round1Fixed(hi as real);
  }

  /**
   * A detector reading (one decimal at most) inside the range is a fixed
   * point: it comes back unchanged and unflagged.
   */
  lemma AdjustFixedPoint(bpm: real, key: string)
    requires RangeOf(key).0 as real <= bpm <= RangeOf(key).1 as real
    requires (bpm * 10.0).Floor as real == bpm * 10.0
    ensures AdjustSpec(bpm, key) == (bpm, false)
  {
    AdjustInRange(bpm, key);
    Round1Fixed(bpm);
  }

  /** A tango already in range is kept: 60 stays 60. */
  lemma AdjustSteadyTango()
    ensures AdjustSpec(60.0, "tango") == (60.0, false)
  {
    AdjustFixedPoint(60.0, "tango");
  }

  /** A value at or below 1 is never doubled, so it is always given back unchanged. */
  lemma AdjustAtMostOne(bpm: real, key: string)
    requires bpm <= 1.0
    ensures AdjustSpec(bpm, key) == (bpm, false)
  {
  }

  /**
   * After the loops the value is never above the range, so the fallback to the
   * input only ever happens because the value ended up below `lo`.
   */
  lemma NeverAboveRange(bpm: real, key: string)
    ensures Round1(HalveDown(DoubleUp(bpm, RangeOf(key).0), RangeOf(key).1)) <= RangeOf(key).1 as real
  {
    var (lo, hi) := RangeOf(key);
    var h := HalveDown(DoubleUp(bpm, lo), hi);
    Round1Monotone(h, hi as real);
    Round1Fixed(hi as real);
  }

  /**
   * The correction only moves by octaves: the result is the input, or the
   * input doubled `a` times, then halved `b` times, then rounded.
   */
  lemma AdjustOctave(bpm: real, key: string) returns (a: nat, b: nat)
    ensures AdjustSpec(bpm, key).0 == bpm || AdjustSpec(bpm, key).0 == Round1(Halved(Doubled(bpm, a), b))
  {
    var (lo, hi) := RangeOf(key);
    a := DoubleUpCount(bpm, lo);
    b := HalveDownCount(DoubleUp(bpm, lo), hi);
  }

  /** A fast tango is halved into range: 140 becomes 70. */
  lemma AdjustFastTango()
    ensures AdjustSpec(140.0, "tango") == (70.0, true)
  {
    Round1Fixed(70.0);
  }

  /** A slow tango is doubled until it reaches the range: 20 becomes 80, and so does 10. */
  lemma AdjustSlowTango()
    ensures AdjustSpec(20.0, "tango") == (80.0, true)
    ensures AdjustSpec(10.0, "tango") == (80.0, true)
  {
    Round1Fixed(80.0);
  }

  /** The milonga range is used for milonga: 200 becomes 100. */
  lemma AdjustFastMilonga()
    ensures AdjustSpec(200.0, "milonga") == (100.0, true)
  {
    Round1Fixed(100.0);
  }

  /**
   * A value whose octaves all miss the tango range is given back: 50 doubles
   * to 100, which halves back to 50.
   */
  lemma AdjustGapInTango()
    ensures AdjustSpec(50.0, "tango") == (50.0, false)
  {
    Round1Fixed(50.0);
  }
}
