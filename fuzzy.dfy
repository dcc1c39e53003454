/**
 * The parts of rapidfuzz that both scripts use. The scorers themselves
 * (`fuzz.ratio`, `fuzz.token_set_ratio`) are not part of this model: they are
 * parameters of type `(string, string) -> Score`.
 */
module Fuzzy {
  import opened Results

  /** A similarity score on rapidfuzz's scale, from 0 to 100. */
  type Score = r: real | 0.0 <= r <= 100.0 witness 0.0

  /**
   * `process.extractOne(query, choices, scorer=ratio)`: the index of the
   * best-scoring choice, the first one among equals; none for no choices.
   */
  function ExtractOne(query: string, choices: seq<string>, ratio: (string, string) -> Score): (r: Option<nat>)
    ensures r.None? <==> choices == []
    ensures r.Some? ==> r.value < |choices|
    ensures r.Some? ==> forall j :: 0 <= j < |choices| ==> ratio(query, choices[j]) <= ratio(query, choices[r.value])
    ensures r.Some? ==> forall j :: 0 <= j < r.value ==> ratio(query, choices[j]) < ratio(query, choices[r.value])
  {
    if choices == [] then None
    else
      var last := |choices| - 1;
      var best := ExtractOne(query, choices[..last], ratio);
      assert forall j :: 0 <= j < last ==> choices[..last][j] == choices[j];
      if best.None? || ratio(query, choices[last]) > ratio(query, choices[best.value]) then Some(last)
      else best
  }
}
