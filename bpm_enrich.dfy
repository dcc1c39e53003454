/**
 * `enrich_row` of bpm.py (lines 116-167): find the audio file of a library
 * row (exact key lookup first, then a fuzzy fallback), measure its tempo,
 * correct the octave, and write the `BPM` and `BPMNote` cells.
 *
 * The tempo detector and the fuzzy scorer are parameters: `detect` stands
 * for `detect_bpm`, `ratio` for `fuzz.ratio`.
 */
module BpmEnrich {
  import opened Results
  import opened PyText
  import opened Slugs
  import opened Tempo
  import opened AudioIndex
  import opened Fuzzy

  /** The lowest fuzzy score that is accepted as a match. */
  const FuzzyThreshold: real := 85.0

  /** A `BPM` cell: empty, or a tempo. */
  datatype BpmCell = Blank | Bpm(value: real)

  /** The columns of a library row that `enrich_row` reads or writes. */
  datatype BpmRow = BpmRow(title: string, genre: Option<string>, bpm: BpmCell, bpmNote: string)

  /** `process.extractOne` was given no keys to choose from. */
  datatype MatchError = NoFuzzyKeys

  /**
   * The fuzzy fallback: the best key if it scores at least the threshold,
   * nothing if it does not, and an error when there are no keys at all
   * (the source then fails unpacking the missing result).
   */
  function FuzzyLookup(query: string, keys: seq<string>, ratio: (string, string) -> Score): (r: Result<Option<string>, MatchError>)
    ensures r.Err? <==> keys == []
    ensures r.Ok? && r.value.Some? ==> r.value.value in keys && ratio(query, r.value.value) >= FuzzyThreshold
  {
    match ExtractOne(query, keys, ratio)
    case None => Err(NoFuzzyKeys)
    case Some(i) => if ratio(query, keys[i]) >= FuzzyThreshold then Ok(Some(keys[i])) else Ok(None)
  }

  /**
   * A fuzzy match is found exactly when some key scores at least the
   * threshold, and the key found scores highest of all keys.
   */
  lemma FuzzyLookupAccepts(query: string, keys: seq<string>, ratio: (string, string) -> Score)
    requires keys != []
    ensures FuzzyLookup(query, keys, ratio).Ok?
    ensures FuzzyLookup(query, keys, ratio).value.Some? <==>
              exists j :: 0 <= j < |keys| && ratio(query, keys[j]) >= FuzzyThreshold
    ensures FuzzyLookup(query, keys, ratio).value.Some? ==>
              forall j :: 0 <= j < |keys| ==> ratio(query, keys[j]) <= ratio(query, FuzzyLookup(query, keys, ratio).value.value)
  {
    var i := ExtractOne(query, keys, ratio).value;
    if exists j :: 0 <= j < |keys| && ratio(query, keys[j]) >= FuzzyThreshold {
      var j :| 0 <= j < |keys| && ratio(query, keys[j]) >= FuzzyThreshold;
      assert ratio(query, keys[j]) <= ratio(query, keys[i]);
    }
  }

  /** A score of exactly 85 is accepted, one of 84 is not. */
  lemma FuzzyThresholdBoundary(query: string, key: string, ratio: (string, string) -> Score)
    ensures ratio(query, key) == 85.0 ==> FuzzyLookup(query, [key], ratio) == Ok(Some(key))
    ensures ratio(query, key) == 84.0 ==> FuzzyLookup(query, [key], ratio) == Ok(None)
  {
    assert ExtractOne(query, [key], ratio) == Some(0);
  }

  /** The candidate keys of a title that the index holds. */
  function Hits(candidates: set<string>, index: map<string, Path>): set<string> {
    set s | s in candidates && s in index
  }

  /**
   * `p` is a file the row may be matched to: the file of one of the title's
   * keys, or, when the index holds none of them, the file of the fuzzy match
   * of the title's key.
   */
  ghost predicate Resolves(title: string, index: map<string, Path>, fuzzyKeys: seq<string>,
                           ratio: (string, string) -> Score, fold: CharFold, p: Path)
  {
    var hits := Hits(SlugCandidates(title, fold), index);
    if hits != {} then exists s :: s in hits && index[s] == p
    else
      var m := FuzzyLookup(Slugify(title, fold), fuzzyKeys, ratio);
      m.Ok? && m.value.Some? && m.value.value in index && index[m.value.value] == p
  }

  /** No key of the title is in the index and the fuzzy fallback finds no match either. */
  ghost predicate Unresolved(title: string, index: map<string, Path>, fuzzyKeys: seq<string>,
                             ratio: (string, string) -> Score, fold: CharFold)
  {
    Hits(SlugCandidates(title, fold), index) == {} &&
    FuzzyLookup(Slugify(title, fold), fuzzyKeys, ratio) == Ok(None)
  }

  /** The note suffix: `(adj)` for a corrected tempo, `(raw)` for one written as measured. */
  function NoteSuffix(changed: bool): string {
    if changed then "(adj)" else "(raw)"
  }

  /** The row once its file `p` is known and the detector has given `measured` for it. */
  function RowForFile(row: BpmRow, p: Path, measured: Option<real>): (r: BpmRow)
    ensures r.title == row.title && r.genre == row.genre
    ensures measured.None? ==> r.bpm == Blank && r.bpmNote == "no-bpm"
    ensures measured.Some? ==> r.bpm.Bpm? && (r.bpmNote == p + " (adj)" || r.bpmNote == p + " (raw)")
  {
    match measured
    case None => row.(bpm := Blank, bpmNote := "no-bpm")
    case Some(raw) =>
      var (adj, changed) := AdjustSpec(raw, NormaliseGenre(row.genre));
      row.(bpm := Bpm(adj), bpmNote := p + " " + NoteSuffix(changed))
  }

  /**
   * A measured tempo is written either as measured, or corrected into the
   * range of the row's genre; the note says `(adj)` exactly when the written
   * value differs from the measured one.
   */
  lemma RowForFileNote(row: BpmRow, p: Path, raw: real)
    ensures var r := RowForFile(row, p, Some(raw));
      var (lo, hi) := RangeOf(NormaliseGenre(row.genre));
      && (r.bpm.value == raw || lo as real <= r.bpm.value <= hi as real)
      && (r.bpmNote == p + " (adj)" <==> r.bpm.value != raw)
  {
    var r := RowForFile(row, p, Some(raw));
    assert |p + " (adj)"| == |p + " (raw)"|;
    assert (p + " (adj)")[|p| + 2] == 'a' && (p + " (raw)")[|p| + 2] == 'r';
  }

  /** The fixed notes are never mistaken for a file note. */
  lemma FixedNotesDiffer(p: Path, suffix: string)
    requires suffix == " (adj)" || suffix == " (raw)"
    ensures p + suffix != "file-not-found" && p + suffix != "no-bpm"
  {
    var n := p + suffix;
    assert n[|n| - 1] == ')';
  }

  /**
   * The file lookup of `enrich_row`: a file of one of the title's keys if the
   * index holds any, otherwise the file of the accepted fuzzy match, if any.
   * The index's iteration order over the candidate keys is not modelled: any
   * key of the title that the index holds may be the one used.
   */
  method FindFile(title: string, index: map<string, Path>, fuzzyKeys: seq<string>,
                  ratio: (string, string) -> Score, fold: CharFold)
    returns (r: Result<Option<Path>, MatchError>)
    requires forall k :: k in fuzzyKeys ==> k in index
    ensures r.Err? <==> Hits(SlugCandidates(title, fold), index) == {} && fuzzyKeys == []
    ensures r.Ok? ==> (r.value.None? <==> Unresolved(title, index, fuzzyKeys, ratio, fold))
    ensures r.Ok? && r.value.Some? ==> Resolves(title, index, fuzzyKeys, ratio, fold, r.value.value)
  {
    var hits := Hits(SlugCandidates(title, fold), index);
    if hits != {} {
      var s :| s in hits;
      return Ok(Some(index[s]));
    }
    var fuzzy := FuzzyLookup(Slugify(title, fold), fuzzyKeys, ratio);
    if fuzzy.Err? {
      return Err(fuzzy.error);
    }
    if fuzzy.value.Some? {
      return Ok(Some(index[fuzzy.value.value]));
    }
    return Ok(None);
  }

  /** `enrich_row`: find the file, measure its tempo, and write the two cells. */
  method EnrichRow(row: BpmRow, index: map<string, Path>, fuzzyKeys: seq<string>,
                   ratio: (string, string) -> Score, detect: Path -> Option<real>, fold: CharFold)
    returns (r: Result<BpmRow, MatchError>)
    requires forall k :: k in fuzzyKeys ==> k in index
    ensures r.Err? <==> Hits(SlugCandidates(row.title, fold), index) == {} && fuzzyKeys == []
    ensures r.Ok? && Unresolved(row.title, index, fuzzyKeys, ratio, fold) ==>
              r.value == row.(bpm := Blank, bpmNote := "file-not-found")
    ensures r.Ok? && !Unresolved(row.title, index, fuzzyKeys, ratio, fold) ==>
              exists p :: Resolves(row.title, index, fuzzyKeys, ratio, fold, p) && r.value == RowForFile(row, p, detect(p))
  {
    var path := FindFile(row.title, index, fuzzyKeys, ratio, fold);
    if path.Err? {
      return Err(path.error);
    }
    if path.value.None? {
      return Ok(row.(bpm := Blank, bpmNote := "file-not-found"));
    }
    var p := path.value.value;
    var measured := detect(p);
    if measured.None? {
      return Ok(row.(bpm := Blank, bpmNote := "no-bpm"));
    }
    var adj, changed := AdjustBpm(measured.value, NormaliseGenre(row.genre));
    return Ok(row.(bpm := Bpm(adj), bpmNote := p + " " + NoteSuffix(changed)));
  }
}
