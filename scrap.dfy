/**
 * The performance lookup of scrap.py: scoring the rows of a work's
 * performance table against the library row (lines 33-35 and 84-95),
 * keeping the best one (lines 82-108), and writing the outcome into the
 * library row (`enrich_row`, lines 114-137).
 *
 * The search request and the performance page are parameters: `findLink`
 * stands for `find_tiwc_link`, `fetch` for downloading and parsing a page into
 * the stripped texts of each table row's cells (`None` when the request fails),
 * and `tsr` for `fuzz.token_set_ratio`.
 */
module Scrap {
  import opened Results
  import opened Fuzzy
  import opened ScrapText

  /** The stripped cell texts of one table row. */
  type Cells = seq<string>

  /** `similarity`: the token-set ratio on a scale from 0 to 1. */
  function Similarity(a: string, b: string, tsr: (string, string) -> Score): (r: real)
    ensures 0.0 <= r <= 1.0
  {
    tsr(a, b) / 100.0
  }

  /** A row is considered only with at least seven cells. */
  predicate Eligible(cells: Cells) {
    |cells| >= 7
  }

  /** How well a row fits: 0.7 for the orchestra (cell 3), 0.3 for the vocalist (cell 4). */
  function RowScore(cells: Cells, orchestraHint: string, vocalistHint: string,
                    tsr: (string, string) -> Score): (r: real)
    requires Eligible(cells)
    ensures 0.0 <= r <= 1.0
  {
    0.7 * Similarity(cells[3], orchestraHint, tsr) + 0.3 * Similarity(cells[4], vocalistHint, tsr)
  }

  /** What is taken from the chosen row. */
  datatype Performance = Performance(recordingDate: string, genre: string, vocalist: string)

  /**
   * The performance of a row: the date found in cell 6, the capitalised
   * genre of cell 2, and the vocalist of cell 4, `inst` when that is empty.
   */
  function PerformanceOf(cells: Cells): (r: Performance)
    requires Eligible(cells)
    ensures r.vocalist != ""
    ensures cells[4] != "" ==> r.vocalist == cells[4]
    ensures cells[4] == "" ==> r.vocalist == "inst"
    ensures r.genre == Capitalize(cells[2])
    ensures r.recordingDate == ExtractDate(cells[6])
  {
    Performance(ExtractDate(cells[6]), Capitalize(cells[2]), if cells[4] == "" then "inst" else cells[4])
  }

  /**
   * The row the selection keeps: the eligible row with the highest score, the
   * earliest of those that share it; none when no row is eligible.
   */
  function BestRow(rows: seq<Cells>, orchestraHint: string, vocalistHint: string,
                   tsr: (string, string) -> Score): (r: Option<nat>)
    ensures r.None? <==> forall i :: 0 <= i < |rows| ==> !Eligible(rows[i])
    ensures r.Some? ==> r.value < |rows| && Eligible(rows[r.value])
    ensures r.Some? ==> forall j :: 0 <= j < |rows| && Eligible(rows[j]) ==>
              RowScore(rows[j], orchestraHint, vocalistHint, tsr) <= RowScore(rows[r.value], orchestraHint, vocalistHint, tsr)
    ensures r.Some? ==> forall j :: 0 <= j < r.value && Eligible(rows[j]) ==>
              RowScore(rows[j], orchestraHint, vocalistHint, tsr) < RowScore(rows[r.value], orchestraHint, vocalistHint, tsr)
  {
    if rows == [] then None
    else
      var last := |rows| - 1;
      var init := rows[..last];
      var best := BestRow(init, orchestraHint, vocalistHint, tsr);
      assert forall j :: 0 <= j < last ==> init[j] == rows[j];
      if !Eligible(rows[last]) then best
      else if best.None? then Some(last)
      else if RowScore(rows[last], orchestraHint, vocalistHint, tsr) > RowScore(rows[best.value], orchestraHint, vocalistHint, tsr) then Some(last)
      else best
  }

  /** What `parse_performance` returns for a page (`None` when it could not be fetched). */
  function PerformanceSpec(page: Option<seq<Cells>>, orchestraHint: string, vocalistHint: string,
                           tsr: (string, string) -> Score): (r: Option<Performance>)
    ensures page.None? ==> r.None?
    ensures page.Some? ==> (r.None? <==> forall i :: 0 <= i < |page.value| ==> !Eligible(page.value[i]))
  {
    match page
    case None => None
    case Some(rows) =>
      match BestRow(rows, orchestraHint, vocalistHint, tsr)
      case None => None
      case Some(i) => Some(PerformanceOf(rows[i]))
  }

  /** `parse_performance`, from the fetched page on, with its best-so-far loop. */
  method ParsePerformance(page: Option<seq<Cells>>, orchestraHint: string, vocalistHint: string,
                          tsr: (string, string) -> Score)
    returns (best: Option<Performance>)
    ensures best == PerformanceSpec(page, orchestraHint, vocalistHint, tsr)
  {
    if page.None? {
      return None;
    }
    var rows := page.value;
    best := None;
    var bestScore := -1.0;
    ghost var bestRow: Option<nat> := None;
    for n := 0 to |rows|
      invariant bestRow == BestRow(rows[..n], orchestraHint, vocalistHint, tsr)
      invariant bestRow.None? ==> best.None? && bestScore == -1.0
      invariant bestRow.Some? ==> bestRow.value < n && Eligible(rows[bestRow.value])
      invariant bestRow.Some? ==> best == Some(PerformanceOf(rows[bestRow.value]))
      invariant bestRow.Some? ==> bestScore == RowScore(rows[bestRow.value], orchestraHint, vocalistHint, tsr)
    {
      assert rows[..n + 1][..n] == rows[..n];
      assert forall j :: 0 <= j < n ==> rows[..n][j] == rows[j];
      var tds := rows[n];
      if |tds| < 7 {
        continue;
      }
      var score := 0.7 * Similarity(tds[3], orchestraHint, tsr) + 0.3 * Similarity(tds[4], vocalistHint, tsr);
      if score <= bestScore {
        continue;
      }
      var recDate := ExtractDate(tds[6]);
      best := Some(Performance(recDate, Capitalize(tds[2]), if tds[4] == "" then "inst" else tds[4]));
      bestScore := score;
      bestRow := Some(n);
    }
    assert rows[..|rows|] == rows;
  }

  /** The columns of a library row that scrap.py's `enrich_row` reads or writes. */
  datatype ScrapRow = ScrapRow(
    title: string, orchestra: string, trackArtist: string,
    recordingDate: string, genre: string, vocalist: string, leader: string, scrapNote: string)

  /**
   * `enrich_row`: no work link (none, or empty) gives note `no-work` and no
   * performance gives `no-perf`, each touching nothing else; otherwise the
   * date, genre and vocalist are written, the leader is the orchestra, and
   * the note is a check mark.
   */
  method EnrichRow(row: ScrapRow, findLink: string -> Option<string>,
                   fetch: string -> Option<seq<Cells>>, tsr: (string, string) -> Score)
    returns (r: ScrapRow)
    ensures var link := findLink(CleanTitle(row.title));
      link.None? || link.value == "" ==> r == row.(scrapNote := "no-work")
    ensures var link := findLink(CleanTitle(row.title));
      link.Some? && link.value != "" && PerformanceSpec(fetch(link.value), row.orchestra, row.trackArtist, tsr).None? ==>
        r == row.(scrapNote := "no-perf")
    ensures var link := findLink(CleanTitle(row.title));
      link.Some? && link.value != "" && PerformanceSpec(fetch(link.value), row.orchestra, row.trackArtist, tsr).Some? ==>
        var perf := PerformanceSpec(fetch(link.value), row.orchestra, row.trackArtist, tsr).value;
        r == row.(recordingDate := perf.recordingDate, genre := perf.genre, vocalist := perf.vocalist,
                  leader := row.orchestra, scrapNote := "✓")
  {
    var title := CleanTitle(row.title);
    var orchestraHint := row.orchestra;
    var vocalistHint := row.trackArtist;
    var tiwc := findLink(title);
    if tiwc.None? || tiwc.value == "" {
      return row.(scrapNote := "no-work");
    }
    var perf := ParsePerformance(fetch(tiwc.value), orchestraHint, vocalistHint, tsr);
    if perf.None? {
      return row.(scrapNote := "no-perf");
    }
    var Performance(recDate, genre, vocalist) := perf.value;
    r := row.(recordingDate := recDate, genre := genre, vocalist := vocalist,
              leader := orchestraHint, scrapNote := "✓");
  }
}
