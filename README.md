# Verified model of the tango library tagger's matching core

This project is a Dafny model of the two scripts that enrich a tango
music library's tag table.

- `bpm.py` fills the `BPM` and `BPMNote` columns. It derives lookup keys from
  titles and file names, indexes the audio files under those keys, and matches
  each row to a file: by exact key first, then by a fuzzy match scoring at
  least 85. It then corrects the measured tempo by octaves into the BPM range
  of the row's genre.
- `scrap.py` fills `RecordingDate`, `Genre`, `Vocalist`, `Leader` and
  `ScrapNote`. It cleans the title and looks up the work's performance table.
  It keeps the row whose orchestra and vocalist fit best, and reads the
  recording date from that row with two regular expressions.

Modules, one per concern:

| file | module | models |
|---|---|---|
| `results.dfy` | `Results` | `Option` and `Result` |
| `pytext.dfy` | `PyText` | Python's whitespace set, `strip`, ASCII `lower`, `in` on strings, greedy `\s*`/`\d*` runs, `re.sub(r"\([^)]*\)", "", s)` |
| `slugs.dfy` | `Slugs` | `slugify`, `strip_track_number`, `base_title_from_stem`, `slug_candidates` |
| `audio_index.dfy` | `AudioIndex` | `AUDIO_EXTS`, `PurePath.name/stem/suffix`, `build_audio_index` |
| `tempo.dfy` | `Tempo` | `GENRE_RANGES`, `normalise_genre`, `round(x, 1)`, `adjust_bpm` |
| `fuzzy.dfy` | `Fuzzy` | the 0–100 score scale and `process.extractOne` |
| `bpm_enrich.dfy` | `BpmEnrich` | `enrich_row` of bpm.py |
| `scrap_text.dfy` | `ScrapText` | `clean_title`, the two date patterns, `str.capitalize` |
| `scrap.dfy` | `Scrap` | `similarity`, the selection loop of `parse_performance`, `enrich_row` of scrap.py |

The following are parameters, because they are I/O or foreign code:

- In bpm.py:
  - `fold` is what Unicode lower-casing plus NFD decomposition makes of one non-ASCII character.
  - `ratio` is `fuzz.ratio`.
  - `detect` is `detect_bpm`.
  - The scan order of the audio root is an input list of paths relative to the root.
- In scrap.py:
  - `findLink` is `find_tiwc_link`.
  - `fetch` is the page download plus HTML parsing. It returns the stripped cell texts of each table row, or `None` when the request fails.
  - `tsr` is `fuzz.token_set_ratio`.

Three behaviours of the code that are easy to misread:

- An in-range tempo is not always returned as `(bpm, false)`. The code rounds it to one decimal first, so only a value with at most one decimal is a fixed point (`Tempo.AdjustInRange`, `Tempo.AdjustFixedPoint`).
- For a raw tempo of 10 in tango, the doubling loop stops at 80, the first value not below 55. It never reaches 160 and never halves (`Tempo.AdjustSlowTango`).
- A correction that stays out of range does not produce a separate reason. The raw value is kept and the note ends in `(raw)`, like any other unchanged value (`BpmEnrich.RowForFileNote`).

## Model

| member | source | states |
|---|---|---|
| `PyText.Strip` | bpm.py:43 | the result has no leading or trailing whitespace (Python's whitespace set) and is no longer than the input |
| `PyText.StripSlice` | bpm.py:43 | `strip()` keeps a slice of the text and removes only whitespace before and after it |
| `PyText.ContainsStrip` | bpm.py:89-94 | a word without whitespace occurs in the trimmed text exactly when it occurs in the untrimmed text |
| `PyText.RemoveParenGroups` | bpm.py:48 | deleting `(...)` groups leaves no `(` followed by a `)` and only characters of the input |
| `PyText.RemoveParenGroupsFixed` | bpm.py:48 | text without a complete group is unchanged by the deletion |
| `PyText.RemoveParenGroupsIdempotent` | bpm.py:48 | deleting the groups twice is the same as deleting them once |
| `PyText.RemoveParenGroupsConcat` | bpm.py:48 | text without parentheses in front of the rest is kept as it is |
| `PyText.RemoveParenGroupsCons` | bpm.py:48 | a first character other than `(` is kept, and the rest is processed on its own |
| `PyText.RemoveParenGroupsGroup` | bpm.py:48 | a leading `(...)` group without an inner `)` is deleted whole, and the rest is processed on its own |
| `PyText.OpenParenKept` | bpm.py:48 | a `(` with no `)` after it is kept together with everything after it |
| `Slugs.Slugify` | bpm.py:37-40 | every key contains only `a`-`z` and `0`-`9` |
| `Slugs.FoldChar` | bpm.py:38 | one character lowered and decomposed: ASCII by `AsciiLower`, any other character by the Unicode mapping `fold`; `SlugifyAsciiChar` and `SlugifyNonAsciiChar` pin what each kind contributes to a key |
| `Slugs.FoldText` | bpm.py:38 | the lowered, decomposed text, character by character; it splits over concatenation (`FoldTextConcat`) and is the ASCII lowering on ASCII text (`FoldTextAscii`) |
| `Slugs.FoldTextConcat` | bpm.py:38 | folding two texts in a row gives the fold of the first followed by the fold of the second |
| `Slugs.FoldTextAscii` | bpm.py:38 | on ASCII text, lowering and decomposition are the ASCII lowering |
| `Slugs.KeepSlugChars` | bpm.py:39-40 | the result is a key no longer than the input; with `KeepSlugCharsOne`, `KeepSlugCharsNone` and `KeepSlugCharsConcat` it keeps exactly the `a`-`z` and `0`-`9` characters, in order, and drops everything else, ASCII or not |
| `Slugs.KeepSlugCharsOne` | bpm.py:39-40 | one character is kept exactly when it is in `a`-`z` or `0`-`9` |
| `Slugs.KeepSlugCharsNone` | bpm.py:39-40 | text without a letter `a`-`z` or digit, whatever else it holds (capitals, non-ASCII letters, combining marks), has an empty key |
| `Slugs.KeepSlugCharsConcat` | bpm.py:39-40 | the kept characters of two texts in a row are those of the first followed by those of the second |
| `Slugs.SlugifyNonAsciiChar` | bpm.py:37-40 | a non-ASCII character contributes the key characters of its lowered, decomposed form |
| `Slugs.SlugifyAccented` | bpm.py:37-40 | diacritics are stripped: a non-ASCII letter that decomposes into a key character followed by combining marks keys to that base character alone |
| `Slugs.CafeExample` | bpm.py:37-40 | with `é` decomposing to `e` and a combining acute accent, `Café` keys as `cafe` |
| `Slugs.SlugifyFixedPoint` | bpm.py:37-40 | a text is its own key exactly when it contains only `a`-`z` and `0`-`9` |
| `Slugs.SlugifyIdempotent` | bpm.py:37-40 | the key of a key is that key |
| `Slugs.SlugifyConcat` | bpm.py:37-40 | the key of a concatenation is the concatenation of the keys |
| `PyText.AsciiLower` | bpm.py:38 | a capital ASCII letter becomes the small letter at the same place in the alphabet; every other character is kept |
| `PyText.AsciiUpper` | scrap.py:105 | a small ASCII letter becomes the capital letter at the same place in the alphabet; every other character is kept |
| `PyText.LowerAscii` | bpm.py:63 | `str.lower()` on ASCII letters: the same length, and every character lowered by `AsciiLower` |
| `Slugs.SlugifyAscii` | bpm.py:37-40 | on ASCII text the key is the lower-cased text with every character outside `a`-`z` and `0`-`9` dropped |
| `Slugs.SlugifyAsciiChar` | bpm.py:37-40 | the key of one ASCII character is its lower-case form when that is a letter or digit, and empty otherwise |
| `Slugs.SlugifyIgnoresAsciiCase` | bpm.py:38 | a text and its ASCII-lower-cased form have the same key |
| `Slugs.SlugifyNoKeyChars` | bpm.py:40 | ASCII text without letters or digits has an empty key |
| `Slugs.SpaceKey` | bpm.py:40 | a space has an empty key |
| `Slugs.DashKey` | bpm.py:40 | a spaced dash ` - ` has an empty key |
| `Slugs.SlugifyJoin` | bpm.py:37-40 | the key of two texts in a row is the key of the first followed by the key of the second |
| `Slugs.SlugifyWord` | bpm.py:37-40 | a capitalised word whose rest is already a key has as key its lowered first letter followed by the rest |
| `Slugs.SlugifyTwoWords` | bpm.py:37-40 | two such words separated by a space have as key the two lowered words joined |
| `Slugs.SlugifyNumbered` | bpm.py:37-40 | a track number, ` - ` and a title have as key the number followed by the key of the title |
| `Slugs.ExampleTitleKey` | bpm.py:37-40 | the words `La` and `Cumparsita` with a space between them have key `lacumparsita` |
| `Slugs.TitleKeyExample` | bpm.py:37-40 | `La Cumparsita` has key `lacumparsita` |
| `Slugs.ExampleNumberedKey` | bpm.py:37-40 | `01`, ` - ` and the two words have key `01lacumparsita` |
| `Slugs.SlugifyExample` | bpm.py:37-40 | `01 - La Cumparsita` has key `01lacumparsita` |
| `Slugs.TrackPrefixEndSound` | bpm.py:43 | the computed end of `^\s*\d+\s*[-_. ]\s*` is a match of the pattern |
| `Slugs.TrackPrefixEndLongest` | bpm.py:43 | every match of the pattern ends at or before the computed end |
| `Slugs.TrackPrefixParts` | bpm.py:43 | every match takes the greedy leading whitespace and the whole digit run; only the separator position varies |
| `Slugs.StripTrackNumber` | bpm.py:42-43 | the result has no leading or trailing whitespace |
| `Slugs.StripTrackNumberMeaning` | bpm.py:42-43 | without a digit run followed (after optional whitespace) by `-`, `_`, `.` or a space, the stem is only trimmed; with one, the longest matching prefix is removed before trimming |
| `Slugs.BeforeDash` | bpm.py:46 | the first field is the prefix before the first `-`, `–` or `—`, and holds none of them |
| `Slugs.BaseTitleFromStem` | bpm.py:45-46 | the base title is trimmed and holds no `-`, `–` or `—` |
| `Slugs.BaseTitleIsHead` | bpm.py:45-46 | the base title is the track-number-stripped stem before its first dash, trimmed |
| `Slugs.BeforeDashNoDash` | bpm.py:46 | a text without `-`, `–` or `—` is its own first field |
| `Slugs.ExampleTrackPrefixEnd` | bpm.py:43 | in a stem that starts with `01 - L` the track-number match ends right before the `L` |
| `Slugs.ExampleTitleNoDash` | bpm.py:46 | `La Cumparsita` is its own first field |
| `Slugs.BaseTitleExample` | bpm.py:42-46 | `01 - La Cumparsita` loses `01 - ` to `strip_track_number` and has base title `La Cumparsita` |
| `Slugs.CutAtSpaceDash` | bpm.py:53-54 | `split(" -")[0]` is the prefix before the first `" -"` |
| `Slugs.CutHasNoSpaceDash` | bpm.py:53-54 | the part before `" -"` contains no `" -"` |
| `Slugs.TitleVariants` | bpm.py:51-55 | at most four variants, none empty, all trimmed; the trimmed title, the title without its `(...)` groups, and the parts of both before their first `" -"`, each trimmed, are all variants when non-empty |
| `Slugs.TitleVariantsOnly` | bpm.py:51-55 | every variant is one of the four simplified titles |
| `Slugs.PreDashVariants` | bpm.py:51-55 | every variant is `t0`, `t1` or a pre-dash variant without `" -"` |
| `Slugs.SlugCandidates` | bpm.py:50-56 | at most four candidates, all keys, including the key of the trimmed title when that is non-empty |
| `Slugs.SlugCandidatesFromVariants` | bpm.py:55-56 | the candidates are exactly the keys of the non-empty variants |
| `AudioIndex.Name` | bpm.py:63-69 | the name is the end of the path after its last `/`, or the whole path when it has none |
| `AudioIndex.NameAfterLastSlash` | bpm.py:63-69 | a path whose last `/` is at `i` has as name everything after `i` |
| `AudioIndex.NameOfChild` | bpm.py:63-69 | the name of `dir/name` is `name` |
| `AudioIndex.SuffixStart` | bpm.py:63 | the suffix starts at the last dot when that dot is neither first nor last; there is none exactly when the name is empty, has no dot after its first character, or ends in a dot |
| `AudioIndex.Suffix` | bpm.py:63 | `suffix` is a proper end of the name made of a dot and at least one more character, none of which is a dot; it is empty exactly when the name is empty, has no dot after its first character, or ends in a dot |
| `AudioIndex.SuffixAtLastDot` | bpm.py:63-69 | a name whose last dot is neither first nor last has the suffix from that dot on and the stem before it |
| `AudioIndex.Stem` | bpm.py:63-69 | the stem is the part of the name before the suffix: its length and the suffix's add up to the name's, and it is the name's prefix of that length |
| `AudioIndex.StemSuffix` | bpm.py:63-69 | a file name is its stem followed by its suffix |
| `AudioIndex.StemAndSuffix` | bpm.py:63-69 | a non-empty stem followed by an extension with a single dot has that extension as suffix and that stem as stem |
| `AudioIndex.ExampleName` | bpm.py:63-69 | `Di Sarli/01 - La Cumparsita.MP3` has name `01 - La Cumparsita.MP3`, suffix `.MP3` and stem `01 - La Cumparsita` |
| `AudioIndex.AudioFileExample` | bpm.py:63 | `Di Sarli/01 - La Cumparsita.MP3` is an audio file: the suffix is lower-cased before the lookup in `AUDIO_EXTS` |
| `AudioIndex.IsAudio` | bpm.py:63 | a path is an audio file exactly when its suffix, lower-cased, is one of `AUDIO_EXTS` (pinned by `AudioFileExample` and the `Suffix` contract) |
| `AudioIndex.FileKeysExample` | bpm.py:69-70 | that file is filed under `01lacumparsita` and `lacumparsita` |
| `AudioIndex.FileKeys` | bpm.py:69-70 | a file has one or two keys, all keys: the key of its stem and the key of its base title |
| `AudioIndex.Filter` | bpm.py:63 | the result holds exactly the accepted paths of the list |
| `AudioIndex.FilterAppend` | bpm.py:63 | filtering keeps list order: a path appended to the list is appended to the result exactly when it is accepted |
| `AudioIndex.AudioFiles` | bpm.py:63 | the scan is filtered to exactly its files whose lower-cased suffix is in `AUDIO_EXTS` |
| `AudioIndex.AudioFilesAppend` | bpm.py:63 | `all_files` keeps scan order: a path appended to the scan is appended to the audio files exactly when it is one |
| `AudioIndex.IndexFiles` | bpm.py:68-72 | the index filed file by file in list order, each file's keys overwriting earlier entries; `IndexKeys` and `IndexLastWins` state which keys it has and which file each names |
| `AudioIndex.AddFile` | bpm.py:71-72 | filing a file adds its keys, maps them to that file and keeps every other entry |
| `AudioIndex.FileUnder` | bpm.py:71-72 | the inner loop files the path under each of its keys |
| `AudioIndex.BuildAudioIndex` | bpm.py:61-74 | the loops build the index of the audio files of the scan, in scan order |
| `AudioIndex.IndexKeys` | bpm.py:68-72 | a key is in the index exactly when some file yields it |
| `AudioIndex.IndexLastWins` | bpm.py:68-72 | a key maps to the last file in scan order that yields it |
| `AudioIndex.IndexAppend` | bpm.py:68-72 | scanning one more path files it on top of the index when it is accepted, and changes nothing otherwise |
| `AudioIndex.IndexDropLast` | bpm.py:63-72 | the index of a scan's accepted paths is that of the paths before the last one, with the last one filed on top when it is accepted |
| `AudioIndex.IndexScanFilter` | bpm.py:63-72 | walking the scan and skipping rejected paths builds the same index as filtering the scan first |
| `AudioIndex.ScanLastWins` | bpm.py:63-72 | in the index built by walking the scan, a key maps to the accepted path at some scan position that yields it, and no accepted path later in the scan yields it |
| `AudioIndex.FileKeysOnly` | bpm.py:69-70 | a file has no keys besides the key of its stem and the key of its base title |
| `AudioIndex.IndexHoldsAudioFiles` | bpm.py:61-74 | every stored path is an audio file of the scan, under the key of its stem or of its base title |
| `AudioIndex.AudioFileKeysIndexed` | bpm.py:61-74 | every audio file of the scan makes both the key of its stem and the key of its base title keys of the built index |
| `AudioIndex.BuiltIndexLastWins` | bpm.py:61-74 | in the built index a key maps to the audio file at some scan position that is filed under it, and no later audio file in the scan is filed under it |
| `Tempo.RangeOf` | bpm.py:99 | a known genre key gets its own range, an unknown one the tango range, and `1 < lo < hi` |
| `Tempo.NormaliseGenre` | bpm.py:88-96 | the result is `tango`, `milonga` or `vals`, always a key of `GENRE_RANGES` |
| `Tempo.NormaliseGenreByKeywords` | bpm.py:88-96 | `milonga` exactly when the lower-cased text contains it; `vals` exactly when it does not but contains `vals` or `waltz`; `tango` otherwise, including for a missing or empty genre |
| `Tempo.MilongaLowered` | bpm.py:89-93 | `MILONGA` lower-cases to `milonga`, which contains `milonga` |
| `Tempo.NormaliseGenreExample` | bpm.py:88-96 | the genre `MILONGA` gives the `milonga` range |
| `Tempo.ValseHasVals` | bpm.py:94 | a text containing `valse` contains `vals`, so `valse` never decides the result |
| `Tempo.RoundHalfEven` | bpm.py:106 | the result is within one half of its argument |
| `Tempo.Round1` | bpm.py:106 | `round(x, 1)` is within 0.05 of `x` and has at most one decimal |
| `Tempo.Round1Monotone` | bpm.py:106 | rounding preserves order |
| `Tempo.Round1Fixed` | bpm.py:106 | a value with at most one decimal is its own rounding |
| `Tempo.DoubleUp` | bpm.py:102-103 | the doubling loop leaves a value at or below 1, or already at least `lo`, unchanged; it brings any value above 1 to at least `lo` and below `2*lo` |
| `Tempo.HalveDown` | bpm.py:104-105 | the halving loop ends at or below `hi`, above `hi/2` when it halved at all |
| `Tempo.DoubleUpCount` | bpm.py:102-103 | the doubling loop doubles some number of times |
| `Tempo.HalveDownCount` | bpm.py:104-105 | the halving loop halves some number of times |
| `Tempo.AdjustSpec` | bpm.py:98-111 | the result is the input with `false`, or a value inside `[lo, hi]` flagged exactly when it differs from the input |
| `Tempo.AdjustBpm` | bpm.py:98-111 | the two loops, the rounding and the range check compute `AdjustSpec` |
| `Tempo.AdjustInRange` | bpm.py:98-111 | an input inside the range skips both loops and comes back rounded |
| `Tempo.AdjustFixedPoint` | bpm.py:98-111 | an in-range input with at most one decimal comes back unchanged and unflagged |
| `Tempo.AdjustAtMostOne` | bpm.py:102 | a value at or below 1 is never doubled and is given back unchanged |
| `Tempo.NeverAboveRange` | bpm.py:104-110 | after the loops and rounding the value is never above `hi`, so a rejection means it ended below `lo` |
| `Tempo.AdjustOctave` | bpm.py:100-106 | the result is the input, or the input doubled some times, then halved some times, then rounded |
| `Tempo.AdjustFastTango` | bpm.py:98-111 | 140 in tango becomes 70, flagged |
| `Tempo.AdjustSteadyTango` | bpm.py:98-111 | 60 in tango stays 60, unflagged |
| `Tempo.AdjustSlowTango` | bpm.py:98-111 | 20 and 10 in tango become 80, flagged |
| `Tempo.AdjustFastMilonga` | bpm.py:98-111 | 200 in milonga becomes 100, flagged |
| `Tempo.AdjustGapInTango` | bpm.py:98-111 | 50 in tango doubles to 100, halves back to 50, and is given back unflagged |
| `Fuzzy.ExtractOne` | bpm.py:134-136 | no result exactly when there are no choices; otherwise the index of a top-scoring choice, earlier choices all scoring strictly lower |
| `BpmEnrich.FuzzyLookup` | bpm.py:133-138 | an error exactly when there are no keys; a match is one of the keys and scores at least 85 |
| `BpmEnrich.FuzzyLookupAccepts` | bpm.py:133-138 | a match is found exactly when some key scores at least 85, and it is a top-scoring key |
| `BpmEnrich.FuzzyThresholdBoundary` | bpm.py:137 | a score of 85 is accepted and a score of 84 is not |
| `BpmEnrich.RowForFile` | bpm.py:150-161 | with no tempo the row gets an empty BPM and `no-bpm`; otherwise a BPM and `<path> (adj)` or `<path> (raw)`; title and genre are kept |
| `BpmEnrich.RowForFileNote` | bpm.py:156-161 | the BPM written is the measured one or lies in the genre's range, and the note says `(adj)` exactly when it differs from the measured one |
| `BpmEnrich.FixedNotesDiffer` | bpm.py:143-161 | a file note is never `file-not-found` or `no-bpm` |
| `BpmEnrich.FindFile` | bpm.py:131-138 | an error exactly when no candidate key is indexed and there are no fuzzy keys; no file exactly when no candidate key is indexed and the fuzzy match is rejected; otherwise the file of an indexed candidate key, or, only when there is none, the file of the accepted fuzzy match |
| `BpmEnrich.EnrichRow` | bpm.py:116-167 | an error exactly when no candidate key is indexed and there are no fuzzy keys; `file-not-found` with an empty BPM when neither lookup finds a file; otherwise the row for a file of an indexed candidate key, or, only when there is none, for the file of the accepted fuzzy match; the input row is a value and is not changed |
| `ScrapText.NumberPrefixEndSound` | scrap.py:40 | the computed end of `^\s*\d+\s+` is a match of the pattern |
| `ScrapText.NumberPrefixEndLongest` | scrap.py:40 | every match of the pattern ends at or before the computed end |
| `ScrapText.DropNumberPrefix` | scrap.py:38 | the result is a suffix of the title: the whole title when `^\s*\d+\s+` does not match, otherwise the title without the longest match |
| `ScrapText.CleanTitle` | scrap.py:38-42 | the cleaned title is trimmed, holds no `(` followed by a `)`, and is no longer than the input |
| `ScrapText.CleanTitleMeaning` | scrap.py:38-42 | without a leading number followed by whitespace, only the groups go and the text is trimmed; with one, the longest such prefix goes first |
| `ScrapText.NumberNeedsSpace` | scrap.py:40 | a leading number followed directly by something other than whitespace or a digit is kept |
| `ScrapText.CleanTitleExample` | scrap.py:39 | `01 La Cumparsita (Tango)` becomes `La Cumparsita` |
| `ScrapText.FirstFullDate` | scrap.py:67 | the search returns the leftmost `YYYY-MM-DD` match (year 19xx or 20xx, word boundaries at both ends), or nothing when there is none |
| `ScrapText.FirstYear` | scrap.py:68 | the search returns the leftmost 19xx/20xx year between word boundaries, or nothing when there is none |
| `ScrapText.ExtractDate` | scrap.py:97-103 | the date is empty or ten or four characters long, and starts with `19` or `20` |
| `ScrapText.ExtractDateMeaning` | scrap.py:97-103 | the leftmost full date if there is one, else the leftmost year, else empty |
| `ScrapText.ExtractDateExample` | scrap.py:97-103 | `1938-12-20` gives itself, `c. 1941` gives `1941`, `18` gives the empty string |
| `ScrapText.Capitalize` | scrap.py:105 | the first character is upper-cased, the rest lower-cased, the length kept |
| `ScrapText.CapitalizeIdempotent` | scrap.py:105 | capitalising twice is capitalising once |
| `Scrap.Similarity` | scrap.py:33-35 | a similarity lies in `[0, 1]` |
| `Scrap.RowScore` | scrap.py:91-92 | a row score lies in `[0, 1]` |
| `Scrap.PerformanceOf` | scrap.py:97-105 | the date is what the two date searches give for cell 6, the genre is cell 2 capitalised, and the vocalist is cell 4 when it has text, `inst` otherwise |
| `Scrap.BestRow` | scrap.py:84-106 | none exactly when no row has seven cells; otherwise an eligible row with the highest score, and every earlier eligible row scores strictly lower |
| `Scrap.PerformanceSpec` | scrap.py:70-108 | no performance for an unfetched page, or exactly when no row has seven cells |
| `Scrap.ParsePerformance` | scrap.py:82-108 | the loop, with its sentinel score of -1, keeps the row `BestRow` chooses |
| `Scrap.EnrichRow` | scrap.py:114-137 | no link gives `no-work` and no performance gives `no-perf`, each changing only the note; otherwise date, genre and vocalist are written, the leader is the orchestra and the note is `✓`; the input row is a value and is not changed |

## Left out

- `detect_bpm` (librosa decoding and beat tracking) is the parameter `detect`. Its rounding of the tempo is part of the parameter too.
- `fuzz.ratio` and `fuzz.token_set_ratio` are parameters with the 0–100 score range. `process.extractOne` is modelled on top of its scorer, with ties going to the first choice.
- The Unicode tables behind `str.lower()` and `unicodedata.normalize("NFD", ...)` are not modelled. The non-ASCII part is the parameter `fold`, and ASCII is lowered concretely. Canonical reordering moves only combining marks, which are non-ASCII and are dropped, so folding character by character gives the same key.
- `Tempo.NormaliseGenre`: `str.lower()` is modelled on ASCII letters only. The non-ASCII characters that lower to ASCII (U+0130, U+212A) cannot form `milonga`, `vals`, `valse` or `waltz` on their own.
- `AudioIndex.IsAudio`: the suffix is lower-cased over ASCII only, for the same reason.
- The regular expressions use ASCII `\d`, `\w` and `\b`. Python also counts other Unicode digits and letters there.
- `ScrapText.Capitalize` works on ASCII letters only. Python upper-cases the first character to title case for every script.
- `Path.rglob`, the file system, and `path.relative_to(audio_root).as_posix()` are not modelled. The scan is an input list of POSIX paths relative to the root. Directories whose names end in an audio suffix would be indexed, as in the source.
- `Slugs.SlugCandidates` is a set, not a list. The source's list order follows Python's string hashing. The exact lookup takes any indexed candidate, and the list's possible repeated slugs make no difference to it.
- `BpmEnrich.FindFile`: when `process.extractOne` gets no keys, the source crashes unpacking `None`. The model returns an error instead, and `BpmEnrich.EnrichRow` passes it on.
- `Scrap.BestRow`: scores are exact reals, not Python floats. Rounding in `0.7 * a + 0.3 * b` could make two rows that tie here differ in the source, or the reverse, and the strict `>` at scrap.py:94 decides ties. `Scrap.RowScore` and `Scrap.ParsePerformance` share this.
- `Tempo.AdjustBpm`: floating point is not modelled. Tempos are exact reals, `round(x, 1)` rounds half to even on them, and `np.isclose` is exact equality.
- pandas is not modelled: missing cells (NaN), `row.copy()`, and columns other than those read or written. Rows are immutable values, so the caller's row cannot change.
- `find_tiwc_link` and the HTTP/HTML part of `parse_performance` are the parameters `findLink` and `fetch`.
- The `__main__`/`main` blocks of both scripts are not modelled: argparse, CSV reading and writing, tqdm, and the failure log. The log's prefix tests at bpm.py:215-217 also match file notes: `adjust_bpm` never writes an `out-of-range` note, but a relative path starting with `out-of-range`, `file-not` or `no-bpm` gives a note `<path> (raw)` or `<path> (adj)` that the log records as a failure. `BpmEnrich.FixedNotesDiffer` shows only that a file note never equals `file-not-found` or `no-bpm`.
- build_tag_csv.py, run_app.py, home.py and the Streamlit pages are not part of this model. They are tag reading, process and port management, and the user interface.
