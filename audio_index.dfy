/**
 * The audio-file index of bpm.py (lines 22 and 61-74): every file whose
 * lower-cased suffix is an audio extension is filed under the key of its stem
 * and the key of its base title; a later file takes over a key from an earlier one.
 *
 * Paths are POSIX paths relative to the audio root, in the order the
 * directory scan yields them; the scan itself is not part of this model.
 */
module AudioIndex {
  import opened Results
  import opened PyText
  import opened Slugs

  type Path = string

  /** `AUDIO_EXTS`. */
  const AudioExts: set<string> := {".mp3", ".flac", ".m4a", ".wav", ".ogg"}

  /** The index of the last `c` in `s`, if any (`str.rfind`). */
  function LastIndexOf(s: string, c: char): (r: Option<nat>)
    ensures r.None? ==> c !in s
    ensures r.Some? ==> r.value < |s| && s[r.value] == c && c !in s[r.value + 1..]
  {
    if s == [] then None
    else if s[|s| - 1] == c then Some(|s| - 1)
    else
      var r := LastIndexOf(s[..|s| - 1], c);
      assert s == s[..|s| - 1] + [s[|s| - 1]];
      if r.Some? then
        assert s[r.value + 1..] == s[..|s| - 1][r.value + 1..] + [s[|s| - 1]];
        r
      else r
  }

  /** `PurePath.name`: the last component, that is everything after the last `/`, or the whole path without one. */
  function Name(p: Path): (r: string)
    ensures '/' !in r
    ensures |r| <= |p| && r == p[|p| - |r|..]
    ensures |r| == |p| || p[|p| - |r| - 1] == '/'
  {
    match LastIndexOf(p, '/')
    case None => p
    case Some(i) => p[i + 1..]
  }

  /** A path whose last `/` is at `i` has the name that follows it. */
  lemma NameAfterLastSlash(p: Path, i: nat)
    requires i < |p| && p[i] == '/' && '/' !in p[i + 1..]
    ensures Name(p) == p[i + 1..]
  {
  }

  /** The name of `dir/name` is `name`. */
  lemma NameOfChild(dir: Path, name: string)
    requires '/' !in name
    ensures Name(dir + "/" + name) == name
  {
    var p := dir + "/" + name;
    assert p[|dir|] == '/' && p[|dir| + 1..] == name;
    NameAfterLastSlash(p, |dir|);
  }

  /** Where the suffix of a file name starts, if it has one: at its last dot, unless that dot is first or last. */
  function SuffixStart(name: string): (r: Option<nat>)
    ensures r.Some? ==> 0 < r.value < |name| - 1 && name[r.value] == '.' && '.' !in name[r.value + 1..]
    ensures r.None? <==> |name| == 0 || '.' !in name[1..] || name[|name| - 1] == '.'
  {
    match LastIndexOf(name, '.')
    case Some(i) =>
      if 0 < i < |name| - 1 then
        assert name[1..][i - 1] == '.';
        assert name[|name| - 1] == name[i + 1..][|name| - i - 2];
        Some(i)
      else
        None
    case None => None
  }

  /**
   * `PurePath.suffix`: from the last dot on, when that dot is neither the
   * first nor the last character of the name; empty otherwise, that is for
   * an empty name, a name with no dot after its first character, and a name
   * ending in a dot.
   */
  function Suffix(name: string): (r: string)
    ensures r == [] || (r[0] == '.' && |r| >= 2 && '.' !in r[1..])
    ensures r != [] ==> |r| < |name| && name[|name| - |r|..] == r
    ensures r == [] <==> |name| == 0 || '.' !in name[1..] || name[|name| - 1] == '.'
  {
    match SuffixStart(name)
    case Some(i) => name[i..]
    case None => []
  }

  /** A name whose last dot is neither its first nor its last character has the suffix from that dot on. */
  lemma SuffixAtLastDot(name: string, i: nat)
    requires 0 < i < |name| - 1 && name[i] == '.' && '.' !in name[i + 1..]
    ensures Suffix(name) == name[i..]
    ensures Stem(name) == name[..i]
  {
  }

  /** A non-empty stem followed by an extension with one dot: the extension is the suffix. */
  lemma StemAndSuffix(stem: string, ext: string)
    requires stem != [] && |ext| >= 2 && ext[0] == '.' && '.' !in ext[1..]
    ensures Suffix(stem + ext) == ext && Stem(stem + ext) == stem
  {
    var name := stem + ext;
    assert name[|stem|..] == ext && name[..|stem|] == stem && name[|stem| + 1..] == ext[1..];
    SuffixAtLastDot(name, |stem|);
  }

  /** `PurePath.stem`: the name without its suffix, that is the part of the name before it. */
  function Stem(name: string): (r: string)
    ensures |r| + |Suffix(name)| == |name| && r == name[..|r|]
  {
    match SuffixStart(name)
    case Some(i) => name[..i]
    case None => name
  }

  /** A file name is its stem followed by its suffix. */
  lemma StemSuffix(name: string)
    ensures Stem(name) + Suffix(name) == name
  {
    var r := Stem(name);
    assert name == name[..|r|] + name[|r|..];
  }

  /** `p.suffix.lower() in AUDIO_EXTS`. */
  predicate IsAudio(p: Path) {
    LowerAscii(Suffix(Name(p))) in AudioExts
  }

  /** The example path is a directory and a file name; the name is a stem and an extension. */
  lemma ExamplePathParts()
    ensures "Di Sarli/01 - La Cumparsita.MP3" == "Di Sarli" + "/" + ("01 - La Cumparsita" + ".MP3")
    ensures '/' !in "01 - La Cumparsita" + ".MP3"
    ensures LowerAscii(".MP3") == ".mp3"
  {
  }

  /** The keys a file is filed under: the keys of its stem and of its base title. */
  function FileKeys(p: Path, fold: CharFold): (r: set<string>)
    ensures 1 <= |r| <= 2
    ensures forall k :: k in r ==> IsSlug(k)
    ensures Slugify(Stem(Name(p)), fold) in r
    ensures Slugify(BaseTitleFromStem(Stem(Name(p))), fold) in r
  {
    var stem := Stem(Name(p));
    var a, b := Slugify(stem, fold), Slugify(BaseTitleFromStem(stem), fold);
    PairCard(a, b);
    assert IsSlug(a) && IsSlug(b);
    {a, b}
  }

  lemma PairCard(a: string, b: string)
    ensures 1 <= |{a, b}| <= 2
  {
    if a == b {
      assert {a, b} == {a};
    }
  }

  /** The paths of `files` that `keep` accepts, in their order. */
  function Filter(files: seq<Path>, keep: Path -> bool): (r: seq<Path>)
    ensures forall i :: 0 <= i < |r| ==> keep(r[i]) && r[i] in files
    ensures forall p :: p in files && keep(p) ==> p in r
  {
    if files == [] then []
    else (if keep(files[0]) then [files[0]] else []) + Filter(files[1..], keep)
  }

  /** Filtering keeps order: a path appended to the list is appended to the result, if it is accepted. */
  lemma {:induction false} FilterAppend(files: seq<Path>, p: Path, keep: Path -> bool)
    ensures Filter(files + [p], keep) == Filter(files, keep) + (if keep(p) then [p] else [])
  {
    if files == [] {
      assert files + [p] == [p];
    } else {
      var head := if keep(files[0]) then [files[0]] else [];
      assert (files + [p])[0] == files[0] && (files + [p])[1..] == files[1..] + [p];
      assert Filter(files + [p], keep) == head + Filter(files[1..] + [p], keep);
      FilterAppend(files[1..], p, keep);
      assert Filter(files, keep) == head + Filter(files[1..], keep);
    }
  }

  /** The audio files of a scan (`all_files`), in scan order. */
  function AudioFiles(scan: seq<Path>): (r: seq<Path>)
    ensures forall i :: 0 <= i < |r| ==> IsAudio(r[i]) && r[i] in scan
    ensures forall p :: p in scan && IsAudio(p) ==> p in r
  {
    Filter(scan, IsAudio)
  }

  /** A path appended to the scan is appended to its audio files exactly when it is an audio file. */
  lemma AudioFilesAppend(scan: seq<Path>, p: Path)
    ensures AudioFiles(scan + [p]) == AudioFiles(scan) + (if IsAudio(p) then [p] else [])
  {
    FilterAppend(scan, p, IsAudio);
  }

  /** The index after filing `p` under each of `keys`. */
  function AddFile(index: map<string, Path>, keys: set<string>, p: Path): (r: map<string, Path>)
    ensures forall k :: k in r <==> k in index || k in keys
    ensures forall k :: k in keys ==> r[k] == p
    ensures forall k :: k in index && k !in keys ==> r[k] == index[k]
  {
    index + map k | k in keys :: p
  }

  /** The name of the example path, and the stem and suffix of that name. */
  lemma ExampleName()
    ensures Name("Di Sarli/01 - La Cumparsita.MP3") == "01 - La Cumparsita" + ".MP3"
    ensures Suffix("01 - La Cumparsita" + ".MP3") == ".MP3"
    ensures Stem("01 - La Cumparsita" + ".MP3") == "01 - La Cumparsita"
  {
    ExamplePathParts();
    NameOfChild("Di Sarli", "01 - La Cumparsita" + ".MP3");
    StemAndSuffix("01 - La Cumparsita", ".MP3");
  }

  /** An upper-case extension is an audio extension. */
  lemma AudioFileExample()
    ensures IsAudio("Di Sarli/01 - La Cumparsita.MP3")
  {
    ExampleName();
    ExamplePathParts();
  }

  /** A numbered file is filed under the key of its whole stem and under the key of its title. */
  lemma FileKeysExample(fold: CharFold)
    ensures FileKeys("Di Sarli/01 - La Cumparsita.MP3", fold) == {"01lacumparsita", "lacumparsita"}
  {
    ExampleName();
    SlugifyExample(fold);
    BaseTitleExample();
    TitleKeyExample(fold);
  }

  /** `FileKeys` as a function of the path alone. */
  function KeysOf(fold: CharFold): Path -> set<string> {
    p => FileKeys(p, fold)
  }

  /**
   * The index built from `files` in order, each file filed under the keys
   * `keysOf` gives it and overwriting the keys it shares with earlier files.
   */
  function IndexFiles(files: seq<Path>, keysOf: Path -> set<string>): map<string, Path> {
    if files == [] then map[]
    else
      var p := files[|files| - 1];
      AddFile(IndexFiles(files[..|files| - 1], keysOf), keysOf(p), p)
  }

  /** `build_audio_index`. */
  method BuildAudioIndex(scan: seq<Path>, fold: CharFold) returns (index: map<string, Path>)
    ensures index == IndexFiles(AudioFiles(scan), KeysOf(fold))
  {
    var allFiles := AudioFiles(scan);
    index := map[];
    var n := 0;
    while n < |allFiles|
      invariant n <= |allFiles|
      invariant index == IndexFiles(allFiles[..n], KeysOf(fold))
    {
      var p := allFiles[n];
      index := FileUnder(index, FileKeys(p, fold), p);
      IndexFilesStep(allFiles, n, KeysOf(fold));
      n := n + 1;
    }
    assert allFiles[..n] == allFiles;
  }

  /** The inner loop of `build_audio_index`: `index[k] = p` for every key `k` of the file. */
  method FileUnder(index0: map<string, Path>, keys0: set<string>, p: Path) returns (index: map<string, Path>)
    ensures index == AddFile(index0, keys0, p)
  {
    index := index0;
    var keys := keys0;
    SameMaps(index, AddFile(index0, {}, p));
    while keys != {}
      invariant keys <= keys0
      invariant index == AddFile(index0, keys0 - keys, p)
      decreases keys
    {
      var k :| k in keys;
      AddFileStep(index0, keys0 - keys, k, p);
      assert keys0 - (keys - {k}) == (keys0 - keys) + {k};
      index := index[k := p];
      keys := keys - {k};
    }
  }

  /** Filing under one more key is one more map update. */
  lemma AddFileStep(index0: map<string, Path>, done: set<string>, k: string, p: Path)
    ensures AddFile(index0, done, p)[k := p] == AddFile(index0, done + {k}, p)
  {
    SameMaps(AddFile(index0, done, p)[k := p], AddFile(index0, done + {k}, p));
  }

  /** Indexing one more file of the list adds that file's keys. */
  lemma IndexFilesStep(files: seq<Path>, n: nat, keysOf: Path -> set<string>)
    requires n < |files|
    ensures IndexFiles(files[..n + 1], keysOf) == AddFile(IndexFiles(files[..n], keysOf), keysOf(files[n]), files[n])
  {
    assert files[..n + 1][..n] == files[..n];
  }

  lemma SameMaps(a: map<string, Path>, b: map<string, Path>)
    requires forall k :: k in a <==> k in b
    requires forall k :: k in a ==> a[k] == b[k]
    ensures a == b
  {
  }

  /** A key is in the index exactly when some file of the list is filed under it. */
  lemma {:induction false} IndexKeys(files: seq<Path>, keysOf: Path -> set<string>, k: string)
    ensures k in IndexFiles(files, keysOf) <==> exists i :: 0 <= i < |files| && k in keysOf(files[i])
  {
    if files != [] {
      var init := files[..|files| - 1];
      IndexKeys(init, keysOf, k);
      if exists i :: 0 <= i < |init| && k in keysOf(init[i]) {
        var i :| 0 <= i < |init| && k in keysOf(init[i]);
        assert files[i] == init[i];
      }
      if exists i :: 0 <= i < |files| && k in keysOf(files[i]) {
        var i :| 0 <= i < |files| && k in keysOf(files[i]);
        if i < |init| {
          assert init[i] == files[i];
        }
      }
    }
  }

  /** A key maps to the last file of the list that is filed under it. */
  lemma {:induction false} IndexLastWins(files: seq<Path>, keysOf: Path -> set<string>, k: string) returns (i: nat)
    requires k in IndexFiles(files, keysOf)
    ensures i < |files| && IndexFiles(files, keysOf)[k] == files[i]
    ensures k in keysOf(files[i])
    ensures forall j :: i < j < |files| ==> k !in keysOf(files[j])
  {
    var init := files[..|files| - 1];
    var last := files[|files| - 1];
    if k in keysOf(last) {
      i := |files| - 1;
    } else {
      i := IndexLastWins(init, keysOf, k);
      assert files[i] == init[i];
      assert forall j :: i < j < |init| ==> files[j] == init[j];
    }
  }

  /** Scanning one more path files it under its keys if it is accepted, and changes nothing otherwise. */
  lemma IndexAppend(scan: seq<Path>, p: Path, keep: Path -> bool, keysOf: Path -> set<string>)
    ensures IndexFiles(Filter(scan + [p], keep), keysOf) ==
      if keep(p) then AddFile(IndexFiles(Filter(scan, keep), keysOf), keysOf(p), p)
      else IndexFiles(Filter(scan, keep), keysOf)
  {
    FilterAppend(scan, p, keep);
    var files := Filter(scan, keep);
    if keep(p) {
      IndexSnoc(files, p, keysOf);
    } else {
      assert Filter(scan + [p], keep) == files;
    }
  }

  /** Indexing a list with one more path at its end files that path on top. */
  lemma IndexSnoc(files: seq<Path>, p: Path, keysOf: Path -> set<string>)
    ensures IndexFiles(files + [p], keysOf) == AddFile(IndexFiles(files, keysOf), keysOf(p), p)
  {
    assert (files + [p])[..|files|] == files;
  }

  /** The index of the accepted paths of a scan, by its last path and the paths before it. */
  lemma IndexDropLast(scan: seq<Path>, keep: Path -> bool, keysOf: Path -> set<string>)
    requires scan != []
    ensures var p := scan[|scan| - 1];
      var m0 := IndexFiles(Filter(scan[..|scan| - 1], keep), keysOf);
      IndexFiles(Filter(scan, keep), keysOf) == if keep(p) then AddFile(m0, keysOf(p), p) else m0
  {
    assert scan == scan[..|scan| - 1] + [scan[|scan| - 1]];
    IndexAppend(scan[..|scan| - 1], scan[|scan| - 1], keep, keysOf);
  }

  /** The index built by walking the scan itself, skipping the paths `keep` rejects. */
  function IndexScan(scan: seq<Path>, keep: Path -> bool, keysOf: Path -> set<string>): map<string, Path> {
    if scan == [] then map[]
    else
      var p := scan[|scan| - 1];
      var m0 := IndexScan(scan[..|scan| - 1], keep, keysOf);
      if keep(p) then AddFile(m0, keysOf(p), p) else m0
  }

  /** Walking the scan and skipping rejected paths builds the same index as filtering first. */
  lemma {:induction false} IndexScanFilter(scan: seq<Path>, keep: Path -> bool, keysOf: Path -> set<string>)
    ensures IndexScan(scan, keep, keysOf) == IndexFiles(Filter(scan, keep), keysOf)
  {
    if scan == [] {
      assert Filter(scan, keep) == [];
    } else {
      IndexScanFilter(scan[..|scan| - 1], keep, keysOf);
      IndexDropLast(scan, keep, keysOf);
    }
  }

  /**
   * Over the scan itself: a key of the index of the accepted paths maps to
   * the accepted path at some scan position `i` that yields it, and no
   * accepted path later in the scan yields that key.
   */
  lemma {:induction false} ScanLastWins(scan: seq<Path>, keep: Path -> bool, keysOf: Path -> set<string>, k: string)
    returns (i: nat)
    requires k in IndexScan(scan, keep, keysOf)
    ensures i < |scan| && keep(scan[i]) && k in keysOf(scan[i])
    ensures IndexScan(scan, keep, keysOf)[k] == scan[i]
    ensures forall j :: i < j < |scan| && keep(scan[j]) ==> k !in keysOf(scan[j])
  {
    var init := scan[..|scan| - 1];
    var p := scan[|scan| - 1];
    if keep(p) && k in keysOf(p) {
      i := |scan| - 1;
    } else {
      i := ScanLastWins(init, keep, keysOf, k);
      forall j | i < j < |scan| && keep(scan[j])
        ensures k !in keysOf(scan[j])
      {
        if j < |init| {
          assert scan[j] == init[j];
        }
      }
    }
  }

  /**
   * Every value of the built index is an audio file of the scan, filed under
   * that key as the key of its stem or of its base title.
   */
  lemma IndexHoldsAudioFiles(scan: seq<Path>, fold: CharFold, k: string)
    requires k in IndexFiles(AudioFiles(scan), KeysOf(fold))
    ensures var p := IndexFiles(AudioFiles(scan), KeysOf(fold))[k];
      && IsAudio(p) && p in scan
      && (k == Slugify(Stem(Name(p)), fold) || k == Slugify(BaseTitleFromStem(Stem(Name(p))), fold))
  {
    var files := AudioFiles(scan);
    var i := IndexLastWins(files, KeysOf(fold), k);
    FileKeysOnly(files[i], fold, k);
  }

  /** A file has no keys besides those of its stem and of its base title. */
  lemma FileKeysOnly(p: Path, fold: CharFold, k: string)
    requires k in FileKeys(p, fold)
    ensures k == Slugify(Stem(Name(p)), fold) || k == Slugify(BaseTitleFromStem(Stem(Name(p))), fold)
  {
    var stem := Stem(Name(p));
    assert FileKeys(p, fold) == {Slugify(stem, fold), Slugify(BaseTitleFromStem(stem), fold)};
  }

  /**
   * Every audio file of the scan can be found in the built index both by
   * the key of its stem and by the key of its base title (though a later
   * file may have taken over either key).
   */
  lemma AudioFileKeysIndexed(scan: seq<Path>, fold: CharFold, p: Path)
    requires p in scan && IsAudio(p)
    ensures Slugify(Stem(Name(p)), fold) in IndexFiles(AudioFiles(scan), KeysOf(fold))
    ensures Slugify(BaseTitleFromStem(Stem(Name(p))), fold) in IndexFiles(AudioFiles(scan), KeysOf(fold))
  {
    var files := AudioFiles(scan);
    var i :| 0 <= i < |files| && files[i] == p;
    IndexKeys(files, KeysOf(fold), Slugify(Stem(Name(p)), fold));
    IndexKeys(files, KeysOf(fold), Slugify(BaseTitleFromStem(Stem(Name(p))), fold));
  }

  /**
   * In the built index a key maps to the audio file at some scan position
   * `i` that is filed under it, and no audio file later in the scan is
   * filed under the same key: the last one in scan order wins.
   */
  lemma BuiltIndexLastWins(scan: seq<Path>, fold: CharFold, k: string) returns (i: nat)
    requires k in IndexFiles(AudioFiles(scan), KeysOf(fold))
    ensures i < |scan| && IndexFiles(AudioFiles(scan), KeysOf(fold))[k] == scan[i]
    ensures IsAudio(scan[i]) && k in FileKeys(scan[i], fold)
    ensures forall j :: i < j < |scan| && IsAudio(scan[j]) ==> k !in FileKeys(scan[j], fold)
  {
    IndexScanFilter(scan, IsAudio, KeysOf(fold));
    i := ScanLastWins(scan, IsAudio, KeysOf(fold), k);
  }
}
