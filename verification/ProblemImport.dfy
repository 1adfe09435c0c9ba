/** Import of problem archives (domain-imex `problem_import.rs`, `security.rs`). The
    order in which a hash map lists its keys is the parameter `listing`. */
module ProblemImport {
  import opened Common
  import opened Text
  import opened TestCaseStems
  import opened ProblemExport

  const MAX_FILE_SIZE: nat := 10_000_000
  const MAX_ARCHIVE_ENTRIES: nat := 500
  const MAX_ARCHIVE_SIZE: nat := 50_000_000

  datatype TestCaseFile = TestCaseFile(input: Bytes, output: Bytes, config: ImportedRef)

  datatype Status = Valid | Duplicate | Error

  datatype Warning =
    | ReadFailure
    | InvalidConfig
    | InvalidDifficulty(difficulty: string)
    | MissingDescription(path: string)
    | MissingTestCaseFile(path: string)
    | TitleExists

  datatype Item = Item(
    slug: string, config: Config<ImportedRef>, description: string, testCaseFiles: seq<TestCaseFile>,
    status: Status, warning: Option<Warning>)

  type Listing = set<string> -> seq<string>

  ghost predicate ListsKeys(listing: Listing) {
    forall S :: Enumerates(listing(S), S)
  }

  predicate HasDotDot(s: string) {
    exists i :: 0 < i < |s| && s[i - 1] == '.' && s[i] == '.'
  }

  function ValidateEntry(e: Entry): Option<ArchiveError> {
    if HasDotDot(e.name) then Some(PathTraversal(e.name))
    else if "/" <= e.name || "\\" <= e.name then Some(PathTraversal(e.name))
    else if e.isSymlink then Some(SymlinkDetected(e.name))
    else if e.declaredSize > MAX_FILE_SIZE then Some(FileTooLarge(e.name))
    else None
  }

  /** The bytes read from an entry, capped just past the limit. */
  function ReadEntry(e: Entry): Bytes {
    if |e.data| > MAX_FILE_SIZE + 1 then e.data[..MAX_FILE_SIZE + 1] else e.data
  }

  /** Why an entry is refused when `total` bytes have been read before it. */
  function EntryError(e: Entry, total: nat): Option<ArchiveError> {
    if ValidateEntry(e).Some? then ValidateEntry(e)
    else if total + e.declaredSize > MAX_ARCHIVE_SIZE then Some(ArchiveTooLarge)
    else if |ReadEntry(e)| > MAX_FILE_SIZE then Some(FileTooLarge(e.name))
    else if total + |ReadEntry(e)| > MAX_ARCHIVE_SIZE then Some(ArchiveTooLarge)
    else None
  }

  function TotalRead(entries: seq<Entry>): nat {
    if entries == [] then 0 else TotalRead(entries[..|entries| - 1]) + |ReadEntry(entries[|entries| - 1])|
  }

  /** The path-to-bytes map of an archive, or the first reason to refuse it. */
  function Load(entries: seq<Entry>): Result<map<string, Bytes>, ArchiveError> {
    if entries == [] then Ok(map[])
    else
      var front, e := entries[..|entries| - 1], entries[|entries| - 1];
      var loaded := Load(front);
      if loaded.Err? then loaded
      else if EntryError(e, TotalRead(front)).Some? then Err(EntryError(e, TotalRead(front)).value)
      else Ok(loaded.value[e.name := ReadEntry(e)])
  }

  predicate IsConfigPath(path: string) {
    var p := TrimEndMatches(path, "/");
    "problems/" <= p && EndsWith(p, "/config.json") && CountChar(p, '/') == 2
  }

  function SlugOf(path: string): string {
    TrimEndMatches(TrimStartMatches(path, "problems/"), "/config.json")
  }

  function ConfigPaths(keys: seq<string>): seq<string> {
    if keys == [] then []
    else
      var front, p := ConfigPaths(keys[..|keys| - 1]), keys[|keys| - 1];
      if IsConfigPath(p) then front + [p] else front
  }

  function EmptyConfig(slug: string): Config<ImportedRef> {
    Config(slug, "easy", 5000, 256, false, "private", [], None, None, [])
  }

  function ErrorItem(slug: string, w: Warning): Item {
    Item(slug, EmptyConfig(slug), "", [], Error, Some(w))
  }

  /** The stem of a discovered `.in` file that has its `.out` beside it. */
  function StemOf(files: map<string, Bytes>, prefix: string, path: string): Option<string> {
    if !(prefix <= path) then None
    else
      var name := path[|prefix|..];
      if !EndsWith(name, ".in") then None
      else
        var stem := name[..|name| - 3];
        if prefix + stem + ".out" in files then Some(stem) else None
  }

  function Stems(files: map<string, Bytes>, prefix: string, keys: seq<string>): seq<string> {
    if keys == [] then []
    else
      var front, stem := Stems(files, prefix, keys[..|keys| - 1]), StemOf(files, prefix, keys[|keys| - 1]);
      if stem.Some? then front + [stem.value] else front
  }

  function Discover(files: map<string, Bytes>, keys: seq<string>, slug: string): seq<ImportedRef> {
    var stems := SortStems(Stems(files, "problems/" + slug + "/testcases/", keys));
    seq(|stems|, i requires 0 <= i < |stems| =>
        ImportedRef(stems[i] + ".in", stems[i] + ".out", Some(false), None, Some(i)))
  }

  function TestCasePath(slug: string, file: string): string {
    if "testcases/" <= file then "problems/" + slug + "/" + file else "problems/" + slug + "/testcases/" + file
  }

  function ReadTestCase(files: map<string, Bytes>, slug: string, r: ImportedRef): Result<TestCaseFile, string> {
    var i, o := TestCasePath(slug, r.inputFile), TestCasePath(slug, r.outputFile);
    if i !in files then Err(i)
    else if o !in files then Err(o)
    else Ok(TestCaseFile(files[i], files[o], r))
  }

  function ReadTestCases(files: map<string, Bytes>, slug: string, refs: seq<ImportedRef>): Result<seq<TestCaseFile>,
      string> {
    if refs == [] then Ok([])
    else
      var front := ReadTestCases(files, slug, refs[..|refs| - 1]);
      if front.Err? then front
      else
        var last := ReadTestCase(files, slug, refs[|refs| - 1]);
        if last.Err? then Err(last.error) else Ok(front.value + [last.value])
  }

  predicate ValidDifficulty(d: string) { d in ["easy", "medium", "hard"] }

  function ItemRefs(files: map<string, Bytes>, keys: seq<string>, slug: string,
      config: Config<ImportedRef>): seq<ImportedRef> {
    if config.testCases == [] then Discover(files, keys, slug) else config.testCases
  }

  function ParseItem(codec: Codec, files: map<string, Bytes>, keys: seq<string>, skip: set<string>,
      path: string): Item {
    var slug := SlugOf(path);
    if path !in files then ErrorItem(slug, ReadFailure)
    else
      var parsed := codec.fromJson(codec.lossy(files[path]));
      if parsed.None? then ErrorItem(slug, InvalidConfig)
      else
        var config := parsed.value;
        if !ValidDifficulty(config.difficulty) then ErrorItem(slug, InvalidDifficulty(config.difficulty))
        else if PathOf(slug, DescriptionFile) !in files then
          ErrorItem(slug, MissingDescription(PathOf(slug, DescriptionFile)))
        else
          var read := ReadTestCases(files, slug, ItemRefs(files, keys, slug, config));
          if read.Err? then ErrorItem(slug, MissingTestCaseFile(read.error))
          else
            var duplicate := config.title in skip;
            Item(slug, config, codec.lossy(files[PathOf(slug, DescriptionFile)]), read.value,
                 if duplicate then Duplicate else Valid, if duplicate then Some(TitleExists) else None)
  }

  function ParseItems(codec: Codec, files: map<string, Bytes>, keys: seq<string>, skip: set<string>,
      paths: seq<string>): seq<Item> {
    seq(|paths|, i requires 0 <= i < |paths| => ParseItem(codec, files, keys, skip, paths[i]))
  }

  function ParsedZip(codec: Codec, listing: Listing, entries: seq<Entry>, skip: set<string>): Result<seq<Item>,
      ArchiveError> {
    if |entries| > MAX_ARCHIVE_ENTRIES then Err(TooManyFiles)
    else
      var loaded := Load(entries);
      if loaded.Err? then Err(loaded.error)
      else
        var keys := listing(loaded.value.Keys);
        Ok(ParseItems(codec, loaded.value, keys, skip, ConfigPaths(keys)))
  }

  // -------------------------------------------------------------- the importer

  method LoadArchive(entries: seq<Entry>) returns (r: Result<map<string, Bytes>, ArchiveError>)
    ensures r == Load(entries)
  {
    var files: map<string, Bytes> := map[];
    var total := 0;
    for i := 0 to |entries|
      invariant total == TotalRead(entries[..i]) && Load(entries[..i]) == Ok(files)
    {
      var e := entries[i];
      assert entries[..i + 1][..i] == entries[..i];
      var refused := EntryError(e, total);
      if refused.Some? {
        LoadStops(entries, i + 1);
        return Err(refused.value);
      }
      var buf := ReadEntry(e);
      total := total + |buf|;
      files := files[e.name := buf];
    }
    assert entries[..|entries|] == entries;
    return Ok(files);
  }

  lemma {:induction false} LoadStops(entries: seq<Entry>, i: nat)
    requires i <= |entries| && Load(entries[..i]).Err?
    ensures Load(entries) == Load(entries[..i])
  {
    if i == |entries| {
      assert entries[..i] == entries;
    } else {
      assert entries[..|entries| - 1][..i] == entries[..i];
      LoadStops(entries[..|entries| - 1], i);
    }
  }

  method LoadTestCases(files: map<string, Bytes>, slug: string, refs: seq<ImportedRef>)
    returns (r: Result<seq<TestCaseFile>, string>)
    ensures r == ReadTestCases(files, slug, refs)
  {
    var read: seq<TestCaseFile> := [];
    for i := 0 to |refs|
      invariant ReadTestCases(files, slug, refs[..i]) == Ok(read)
    {
      assert refs[..i + 1][..i] == refs[..i];
      var next := ReadTestCase(files, slug, refs[i]);
      if next.Err? {
        ReadStops(files, slug, refs, i + 1);
        return Err(next.error);
      }
      read := read + [next.value];
    }
    assert refs[..|refs|] == refs;
    return Ok(read);
  }

  lemma {:induction false} ReadStops(files: map<string, Bytes>, slug: string, refs: seq<ImportedRef>, i: nat)
    requires i <= |refs| && ReadTestCases(files, slug, refs[..i]).Err?
    ensures ReadTestCases(files, slug, refs) == ReadTestCases(files, slug, refs[..i])
  {
    if i == |refs| {
      assert refs[..i] == refs;
    } else {
      assert refs[..|refs| - 1][..i] == refs[..i];
      ReadStops(files, slug, refs[..|refs| - 1], i);
    }
  }

  /** The item for one config path; the first problem met decides which error. */
  method ImportOne(codec: Codec, files: map<string, Bytes>, keys: seq<string>, skip: set<string>, path: string)
    returns (item: Item)
    ensures item == ParseItem(codec, files, keys, skip, path)
    ensures item.slug == SlugOf(path) && (item.status == Valid <==> item.warning == None)
    ensures item.status == Error ==> item.testCaseFiles == []
    ensures item.status != Error ==>
              && path in files && codec.fromJson(codec.lossy(files[path])) == Some(item.config)
              && ValidDifficulty(item.config.difficulty) && (item.status == Duplicate <==> item.config.title in skip)
              && |item.testCaseFiles| == |ItemRefs(files, keys, item.slug, item.config)|
  {
    hide SlugOf, ItemRefs, ReadTestCases, PathOf, ValidDifficulty;
    var slug := SlugOf(path);
    if path !in files {
      return ErrorItem(slug, ReadFailure);
    }
    var parsed := codec.fromJson(codec.lossy(files[path]));
    if parsed.None? {
      return ErrorItem(slug, InvalidConfig);
    }
    var config := parsed.value;
    if !ValidDifficulty(config.difficulty) {
      return ErrorItem(slug, InvalidDifficulty(config.difficulty));
    }
    var mdPath := PathOf(slug, DescriptionFile);
    if mdPath !in files {
      return ErrorItem(slug, MissingDescription(mdPath));
    }
    var read := LoadTestCases(files, slug, ItemRefs(files, keys, slug, config));
    if read.Err? {
      return ErrorItem(slug, MissingTestCaseFile(read.error));
    }
    ReadsAll(files, slug, ItemRefs(files, keys, slug, config));
    var duplicate := config.title in skip;
    return Item(slug, config, codec.lossy(files[mdPath]), read.value,
                if duplicate then Duplicate else Valid, if duplicate then Some(TitleExists) else None);
  }

  method ParseProblemZip(codec: Codec, listing: Listing, entries: seq<Entry>, skip: set<string>)
    returns (r: Result<seq<Item>, ArchiveError>)
    ensures r == ParsedZip(codec, listing, entries, skip)
  {
    hide ParseItem, ConfigPaths, Load;
    if |entries| > MAX_ARCHIVE_ENTRIES {
      return Err(TooManyFiles);
    }
    var loaded := LoadArchive(entries);
    if loaded.Err? {
      return Err(loaded.error);
    }
    var files := loaded.value;
    var keys := listing(files.Keys);
    var paths := ConfigPaths(keys);
    var items: seq<Item> := [];
    for i := 0 to |paths|
      invariant items == ParseItems(codec, files, keys, skip, paths[..i])
    {
      var item := ImportOne(codec, files, keys, skip, paths[i]);
      items := items + [item];
    }
    assert paths[..|paths|] == paths;
    return Ok(items);
  }

  // ------------------------------------------------- properties of any archive

  ghost predicate SafeName(name: string) {
    !HasDotDot(name) && !("/" <= name) && !("\\" <= name)
  }

  /** Whatever the archive claims about itself: once loaded, no path leaves its
      directory, no file and not the whole exceed the limits. */
  lemma {:induction false} LoadedArchiveIsSafe(entries: seq<Entry>)
    requires Load(entries).Ok?
    ensures forall name :: name in Load(entries).value ==>
              SafeName(name) && |Load(entries).value[name]| <= MAX_FILE_SIZE
    ensures TotalRead(entries) <= MAX_ARCHIVE_SIZE
  {
    if entries != [] {
      LoadedArchiveIsSafe(entries[..|entries| - 1]);
    }
  }

  function TestCaseDir(slug: string): string { "problems/" + slug + "/testcases/" }

  lemma StartsWithDir(stem: string, ext: string)
    requires ext == ".in" || ext == ".out"
    ensures "testcases/" <= stem + ext <==> "testcases/" <= stem
  {
    var s := stem + ext;
    assert s[|stem|] == '.';
    if "testcases/" <= s && |stem| >= 10 {
      assert s[..10] == stem[..10];
    }
    if "testcases/" <= stem {
      assert s[..10] == stem[..10];
    }
  }

  /** The stem whose files are opened for a discovered stem: a leading "testcases/"
      is taken for the directory itself. */
  function OpenedStem(stem: string): string { if "testcases/" <= stem then stem[10..] else stem }

  lemma DiscoveredFileOpens(slug: string, stem: string, ext: string)
    requires ext == ".in" || ext == ".out"
    ensures TestCasePath(slug, stem + ext) == TestCaseDir(slug) + OpenedStem(stem) + ext
  {
    StartsWithDir(stem, ext);
    var looked := TestCasePath(slug, stem + ext);
    if "testcases/" <= stem {
      assert stem == "testcases/" + stem[10..];
      assert looked == "problems/" + slug + "/" + ("testcases/" + stem[10..] + ext);
      assert looked == TestCaseDir(slug) + stem[10..] + ext;
    } else {
      assert looked == "problems/" + slug + "/testcases/" + (stem + ext);
    }
  }

  /** A discovered file is looked up again by name, and found where it was
      discovered exactly if its name does not itself start with "testcases/". */
  lemma DiscoveredFileIsItself(slug: string, stem: string, ext: string)
    requires ext == ".in" || ext == ".out"
    ensures TestCasePath(slug, stem + ext) == TestCaseDir(slug) + stem + ext <==> !("testcases/" <= stem)
  {
    DiscoveredFileOpens(slug, stem, ext);
    if "testcases/" <= stem {
      assert |TestCaseDir(slug) + OpenedStem(stem) + ext| < |TestCaseDir(slug) + stem + ext|;
    }
  }

  // ----------------------------------------------------- what discovery finds

  ghost predicate Paired(files: map<string, Bytes>, slug: string, stem: string) {
    TestCaseDir(slug) + stem + ".in" in files && TestCaseDir(slug) + stem + ".out" in files
  }

  /** The one path from which a stem is discovered. */
  lemma StemOfExactly(files: map<string, Bytes>, prefix: string, path: string, stem: string)
    ensures StemOf(files, prefix, path) == Some(stem) <==>
              path == prefix + stem + ".in" && prefix + stem + ".out" in files
  {
    if prefix <= path {
      var name := path[|prefix|..];
      assert path == prefix + name;
      if EndsWith(name, ".in") {
        assert name == name[..|name| - 3] + ".in";
        assert path == prefix + name[..|name| - 3] + ".in";
      }
    }
    if path == prefix + stem + ".in" {
      assert path[..|prefix|] == prefix && path[|prefix|..] == stem + ".in";
      assert (stem + ".in")[|stem|..] == ".in" && (stem + ".in")[..|stem|] == stem;
    }
  }

  /** Discovery finds exactly the stems with both files. */
  lemma {:induction false} StemsExactly(files: map<string, Bytes>, prefix: string, keys: seq<string>, stem: string)
    ensures stem in Stems(files, prefix, keys) <==>
              prefix + stem + ".in" in keys && prefix + stem + ".out" in files
  {
    hide StemOf;
    if keys != [] {
      var front, last := keys[..|keys| - 1], keys[|keys| - 1];
      assert keys == front + [last];
      StemsExactly(files, prefix, front, stem);
      StemOfExactly(files, prefix, last, stem);
    }
  }

  /** No stem is found twice. */
  lemma {:induction false} StemsDistinct(files: map<string, Bytes>, prefix: string, keys: seq<string>)
    requires Distinct(keys)
    ensures Distinct(Stems(files, prefix, keys))
  {
    hide StemOf;
    if keys != [] {
      var front, last := keys[..|keys| - 1], keys[|keys| - 1];
      StemsDistinct(files, prefix, front);
      var stems, stem := Stems(files, prefix, front), StemOf(files, prefix, last);
      assert Stems(files, prefix, keys) == if stem.Some? then stems + [stem.value] else stems;
      if stem.Some? {
        StemOfExactly(files, prefix, last, stem.value);
        StemsExactly(files, prefix, front, stem.value);
        assert stem.value !in stems;
      }
    }
  }

  ghost function StemSet(files: map<string, Bytes>, slug: string): set<string> {
    set path | path in files && StemOf(files, TestCaseDir(slug), path).Some? ::
        StemOf(files, TestCaseDir(slug), path).value
  }

  lemma StemsEnumerate(files: map<string, Bytes>, slug: string, keys: seq<string>)
    requires Enumerates(keys, files.Keys)
    ensures Enumerates(Stems(files, TestCaseDir(slug), keys), StemSet(files, slug))
  {
    hide StemOf, Stems;
    var prefix := TestCaseDir(slug);
    StemsDistinct(files, prefix, keys);
    forall stem ensures stem in Stems(files, prefix, keys) <==> stem in StemSet(files, slug) {
      StemsExactly(files, prefix, keys, stem);
      StemOfExactly(files, prefix, prefix + stem + ".in", stem);
      forall path | path in files && StemOf(files, prefix, path).Some? && StemOf(files, prefix, path).value == stem
        ensures path == prefix + stem + ".in" && prefix + stem + ".out" in files
      {
        StemOfExactly(files, prefix, path, stem);
      }
    }
  }

  /** The discovered test cases and their order do not depend on the order in which
      the archive's hash map lists its paths, as long as no stem straddles. */
  lemma DiscoveryDeterministic(files: map<string, Bytes>, keys: seq<string>, keys': seq<string>, slug: string)
    requires Enumerates(keys, files.Keys) && Enumerates(keys', files.Keys) && Unmixed(StemSet(files, slug))
    ensures Discover(files, keys, slug) == Discover(files, keys', slug)
    ensures Sorted(SortStems(Stems(files, TestCaseDir(slug), keys)))
  {
    hide Stems, StemSet, Enumerates, SortStems, Sorted;
    StemsEnumerate(files, slug, keys);
    StemsEnumerate(files, slug, keys');
    SortDeterministic(Stems(files, TestCaseDir(slug), keys), Stems(files, TestCaseDir(slug), keys'),
        StemSet(files, slug));
  }

  // -------------------------------------------------- what discovery reads

  lemma DiscoveredCaseReads(files: map<string, Bytes>, slug: string, stem: string, r: ImportedRef)
    requires r.inputFile == stem + ".in" && r.outputFile == stem + ".out"
    ensures ReadTestCase(files, slug, r).Ok? <==> Paired(files, slug, OpenedStem(stem))
    ensures ReadTestCase(files, slug, r).Ok? ==>
              ReadTestCase(files, slug, r).value == CaseOf(files, slug, OpenedStem(stem), r)
  {
    hide TestCasePath, OpenedStem;
    DiscoveredFileOpens(slug, stem, ".in");
    DiscoveredFileOpens(slug, stem, ".out");
  }

  /** A test case with the bytes of the two files of this stem. */
  ghost function CaseOf(files: map<string, Bytes>, slug: string, stem: string, r: ImportedRef): TestCaseFile
    requires Paired(files, slug, stem)
  {
    TestCaseFile(files[TestCaseDir(slug) + stem + ".in"], files[TestCaseDir(slug) + stem + ".out"], r)
  }

  lemma {:induction false} ReadsAll(files: map<string, Bytes>, slug: string, refs: seq<ImportedRef>)
    ensures ReadTestCases(files, slug, refs).Ok? <==>
              forall i :: 0 <= i < |refs| ==> ReadTestCase(files, slug, refs[i]).Ok?
    ensures ReadTestCases(files, slug, refs).Ok? ==>
              && |ReadTestCases(files, slug, refs).value| == |refs|
              && forall i :: 0 <= i < |refs| ==>
                    ReadTestCases(files, slug, refs).value[i] == ReadTestCase(files, slug, refs[i]).value
  {
    hide ReadTestCase;
    if refs != [] {
      ReadsAll(files, slug, refs[..|refs| - 1]);
    }
  }

  /** Discovery leads to a missing file exactly when some discovered stem starts with
      "testcases/" and has no files one directory up. Otherwise every test case is
      read, with the bytes of the stem that was opened: its own two files unless it
      starts that way, and those of another discovered test case if it does. */
  lemma DiscoveredTestCasesRead(files: map<string, Bytes>, keys: seq<string>, slug: string)
    requires Enumerates(keys, files.Keys)
    ensures var stems, read := SortStems(Stems(files, TestCaseDir(slug), keys)),
                               ReadTestCases(files, slug, Discover(files, keys, slug));
            && (read.Ok? <==> forall s :: s in stems && "testcases/" <= s ==> s[10..] in stems)
            && (read.Ok? ==> |read.value| == |stems| && forall i :: 0 <= i < |stems| ==>
                  && Paired(files, slug, OpenedStem(stems[i]))
                  && read.value[i] == CaseOf(files, slug, OpenedStem(stems[i]), Discover(files, keys, slug)[i]))
  {
    hide ReadTestCase, Paired, SortStems, Stems, CaseOf;
    var stems := SortStems(Stems(files, TestCaseDir(slug), keys));
    var refs := Discover(files, keys, slug);
    ReadsAll(files, slug, refs);
    forall i | 0 <= i < |refs|
      ensures ReadTestCase(files, slug, refs[i]).Ok? <==> Paired(files, slug, OpenedStem(stems[i]))
      ensures ReadTestCase(files, slug, refs[i]).Ok? ==>
                ReadTestCase(files, slug, refs[i]).value == CaseOf(files, slug, OpenedStem(stems[i]), refs[i])
    {
      DiscoveredCaseReads(files, slug, stems[i], refs[i]);
    }
    forall s ensures Paired(files, slug, s) <==> s in stems {
      PairedIsDiscovered(files, slug, keys, s);
    }
    OpenedAreListed(stems);
  }

  lemma PairedIsDiscovered(files: map<string, Bytes>, slug: string, keys: seq<string>, s: string)
    requires Enumerates(keys, files.Keys)
    ensures Paired(files, slug, s) <==> s in Stems(files, TestCaseDir(slug), keys)
  {
    StemsExactly(files, TestCaseDir(slug), keys, s);
  }

  lemma OpenedAreListed(stems: seq<string>)
    ensures (forall i :: 0 <= i < |stems| ==> OpenedStem(stems[i]) in stems) <==>
            (forall s :: s in stems && "testcases/" <= s ==> s[10..] in stems)
  {
    if forall i :: 0 <= i < |stems| ==> OpenedStem(stems[i]) in stems {
      forall s | s in stems && "testcases/" <= s ensures s[10..] in stems {
        var i :| 0 <= i < |stems| && stems[i] == s;
        assert OpenedStem(stems[i]) in stems;
      }
    }
  }

  const NestedIn: string := "problems/a/testcases/testcases/1.in"
  const NestedOut: string := "problems/a/testcases/testcases/1.out"
  const UpperIn: string := "problems/a/testcases/1.in"
  const UpperOut: string := "problems/a/testcases/1.out"

  lemma NestedNames(files: map<string, Bytes>)
    ensures Paired(files, "a", "testcases/1") <==> NestedIn in files && NestedOut in files
    ensures Paired(files, "a", "1") <==> UpperIn in files && UpperOut in files
    ensures "testcases/" <= "testcases/1" && "testcases/1"[10..] == "1" && !("testcases/" <= "1")
  {
    assert TestCaseDir("a") == "problems/a/testcases/";
    assert "problems/a/testcases/" + "testcases/1" + ".in" == NestedIn;
    assert "problems/a/testcases/" + "testcases/1" + ".out" == NestedOut;
    assert "problems/a/testcases/" + "1" + ".in" == UpperIn;
    assert "problems/a/testcases/" + "1" + ".out" == UpperOut;
  }

  /** An archive with one complete test case, one directory too deep, is reported as
      missing a file. */
  lemma NestedDirectoryMisses(x: Bytes, y: Bytes, keys: seq<string>)
    requires Enumerates(keys, map[NestedIn := x, NestedOut := y].Keys)
    ensures var files := map[NestedIn := x, NestedOut := y];
            && "testcases/1" in Stems(files, TestCaseDir("a"), keys)
            && ReadTestCases(files, "a", Discover(files, keys, "a")).Err?
  {
    var files := map[NestedIn := x, NestedOut := y];
    NestedNames(files);
    hide Stems, Discover, ReadTestCases, SortStems, Paired;
    assert |UpperIn| == 25 && |NestedIn| == 35 && |NestedOut| == 36;
    PairedIsDiscovered(files, "a", keys, "testcases/1");
    PairedIsDiscovered(files, "a", keys, "1");
    DiscoveredTestCasesRead(files, keys, "a");
  }

  /** With a test case of the same name one directory up there is no error: both
      test cases carry the bytes of the upper one. */
  lemma NestedDirectoryTakesOther(x: Bytes, y: Bytes, x': Bytes, y': Bytes, keys: seq<string>, i: nat)
    requires Enumerates(keys, map[NestedIn := x, NestedOut := y, UpperIn := x', UpperOut := y'].Keys)
    ensures var files := map[NestedIn := x, NestedOut := y, UpperIn := x', UpperOut := y'];
            var stems, read := SortStems(Stems(files, TestCaseDir("a"), keys)),
                               ReadTestCases(files, "a", Discover(files, keys, "a"));
            && read.Ok? && |read.value| == |stems| && "testcases/1" in stems
            && (i < |stems| && stems[i] == "testcases/1" ==> read.value[i].input == x' && read.value[i].output == y')
  {
    var files := map[NestedIn := x, NestedOut := y, UpperIn := x', UpperOut := y'];
    NestedNames(files);
    hide Stems, Discover, ReadTestCases, SortStems;
    forall s | s in Stems(files, TestCaseDir("a"), keys) ensures s == "testcases/1" || s == "1" {
      PairedIsDiscovered(files, "a", keys, s);
      var path := TestCaseDir("a") + s + ".in";
      assert TestCaseDir("a") == "problems/a/testcases/" && path[21..|path| - 3] == s && path[|path| - 3..] == ".in";
      assert NestedIn[21..32] == "testcases/1" && UpperIn[21..22] == "1";
      assert NestedOut[33..] == "out" && UpperOut[23..] == "out";
    }
    PairedIsDiscovered(files, "a", keys, "testcases/1");
    PairedIsDiscovered(files, "a", keys, "1");
    assert OpenedStem("testcases/1") == "1";
    hide Paired, OpenedStem;
    DiscoveredTestCasesRead(files, keys, "a");
  }

  /** The request that creates the imported test cases. */
  datatype CreateTestCase = CreateTestCase(
    input: string, expectedOutput: string, isHidden: Option<bool>, score: Option<int>, order: Option<int>)

  function ConvertToTestCases(codec: Codec, item: Item): seq<CreateTestCase> {
    seq(|item.testCaseFiles|, i requires 0 <= i < |item.testCaseFiles| =>
      var f := item.testCaseFiles[i];
      CreateTestCase(codec.lossy(f.input), codec.lossy(f.output), f.config.isHidden, f.config.score,
                     if f.config.order.Some? then f.config.order else Some(i)))
  }
}
