/** What an import yields, read off the files of the archive (domain-imex
    `problem_import.rs`). */
module ImportedItems {
  import opened Common
  import opened Text
  import opened TestCaseStems
  import opened ProblemExport
  import opened ProblemImport

  // --------------------------------------------------------- test cases of an item

  /** The path a reference names: a leading "testcases/" is the directory itself. */
  function NamedPath(slug: string, file: string): string { TestCaseDir(slug) + OpenedStem(file) }

  lemma NamedPathIsRead(slug: string, file: string)
    ensures TestCasePath(slug, file) == NamedPath(slug, file)
  {
    if "testcases/" <= file {
      assert file == "testcases/" + file[10..];
      assert "problems/" + slug + "/" + ("testcases/" + file[10..]) == NamedPath(slug, file);
    }
  }

  predicate BothThere(files: map<string, Bytes>, slug: string, r: ImportedRef) {
    NamedPath(slug, r.inputFile) in files && NamedPath(slug, r.outputFile) in files
  }

  /** The listed test cases, in order, with the bytes at the paths they name. */
  ghost predicate AsListed(files: map<string, Bytes>, slug: string, refs: seq<ImportedRef>, tests: seq<TestCaseFile>) {
    && |tests| == |refs|
    && forall i :: 0 <= i < |refs| ==>
         && BothThere(files, slug, refs[i])
         && tests[i] == TestCaseFile(files[NamedPath(slug, refs[i].inputFile)],
                                     files[NamedPath(slug, refs[i].outputFile)], refs[i])
  }

  /** One test case for each stem with both files in the directory, numbered from 0 in
      the order of the stems, open to all and without a score. */
  ghost predicate AsDiscovered(files: map<string, Bytes>, slug: string, stems: seq<string>, tests: seq<TestCaseFile>) {
    && Distinct(stems) && (forall s :: s in stems <==> Paired(files, slug, s))
    && (Unmixed(set s | s in stems) ==> Sorted(stems))
    && |tests| == |stems|
    && forall i :: 0 <= i < |stems| ==>
         && Paired(files, slug, OpenedStem(stems[i]))
         && tests[i] == CaseOf(files, slug, OpenedStem(stems[i]),
                               ImportedRef(stems[i] + ".in", stems[i] + ".out", Some(false), None, Some(i)))
  }

  /** Some file that a test case needs is not in the archive. */
  ghost predicate Incomplete(files: map<string, Bytes>, slug: string, config: Config<ImportedRef>) {
    if config.testCases != [] then exists r :: r in config.testCases && !BothThere(files, slug, r)
    else exists s :: Paired(files, slug, s) && !Paired(files, slug, OpenedStem(s))
  }

  lemma {:induction false} ReadListed(files: map<string, Bytes>, slug: string, refs: seq<ImportedRef>)
    ensures var read := ReadTestCases(files, slug, refs);
            && (read.Ok? <==> forall r :: r in refs ==> BothThere(files, slug, r))
            && (read.Ok? ==> AsListed(files, slug, refs, read.value))
            && (read.Err? ==> read.error !in files)
  {
    hide NamedPath, TestCasePath;
    if refs != [] {
      var front, last := refs[..|refs| - 1], refs[|refs| - 1];
      ReadListed(files, slug, front);
      NamedPathIsRead(slug, last.inputFile);
      NamedPathIsRead(slug, last.outputFile);
      assert refs == front + [last] && last in refs;
      assert forall r :: r in refs <==> r in front || r == last;
    }
  }

  lemma ReadDiscovered(files: map<string, Bytes>, slug: string, keys: seq<string>) returns (stems: seq<string>)
    requires Enumerates(keys, files.Keys)
    ensures var read := ReadTestCases(files, slug, Discover(files, keys, slug));
            && (read.Ok? <==> forall s :: Paired(files, slug, s) ==> Paired(files, slug, OpenedStem(s)))
            && (read.Ok? ==> AsDiscovered(files, slug, stems, read.value))
            && (read.Err? ==> read.error !in files)
  {
    hide Paired, SortStems, Stems, CaseOf, ReadTestCases, OpenedStem, Sorted;
    stems := SortStems(Stems(files, TestCaseDir(slug), keys));
    DiscoveredTestCasesRead(files, keys, slug);
    forall s ensures Paired(files, slug, s) <==> s in stems {
      PairedIsDiscovered(files, slug, keys, s);
    }
    ReadListed(files, slug, Discover(files, keys, slug));
    OpenedStems(stems);
    StemsInOrder(files, slug, keys);
  }

  lemma OpenedStems(stems: seq<string>)
    ensures (forall s :: s in stems ==> OpenedStem(s) in stems) <==>
            (forall s :: s in stems && "testcases/" <= s ==> s[10..] in stems)
  {
    if forall s :: s in stems ==> OpenedStem(s) in stems {
      forall s | s in stems && "testcases/" <= s ensures s[10..] in stems {
        assert OpenedStem(s) in stems;
      }
    }
  }

  lemma StemsInOrder(files: map<string, Bytes>, slug: string, keys: seq<string>)
    requires Enumerates(keys, files.Keys)
    ensures var stems := SortStems(Stems(files, TestCaseDir(slug), keys));
            Distinct(stems) && (Unmixed(set s | s in stems) ==> Sorted(stems))
  {
    hide Stems, SortStems;
    var found := Stems(files, TestCaseDir(slug), keys);
    StemsEnumerate(files, slug, keys);
    SortKeepsDistinct(found);
    var stems := SortStems(found);
    if Unmixed(set s | s in stems) {
      SortDeterministic(found, found, set s | s in stems);
    }
  }

  lemma {:induction false} InsertKeepsDistinct(x: string, xs: seq<string>)
    requires Distinct(xs) && x !in xs
    ensures Distinct(InsertStem(x, xs))
  {
    if xs != [] && !Before(x, xs[0]) {
      InsertKeepsDistinct(x, xs[1..]);
      assert xs == [xs[0]] + xs[1..] && xs[0] in xs && xs[0] !in xs[1..];
      var r := InsertStem(x, xs[1..]);
      assert xs[0] !in r;
    }
  }

  lemma {:induction false} SortKeepsDistinct(xs: seq<string>)
    requires Distinct(xs)
    ensures Distinct(SortStems(xs))
  {
    if xs != [] {
      var front, last := xs[..|xs| - 1], xs[|xs| - 1];
      SortKeepsDistinct(front);
      assert last !in front;
      InsertKeepsDistinct(last, SortStems(front));
    }
  }

  // ------------------------------------------------------------------ one item

  /** The item that belongs to the config at `path`, from the files of the archive:
      an error with its reason, or the problem with its test cases. */
  ghost predicate ItemFor(codec: Codec, files: map<string, Bytes>, skip: set<string>, path: string, item: Item)
    requires path in files
  {
    var slug, parsed := SlugOf(path), codec.fromJson(codec.lossy(files[path]));
    var md := "problems/" + slug + "/problem.md";
    && item.slug == slug
    && (item.status == Error ==> item.testCaseFiles == [] && item.description == "")
    && if parsed.None? then Fails(item, InvalidConfig)
       else
         var config := parsed.value;
         if config.difficulty != "easy" && config.difficulty != "medium" && config.difficulty != "hard" then
           Fails(item, InvalidDifficulty(config.difficulty))
         else if md !in files then Fails(item, MissingDescription(md))
         else if Incomplete(files, slug, config) then exists q :: q !in files && Fails(item, MissingTestCaseFile(q))
         else
           && item.config == config && item.description == codec.lossy(files[md])
           && item.status == (if config.title in skip then Duplicate else Valid)
           && item.warning == (if config.title in skip then Some(TitleExists) else None)
           && if config.testCases != [] then AsListed(files, slug, config.testCases, item.testCaseFiles)
              else exists stems :: AsDiscovered(files, slug, stems, item.testCaseFiles)
  }

  ghost predicate Fails(item: Item, why: Warning) { item.status == Error && item.warning == Some(why) }

  /** Whatever the order in which the paths are listed, each config yields its item. */
  lemma ItemExactly(codec: Codec, files: map<string, Bytes>, keys: seq<string>, skip: set<string>, path: string)
    requires Enumerates(keys, files.Keys) && path in files
    ensures ItemFor(codec, files, skip, path, ParseItem(codec, files, keys, skip, path))
  {
    hide SlugOf, ReadTestCases, AsListed, AsDiscovered, Discover, Paired, BothThere, OpenedStem;
    var slug, parsed := SlugOf(path), codec.fromJson(codec.lossy(files[path]));
    if parsed.Some? {
      var config := parsed.value;
      if config.testCases == [] {
        var stems := ReadDiscovered(files, slug, keys);
      } else {
        ReadListed(files, slug, config.testCases);
      }
    }
  }

  // -------------------------------------------------------------- whole archives

  /** A config lies right in a directory under "problems/"; slashes may follow it. */
  ghost predicate ConfigShaped(path: string) {
    exists name, slashes :: ConfigAt(path, name, slashes)
  }

  predicate ConfigAt(path: string, name: string, slashes: string) {
    path == "problems/" + name + "/config.json" + slashes && '/' !in name && forall c :: c in slashes ==> c == '/'
  }

  lemma {:induction false} TrimSlashes(p: string) returns (q: string, slashes: string)
    ensures p == q + slashes && (forall c :: c in slashes ==> c == '/') && TrimEndMatches(p, "/") == q
    ensures q == "" || q[|q| - 1] != '/'
  {
    q, slashes := p, "";
    if EndsWith(p, "/") {
      q, slashes := TrimSlashes(p[..|p| - 1]);
      assert p[|p| - 1..] == "/";
      slashes := slashes + "/";
    } else {
      assert p != "" ==> p[|p| - 1..] == [p[|p| - 1]];
    }
  }

  lemma {:induction false} TrimAdded(q: string, slashes: string)
    requires (q == "" || q[|q| - 1] != '/') && forall c :: c in slashes ==> c == '/'
    ensures TrimEndMatches(q + slashes, "/") == q
  {
    var p := q + slashes;
    if slashes == "" {
      assert p == q;
      assert q != "" ==> q[|q| - 1..] == [q[|q| - 1]];
    } else {
      var n := |slashes| - 1;
      assert slashes[n] in slashes && p[|p| - 1..] == "/" && p[..|p| - 1] == q + slashes[..n];
      assert forall c :: c in slashes[..n] ==> c in slashes;
      TrimAdded(q, slashes[..n]);
    }
  }

  lemma SlashCount(name: string)
    ensures CountChar("problems/" + name + "/config.json", '/') == 2 + CountChar(name, '/')
  {
    OneSlash();
    hide CountChar;
    CountCharAbsent("problems", '/');
    CountCharAbsent("config.json", '/');
    CountCharConcat("problems", "/", '/');
    CountCharConcat("/", "config.json", '/');
    CountCharConcat("problems" + "/", name, '/');
    CountCharConcat("problems" + "/" + name, "/" + "config.json", '/');
    assert "problems/" + name + "/config.json" == "problems" + "/" + name + ("/" + "config.json");
  }

  lemma OneSlash()
    ensures CountChar("/", '/') == 1
  {
  }

  lemma {:induction false} NoneCounted(s: string)
    requires CountChar(s, '/') == 0
    ensures '/' !in s
  {
    if s != "" {
      NoneCounted(s[1..]);
      assert s == [s[0]] + s[1..];
    }
  }

  /** Exactly these paths are taken for configs. */
  lemma ConfigPathExactly(path: string)
    ensures IsConfigPath(path) <==> ConfigShaped(path)
  {
    hide CountChar, TrimEndMatches;
    var q, slashes := TrimSlashes(path);
    if IsConfigPath(path) {
      if |q| < 21 {
        ShortIsNoConfig(q);
      }
      var name := q[9..|q| - 12];
      assert q == "problems/" + name + "/config.json";
      SlashCount(name);
      NoneCounted(name);
      assert ConfigAt(path, name, slashes);
    }
    if ConfigShaped(path) {
      var name, more :| ConfigAt(path, name, more);
      var p := "problems/" + name + "/config.json";
      assert p[|p| - 1] == 'n' && p[|p| - 12..] == "/config.json" && p[..9] == "problems/";
      TrimAdded(p, more);
      SlashCount(name);
      CountCharAbsent(name, '/');
    }
  }

  /** The two ends of a config path can overlap in their slash only. */
  lemma ShortIsNoConfig(q: string)
    requires |q| < 21 && "problems/" <= q && EndsWith(q, "/config.json")
    ensures CountChar(q, '/') != 2
  {
    var n := |q| - 12;
    assert q[n] == q[n..][0] == '/';
    assert q[..9] == "problems/" && q[..8] == "problems" && '/' !in "problems";
    assert q == q[..8] + q[8..];
    OverlapCount();
    hide CountChar;
  }

  lemma OverlapCount()
    ensures CountChar("problems" + "/config.json", '/') == 1
  {
    OneSlash();
    hide CountChar;
    CountCharAbsent("problems", '/');
    CountCharAbsent("config.json", '/');
    CountCharConcat("/", "config.json", '/');
    CountCharConcat("problems", "/config.json", '/');
    assert "/" + "config.json" == "/config.json";
  }

  lemma {:induction false} ConfigPathsExactly(keys: seq<string>)
    requires Distinct(keys)
    ensures Distinct(ConfigPaths(keys)) && forall p :: p in ConfigPaths(keys) <==> p in keys && IsConfigPath(p)
  {
    hide IsConfigPath;
    if keys != [] {
      var front, last := keys[..|keys| - 1], keys[|keys| - 1];
      ConfigPathsExactly(front);
      assert keys == front + [last] && last !in front;
    }
  }

  /** The items of a list belong to these configs, one each. */
  ghost predicate ItemsFor(codec: Codec, files: map<string, Bytes>, skip: set<string>, paths: seq<string>,
      items: seq<Item>) {
    && Distinct(paths) && (forall p :: p in paths <==> p in files && ConfigShaped(p))
    && |items| == |paths| && forall i :: 0 <= i < |paths| ==> ItemFor(codec, files, skip, paths[i], items[i])
  }

  /** An archive is imported exactly if it has at most 500 entries and loads; the items
      are then those of its configs, one each. */
  lemma ImportExactly(codec: Codec, listing: Listing, entries: seq<Entry>, skip: set<string>)
    requires ListsKeys(listing)
    ensures var r := ParsedZip(codec, listing, entries, skip);
            && (r.Ok? <==> |entries| <= 500 && Load(entries).Ok?)
            && (r.Ok? ==> exists paths :: ItemsFor(codec, Load(entries).value, skip, paths, r.value))
  {
    hide Load, ParseItem, ItemFor, IsConfigPath, ConfigShaped, ConfigPaths;
    if |entries| <= MAX_ARCHIVE_ENTRIES && Load(entries).Ok? {
      var files := Load(entries).value;
      var keys := listing(files.Keys);
      assert Enumerates(keys, files.Keys);
      var paths := ConfigPaths(keys);
      ConfigPathsExactly(keys);
      forall p ensures p in paths <==> p in files && ConfigShaped(p) {
        ConfigPathExactly(p);
      }
      forall i | 0 <= i < |paths|
        ensures paths[i] in files
        ensures ItemFor(codec, files, skip, paths[i], ParseItem(codec, files, keys, skip, paths[i]))
      {
        assert paths[i] in paths;
        ItemExactly(codec, files, keys, skip, paths[i]);
      }
      assert ItemsFor(codec, files, skip, paths, ParsedZip(codec, listing, entries, skip).value);
    }
  }

  /** The test cases that are created for an item: one each, in order, with the texts of
      the two files, marked and scored as the config says, and numbered as it says or
      else by position. */
  lemma ConvertExactly(codec: Codec, item: Item, i: nat)
    requires i < |item.testCaseFiles|
    ensures |ConvertToTestCases(codec, item)| == |item.testCaseFiles|
    ensures var tc, made := item.testCaseFiles[i], ConvertToTestCases(codec, item)[i];
            && made.input == codec.lossy(tc.input) && made.expectedOutput == codec.lossy(tc.output)
            && made.isHidden == tc.config.isHidden && made.score == tc.config.score
            && (tc.config.order.Some? ==> made.order == tc.config.order)
            && (tc.config.order.None? ==> made.order == Some(i))
  {
  }

  // ------------------------------------------------------------ what is loaded

  /** The entry is acceptable after `total` bytes. */
  ghost predicate Acceptable(e: Entry, total: nat) {
    && SafeName(e.name) && !e.isSymlink && e.declaredSize <= MAX_FILE_SIZE && |e.data| <= MAX_FILE_SIZE
    && total + e.declaredSize <= MAX_ARCHIVE_SIZE && total + |e.data| <= MAX_ARCHIVE_SIZE
  }

  function BytesBefore(entries: seq<Entry>, n: nat): nat
    requires n <= |entries|
  {
    if n == 0 then 0 else BytesBefore(entries, n - 1) + |entries[n - 1].data|
  }

  lemma AcceptableExactly(e: Entry, total: nat)
    ensures EntryError(e, total).None? <==> Acceptable(e, total)
    ensures Acceptable(e, total) ==> ReadEntry(e) == e.data
  {
  }

  ghost predicate AllAcceptable(entries: seq<Entry>, n: nat)
    requires n <= |entries|
  {
    forall i :: 0 <= i < n ==> Acceptable(entries[i], BytesBefore(entries, i))
  }

  lemma AcceptableFront(entries: seq<Entry>, n: nat)
    requires n <= |entries|
    ensures AllAcceptable(entries[..n], n) <==> AllAcceptable(entries, n)
    ensures BytesBefore(entries[..n], n) == BytesBefore(entries, n)
  {
    hide Acceptable;
    SameBefore(entries, n, n);
    forall i | 0 <= i < n ensures BytesBefore(entries[..n], i) == BytesBefore(entries, i) {
      SameBefore(entries, n, i);
    }
  }

  /** An archive loads exactly if every entry is acceptable after those before it. */
  lemma {:induction false} LoadExactly(entries: seq<Entry>)
    ensures Load(entries).Ok? <==> AllAcceptable(entries, |entries|)
    ensures Load(entries).Ok? ==> TotalRead(entries) == BytesBefore(entries, |entries|)
  {
    if entries != [] {
      var n := |entries| - 1;
      LoadStep(entries);
      hide Load, TotalRead, EntryError, Acceptable, ReadEntry, AllAcceptable;
      LoadExactly(entries[..n]);
      AcceptableFront(entries, n);
      AcceptableExactly(entries[n], BytesBefore(entries, n));
      AcceptableLast(entries, n);
    }
  }

  lemma LoadStep(entries: seq<Entry>)
    requires entries != []
    ensures var n := |entries| - 1;
            && (Load(entries).Ok? <==> Load(entries[..n]).Ok? && EntryError(entries[n], TotalRead(entries[..n])).None?)
            && TotalRead(entries) == TotalRead(entries[..n]) + |ReadEntry(entries[n])|
  {
    hide EntryError, ReadEntry;
  }

  lemma AcceptableLast(entries: seq<Entry>, n: nat)
    requires n < |entries|
    ensures AllAcceptable(entries, n + 1) <==>
              AllAcceptable(entries, n) && Acceptable(entries[n], BytesBefore(entries, n))
    ensures BytesBefore(entries, n + 1) == BytesBefore(entries, n) + |entries[n].data|
  {
    hide Acceptable;
  }

  lemma LoadSplits(entries: seq<Entry>)
    requires Load(entries).Ok? && entries != []
    ensures var n := |entries| - 1;
            && Load(entries[..n]).Ok?
            && Load(entries).value == Load(entries[..n]).value[entries[n].name := entries[n].data]
  {
    var n := |entries| - 1;
    AcceptableExactly(entries[n], TotalRead(entries[..n]));
    hide EntryError, Acceptable, ReadEntry;
  }

  ghost predicate Named(entries: seq<Entry>, name: string) {
    exists j :: 0 <= j < |entries| && entries[j].name == name
  }

  lemma NamedSplits(entries: seq<Entry>, name: string, i: nat)
    requires entries != []
    ensures var n := |entries| - 1;
            && (Named(entries, name) <==> Named(entries[..n], name) || entries[n].name == name)
            && (LastNamed(entries[..n], i, name) && entries[n].name != name ==>
                  LastNamed(entries, i, name) && entries[i] == entries[..n][i])
            && (entries[n].name == name ==> LastNamed(entries, n, name))
  {
    var n := |entries| - 1;
    assert forall j :: 0 <= j < n ==> entries[..n][j] == entries[j];
  }

  /** A loaded name holds the bytes of the last entry with that name, and nothing else
      is loaded. */
  lemma {:induction false} LoadedLast(entries: seq<Entry>, name: string) returns (i: nat)
    requires Load(entries).Ok?
    ensures name in Load(entries).value <==> Named(entries, name)
    ensures name in Load(entries).value ==> LastNamed(entries, i, name) && Load(entries).value[name] == entries[i].data
  {
    i := 0;
    if entries != [] {
      var n := |entries| - 1;
      LoadSplits(entries);
      hide Load, Named, LastNamed;
      i := LoadedLast(entries[..n], name);
      NamedSplits(entries, name, i);
      if entries[n].name == name { i := n; }
    }
  }

  ghost predicate LastNamed(entries: seq<Entry>, i: nat, name: string) {
    i < |entries| && entries[i].name == name && forall j :: i < j < |entries| ==> entries[j].name != name
  }

  lemma {:induction false} SameBefore(entries: seq<Entry>, n: nat, i: nat)
    requires i <= n <= |entries|
    ensures BytesBefore(entries[..n], i) == BytesBefore(entries, i)
  {
    if i > 0 {
      SameBefore(entries, n, i - 1);
    }
  }
}
