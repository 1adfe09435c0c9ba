/** Importing an exported archive: what comes back, and for which problems. */
module ArchiveRoundTrip {
  import opened Common
  import opened Text
  import opened Slug
  import opened TestCaseStems
  import opened ProblemExport
  import opened ProblemImport

  // -------------------------------------------------------- paths of an export

  ghost predicate PlainName(s: string) {
    s != "" && forall c :: c in s ==> c != '/' && c != '.' && c != '\\'
  }

  lemma NoDoubleDot(a: string, b: string)
    requires '.' !in a && '.' !in b
    ensures !HasDotDot(a + "." + b)
  {
  }

  lemma ExportedPathAccepted(slug: string, f: File)
    requires PlainName(slug)
    ensures !HasDotDot(PathOf(slug, f)) && !("/" <= PathOf(slug, f)) && !("\\" <= PathOf(slug, f))
  {
    var p := PathOf(slug, f);
    assert p[0] == 'p';
    match f
    case ConfigFile =>
      assert p == "problems/" + slug + "/config" + "." + "json";
      NoDoubleDot("problems/" + slug + "/config", "json");
    case DescriptionFile =>
      assert p == "problems/" + slug + "/problem" + "." + "md";
      NoDoubleDot("problems/" + slug + "/problem", "md");
    case InputFile(n) =>
      DecimalChars(n);
      assert p == "problems/" + slug + "/testcases/" + Decimal(n) + "." + "in";
      NoDoubleDot("problems/" + slug + "/testcases/" + Decimal(n), "in");
    case OutputFile(n) =>
      DecimalChars(n);
      assert p == "problems/" + slug + "/testcases/" + Decimal(n) + "." + "out";
      NoDoubleDot("problems/" + slug + "/testcases/" + Decimal(n), "out");
  }

  lemma OneSlash()
    ensures CountChar("/", '/') == 1
  {
  }

  lemma ConfigPathCounts(slug: string)
    requires PlainName(slug)
    ensures CountChar(PathOf(slug, ConfigFile), '/') == 2
  {
    OneSlash();
    hide CountChar;
    CountCharAbsent("problems", '/');
    CountCharAbsent(slug, '/');
    CountCharAbsent("config.json", '/');
    CountCharConcat("problems", "/", '/');
    CountCharConcat("/", "config.json", '/');
    CountCharConcat("problems" + "/", slug, '/');
    CountCharConcat("problems" + "/" + slug, "/" + "config.json", '/');
    assert PathOf(slug, ConfigFile) == "problems" + "/" + slug + ("/" + "config.json");
  }

  lemma LastTwo(s: string, t: string)
    requires |t| >= 2
    ensures EndsWith(s, t) ==> s[|s| - 1] == t[|t| - 1] && s[|s| - 2] == t[|t| - 2]
  {
  }

  /** Of the files of an export only the config is taken for a config. */
  lemma OnlyConfigIsConfig(slug: string, f: File)
    requires PlainName(slug)
    ensures IsConfigPath(PathOf(slug, f)) <==> f == ConfigFile
  {
    var p := PathOf(slug, f);
    assert p[|p| - 1] != '/' && TrimEndMatches(p, "/") == p;
    LastTwo(p, "/config.json");
    if f.ConfigFile? {
      ConfigPathCounts(slug);
      assert p[|p| - 12..] == "/config.json" && p[..9] == "problems/";
    }
  }

  lemma FirstSegment(slug: string, tail: string)
    requires '/' !in slug
    ensures "problems/" <= slug + "/" + tail <==> slug == "problems"
  {
    var s := slug + "/" + tail;
    if "problems/" <= s {
      assert s == "problems/" + s[9..];
      assert "problems/" == "problems" + "/";
      assert s == "problems" + "/" + s[9..];
      SplitFirst("problems", s[9..], slug, tail, '/');
    }
    if slug == "problems" {
      assert s[..9] == "problems/";
    }
  }

  lemma NoSlashNoSuffix(s: string)
    requires '/' !in s
    ensures !EndsWith(s, "/config.json")
  {
    if |s| >= 12 {
      assert s[|s| - 12..][0] == s[|s| - 12] && s[|s| - 12] in s;
    }
  }

  /** Trimming "problems/" as often as it occurs recovers the directory name unless
      that name is "problems" itself. */
  lemma SlugOfExported(slug: string)
    requires '/' !in slug
    ensures SlugOf(PathOf(slug, ConfigFile)) == if slug == "problems" then "config.json" else slug
  {
    var p := PathOf(slug, ConfigFile);
    var rest := slug + "/" + "config.json";
    assert p == "problems/" + rest && p[9..] == rest;
    assert TrimStartMatches(p, "problems/") == TrimStartMatches(rest, "problems/");
    FirstSegment(slug, "config.json");
    if slug == "problems" {
      assert rest[9..] == "config.json";
      assert "config.json"[0] != "problems/"[0];
      NoSlashNoSuffix("config.json");
    } else {
      assert rest[..|rest| - 12] == slug && rest[|rest| - 12..] == "/config.json";
      NoSlashNoSuffix(slug);
      assert TrimStartMatches(rest, "problems/") == rest;
      assert TrimEndMatches(rest, "/config.json") == TrimEndMatches(slug, "/config.json") == slug;
    }
  }

  // ------------------------------------------------------- loading an export

  /** Passes every check but the size limits. */
  ghost predicate WellMade(e: Entry) {
    !HasDotDot(e.name) && !("/" <= e.name) && !("\\" <= e.name) && !e.isSymlink && e.declaredSize == |e.data|
  }

  function TotalSize(entries: seq<Entry>): nat {
    if entries == [] then 0 else TotalSize(entries[..|entries| - 1]) + |entries[|entries| - 1].data|
  }

  ghost predicate WithinSizes(entries: seq<Entry>) {
    (forall i :: 0 <= i < |entries| ==> |entries[i].data| <= MAX_FILE_SIZE) && TotalSize(entries) <= MAX_ARCHIVE_SIZE
  }

  ghost predicate WithinLimits(entries: seq<Entry>) {
    |entries| <= MAX_ARCHIVE_ENTRIES && WithinSizes(entries)
  }

  lemma {:induction false} LoadWellMade(entries: seq<Entry>)
    requires forall i :: 0 <= i < |entries| ==> WellMade(entries[i])
    ensures Load(entries).Ok? <==> WithinSizes(entries)
    ensures Load(entries).Ok? ==> TotalRead(entries) == TotalSize(entries)
    ensures Load(entries).Ok? ==> forall x :: x in Load(entries).value ==>
              exists i :: 0 <= i < |entries| && entries[i].name == x
  {
    if entries != [] {
      var front, e := entries[..|entries| - 1], entries[|entries| - 1];
      LoadWellMade(front);
      assert forall i :: 0 <= i < |front| ==> front[i] == entries[i];
      assert WellMade(e);
      if Load(front).Ok? {
        assert EntryError(e, TotalRead(front)).None? <==>
            |e.data| <= MAX_FILE_SIZE && TotalSize(entries) <= MAX_ARCHIVE_SIZE;
      }
    }
  }

  lemma {:induction false} LoadFinds(entries: seq<Entry>, i: nat)
    requires Load(entries).Ok? && i < |entries| && WithinSizes(entries)
    requires forall a, b :: 0 <= a < b < |entries| ==> entries[a].name != entries[b].name
    ensures entries[i].name in Load(entries).value && Load(entries).value[entries[i].name] == entries[i].data
  {
    var front := entries[..|entries| - 1];
    assert forall k :: 0 <= k < |front| ==> front[k] == entries[k];
    if i < |front| {
      LoadFinds(front, i);
    }
  }

  /** The files of an exported archive, as its importer sees them. */
  ghost predicate HoldsExport(files: map<string, Bytes>, slug: string, codec: Codec, p: ExportProblem,
      tcs: seq<TestCase>) {
    && (forall x :: x in files ==>
          exists f: File :: x == PathOf(slug, f) && ((f.InputFile? || f.OutputFile?) ==> tcs != []))
    && PathOf(slug, ConfigFile) in files
    && files[PathOf(slug, ConfigFile)] == codec.utf8(codec.toJson(ExportedConfig(p, tcs)))
    && PathOf(slug, DescriptionFile) in files
    && files[PathOf(slug, DescriptionFile)] == codec.utf8(p.description)
    && (forall k :: 0 <= k < |tcs| ==> HoldsTestCase(files, slug, codec, tcs[k]))
  }

  ghost predicate HoldsTestCase(files: map<string, Bytes>, slug: string, codec: Codec, tc: TestCase) {
    var i, o := PathOf(slug, InputFile(tc.order)), PathOf(slug, OutputFile(tc.order));
    i in files && files[i] == codec.utf8(tc.input) && o in files && files[o] == codec.utf8(tc.expectedOutput)
  }

  lemma ExportedWellMade(codec: Codec, lower: string -> string, p: ExportProblem, tcs: seq<TestCase>, i: nat)
    requires Lowercases(lower) && i < 2 + 2 * |tcs|
    ensures WellMade(ExportedEntries(codec, lower, p, tcs)[i])
  {
    EntryAt(codec, lower, p, tcs, i);
    SlugifyNormal(lower, p.title);
    ExportedPathAccepted(Slugify(lower, p.title), FileAt(tcs, i));
  }

  lemma ExportedNamesDistinct(codec: Codec, lower: string -> string, p: ExportProblem, tcs: seq<TestCase>, i: nat,
      j: nat)
    requires DistinctOrders(tcs) && i < j < 2 + 2 * |tcs|
    ensures ExportedEntries(codec, lower, p, tcs)[i].name != ExportedEntries(codec, lower, p, tcs)[j].name
  {
    hide PathOf, Slugify, ExportedEntries;
    EntryAt(codec, lower, p, tcs, i);
    EntryAt(codec, lower, p, tcs, j);
    if PathOf(Slugify(lower, p.title), FileAt(tcs, i)) == PathOf(Slugify(lower, p.title), FileAt(tcs, j)) {
      PathOfInjective(Slugify(lower, p.title), FileAt(tcs, i), FileAt(tcs, j));
    }
  }

  lemma ExportedLoads(codec: Codec, lower: string -> string, p: ExportProblem, tcs: seq<TestCase>)
    requires Lowercases(lower) && DistinctOrders(tcs)
    ensures var entries := ExportedEntries(codec, lower, p, tcs);
            && |entries| == 2 + 2 * |tcs|
            && (Load(entries).Ok? <==> WithinSizes(entries))
            && (Load(entries).Ok? ==> HoldsExport(Load(entries).value, Slugify(lower, p.title), codec, p, tcs))
  {
    hide PathOf, Slugify, WellMade, Load, WithinSizes, Lowercases, ExportedConfig;
    var entries, slug := ExportedEntries(codec, lower, p, tcs), Slugify(lower, p.title);
    forall i | 0 <= i < |entries| ensures WellMade(entries[i]) {
      ExportedWellMade(codec, lower, p, tcs, i);
    }
    LoadWellMade(entries);
    forall i, j | 0 <= i < j < |entries| ensures entries[i].name != entries[j].name {
      ExportedNamesDistinct(codec, lower, p, tcs, i, j);
    }
    if Load(entries).Ok? {
      var files := Load(entries).value;
      LoadFinds(entries, 0);
      LoadFinds(entries, 1);
      forall k | 0 <= k < |tcs| ensures HoldsTestCase(files, slug, codec, tcs[k]) {
        TestCaseEntriesAt(codec, slug, tcs, k);
        LoadFinds(entries, 2 + 2 * k);
        LoadFinds(entries, 3 + 2 * k);
      }
      forall x | x in files
        ensures exists f: File :: x == PathOf(slug, f) && ((f.InputFile? || f.OutputFile?) ==> tcs != [])
      {
        var i :| 0 <= i < |entries| && entries[i].name == x;
        EntryAt(codec, lower, p, tcs, i);
      }
    }
  }

  // -------------------------------------------------------- parsing an export

  lemma {:induction false} NoConfigs(keys: seq<string>)
    requires forall k :: k in keys ==> !IsConfigPath(k)
    ensures ConfigPaths(keys) == []
  {
    if keys != [] {
      assert keys[|keys| - 1] in keys;
      NoConfigs(keys[..|keys| - 1]);
    }
  }

  lemma {:induction false} OneConfig(keys: seq<string>, c: string)
    requires forall i, j :: 0 <= i < j < |keys| ==> keys[i] != keys[j]
    requires c in keys && forall k :: k in keys ==> (IsConfigPath(k) <==> k == c)
    ensures ConfigPaths(keys) == [c]
  {
    hide IsConfigPath;
    var front, last := keys[..|keys| - 1], keys[|keys| - 1];
    assert keys == front + [last] && last in keys;
    assert forall k :: k in front ==> k in keys && k != last;
    if last == c {
      NoConfigs(front);
    } else {
      OneConfig(front, c);
    }
  }

  lemma ExportedHasOneConfig(codec: Codec, slug: string, p: ExportProblem, tcs: seq<TestCase>, files: map<string,
      Bytes>, keys: seq<string>)
    requires PlainName(slug) && HoldsExport(files, slug, codec, p, tcs) && Enumerates(keys, files.Keys)
    ensures ConfigPaths(keys) == [PathOf(slug, ConfigFile)]
  {
    hide PathOf, IsConfigPath;
    forall k | k in keys ensures IsConfigPath(k) <==> k == PathOf(slug, ConfigFile) {
      var f: File :| k == PathOf(slug, f);
      OnlyConfigIsConfig(slug, f);
      if k == PathOf(slug, ConfigFile) { PathOfInjective(slug, f, ConfigFile); }
    }
    OneConfig(keys, PathOf(slug, ConfigFile));
  }

  lemma {:induction false} NothingDiscovered(files: map<string, Bytes>, slug: string, keys: seq<string>)
    requires forall k :: k in keys ==> k == PathOf(slug, ConfigFile) || k == PathOf(slug, DescriptionFile)
    ensures Stems(files, "problems/" + slug + "/testcases/", keys) == []
  {
    if keys != [] {
      var front, last := keys[..|keys| - 1], keys[|keys| - 1];
      assert last in keys && forall k :: k in front ==> k in keys;
      NothingDiscovered(files, slug, front);
      var prefix, n := "problems/" + slug + "/testcases/", |"problems/" + slug + "/"|;
      assert prefix[n] == 't' && last[n] != 't' by {
        PathMarks(slug, ConfigFile);
        PathMarks(slug, DescriptionFile);
      }
    }
  }

  /** A directory called "problems" is looked for under another name, and missed. */
  lemma MisreadDirectory(codec: Codec, p: ExportProblem, tcs: seq<TestCase>, files: map<string, Bytes>)
    requires HoldsExport(files, "problems", codec, p, tcs)
    ensures PathOf("config.json", DescriptionFile) !in files
  {
  }

  lemma ReferenceResolves(slug: string, stem: string, ext: string)
    ensures TestCasePath(slug, "testcases/" + stem + ext) == "problems/" + slug + "/testcases/" + stem + ext
  {
  }

  lemma ReferencesResolve(slug: string, n: int)
    ensures TestCasePath(slug, "testcases/" + Decimal(n) + ".in") == PathOf(slug, InputFile(n))
    ensures TestCasePath(slug, "testcases/" + Decimal(n) + ".out") == PathOf(slug, OutputFile(n))
  {
    hide Decimal, TestCasePath;
    ReferenceResolves(slug, Decimal(n), ".in");
    ReferenceResolves(slug, Decimal(n), ".out");
  }

  function ImportedFile(codec: Codec, tc: TestCase): TestCaseFile {
    TestCaseFile(codec.utf8(tc.input), codec.utf8(tc.expectedOutput), AsImportedRef(ExportedRefOf(tc)))
  }

  function ImportedFiles(codec: Codec, tcs: seq<TestCase>): (r: seq<TestCaseFile>)
    ensures |r| == |tcs| && forall k :: 0 <= k < |tcs| ==> r[k] == ImportedFile(codec, tcs[k])
  {
    seq(|tcs|, k requires 0 <= k < |tcs| => ImportedFile(codec, tcs[k]))
  }

  lemma ExportedTestCaseReads(codec: Codec, slug: string, tc: TestCase, files: map<string, Bytes>)
    requires HoldsTestCase(files, slug, codec, tc)
    ensures ReadTestCase(files, slug, AsImportedRef(ExportedRefOf(tc))) == Ok(ImportedFile(codec, tc))
  {
    hide PathOf, TestCasePath;
    ReferencesResolve(slug, tc.order);
  }

  lemma {:induction false} ExportedTestCasesRead(codec: Codec, slug: string, tcs: seq<TestCase>, files: map<string,
      Bytes>)
    requires forall k :: 0 <= k < |tcs| ==> HoldsTestCase(files, slug, codec, tcs[k])
    ensures ReadTestCases(files, slug, AsImportedRefs(ExportedRefs(tcs))) ==
            Ok(ImportedFiles(codec, tcs))
  {
    hide ImportedFile, HoldsTestCase, ExportedRefOf, ReadTestCase, AsImportedRef;
    if tcs != [] {
      var front, tc := tcs[..|tcs| - 1], tcs[|tcs| - 1];
      var refs := AsImportedRefs(ExportedRefs(tcs));
      assert refs[..|refs| - 1] == AsImportedRefs(ExportedRefs(front));
      ExportedTestCasesRead(codec, slug, front, files);
      ExportedTestCaseReads(codec, slug, tc, files);
      assert ImportedFiles(codec, tcs) == ImportedFiles(codec, front) + [ImportedFile(codec, tc)];
    } else {
      assert AsImportedRefs(ExportedRefs(tcs)) == [] && ImportedFiles(codec, tcs) == [];
    }
  }

  lemma ExportedItemRefs(codec: Codec, slug: string, p: ExportProblem, tcs: seq<TestCase>, files: map<string,
      Bytes>, keys: seq<string>)
    requires HoldsExport(files, slug, codec, p, tcs) && Enumerates(keys, files.Keys)
    ensures ItemRefs(files, keys, slug, AsImported(ExportedConfig(p, tcs))) == AsImportedRefs(ExportedRefs(tcs))
  {
    hide PathOf, ExportedRefs;
    if tcs == [] {
      NothingDiscovered(files, slug, keys);
    }
  }

  function RequestFor(tc: TestCase): CreateTestCase {
    CreateTestCase(tc.input, tc.expectedOutput, Some(tc.isHidden), Some(tc.score), Some(tc.order))
  }

  function RequestsFor(tcs: seq<TestCase>): seq<CreateTestCase> {
    seq(|tcs|, i requires 0 <= i < |tcs| => RequestFor(tcs[i]))
  }

  /** What importing the export of `p` yields, for any hash-map order. */
  ghost predicate Restored(codec: Codec, slug: string, p: ExportProblem, tcs: seq<TestCase>, skip: set<string>,
      item: Item) {
    && (item.status == Error <==> slug == "problems" || p.difficulty !in {"easy", "medium", "hard"})
    && (item.status == Valid <==> slug != "problems" && p.difficulty in {"easy", "medium", "hard"} && p.title !in skip)
    && (item.status != Error ==>
          && item.slug == slug && item.description == p.description
          && item.config.(testCases := []) == Config(p.title, p.difficulty, p.timeLimit, p.memoryLimit, p.isPublic,
                                                     p.visibility, p.tags, p.sourceUrl, p.authorNote, [])
          && ConvertToTestCases(codec, item) == RequestsFor(tcs))
  }

  lemma ExportedItem(codec: Codec, slug: string, p: ExportProblem, tcs: seq<TestCase>, files: map<string, Bytes>,
      keys: seq<string>, skip: set<string>)
    requires Faithful(codec) && PlainName(slug)
    requires HoldsExport(files, slug, codec, p, tcs) && Enumerates(keys, files.Keys)
    ensures Restored(codec, slug, p, tcs, skip, ParseItem(codec, files, keys, skip, PathOf(slug, ConfigFile)))
  {
    hide PathOf, SlugOf, ItemRefs, ReadTestCases;
    SlugOfExported(slug);
    var item := ParseItem(codec, files, keys, skip, PathOf(slug, ConfigFile));
    if slug == "problems" {
      MisreadDirectory(codec, p, tcs, files);
    } else {
      ExportedItemRefs(codec, slug, p, tcs, files, keys);
      ExportedTestCasesRead(codec, slug, tcs, files);
      if ValidDifficulty(p.difficulty) {
        assert ConvertToTestCases(codec, item) == RequestsFor(tcs);
      }
    }
  }

  /** Export then import gives back the one problem: its config, description and
      test cases in order. It is refused only by the size limits, flagged only as a
      known title, and lost only for the directory name "problems" or a difficulty
      the importer does not know. */
  lemma ExportImportRoundTrip(codec: Codec, lower: string -> string, listing: Listing, p: ExportProblem,
      tcs: seq<TestCase>, skip: set<string>)
    requires Faithful(codec) && Lowercases(lower) && ListsKeys(listing) && DistinctOrders(tcs)
    ensures var entries := ExportedEntries(codec, lower, p, tcs);
            var r := ParsedZip(codec, listing, entries, skip);
            && (r.Ok? <==> WithinLimits(entries))
            && (r.Ok? ==> |r.value| == 1 && Restored(codec, Slugify(lower, p.title), p, tcs, skip, r.value[0]))
  {
    hide PathOf, Slugify, Load, WithinSizes, Lowercases, ExportedEntries, HoldsExport, Restored, ParseItem,
         ConfigPaths, Faithful, DistinctOrders;
    var entries, slug := ExportedEntries(codec, lower, p, tcs), Slugify(lower, p.title);
    ExportedLoads(codec, lower, p, tcs);
    SlugifyNormal(lower, p.title);
    if Load(entries).Ok? {
      var files := Load(entries).value;
      var keys := listing(files.Keys);
      ExportedHasOneConfig(codec, slug, p, tcs, files, keys);
      ExportedItem(codec, slug, p, tcs, files, keys, skip);
    }
  }

  /** The title "problems" is its own slug, and the problem does not survive: within
      the limits the import is a single error item. */
  lemma TitleProblemsIsLost(codec: Codec, lower: string -> string, listing: Listing, p: ExportProblem,
      tcs: seq<TestCase>, skip: set<string>)
    requires Faithful(codec) && Lowercases(lower) && ListsKeys(listing) && DistinctOrders(tcs) && p.title == "problems"
    requires WithinLimits(ExportedEntries(codec, lower, p, tcs))
    ensures Slugify(lower, "problems") == "problems"
    ensures var r := ParsedZip(codec, listing, ExportedEntries(codec, lower, p, tcs), skip);
            r.Ok? && |r.value| == 1 && r.value[0].status == Error
  {
    hide Slugify, IsSlug, ParsedZip, ExportedEntries, WithinLimits, Faithful, Lowercases, ListsKeys;
    ProblemsIsSlug();
    SlugifyFixpoint(lower, "problems");
    ExportImportRoundTrip(codec, lower, listing, p, tcs, skip);
  }

  lemma ProblemsIsSlug()
    ensures IsSlug("problems")
  {
  }
}
