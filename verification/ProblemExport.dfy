/** Export of a problem to an archive (domain-imex `problem_export.rs`). An archive
    is the sequence of its entries; UTF-8 and JSON are parameters (`Codec`). */
module ProblemExport {
  import opened Common
  import opened Text
  import opened Slug

  newtype byte = x: int | 0 <= x < 256
  type Bytes = seq<byte>

  // ------------------------------------------------------------------ data

  datatype ExportProblem = ExportProblem(
    title: string, description: string, difficulty: string, timeLimit: int, memoryLimit: int,
    isPublic: bool, visibility: string, tags: seq<string>, sourceUrl: Option<string>, authorNote: Option<string>)

  datatype TestCase = TestCase(input: string, expectedOutput: string, isHidden: bool, score: int, order: int)

  /** config.json, with test-case references as exported or as imported. */
  datatype Config<T> = Config(
    title: string, difficulty: string, timeLimit: int, memoryLimit: int, isPublic: bool, visibility: string,
    tags: seq<string>, sourceUrl: Option<string>, authorNote: Option<string>, testCases: seq<T>)

  datatype ExportedRef = ExportedRef(inputFile: string, outputFile: string, isHidden: bool, score: int, order: int)

  datatype ImportedRef = ImportedRef(
    inputFile: string, outputFile: string, isHidden: Option<bool>, score: Option<int>, order: Option<int>)

  datatype Entry = Entry(name: string, declaredSize: nat, isSymlink: bool, data: Bytes)

  datatype ArchiveError =
    | DuplicateName(name: string)
    | TooManyFiles
    | PathTraversal(name: string)
    | SymlinkDetected(name: string)
    | FileTooLarge(name: string)
    | ArchiveTooLarge

  datatype Codec = Codec(
    utf8: string -> Bytes,
    lossy: Bytes -> string,
    toJson: Config<ExportedRef> -> string,
    fromJson: string -> Option<Config<ImportedRef>>)

  function AsImportedRef(r: ExportedRef): ImportedRef {
    ImportedRef(r.inputFile, r.outputFile, Some(r.isHidden), Some(r.score), Some(r.order))
  }

  function AsImportedRefs(rs: seq<ExportedRef>): seq<ImportedRef> {
    seq(|rs|, i requires 0 <= i < |rs| => AsImportedRef(rs[i]))
  }

  function AsImported(c: Config<ExportedRef>): Config<ImportedRef> {
    Config(c.title, c.difficulty, c.timeLimit, c.memoryLimit, c.isPublic, c.visibility, c.tags, c.sourceUrl,
           c.authorNote, AsImportedRefs(c.testCases))
  }

  /** Decoding undoes encoding; the exported fields are all known to the importer. */
  ghost predicate Faithful(codec: Codec) {
    && (forall s :: codec.lossy(codec.utf8(s)) == s)
    && (forall c :: codec.fromJson(codec.toJson(c)) == Some(AsImported(c)))
  }

  // ---------------------------------------------------------------- export

  /** The files of one exported problem. */
  datatype File = ConfigFile | DescriptionFile | InputFile(order: int) | OutputFile(order: int)

  function PathOf(slug: string, f: File): string {
    match f
    case ConfigFile => "problems/" + slug + "/config.json"
    case DescriptionFile => "problems/" + slug + "/problem.md"
    case InputFile(n) => "problems/" + slug + "/testcases/" + Decimal(n) + ".in"
    case OutputFile(n) => "problems/" + slug + "/testcases/" + Decimal(n) + ".out"
  }

  function ExportedRefOf(tc: TestCase): ExportedRef {
    var stem := "testcases/" + Decimal(tc.order);
    ExportedRef(stem + ".in", stem + ".out", tc.isHidden, tc.score, tc.order)
  }

  function ExportedRefs(tcs: seq<TestCase>): (r: seq<ExportedRef>)
    ensures |r| == |tcs| && forall i :: 0 <= i < |tcs| ==> r[i] == ExportedRefOf(tcs[i])
  {
    seq(|tcs|, i requires 0 <= i < |tcs| => ExportedRefOf(tcs[i]))
  }

  function ExportedConfig(p: ExportProblem, tcs: seq<TestCase>): Config<ExportedRef> {
    Config(p.title, p.difficulty, p.timeLimit, p.memoryLimit, p.isPublic, p.visibility, p.tags, p.sourceUrl,
           p.authorNote, ExportedRefs(tcs))
  }

  function FileEntry(name: string, data: Bytes): Entry { Entry(name, |data|, false, data) }

  function TestCaseEntries(codec: Codec, slug: string, tcs: seq<TestCase>): (r: seq<Entry>)
    ensures |r| == 2 * |tcs|
  {
    if tcs == [] then []
    else
      var front, tc := tcs[..|tcs| - 1], tcs[|tcs| - 1];
      TestCaseEntries(codec, slug, front) +
      [FileEntry(PathOf(slug, InputFile(tc.order)), codec.utf8(tc.input)),
       FileEntry(PathOf(slug, OutputFile(tc.order)), codec.utf8(tc.expectedOutput))]
  }

  function ExportedEntries(codec: Codec, lower: string -> string, p: ExportProblem, tcs: seq<TestCase>): seq<Entry> {
    var slug := Slugify(lower, p.title);
    [FileEntry(PathOf(slug, ConfigFile), codec.utf8(codec.toJson(ExportedConfig(p, tcs)))),
     FileEntry(PathOf(slug, DescriptionFile), codec.utf8(p.description))] + TestCaseEntries(codec, slug, tcs)
  }

  ghost predicate DistinctOrders(tcs: seq<TestCase>) {
    forall i, j :: 0 <= i < j < |tcs| ==> tcs[i].order != tcs[j].order
  }

  // ------------------------------------------------------------ path algebra

  lemma PathMarks(slug: string, f: File)
    ensures var p, n := PathOf(slug, f), |"problems/" + slug + "/"|;
            && |p| > n
            && p[n] == (if f.ConfigFile? then 'c' else if f.DescriptionFile? then 'p' else 't')
            && (f.InputFile? ==> p[|p| - 1] == 'n') && (f.OutputFile? ==> p[|p| - 1] == 't')
  {
  }

  /** Different files of an export have different paths. */
  lemma PathOfInjective(slug: string, f: File, g: File)
    requires PathOf(slug, f) == PathOf(slug, g)
    ensures f == g
  {
    PathMarks(slug, f);
    PathMarks(slug, g);
    var dir, p := "problems/" + slug + "/testcases/", PathOf(slug, f);
    if f.InputFile? {
      assert Decimal(f.order) == p[|dir|..|p| - 3] && Decimal(g.order) == p[|dir|..|p| - 3];
      DecimalInjective(f.order, g.order);
    } else if f.OutputFile? {
      assert Decimal(f.order) == p[|dir|..|p| - 4] && Decimal(g.order) == p[|dir|..|p| - 4];
      DecimalInjective(f.order, g.order);
    }
  }

  /** Which file the `i`-th entry of an export is. */
  function FileAt(tcs: seq<TestCase>, i: nat): File
    requires i < 2 + 2 * |tcs|
  {
    if i == 0 then ConfigFile
    else if i == 1 then DescriptionFile
    else if i % 2 == 0 then InputFile(tcs[(i - 2) / 2].order)
    else OutputFile(tcs[(i - 2) / 2].order)
  }

  lemma {:induction false} TestCaseEntriesAt(codec: Codec, slug: string, tcs: seq<TestCase>, k: nat)
    requires k < |tcs|
    ensures var r := TestCaseEntries(codec, slug, tcs);
            && r[2 * k] == FileEntry(PathOf(slug, InputFile(tcs[k].order)), codec.utf8(tcs[k].input))
            && r[2 * k + 1] == FileEntry(PathOf(slug, OutputFile(tcs[k].order)), codec.utf8(tcs[k].expectedOutput))
  {
    hide PathOf;
    if k < |tcs| - 1 {
      TestCaseEntriesAt(codec, slug, tcs[..|tcs| - 1], k);
    }
  }

  lemma TestCaseEntriesStep(codec: Codec, slug: string, tcs: seq<TestCase>, k: nat)
    requires k < |tcs|
    ensures TestCaseEntries(codec, slug, tcs[..k + 1]) == TestCaseEntries(codec, slug, tcs[..k]) +
            [FileEntry(PathOf(slug, InputFile(tcs[k].order)), codec.utf8(tcs[k].input)),
             FileEntry(PathOf(slug, OutputFile(tcs[k].order)), codec.utf8(tcs[k].expectedOutput))]
  {
    hide PathOf;
    assert tcs[..k + 1][..k] == tcs[..k];
  }

  lemma EntryAt(codec: Codec, lower: string -> string, p: ExportProblem, tcs: seq<TestCase>, i: nat)
    requires i < 2 + 2 * |tcs|
    ensures var e := ExportedEntries(codec, lower, p, tcs)[i];
            e.name == PathOf(Slugify(lower, p.title), FileAt(tcs, i)) && !e.isSymlink && e.declaredSize == |e.data|
  {
    hide PathOf, Slugify, TestCaseEntries, ExportedConfig;
    if i >= 2 {
      var r, m := TestCaseEntries(codec, Slugify(lower, p.title), tcs), (i - 2) / 2;
      assert i - 2 == 2 * m || i - 2 == 2 * m + 1;
      TestCaseEntriesAt(codec, Slugify(lower, p.title), tcs, m);
    }
  }

  /** `ZipWriter::start_file` then `write_all`: a name may be used once. */
  function AddFile(written: seq<Entry>, name: string, data: Bytes): (r: Result<seq<Entry>, ArchiveError>)
    ensures r.Ok? ==> r.value == written + [FileEntry(name, data)]
  {
    if exists i :: 0 <= i < |written| && written[i].name == name then Err(DuplicateName(name))
    else Ok(written + [FileEntry(name, data)])
  }

  method BuildProblemZip(codec: Codec, lower: string -> string, p: ExportProblem, tcs: seq<TestCase>)
    returns (r: Result<seq<Entry>, ArchiveError>)
    ensures r.Ok? <==> DistinctOrders(tcs)
    ensures r.Ok? ==> r.value == ExportedEntries(codec, lower, p, tcs)
  {
    hide PathOf, Slugify, TestCaseEntries, ExportedConfig;
    var slug := Slugify(lower, p.title);
    var config := ExportedConfig(p, tcs);
    assert TestCaseEntries(codec, slug, tcs[..0]) == [];
    var written := [FileEntry(PathOf(slug, ConfigFile), codec.utf8(codec.toJson(config)))];
    if PathOf(slug, ConfigFile) == PathOf(slug, DescriptionFile) {
      PathOfInjective(slug, ConfigFile, DescriptionFile);
    }
    written := AddFile(written, PathOf(slug, DescriptionFile), codec.utf8(p.description)).value;
    ghost var head := written;
    for k := 0 to |tcs|
      invariant DistinctOrders(tcs[..k])
      invariant written == head + TestCaseEntries(codec, slug, tcs[..k])
    {
      var tc := tcs[k];
      AddExported(codec, slug, tcs, k, head);
      var r1 := AddFile(written, PathOf(slug, InputFile(tc.order)), codec.utf8(tc.input));
      if r1.Err? {
        assert !DistinctOrders(tcs);
        return r1;
      }
      var r2 := AddFile(r1.value, PathOf(slug, OutputFile(tc.order)), codec.utf8(tc.expectedOutput));
      written := r2.value;
      TestCaseEntriesStep(codec, slug, tcs, k);
    }
    assert tcs[..|tcs|] == tcs;
    return Ok(written);
  }

  lemma WrittenFile(codec: Codec, slug: string, tcs: seq<TestCase>, head: seq<Entry>, i: nat, f: File)
    requires |head| == 2 && head[0].name == PathOf(slug, ConfigFile) && head[1].name == PathOf(slug, DescriptionFile)
    requires i < 2 + 2 * |tcs| && (head + TestCaseEntries(codec, slug, tcs))[i].name == PathOf(slug, f)
    ensures f == FileAt(tcs, i)
  {
    hide PathOf, TestCaseEntries;
    if i >= 2 {
      var m := (i - 2) / 2;
      TestCaseEntriesAt(codec, slug, tcs, m);
      assert i - 2 == 2 * m || i - 2 == 2 * m + 1;
    }
    PathOfInjective(slug, f, FileAt(tcs, i));
  }

  /** The next test case collides with the files written so far exactly when its
      order was used before. */
  lemma AddExported(codec: Codec, slug: string, tcs: seq<TestCase>, k: nat, head: seq<Entry>)
    requires k < |tcs| && DistinctOrders(tcs[..k])
    requires |head| == 2 && head[0].name == PathOf(slug, ConfigFile) && head[1].name == PathOf(slug, DescriptionFile)
    ensures var written, tc := head + TestCaseEntries(codec, slug, tcs[..k]), tcs[k];
            var next := AddFile(written, PathOf(slug, InputFile(tc.order)), codec.utf8(tc.input));
            && (next.Ok? <==> DistinctOrders(tcs[..k + 1]))
            && (next.Ok? ==> AddFile(next.value, PathOf(slug, OutputFile(tc.order)), codec.utf8(tc.expectedOutput)).Ok?)
  {
    hide PathOf, TestCaseEntries;
    var done, tc := TestCaseEntries(codec, slug, tcs[..k]), tcs[k];
    var written := head + done;
    forall i, f: File | 0 <= i < |written| && written[i].name == PathOf(slug, f) ensures f == FileAt(tcs[..k], i) {
      WrittenFile(codec, slug, tcs[..k], head, i, f);
    }
    forall m | 0 <= m < k && tcs[m].order == tc.order
      ensures written[2 * m + 2].name == PathOf(slug, InputFile(tc.order))
    {
      TestCaseEntriesAt(codec, slug, tcs[..k], m);
    }
    assert forall m :: 0 <= m < k ==> tcs[..k + 1][m] == tcs[..k][m] == tcs[m];
    if PathOf(slug, InputFile(tc.order)) == PathOf(slug, OutputFile(tc.order)) {
      PathOfInjective(slug, InputFile(tc.order), OutputFile(tc.order));
    }
  }
}
