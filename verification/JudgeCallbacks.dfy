/** Judge results arriving for submissions (domain-submissions `service.rs`). Each
    callback is one transaction under a row lock, so callbacks apply one at a time.
    The database refuses what its constraints forbid (migrations 008 and 037). */
module JudgeCallbacks {
  import opened Common

  datatype Detail = Detail(
    expected: Option<string>, actual: Option<string>, error: Option<string>, runtimeMs: Option<int>,
    memoryKb: Option<int>)

  datatype TestCaseInput = TestCaseInput(testCase: int, status: string, detail: Detail)

  datatype Callback = Callback(
    submission: int, status: string, score: Option<int>, runtimeMs: Option<int>, memoryKb: Option<int>,
    testCases: seq<TestCaseInput>)

  datatype Row = Row(
    status: Option<string>, verdict: Option<string>, score: Option<int>, runtimeMs: Option<int>, memoryKb: Option<int>)

  datatype ResultRow = ResultRow(verdict: string, detail: Detail)

  type Results = map<(int, int), ResultRow>

  /** `testCases` are the identifiers of the test-case table; callbacks never change it. */
  datatype Db = Db(submissions: map<int, Row>, results: Results, testCases: set<int>)

  datatype Outcome =
    | Updated
    | AlreadyProcessed
    | NotFound
    | TerminalState(current: string)
    | InvalidTransition(current: string, target: string)
    | InvalidTestCaseStatus(status: string)
    | DatabaseRefused

  function ToAsciiLower(c: char): char {
    if 'A' <= c <= 'Z' then ((c as int) + 32) as char else c
  }

  predicate EqIgnoreAsciiCase(a: string, b: string) {
    |a| == |b| && forall i :: 0 <= i < |a| ==> ToAsciiLower(a[i]) == ToAsciiLower(b[i])
  }

  predicate IsTerminal(status: string) {
    status in {"accepted", "wrong_answer", "runtime_error", "compile_error", "compilation_error",
               "time_limit_exceeded", "memory_limit_exceeded", "system_error", "judged", "failed"}
  }

  predicate IsInFlight(status: string) { status in {"pending", "queued", "judging"} }

  function Normalize(status: string): string {
    if status in {"accepted", "wrong_answer", "runtime_error", "time_limit_exceeded", "memory_limit_exceeded",
                  "compile_error", "compilation_error"} then "judged"
    else status
  }

  function MapVerdict(status: string): Option<string> {
    if status == "accepted" then Some("ac")
    else if status == "wrong_answer" then Some("wa")
    else if status == "runtime_error" then Some("rte")
    else if status == "time_limit_exceeded" then Some("tle")
    else if status == "memory_limit_exceeded" then Some("mle")
    else if status == "compile_error" || status == "compilation_error" then Some("ce")
    else if status == "system_error" || status == "failed" then Some("ie")
    else None
  }

  // -------------------------------------------------------- database constraints

  /** `submissions_status_check`. */
  predicate StorableStatus(status: string) {
    status in {"pending", "queued", "compiling", "running", "judged", "failed"}
  }

  /** A text column cannot hold the character with code zero. */
  predicate StorableText(text: Option<string>) { text.Some? ==> '\0' !in text.value }

  /** The test case exists and its texts can be stored. */
  predicate StorableCase(tc: TestCaseInput, known: set<int>) {
    && tc.testCase in known
    && StorableText(tc.detail.expected) && StorableText(tc.detail.actual) && StorableText(tc.detail.error)
  }

  function Judged(cb: Callback): Row {
    Row(Some(Normalize(cb.status)), MapVerdict(cb.status), cb.score, cb.runtimeMs, cb.memoryKb)
  }

  /** The result rows after storing the test cases, or the first reason to stop. */
  function StoreResults(results: Results, known: set<int>, submission: int, tcs: seq<TestCaseInput>)
    : Result<Results, Outcome>
  {
    if tcs == [] then Ok(results)
    else
      var tc := tcs[|tcs| - 1];
      var front := StoreResults(results, known, submission, tcs[..|tcs| - 1]);
      if front.Err? then front
      else if MapVerdict(tc.status).None? then Err(InvalidTestCaseStatus(tc.status))
      else if !StorableCase(tc, known) then Err(DatabaseRefused)
      else Ok(front.value[(submission, tc.testCase) := ResultRow(MapVerdict(tc.status).value, tc.detail)])
  }

  function Judge(db: Db, cb: Callback): (Db, Outcome) {
    if cb.submission !in db.submissions || db.submissions[cb.submission].status.None? then (db, NotFound)
    else
      var current := db.submissions[cb.submission].status.value;
      var target := Normalize(cb.status);
      if EqIgnoreAsciiCase(current, target) then (db, AlreadyProcessed)
      else if IsTerminal(current) then (db, TerminalState(current))
      else if !IsInFlight(current) then (db, InvalidTransition(current, target))
      else if !StorableStatus(target) then (db, DatabaseRefused)
      else
        var stored := StoreResults(db.results, db.testCases, cb.submission, cb.testCases);
        if stored.Err? then (db, stored.error)
        else (Db(db.submissions[cb.submission := Judged(cb)], stored.value, db.testCases), Updated)
  }

  lemma {:induction false} StoreStops(results: Results, known: set<int>, submission: int, tcs: seq<TestCaseInput>,
      i: nat)
    requires i <= |tcs| && StoreResults(results, known, submission, tcs[..i]).Err?
    ensures StoreResults(results, known, submission, tcs) == StoreResults(results, known, submission, tcs[..i])
  {
    if i == |tcs| {
      assert tcs[..i] == tcs;
    } else {
      assert tcs[..|tcs| - 1][..i] == tcs[..i];
      StoreStops(results, known, submission, tcs[..|tcs| - 1], i);
    }
  }

  /** The submission, result and test-case tables. */
  class SubmissionStore {
    var submissions: map<int, Row>
    var results: Results
    var testCases: set<int>

    function Contents(): Db
      reads this
    {
      Db(submissions, results, testCases)
    }

    /** Writes become visible only at the commit; every early return rolls back. */
    method UpdateJudgeResultTransactional(cb: Callback) returns (outcome: Outcome)
      modifies this`submissions, this`results
      ensures (Contents(), outcome) == Judge(old(Contents()), cb)
    {
      hide IsTerminal, IsInFlight, MapVerdict, EqIgnoreAsciiCase, Normalize, StorableStatus, StorableCase;
      if cb.submission !in submissions || submissions[cb.submission].status.None? {
        return NotFound;
      }
      var current := submissions[cb.submission].status.value;
      var target := Normalize(cb.status);
      if EqIgnoreAsciiCase(current, target) {
        return AlreadyProcessed;
      }
      if IsTerminal(current) {
        return TerminalState(current);
      }
      if !IsInFlight(current) {
        return InvalidTransition(current, target);
      }
      if !StorableStatus(target) {
        return DatabaseRefused;
      }
      var txSubmissions := submissions[cb.submission := Judged(cb)];
      var txResults := results;
      for i := 0 to |cb.testCases|
        invariant submissions == old(submissions) && results == old(results)
        invariant StoreResults(results, testCases, cb.submission, cb.testCases[..i]) == Ok(txResults)
      {
        var tc := cb.testCases[i];
        var verdict := MapVerdict(tc.status);
        assert cb.testCases[..i + 1][..i] == cb.testCases[..i];
        if verdict.None? {
          StoreStops(results, testCases, cb.submission, cb.testCases, i + 1);
          return InvalidTestCaseStatus(tc.status);
        }
        if !StorableCase(tc, testCases) {
          StoreStops(results, testCases, cb.submission, cb.testCases, i + 1);
          return DatabaseRefused;
        }
        txResults := txResults[(cb.submission, tc.testCase) := ResultRow(verdict.value, tc.detail)];
      }
      assert cb.testCases[..|cb.testCases|] == cb.testCases;
      submissions, results := txSubmissions, txResults;
      return Updated;
    }
  }

  // ----------------------------------------------------------------- one step

  ghost predicate SameFor(a: Db, b: Db, id: int) {
    && (id in a.submissions <==> id in b.submissions)
    && (id in a.submissions ==> a.submissions[id] == b.submissions[id])
    && (forall t :: (id, t) in a.results <==> (id, t) in b.results)
    && (forall t :: (id, t) in a.results ==> a.results[(id, t)] == b.results[(id, t)])
  }

  /** The row exists and its status is outside pending, queued and judging. */
  ghost predicate Settled(db: Db, id: int) {
    id in db.submissions && db.submissions[id].status.Some? && !IsInFlight(db.submissions[id].status.value)
  }

  /** The row that a list of test cases reports for `t`: its last mention counts. */
  function Reported(tcs: seq<TestCaseInput>, t: int): Option<ResultRow> {
    if tcs == [] then None
    else
      var tc := tcs[|tcs| - 1];
      if tc.testCase == t && MapVerdict(tc.status).Some? then Some(ResultRow(MapVerdict(tc.status).value, tc.detail))
      else Reported(tcs[..|tcs| - 1], t)
  }

  function RowOf(results: Results, id: int, t: int): Option<ResultRow> {
    if (id, t) in results then Some(results[(id, t)]) else None
  }

  /** Storing lays the reported rows over the submission's own rows and touches no others. */
  lemma {:induction false} StoreOverlays(results: Results, known: set<int>, submission: int, tcs: seq<TestCaseInput>,
      id: int, t: int)
    requires StoreResults(results, known, submission, tcs).Ok?
    ensures RowOf(StoreResults(results, known, submission, tcs).value, id, t) ==
            if id == submission && Reported(tcs, t).Some? then Reported(tcs, t) else RowOf(results, id, t)
  {
    hide MapVerdict, StorableCase;
    if tcs != [] {
      StoreOverlays(results, known, submission, tcs[..|tcs| - 1], id, t);
    }
  }

  lemma SameRows(a: Db, b: Db, id: int)
    requires forall t :: RowOf(a.results, id, t) == RowOf(b.results, id, t)
    requires id in a.submissions <==> id in b.submissions
    requires id in a.submissions ==> a.submissions[id] == b.submissions[id]
    ensures SameFor(a, b, id)
  {
    forall t ensures (id, t) in a.results <==> (id, t) in b.results {
      assert RowOf(a.results, id, t) == RowOf(b.results, id, t);
    }
    forall t | (id, t) in a.results ensures a.results[(id, t)] == b.results[(id, t)] {
      assert RowOf(a.results, id, t) == RowOf(b.results, id, t);
    }
  }

  /** A callback changes nothing but its own submission, and not even that unless it
      reports `Updated`. */
  lemma CallbackFrame(db: Db, cb: Callback, id: int)
    requires id != cb.submission || Judge(db, cb).1 != Updated
    ensures SameFor(db, Judge(db, cb).0, id)
  {
    hide SameFor, IsTerminal, IsInFlight, EqIgnoreAsciiCase, Normalize, StorableStatus, StoreResults;
    var after := Judge(db, cb).0;
    forall t ensures RowOf(db.results, id, t) == RowOf(after.results, id, t) {
      if Judge(db, cb).1 == Updated {
        StoreSucceedsIff(db.results, db.testCases, cb.submission, cb.testCases);
        StoreOverlays(db.results, db.testCases, cb.submission, cb.testCases, id, t);
      }
    }
    SameRows(db, after, id);
  }

  /** Every test case can be stored: known status, known test case, storable texts. */
  ghost predicate AllStorable(tcs: seq<TestCaseInput>, known: set<int>) {
    forall i :: 0 <= i < |tcs| ==> MapVerdict(tcs[i].status).Some? && StorableCase(tcs[i], known)
  }

  lemma {:induction false} StoreSucceedsIff(results: Results, known: set<int>, submission: int,
      tcs: seq<TestCaseInput>)
    ensures StoreResults(results, known, submission, tcs).Ok? <==> AllStorable(tcs, known)
    ensures StoreResults(results, known, submission, tcs).Err? ==>
              StoreResults(results, known, submission, tcs).error != Updated
  {
    hide MapVerdict, StorableCase;
    if tcs != [] {
      StoreSucceedsIff(results, known, submission, tcs[..|tcs| - 1]);
    }
  }

  lemma SameIsEqual(status: string)
    ensures EqIgnoreAsciiCase(status, status)
  {
  }

  /** A callback takes effect exactly when the submission is in flight, the target
      status is a new one that the database can store, and so is every test case.
      Its row is then the judged one, the rows it reports lie over the older ones,
      and nothing is left out; otherwise the whole database is as before. */
  lemma CallbackAllOrNothing(db: Db, cb: Callback)
    ensures Judge(db, cb).1 == Updated <==>
              && cb.submission in db.submissions && db.submissions[cb.submission].status.Some?
              && IsInFlight(db.submissions[cb.submission].status.value)
              && !EqIgnoreAsciiCase(db.submissions[cb.submission].status.value, Normalize(cb.status))
              && StorableStatus(Normalize(cb.status)) && AllStorable(cb.testCases, db.testCases)
    ensures Judge(db, cb).1 == Updated ==>
              && cb.submission in Judge(db, cb).0.submissions
              && Judge(db, cb).0.submissions[cb.submission] == Judged(cb)
              && forall t :: RowOf(Judge(db, cb).0.results, cb.submission, t) ==
                             if Reported(cb.testCases, t).Some? then Reported(cb.testCases, t)
                             else RowOf(db.results, cb.submission, t)
    ensures Judge(db, cb).0 == db <==> Judge(db, cb).1 != Updated
  {
    SameIsEqual(Normalize(cb.status));
    hide MapVerdict, EqIgnoreAsciiCase, Normalize, StoreResults, AllStorable, Reported, RowOf, StorableStatus;
    StoreSucceedsIff(db.results, db.testCases, cb.submission, cb.testCases);
    if Judge(db, cb).1 == Updated {
      forall t {
        StoreOverlays(db.results, db.testCases, cb.submission, cb.testCases, cb.submission, t);
      }
    }
  }

  /** A system error reported for a queued submission is refused, so the submission
      stays queued and keeps counting as in flight. */
  lemma SystemErrorIsRefused(db: Db, cb: Callback)
    requires cb.submission in db.submissions && db.submissions[cb.submission].status == Some("queued")
    requires cb.status == "system_error"
    ensures Judge(db, cb) == (db, DatabaseRefused)
  {
    hide StoreResults;
    assert |"queued"| != |"system_error"|;
  }

  // ----------------------------------------------------------- what is stored

  /** The verdict that a reported status stands for. */
  predicate StandsFor(status: string, verdict: string) {
    || (status == "accepted" && verdict == "ac")
    || (status == "wrong_answer" && verdict == "wa")
    || (status == "runtime_error" && verdict == "rte")
    || (status == "time_limit_exceeded" && verdict == "tle")
    || (status == "memory_limit_exceeded" && verdict == "mle")
    || ((status == "compile_error" || status == "compilation_error") && verdict == "ce")
    || ((status == "system_error" || status == "failed") && verdict == "ie")
  }

  lemma MapVerdictExactly(status: string)
    ensures forall v :: MapVerdict(status) == Some(v) <==> StandsFor(status, v)
  {
    if MapVerdict(status).Some? {
      assert StandsFor(status, MapVerdict(status).value);
    }
  }

  /** A callback that takes effect stores the verdict its status stands for, or none;
      the status `judged` for the seven results of judging, else the status itself;
      and its own score, runtime and memory. */
  lemma StoredRowExactly(db: Db, cb: Callback)
    requires Judge(db, cb).1 == Updated
    ensures cb.submission in Judge(db, cb).0.submissions
    ensures var row := Judge(db, cb).0.submissions[cb.submission];
            && (forall v :: row.verdict == Some(v) <==> StandsFor(cb.status, v))
            && row.status == Some(if cb.status in {"accepted", "wrong_answer", "runtime_error", "time_limit_exceeded",
                                                   "memory_limit_exceeded", "compile_error", "compilation_error"}
                                  then "judged" else cb.status)
            && row.score == cb.score && row.runtimeMs == cb.runtimeMs && row.memoryKb == cb.memoryKb
  {
    CallbackAllOrNothing(db, cb);
    MapVerdictExactly(cb.status);
    hide Judge, MapVerdict, StandsFor;
  }

  /** The last test case of the list with this identifier. */
  ghost predicate LastReport(tcs: seq<TestCaseInput>, i: nat, t: int) {
    i < |tcs| && tcs[i].testCase == t && forall j :: i < j < |tcs| ==> tcs[j].testCase != t
  }

  /** The row is what this test case reports. */
  ghost predicate ReportOf(tc: TestCaseInput, row: ResultRow) {
    StandsFor(tc.status, row.verdict) && row.detail == tc.detail
  }

  lemma StorableSplits(tcs: seq<TestCaseInput>, known: set<int>)
    requires AllStorable(tcs, known) && tcs != []
    ensures AllStorable(tcs[..|tcs| - 1], known) && MapVerdict(tcs[|tcs| - 1].status).Some?
  {
    hide MapVerdict, StorableCase;
  }

  lemma LastReportExtends(tcs: seq<TestCaseInput>, i: nat, t: int)
    requires tcs != [] && tcs[|tcs| - 1].testCase != t && LastReport(tcs[..|tcs| - 1], i, t)
    ensures LastReport(tcs, i, t) && tcs[i] == tcs[..|tcs| - 1][i]
  {
  }

  lemma NoReportExtends(tcs: seq<TestCaseInput>, t: int)
    requires tcs != [] && tcs[|tcs| - 1].testCase != t && !Mentioned(tcs[..|tcs| - 1], t)
    ensures !Mentioned(tcs, t)
  {
  }

  ghost predicate Mentioned(tcs: seq<TestCaseInput>, t: int) {
    exists j :: 0 <= j < |tcs| && tcs[j].testCase == t
  }

  lemma {:induction false} ReportedExactly(tcs: seq<TestCaseInput>, known: set<int>, t: int) returns (i: nat)
    requires AllStorable(tcs, known)
    ensures Reported(tcs, t).Some? <==> Mentioned(tcs, t)
    ensures Reported(tcs, t).Some? ==> LastReport(tcs, i, t) && ReportOf(tcs[i], Reported(tcs, t).value)
  {
    i := 0;
    if tcs != [] {
      var n := |tcs| - 1;
      StorableSplits(tcs, known);
      MapVerdictExactly(tcs[n].status);
      hide MapVerdict, StandsFor, AllStorable;
      if tcs[n].testCase == t {
        i := n;
      } else {
        i := ReportedExactly(tcs[..n], known, t);
        assert Reported(tcs, t) == Reported(tcs[..n], t);
        hide Reported;
        if Mentioned(tcs[..n], t) {
          LastReportExtends(tcs, i, t);
        } else {
          NoReportExtends(tcs, t);
        }
      }
    }
  }

  /** Each result row holds the verdict and the details of the last report of its test
      case in the callback; the rows of test cases it does not report stay. */
  lemma StoredResultsExactly(db: Db, cb: Callback, t: int) returns (i: nat)
    requires Judge(db, cb).1 == Updated
    ensures var row := RowOf(Judge(db, cb).0.results, cb.submission, t);
            if Mentioned(cb.testCases, t)
            then LastReport(cb.testCases, i, t) && row.Some? && ReportOf(cb.testCases[i], row.value)
            else row == RowOf(db.results, cb.submission, t)
  {
    hide Judge, Reported, RowOf, StandsFor, MapVerdict, AllStorable, Mentioned, ReportOf, LastReport;
    CallbackAllOrNothing(db, cb);
    i := ReportedExactly(cb.testCases, db.testCases, t);
  }

  /** The texts are the same but for the case of ASCII letters. */
  predicate SameButCase(a: string, b: string) {
    && |a| == |b|
    && forall i :: 0 <= i < |a| ==>
         || a[i] == b[i]
         || ('A' <= a[i] <= 'Z' && b[i] as int == a[i] as int + 32)
         || ('A' <= b[i] <= 'Z' && a[i] as int == b[i] as int + 32)
  }

  lemma EqIgnoreCaseExactly(a: string, b: string)
    ensures EqIgnoreAsciiCase(a, b) <==> SameButCase(a, b)
  {
  }

  /** A text that may be missing and holds no character with code zero. */
  ghost predicate CleanText(text: Option<string>) {
    forall s, k :: text == Some(s) && 0 <= k < |s| ==> s[k] as int != 0
  }

  /** Test cases can be stored exactly if each has a status that stands for a verdict, is
      in the table of test cases, and has clean texts. */
  lemma StorableExactly(tcs: seq<TestCaseInput>, known: set<int>)
    ensures AllStorable(tcs, known) <==>
              forall tc :: tc in tcs ==>
                && (exists v :: StandsFor(tc.status, v)) && tc.testCase in known
                && CleanText(tc.detail.expected) && CleanText(tc.detail.actual) && CleanText(tc.detail.error)
  {
    forall tc: TestCaseInput
      ensures MapVerdict(tc.status).Some? && StorableCase(tc, known) <==>
                && (exists v :: StandsFor(tc.status, v)) && tc.testCase in known
                && CleanText(tc.detail.expected) && CleanText(tc.detail.actual) && CleanText(tc.detail.error)
    {
      OneStorable(tc, known);
    }
    hide MapVerdict, StorableCase, StandsFor, CleanText;
    if AllStorable(tcs, known) {
      forall tc | tc in tcs ensures MapVerdict(tc.status).Some? && StorableCase(tc, known) {
        var i :| 0 <= i < |tcs| && tcs[i] == tc;
      }
    }
  }

  lemma OneStorable(tc: TestCaseInput, known: set<int>)
    ensures MapVerdict(tc.status).Some? && StorableCase(tc, known) <==>
              && (exists v :: StandsFor(tc.status, v)) && tc.testCase in known
              && CleanText(tc.detail.expected) && CleanText(tc.detail.actual) && CleanText(tc.detail.error)
  {
    MapVerdictExactly(tc.status);
    CleanExactly(tc.detail.expected);
    CleanExactly(tc.detail.actual);
    CleanExactly(tc.detail.error);
    hide MapVerdict, StandsFor, CleanText, StorableText;
    if MapVerdict(tc.status).Some? {
      assert StandsFor(tc.status, MapVerdict(tc.status).value);
    }
  }

  lemma CleanExactly(text: Option<string>)
    ensures StorableText(text) <==> CleanText(text)
  {
    if text.Some? && StorableText(text) {
      forall k | 0 <= k < |text.value| ensures text.value[k] as int != 0 {
        assert text.value[k] in text.value;
      }
    }
  }

  /** How each callback ends, by the status it finds and the one it reports. */
  lemma OutcomeExactly(db: Db, cb: Callback)
    ensures var id, outcome := cb.submission, Judge(db, cb).1;
            if id !in db.submissions || db.submissions[id].status.None? then outcome == NotFound
            else
              var current := db.submissions[id].status.value;
              var target := if cb.status in {"accepted", "wrong_answer", "runtime_error", "time_limit_exceeded",
                                             "memory_limit_exceeded", "compile_error", "compilation_error"}
                            then "judged" else cb.status;
              if SameButCase(current, target) then outcome == AlreadyProcessed
              else if current in {"accepted", "wrong_answer", "runtime_error", "compile_error", "compilation_error",
                                  "time_limit_exceeded", "memory_limit_exceeded", "system_error", "judged", "failed"}
              then outcome == TerminalState(current)
              else if current !in {"pending", "queued", "judging"} then outcome == InvalidTransition(current, target)
              else if target !in {"pending", "queued", "compiling", "running", "judged", "failed"}
              then outcome == DatabaseRefused
              else outcome == Updated <==> AllStorable(cb.testCases, db.testCases)
  {
    StoreSucceedsIff(db.results, db.testCases, cb.submission, cb.testCases);
    if cb.submission in db.submissions && db.submissions[cb.submission].status.Some? {
      EqIgnoreCaseExactly(db.submissions[cb.submission].status.value, Normalize(cb.status));
    }
    hide StoreResults, EqIgnoreAsciiCase, SameButCase, AllStorable;
  }

  lemma SettledIsAbsorbing(db: Db, cb: Callback, id: int)
    requires Settled(db, id)
    ensures SameFor(db, Judge(db, cb).0, id) && Settled(Judge(db, cb).0, id)
  {
    CallbackFrame(db, cb, id);
  }

  // ---------------------------------------------------------------- whole runs

  ghost function RunAll(db: Db, cbs: seq<Callback>): Db {
    if cbs == [] then db else Judge(RunAll(db, cbs[..|cbs| - 1]), cbs[|cbs| - 1]).0
  }

  lemma SameForTransitive(a: Db, b: Db, c: Db, id: int)
    requires SameFor(a, b, id) && SameFor(b, c, id)
    ensures SameFor(a, c, id)
  {
  }

  /** Once settled, a submission and its result rows never change again. */
  lemma {:induction false} SettledForGood(db: Db, cbs: seq<Callback>, id: int)
    requires Settled(db, id)
    ensures SameFor(db, RunAll(db, cbs), id) && Settled(RunAll(db, cbs), id)
  {
    hide SameFor, Judge;
    if cbs == [] {
      SameForReflexive(db, id);
    } else {
      SettledForGood(db, cbs[..|cbs| - 1], id);
      SettledIsAbsorbing(RunAll(db, cbs[..|cbs| - 1]), cbs[|cbs| - 1], id);
      SameForTransitive(db, RunAll(db, cbs[..|cbs| - 1]), RunAll(db, cbs), id);
    }
  }

  lemma {:induction false} RunConcat(db: Db, cbs: seq<Callback>, more: seq<Callback>)
    ensures RunAll(db, cbs + more) == RunAll(RunAll(db, cbs), more)
  {
    hide Judge;
    if more == [] {
      assert cbs + more == cbs;
    } else {
      var front := more[..|more| - 1];
      RunConcat(db, cbs, front);
      assert (cbs + more)[..|cbs + more| - 1] == cbs + front;
    }
  }

  /** Delivering a callback again changes nothing, right away or at any time after it
      has left its submission settled. */
  lemma ReplayIsIdle(db: Db, cbs: seq<Callback>, i: nat)
    requires i < |cbs| && (i == |cbs| - 1 || Settled(RunAll(db, cbs[..i + 1]), cbs[i].submission))
    ensures RunAll(db, cbs + [cbs[i]]) == RunAll(db, cbs)
  {
    hide Judge, SameFor;
    var cb, now := cbs[i], RunAll(db, cbs);
    assert (cbs + [cb])[..|cbs|] == cbs;
    if i == |cbs| - 1 {
      ReplayAtOnce(RunAll(db, cbs[..i]), cb);
    } else {
      assert cbs == cbs[..i + 1] + cbs[i + 1..];
      RunConcat(db, cbs[..i + 1], cbs[i + 1..]);
      SettledForGood(RunAll(db, cbs[..i + 1]), cbs[i + 1..], cb.submission);
      CallbackAllOrNothing(now, cb);
    }
  }

  lemma ReplayAtOnce(db: Db, cb: Callback)
    ensures Judge(Judge(db, cb).0, cb).0 == Judge(db, cb).0
  {
    SameIsEqual(Normalize(cb.status));
    CallbackAllOrNothing(db, cb);
    CallbackAllOrNothing(Judge(db, cb).0, cb);
    hide Judge, EqIgnoreAsciiCase;
  }

  lemma SameForReflexive(db: Db, id: int)
    ensures SameFor(db, db, id)
  {
  }

  /** The callback that settled a submission decided its row for good: it was
      applied while the submission was in flight, and nothing after it counts. The
      result rows are those it reported, over those stored before it. A submission
      settles without a verdict exactly when that callback carried none. */
  lemma {:induction false} FirstSettlingCallbackDecides(db: Db, cbs: seq<Callback>, id: int) returns (i: nat)
    requires !Settled(db, id) && Settled(RunAll(db, cbs), id)
    ensures i < |cbs| && cbs[i].submission == id && !Settled(RunAll(db, cbs[..i]), id)
    ensures Judge(RunAll(db, cbs[..i]), cbs[i]).1 == Updated
    ensures SameFor(Judge(RunAll(db, cbs[..i]), cbs[i]).0, RunAll(db, cbs), id)
    ensures RunAll(db, cbs).submissions[id] == Judged(cbs[i])
    ensures RunAll(db, cbs).submissions[id].verdict.None? <==> cbs[i].status in {"judged", "compiling", "running"}
    ensures forall t :: RowOf(RunAll(db, cbs).results, id, t) ==
                        if Reported(cbs[i].testCases, t).Some? then Reported(cbs[i].testCases, t)
                        else RowOf(RunAll(db, cbs[..i]).results, id, t)
  {
    hide Judge, SameFor, Reported, RowOf;
    i := SettlingCallback(db, cbs, id);
    var before, cb := RunAll(db, cbs[..i]), cbs[i];
    VerdictOfSettling(before, cb);
    CallbackAllOrNothing(before, cb);
    forall t {
      RowOfSame(Judge(before, cb).0, RunAll(db, cbs), id, t);
    }
  }

  lemma RowOfSame(a: Db, b: Db, id: int, t: int)
    requires SameFor(a, b, id)
    ensures RowOf(a.results, id, t) == RowOf(b.results, id, t)
  {
  }

  lemma VerdictOfSettling(db: Db, cb: Callback)
    requires Judge(db, cb).1 == Updated && Settled(Judge(db, cb).0, cb.submission)
    ensures Judged(cb).verdict.None? <==> cb.status in {"judged", "compiling", "running"}
  {
    hide StoreResults, EqIgnoreAsciiCase;
    StoreSucceedsIff(db.results, db.testCases, cb.submission, cb.testCases);
  }

  lemma {:induction false} SettlingCallback(db: Db, cbs: seq<Callback>, id: int) returns (i: nat)
    requires !Settled(db, id) && Settled(RunAll(db, cbs), id)
    ensures i < |cbs| && cbs[i].submission == id && !Settled(RunAll(db, cbs[..i]), id)
    ensures Judge(RunAll(db, cbs[..i]), cbs[i]).1 == Updated
    ensures Settled(Judge(RunAll(db, cbs[..i]), cbs[i]).0, id)
    ensures SameFor(Judge(RunAll(db, cbs[..i]), cbs[i]).0, RunAll(db, cbs), id)
    ensures RunAll(db, cbs).submissions[id] == Judged(cbs[i])
  {
    hide Judge, SameFor;
    var front, last := cbs[..|cbs| - 1], cbs[|cbs| - 1];
    var before := RunAll(db, front);
    if Settled(before, id) {
      i := SettlingCallback(db, front, id);
      assert front[..i] == cbs[..i] && front[i] == cbs[i];
      SettledIsAbsorbing(before, last, id);
      SameForTransitive(Judge(RunAll(db, cbs[..i]), cbs[i]).0, before, RunAll(db, cbs), id);
    } else {
      i := |cbs| - 1;
      UnsettledBecomesSettled(before, last, id);
      SameForReflexive(RunAll(db, cbs), id);
    }
  }

  /** Callback `j` of the sequence was applied and reported test case `t` of `id`. */
  ghost predicate Reports(db: Db, cbs: seq<Callback>, j: nat, id: int, t: int) {
    && j < |cbs| && cbs[j].submission == id && Reported(cbs[j].testCases, t).Some?
    && Judge(RunAll(db, cbs[..j]), cbs[j]).1 == Updated
  }

  lemma ReportsInFront(db: Db, cbs: seq<Callback>, j: nat, id: int, t: int)
    requires j < |cbs| - 1
    ensures Reports(db, cbs, j, id, t) <==> Reports(db, cbs[..|cbs| - 1], j, id, t)
  {
    assert cbs[..|cbs| - 1][..j] == cbs[..j];
  }

  /** Where each result row comes from: the last applied callback that reported the
      test case, or else the row was there from the start. */
  lemma {:induction false} RowProvenance(db: Db, cbs: seq<Callback>, id: int, t: int) returns (j: nat)
    ensures j <= |cbs| && forall i: nat :: j == |cbs| || j < i ==> !Reports(db, cbs, i, id, t)
    ensures j < |cbs| ==>
              Reports(db, cbs, j, id, t) && RowOf(RunAll(db, cbs).results, id, t) == Reported(cbs[j].testCases, t)
    ensures j == |cbs| ==> RowOf(RunAll(db, cbs).results, id, t) == RowOf(db.results, id, t)
  {
    hide Judge, Reported, RowOf;
    j := |cbs|;
    if cbs != [] {
      var front, last := cbs[..|cbs| - 1], cbs[|cbs| - 1];
      assert cbs[..|front|] == front;
      RowAfter(RunAll(db, front), last, id, t);
      if Reports(db, cbs, |front|, id, t) {
        j := |front|;
      } else {
        j := RowProvenance(db, front, id, t);
        forall i: nat | i < |front| {
          ReportsInFront(db, cbs, i, id, t);
        }
        if j == |front| { j := |cbs|; } else { assert front[j] == cbs[j]; }
      }
    }
  }

  lemma RowAfter(db: Db, cb: Callback, id: int, t: int)
    ensures RowOf(Judge(db, cb).0.results, id, t) ==
            if cb.submission == id && Judge(db, cb).1 == Updated && Reported(cb.testCases, t).Some?
            then Reported(cb.testCases, t) else RowOf(db.results, id, t)
  {
    hide Judge, Reported, RowOf;
    CallbackAllOrNothing(db, cb);
    if cb.submission != id {
      CallbackFrame(db, cb, id);
      RowOfSame(db, Judge(db, cb).0, id, t);
    }
  }

  /** Only storable statuses are ever stored, so no submission is ever `judging`. */
  ghost predicate StatusesStorable(db: Db) {
    forall id :: id in db.submissions && db.submissions[id].status.Some? ==>
      StorableStatus(db.submissions[id].status.value)
  }

  lemma {:induction false} StatusesStayStorable(db: Db, cbs: seq<Callback>)
    requires StatusesStorable(db)
    ensures StatusesStorable(RunAll(db, cbs))
  {
    hide StoreResults, IsTerminal, EqIgnoreAsciiCase, MapVerdict, IsInFlight, Normalize, StorableStatus;
    if cbs != [] {
      StatusesStayStorable(db, cbs[..|cbs| - 1]);
    }
  }

  lemma UnsettledBecomesSettled(db: Db, cb: Callback, id: int)
    requires !Settled(db, id) && Settled(Judge(db, cb).0, id)
    ensures cb.submission == id && Judge(db, cb).1 == Updated && Judge(db, cb).0.submissions[id] == Judged(cb)
  {
  }

  /** A submission in flight carries no verdict. */
  ghost predicate VerdictsSettled(db: Db) {
    forall id :: id in db.submissions && db.submissions[id].verdict.Some? ==> Settled(db, id)
  }

  lemma InFlightHasNoVerdict(status: string)
    requires IsInFlight(Normalize(status))
    ensures MapVerdict(status).None?
  {
  }

  lemma {:induction false} VerdictOnlyWhenSettled(db: Db, cbs: seq<Callback>)
    requires VerdictsSettled(db)
    ensures VerdictsSettled(RunAll(db, cbs))
  {
    hide StoreResults, IsTerminal, EqIgnoreAsciiCase, MapVerdict, IsInFlight, Normalize;
    if cbs != [] {
      var before, cb := RunAll(db, cbs[..|cbs| - 1]), cbs[|cbs| - 1];
      VerdictOnlyWhenSettled(db, cbs[..|cbs| - 1]);
      if IsInFlight(Normalize(cb.status)) { InFlightHasNoVerdict(cb.status); }
    }
  }
}
