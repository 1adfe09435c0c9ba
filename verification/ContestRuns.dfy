/** Contest operations as they change the tables, and what holds over every run of
    them (domain-contests `service.rs`). Contest schedules stay fixed, and reading a
    ranking is one step. */
module ContestRuns {
  import opened Common
  import opened Contests

  // ---------------------------------------------------------------- operations

  function FreezeTime(contest: Contest): int
    requires contest.freezeMinutes.Some?
  {
    contest.end - contest.freezeMinutes.value * MINUTE
  }

  predicate Frozen(contest: Contest, now: int) {
    contest.freezeMinutes.Some? && FreezeTime(contest) < now < contest.end
  }

  /** `get_contest_rankings`: inside the window the first ranking is stored and kept. */
  function ReadRankings(w: World, db: Db, c: nat, now: int): (Db, Option<seq<Entry>>) {
    if c !in w.contests then (db, None)
    else
      var contest := w.contests[c];
      if !Frozen(contest, now) then (db, Some(Rankings(w, db, c, contest, now)))
      else if c in db.snapshots then (db, Some(db.snapshots[c]))
      else
        var r := Rankings(w, db, c, contest, FreezeTime(contest));
        (db.(snapshots := db.snapshots[c := r]), Some(r))
  }

  datatype LinkResult =
    | Linked(link: Link)
    | ContestNotFound
    | NotStarted
    | SubmissionNotFound
    | WrongOrganization
    | CreatedTooEarly
    | ProblemNotInContest
    | LinkedElsewhere(contest: nat)

  predicate HasProblem(contest: Contest, problem: int) {
    exists k :: 0 <= k < |contest.problems| && contest.problems[k].id == problem
  }

  function LinkSubmission(w: World, db: Db, c: nat, i: nat, now: int): (Db, LinkResult) {
    if c !in w.contests then (db, ContestNotFound)
    else if now < w.contests[c].start then (db, NotStarted)
    else if i >= |db.submissions| then (db, SubmissionNotFound)
    else
      var contest, s := w.contests[c], db.submissions[i];
      if s.org != contest.org then (db, WrongOrganization)
      else if s.createdAt < contest.start then (db, CreatedTooEarly)
      else if !HasProblem(contest, s.problem) then (db, ProblemNotInContest)
      else if i in db.links && db.links[i].contest != c then (db, LinkedElsewhere(db.links[i].contest))
      else
        var link := Link(c, s.createdAt > contest.end);
        (db.(links := db.links[i := link]), Linked(link))
  }

  class ContestService {
    const world: World
    var submissions: seq<Submission>
    var links: map<nat, Link>
    var snapshots: map<nat, seq<Entry>>

    constructor (w: World)
      ensures world == w && Contents() == Db([], map[], map[])
    {
      world, submissions, links, snapshots := w, [], map[], map[];
    }

    function Contents(): Db
      reads this
    {
      Db(submissions, links, snapshots)
    }

    method ComputeRankings(c: nat, contest: Contest, cutoff: int) returns (rankings: seq<Entry>)
      ensures rankings == Rankings(world, Contents(), c, contest, cutoff)
    {
      hide Participates, EntryOf;
      rankings := [];
      for k := 0 to |world.users|
        invariant rankings == Entries(Contents(), c, contest, cutoff, world.users[..k])
      {
        var user := world.users[k];
        assert world.users[..k + 1][..k] == world.users[..k];
        if Participates(Contents(), c, cutoff, user) {
          rankings := rankings + [EntryOf(Contents(), c, contest, cutoff, user)];
        }
      }
      assert world.users[..|world.users|] == world.users;
      rankings := SortEntries(rankings);
    }

    method GetContestRankings(c: nat, now: int) returns (r: Option<seq<Entry>>)
      modifies this`snapshots
      ensures (Contents(), r) == ReadRankings(world, old(Contents()), c, now)
      ensures r.Some? <==> c in world.contests
      ensures forall d :: d in old(snapshots) ==> d in snapshots && snapshots[d] == old(snapshots[d])
      ensures r.Some? ==>
                var contest := world.contests[c];
                if contest.freezeMinutes.Some? && contest.end - contest.freezeMinutes.value * MINUTE < now < contest.end
                then
                  && c in snapshots && r == Some(snapshots[c])
                  && (c !in old(snapshots) ==>
                        r.value == Rankings(world, old(Contents()), c, contest,
                                            contest.end - contest.freezeMinutes.value * MINUTE))
                else r.value == Rankings(world, old(Contents()), c, contest, now) && snapshots == old(snapshots)
    {
      if c !in world.contests {
        return None;
      }
      var contest := world.contests[c];
      if Frozen(contest, now) {
        if c in snapshots {
          return Some(snapshots[c]);
        }
        var rankings := ComputeRankings(c, contest, FreezeTime(contest));
        snapshots := snapshots[c := rankings];
        return Some(rankings);
      }
      var live := ComputeRankings(c, contest, now);
      return Some(live);
    }

    method LinkSubmissionToContest(c: nat, i: nat, now: int) returns (r: LinkResult)
      modifies this`links
      ensures (Contents(), r) == LinkSubmission(world, old(Contents()), c, i, now)
      ensures forall j :: j in old(links) ==> j in links && links[j].contest == old(links[j].contest)
      ensures r.Linked? <==>
                && c in world.contests && now >= world.contests[c].start && i < |submissions|
                && submissions[i].org == world.contests[c].org && submissions[i].createdAt >= world.contests[c].start
                && (exists p :: p in world.contests[c].problems && p.id == submissions[i].problem)
                && (i in old(links) ==> old(links)[i].contest == c)
      ensures r.Linked? ==>
                r.link == Link(c, submissions[i].createdAt > world.contests[c].end) && links == old(links)[i := r.link]
      ensures !r.Linked? ==> links == old(links)
    {
      if c !in world.contests {
        return ContestNotFound;
      }
      var contest := world.contests[c];
      if now < contest.start {
        return NotStarted;
      }
      if i >= |submissions| {
        return SubmissionNotFound;
      }
      var s := submissions[i];
      if s.org != contest.org {
        return WrongOrganization;
      }
      if s.createdAt < contest.start {
        return CreatedTooEarly;
      }
      var isUpsolving := s.createdAt > contest.end;
      if !HasProblem(contest, s.problem) {
        return ProblemNotInContest;
      }
      if i in links && links[i].contest != c {
        return LinkedElsewhere(links[i].contest);
      }
      links := links[i := Link(c, isUpsolving)];
      return Linked(links[i]);
    }
  }

  // ---------------------------------------------------------------- whole runs

  /** A ranking that was handed out: which contest, when, and what. */
  datatype Read = Read(contest: nat, at: int, rankings: seq<Entry>)

  datatype State = State(now: int, db: Db, answers: seq<Read>)

  datatype Step =
    | Advance(to: int)
    | Submit(user: nat, problem: int, org: int)
    | SetVerdict(i: nat, verdict: Option<string>)
    | LinkTo(contest: nat, i: nat)
    | ReadStep(contest: nat)

  predicate Enabled(s: State, step: Step) {
    match step
    case Advance(to) => s.now <= to
    case SetVerdict(i, _) => i < |s.db.submissions|
    case _ => true
  }

  function Apply(w: World, s: State, step: Step): State
    requires Enabled(s, step)
  {
    match step
    case Advance(to) => s.(now := to)
    case Submit(user, problem, org) =>
      s.(db := s.db.(submissions := s.db.submissions + [Submission(user, problem, org, s.now, None)]))
    case SetVerdict(i, v) =>
      s.(db := s.db.(submissions := s.db.submissions[i := s.db.submissions[i].(verdict := v)]))
    case LinkTo(c, i) => s.(db := LinkSubmission(w, s.db, c, i, s.now).0)
    case ReadStep(c) =>
      var (db, r) := ReadRankings(w, s.db, c, s.now);
      State(s.now, db, if r.Some? then s.answers + [Read(c, s.now, r.value)] else s.answers)
  }

  ghost predicate IsRun(w: World, states: seq<State>, steps: seq<Step>) {
    && |states| == |steps| + 1
    && states[0].db == Db([], map[], map[]) && states[0].answers == []
    && forall k :: 0 <= k < |steps| ==> Enabled(states[k], steps[k]) && states[k + 1] == Apply(w, states[k], steps[k])
  }

  // ------------------------------------------------------- a problem solved twice

  const SampleContest: Contest := Contest(1, 0, 100 * MINUTE, None, [Problem(7, 10)])
  const SampleWorld: World := World(map[3 := SampleContest], [5])
  const SolvedOnce: Submission := Submission(5, 7, 1, MINUTE, Some("ac"))
  const SampleSteps: seq<Step> := [
    Submit(5, 7, 1), LinkTo(3, 0), SetVerdict(0, Some("ac")),
    Submit(5, 7, 1), LinkTo(3, 1), SetVerdict(1, Some("ac")), Advance(2 * MINUTE)]

  /** One more accepted attempt of the user at the problem. */
  lemma AcceptedAttempt(s: State) returns (a: State, b: State, c: State)
    requires s.now == MINUTE && |s.db.submissions| !in s.db.links
    ensures var i := |s.db.submissions|;
            && a == Apply(SampleWorld, s, Submit(5, 7, 1)) && b == Apply(SampleWorld, a, LinkTo(3, i))
            && Enabled(b, SetVerdict(i, Some("ac"))) && c == Apply(SampleWorld, b, SetVerdict(i, Some("ac")))
            && c.now == s.now && c.answers == s.answers && c.db.submissions == s.db.submissions + [SolvedOnce]
            && c.db.links == s.db.links[i := Link(3, false)]
  {
    var i := |s.db.submissions|;
    a := Apply(SampleWorld, s, Submit(5, 7, 1));
    assert a.db.submissions[i] == SolvedOnce.(verdict := None);
    assert SampleContest.problems[0].id == 7 && HasProblem(SampleContest, 7);
    b := Apply(SampleWorld, a, LinkTo(3, i));
    assert b.db == a.db.(links := a.db.links[i := Link(3, false)]);
    c := Apply(SampleWorld, b, SetVerdict(i, Some("ac")));
  }

  /** The run: one user submits and is accepted twice at the only problem. */
  lemma SampleRun() returns (states: seq<State>)
    ensures IsRun(SampleWorld, states, SampleSteps)
    ensures states[7].now == 2 * MINUTE && states[7].db.submissions == [SolvedOnce, SolvedOnce]
    ensures states[7].db.links == map[0 := Link(3, false), 1 := Link(3, false)]
  {
    var s0 := State(MINUTE, Db([], map[], map[]), []);
    var s1, s2, s3 := AcceptedAttempt(s0);
    var s4, s5, s6 := AcceptedAttempt(s3);
    hide LinkSubmission, ReadRankings;
    var s7 := Apply(SampleWorld, s6, Advance(2 * MINUTE));
    states := [s0, s1, s2, s3, s4, s5, s6, s7];
    hide Apply, Enabled;
  }

  /** In a reachable state the ranking credits two solved problems to a user who
      solved one. */
  lemma SolvedTwiceCountsTwice() returns (states: seq<State>)
    ensures IsRun(SampleWorld, states, SampleSteps)
    ensures var db, now := states[7].db, states[7].now;
            && Participates(db, 3, now, 5)
            && EntryOf(db, 3, SampleContest, now, 5).solvedCount == 2
            && DistinctSolved(db, 3, now, 5, SampleContest.problems) == 1
  {
    states := SampleRun();
    TwiceSolved(states[7].db, states[7].now);
  }

  lemma TwiceSolved(db: Db, now: int)
    requires now == 2 * MINUTE && db.submissions == [SolvedOnce, SolvedOnce]
    requires db.links == map[0 := Link(3, false), 1 := Link(3, false)]
    ensures Participates(db, 3, now, 5)
    ensures EntryOf(db, 3, SampleContest, now, 5).solvedCount == 2
    ensures DistinctSolved(db, 3, now, 5, SampleContest.problems) == 1
  {
    assert Counted(db, 3, now, 0) && Counted(db, 3, now, 1);
    assert Attempts(db, 3, now, 5, 7, 0) == [];
    assert Attempts(db, 3, now, 5, 7, 1) == [SolvedOnce];
    var a := Attempts(db, 3, now, 5, 7, 2);
    assert a == [SolvedOnce, SolvedOnce];
    assert AcCount(a, 0) == 0 && AcCount(a, 1) == 1 && AcCount(a, 2) == 2;
    hide Attempts, AcCount, ProblemRows;
    ProblemRowsCounted(Problem(7, 10), 0, a);
    assert SampleContest.problems[..0] == [];
    assert DistinctSolved(db, 3, now, 5, []) == 0;
    assert UserRows(db, 3, SampleContest, now, 5, []) == [];
    var rows := ProblemRows(Problem(7, 10), 0, a);
    assert [] + rows == rows;
    assert UserRows(db, 3, SampleContest, now, 5, SampleContest.problems) == rows;
  }

  // ----------------------------------------------------------------- invariants

  /** Submissions are in order of creation, none in the future. */
  ghost predicate InOrder(s: State) {
    && (forall i :: 0 <= i < |s.db.submissions| ==> s.db.submissions[i].createdAt <= s.now)
    && (forall i, j :: 0 <= i < j < |s.db.submissions| ==>
          s.db.submissions[i].createdAt <= s.db.submissions[j].createdAt)
  }

  /** A link is to a contest that had started, and is upsolving exactly when the
      submission was created after the end. */
  ghost predicate LinksHold(w: World, db: Db) {
    forall i :: i in db.links ==>
      && i < |db.submissions| && db.links[i].contest in w.contests
      && var contest := w.contests[db.links[i].contest];
         && contest.start <= db.submissions[i].createdAt
         && (db.links[i].isUpsolving <==> db.submissions[i].createdAt > contest.end)
  }

  ghost predicate FrozenRead(w: World, r: Read) {
    r.contest in w.contests && Frozen(w.contests[r.contest], r.at)
  }

  ghost predicate FrozenReadsStored(w: World, s: State) {
    forall m :: 0 <= m < |s.answers| && FrozenRead(w, s.answers[m]) ==>
      s.answers[m].contest in s.db.snapshots && s.db.snapshots[s.answers[m].contest] == s.answers[m].rankings
  }

  lemma StepKeepsOrder(w: World, s: State, step: Step)
    requires InOrder(s) && Enabled(s, step)
    ensures InOrder(Apply(w, s, step))
  {
  }

  lemma StepKeepsLinks(w: World, s: State, step: Step)
    requires LinksHold(w, s.db) && Enabled(s, step)
    ensures LinksHold(w, Apply(w, s, step).db)
  {
    hide Rankings, HasProblem;
  }

  lemma StepKeepsFrozenReads(w: World, s: State, step: Step)
    requires FrozenReadsStored(w, s) && Enabled(s, step)
    ensures FrozenReadsStored(w, Apply(w, s, step))
  {
  }

  lemma NothingYet(w: World, s: State)
    requires s.db == Db([], map[], map[]) && s.answers == []
    ensures InOrder(s) && LinksHold(w, s.db) && FrozenReadsStored(w, s)
  {
  }

  lemma {:induction false} RunInvariant(w: World, states: seq<State>, steps: seq<Step>, k: nat)
    requires IsRun(w, states, steps) && k <= |steps|
    ensures InOrder(states[k]) && LinksHold(w, states[k].db) && FrozenReadsStored(w, states[k])
  {
    hide Apply, InOrder, LinksHold, FrozenReadsStored;
    if k == 0 {
      NothingYet(w, states[0]);
    } else {
      RunInvariant(w, states, steps, k - 1);
      StepKeepsOrder(w, states[k - 1], steps[k - 1]);
      StepKeepsLinks(w, states[k - 1], steps[k - 1]);
      StepKeepsFrozenReads(w, states[k - 1], steps[k - 1]);
    }
  }

  /** All rankings of a contest read inside its freeze window are the same. */
  lemma FrozenReadsAgree(w: World, states: seq<State>, steps: seq<Step>, k: nat, m: nat, n: nat)
    requires IsRun(w, states, steps) && k <= |steps| && m < |states[k].answers| && n < |states[k].answers|
    requires FrozenRead(w, states[k].answers[m]) && FrozenRead(w, states[k].answers[n])
    requires states[k].answers[m].contest == states[k].answers[n].contest
    ensures states[k].answers[m].rankings == states[k].answers[n].rankings
  {
    RunInvariant(w, states, steps, k);
  }

  /** Once made, a link is never changed: not its contest, not its kind. */
  lemma {:induction false} LinksAreForever(w: World, states: seq<State>, steps: seq<Step>, j: nat, k: nat, i: nat)
    requires IsRun(w, states, steps) && j <= k <= |steps| && i in states[j].db.links
    ensures i in states[k].db.links && states[k].db.links[i] == states[j].db.links[i]
  {
    hide Rankings;
    if j < k {
      LinksAreForever(w, states, steps, j, k - 1, i);
      RunInvariant(w, states, steps, k - 1);
      assert states[k] == Apply(w, states[k - 1], steps[k - 1]);
    }
  }

  /** The submissions before `n` are those created by `t` (or strictly before). */
  ghost predicate Divides(db: Db, n: nat, t: int, strict: bool) {
    && n <= |db.submissions|
    && (forall i :: 0 <= i < n ==> db.submissions[i].createdAt <= t && (strict ==> db.submissions[i].createdAt < t))
    && (forall i :: n <= i < |db.submissions| ==>
          db.submissions[i].createdAt >= t && (!strict ==> db.submissions[i].createdAt > t))
  }

  lemma FindDivision(s: State, t: int, strict: bool) returns (n: nat)
    requires InOrder(s)
    ensures Divides(s.db, n, t, strict)
  {
    n := |s.db.submissions|;
    while n > 0 && (s.db.submissions[n - 1].createdAt > t || (strict && s.db.submissions[n - 1].createdAt == t))
      invariant n <= |s.db.submissions|
      invariant forall i :: n <= i < |s.db.submissions| ==>
                s.db.submissions[i].createdAt >= t && (!strict ==> s.db.submissions[i].createdAt > t)
    {
      n := n - 1;
    }
  }

  /** The ranking `r` of contest `c` counts only submissions created by the end of
      the contest, and before the freeze if `frozen`: it is the ranking of tables
      that hold no others. */
  ghost predicate Official(w: World, c: nat, frozen: bool, at: int, db: Db, n: nat, r: seq<Entry>) {
    && c in w.contests && (frozen ==> w.contests[c].freezeMinutes.Some?)
    && var contest := w.contests[c];
       && Divides(db, n, if frozen then FreezeTime(contest) else contest.end, frozen)
       && r == Rankings(w, Trim(db, n), c, contest, if frozen then FreezeTime(contest) else at)
  }

  lemma RankingIsOfficial(w: World, s: State, c: nat, frozen: bool, at: int) returns (n: nat)
    requires InOrder(s) && LinksHold(w, s.db) && c in w.contests && (frozen ==> w.contests[c].freezeMinutes.Some?)
    ensures Official(w, c, frozen, at, s.db, n,
                     Rankings(w, s.db, c, w.contests[c], if frozen then FreezeTime(w.contests[c]) else at))
  {
    hide Rankings;
    var contest := w.contests[c];
    var cutoff := if frozen then FreezeTime(contest) else at;
    n := FindDivision(s, if frozen then FreezeTime(contest) else contest.end, frozen);
    assert NoneCountedFrom(s.db, c, cutoff, n);
    RankingsTrim(w, s.db, c, contest, cutoff, n);
  }

  ghost predicate OfficialBy(w: World, states: seq<State>, k: nat, c: nat, frozen: bool, at: int, r: seq<Entry>) {
    exists j, n :: 0 <= j < k && j < |states| && Official(w, c, frozen, at, states[j].db, n, r)
  }

  ghost predicate AllOfficial(w: World, states: seq<State>, k: nat)
    requires k < |states|
  {
    && (forall c :: c in states[k].db.snapshots ==>
          c in w.contests && OfficialBy(w, states, k, c, true, 0, states[k].db.snapshots[c]))
    && (forall m :: 0 <= m < |states[k].answers| ==>
          var r := states[k].answers[m];
          r.contest in w.contests && OfficialBy(w, states, k, r.contest, FrozenRead(w, r), r.at, r.rankings))
  }

  lemma OfficialByGrows(w: World, states: seq<State>, k: nat, c: nat, frozen: bool, at: int, at': int, r: seq<Entry>)
    requires OfficialBy(w, states, k, c, frozen, at, r) && (frozen || at == at')
    ensures OfficialBy(w, states, k + 1, c, frozen, at', r)
  {
    hide Divides, Rankings;
    var j, n :| 0 <= j < k && j < |states| && Official(w, c, frozen, at, states[j].db, n, r);
    assert Official(w, c, frozen, at', states[j].db, n, r);
  }

  lemma SnapshotsAreOfficial(w: World, states: seq<State>, steps: seq<Step>, k: nat, c: nat)
    requires IsRun(w, states, steps) && k < |steps| && AllOfficial(w, states, k)
    requires c in states[k + 1].db.snapshots
    ensures c in w.contests && OfficialBy(w, states, k + 1, c, true, 0, states[k + 1].db.snapshots[c])
  {
    hide OfficialBy, Rankings, Official;
    var s, s' := states[k], states[k + 1];
    assert s' == Apply(w, s, steps[k]);
    if c in s.db.snapshots {
      assert s'.db.snapshots[c] == s.db.snapshots[c];
      OfficialByGrows(w, states, k, c, true, 0, 0, s.db.snapshots[c]);
    } else {
      RunInvariant(w, states, steps, k);
      var n := RankingIsOfficial(w, s, c, true, 0);
      NowOfficial(w, states, k, c, true, 0, n, s'.db.snapshots[c]);
    }
  }

  lemma NowOfficial(w: World, states: seq<State>, k: nat, c: nat, frozen: bool, at: int, n: nat, r: seq<Entry>)
    requires k < |states| && Official(w, c, frozen, at, states[k].db, n, r)
    ensures OfficialBy(w, states, k + 1, c, frozen, at, r)
  {
  }

  lemma ReadsAreOfficial(w: World, states: seq<State>, steps: seq<Step>, k: nat, m: nat)
    requires IsRun(w, states, steps) && k < |steps| && AllOfficial(w, states, k) && m < |states[k + 1].answers|
    ensures var r := states[k + 1].answers[m];
            r.contest in w.contests && OfficialBy(w, states, k + 1, r.contest, FrozenRead(w, r), r.at, r.rankings)
  {
    hide OfficialBy, Rankings, Official;
    var s, r := states[k], states[k + 1].answers[m];
    assert states[k + 1] == Apply(w, s, steps[k]);
    if m < |s.answers| {
      assert r == s.answers[m];
      OfficialByGrows(w, states, k, r.contest, FrozenRead(w, r), r.at, r.at, r.rankings);
    } else if FrozenRead(w, r) && r.contest in s.db.snapshots {
      OfficialByGrows(w, states, k, r.contest, true, 0, r.at, r.rankings);
    } else {
      RunInvariant(w, states, steps, k);
      var n := RankingIsOfficial(w, s, r.contest, FrozenRead(w, r), r.at);
      NowOfficial(w, states, k, r.contest, FrozenRead(w, r), r.at, n, r.rankings);
    }
  }

  lemma {:induction false} RunAllOfficial(w: World, states: seq<State>, steps: seq<Step>, k: nat)
    requires IsRun(w, states, steps) && k <= |steps|
    ensures AllOfficial(w, states, k)
  {
    hide OfficialBy, Apply;
    if k > 0 {
      RunAllOfficial(w, states, steps, k - 1);
      forall c | c in states[k].db.snapshots
        ensures c in w.contests && OfficialBy(w, states, k, c, true, 0, states[k].db.snapshots[c])
      {
        SnapshotsAreOfficial(w, states, steps, k - 1, c);
      }
      forall m | 0 <= m < |states[k].answers|
        ensures var r := states[k].answers[m];
                r.contest in w.contests && OfficialBy(w, states, k, r.contest, FrozenRead(w, r), r.at, r.rankings)
      {
        ReadsAreOfficial(w, states, steps, k - 1, m);
      }
    }
  }

  /** Every ranking ever handed out is the ranking of tables without the submissions
      created after the end of the contest; inside the freeze window, of tables
      without those created from the freeze time on. */
  lemma RankingsIgnoreLateSubmissions(w: World, states: seq<State>, steps: seq<Step>, k: nat, m: nat)
    requires IsRun(w, states, steps) && k <= |steps| && m < |states[k].answers|
    ensures var r := states[k].answers[m];
            OfficialBy(w, states, k, r.contest, FrozenRead(w, r), r.at, r.rankings)
  {
    RunAllOfficial(w, states, steps, k);
  }
}
