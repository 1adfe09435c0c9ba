/** Contest rankings with a frozen window, and linking of submissions to contests
    (domain-contests `service.rs`). Times are microseconds; submissions are listed in
    order of creation and identified by their position. */
module Contests {
  import opened Common

  const MINUTE: int := 60_000_000

  datatype Problem = Problem(id: int, points: int)

  datatype Contest = Contest(org: int, start: int, end: int, freezeMinutes: Option<int>, problems: seq<Problem>)

  datatype Submission = Submission(user: nat, problem: int, org: int, createdAt: int, verdict: Option<string>)

  datatype Link = Link(contest: nat, isUpsolving: bool)

  /** One row of the per-problem query. */
  datatype ProblemRow = ProblemRow(problem: int, score: int, attempts: nat, penalty: int, solvedAt: Option<int>)

  datatype Entry = Entry(user: nat, score: int, penalty: int, solvedCount: nat, rows: seq<ProblemRow>)

  /** The tables that change. A submission has at most one link. */
  datatype Db = Db(submissions: seq<Submission>, links: map<nat, Link>, snapshots: map<nat, seq<Entry>>)

  /** The tables that do not: contest schedules, and users in order of username. */
  datatype World = World(contests: map<nat, Contest>, users: seq<nat>)

  // ----------------------------------------------------------------- counting

  /** The submission takes part in the official ranking of contest `c`. */
  predicate Counted(db: Db, c: nat, cutoff: int, i: nat)
    requires i < |db.submissions|
  {
    i in db.links && db.links[i].contest == c && !db.links[i].isUpsolving && db.submissions[i].createdAt < cutoff
  }

  predicate Participates(db: Db, c: nat, cutoff: int, user: nat) {
    exists i :: 0 <= i < |db.submissions| && Counted(db, c, cutoff, i) && db.submissions[i].user == user
  }

  /** The counted attempts of a user at a problem among the first `n` submissions. */
  function Attempts(db: Db, c: nat, cutoff: int, user: nat, problem: int, n: nat): seq<Submission>
    requires n <= |db.submissions|
  {
    if n == 0 then []
    else
      var front, s := Attempts(db, c, cutoff, user, problem, n - 1), db.submissions[n - 1];
      if Counted(db, c, cutoff, n - 1) && s.user == user && s.problem == problem then front + [s] else front
  }

  predicate IsAc(s: Submission) { s.verdict == Some("ac") }

  /** Minutes since the start plus twenty per earlier attempt, rounded, at least 0. */
  function TimePenalty(start: int, solvedAt: int, attempt: nat): int {
    var t := solvedAt - start + 20 * MINUTE * (attempt - 1);
    if t <= 0 then 0 else (t + MINUTE / 2) / MINUTE
  }

  /** The `first_ac` join keeps every accepted attempt: one row for each of the
      first `n` attempts that was accepted. */
  function AcRows(p: Problem, start: int, attempts: seq<Submission>, n: nat): seq<ProblemRow>
    requires n <= |attempts|
  {
    if n == 0 then []
    else
      var front, s := AcRows(p, start, attempts, n - 1), attempts[n - 1];
      var penalty := TimePenalty(start, s.createdAt, n);
      if IsAc(s) then front + [ProblemRow(p.id, p.points, |attempts|, penalty, Some(s.createdAt))] else front
  }

  function ProblemRows(p: Problem, start: int, attempts: seq<Submission>): seq<ProblemRow> {
    if attempts == [] then []
    else
      var solved := AcRows(p, start, attempts, |attempts|);
      if solved == [] then [ProblemRow(p.id, p.points, |attempts|, 0, None)] else solved
  }

  function UserRows(db: Db, c: nat, contest: Contest, cutoff: int, user: nat,
      problems: seq<Problem>): seq<ProblemRow> {
    if problems == [] then []
    else
      UserRows(db, c, contest, cutoff, user, problems[..|problems| - 1]) +
      ProblemRows(problems[|problems| - 1], contest.start,
                  Attempts(db, c, cutoff, user, problems[|problems| - 1].id, |db.submissions|))
  }

  function SolvedRows(rows: seq<ProblemRow>): nat {
    if rows == [] then 0 else (if rows[0].solvedAt.Some? then 1 else 0) + SolvedRows(rows[1..])
  }

  function TotalScore(rows: seq<ProblemRow>): int {
    if rows == [] then 0 else rows[0].score + TotalScore(rows[1..])
  }

  function TotalPenalty(rows: seq<ProblemRow>): int {
    if rows == [] then 0 else rows[0].penalty + TotalPenalty(rows[1..])
  }

  function EntryOf(db: Db, c: nat, contest: Contest, cutoff: int, user: nat): Entry {
    var rows := UserRows(db, c, contest, cutoff, user, contest.problems);
    Entry(user, TotalScore(rows), TotalPenalty(rows), SolvedRows(rows), rows)
  }

  function Entries(db: Db, c: nat, contest: Contest, cutoff: int, users: seq<nat>): seq<Entry> {
    if users == [] then []
    else
      var front, u := Entries(db, c, contest, cutoff, users[..|users| - 1]), users[|users| - 1];
      if Participates(db, c, cutoff, u) then front + [EntryOf(db, c, contest, cutoff, u)] else front
  }

  // ------------------------------------------------------------------ ordering

  function LastAc(rows: seq<ProblemRow>): Option<int> {
    if rows == [] then None
    else
      var rest := LastAc(rows[1..]);
      if rows[0].solvedAt.None? then rest
      else if rest.None? || rest.value <= rows[0].solvedAt.value then rows[0].solvedAt
      else rest
  }

  datatype Ordering = Less | Equal | Greater {
    function Reverse(): Ordering { match this case Less => Greater case Equal => Equal case Greater => Less }
    function Then(o: Ordering): Ordering { if Equal? then o else this }
  }

  function CompareInt(a: int, b: int): Ordering { if a < b then Less else if a == b then Equal else Greater }

  function CompareLastAc(a: Option<int>, b: Option<int>): Ordering {
    match (a, b)
    case (Some(x), Some(y)) => CompareInt(y, x)
    case (Some(_), None) => Less
    case (None, Some(_)) => Greater
    case (None, None) => Equal
  }

  function CompareEntries(a: Entry, b: Entry): Ordering {
    CompareInt(b.solvedCount, a.solvedCount)
      .Then(CompareInt(a.penalty, b.penalty))
      .Then(CompareLastAc(LastAc(a.rows), LastAc(b.rows)))
  }

  function InsertEntry(e: Entry, es: seq<Entry>): seq<Entry> {
    if es == [] || CompareEntries(e, es[0]) == Less then [e] + es else [es[0]] + InsertEntry(e, es[1..])
  }

  /** The stable sort by `CompareEntries`. */
  function SortEntries(es: seq<Entry>): seq<Entry> {
    if es == [] then [] else InsertEntry(es[|es| - 1], SortEntries(es[..|es| - 1]))
  }

  function Rankings(w: World, db: Db, c: nat, contest: Contest, cutoff: int): seq<Entry> {
    SortEntries(Entries(db, c, contest, cutoff, w.users))
  }

  /** Solved count, penalty and last accepted time compare entries consistently. */
  lemma CompareIsTotalPreorder(a: Entry, b: Entry, c: Entry)
    ensures CompareEntries(a, a) == Equal
    ensures CompareEntries(b, a) == CompareEntries(a, b).Reverse()
    ensures CompareEntries(a, b) != Greater && CompareEntries(b, c) != Greater ==> CompareEntries(a, c) != Greater
    ensures CompareEntries(a, b) == Equal && CompareEntries(b, c) == Equal ==> CompareEntries(a, c) == Equal
  {
  }

  ghost predicate Ranked(es: seq<Entry>) {
    forall i, j :: 0 <= i < j < |es| ==> CompareEntries(es[i], es[j]) != Greater
  }

  lemma {:induction false} InsertRanked(e: Entry, es: seq<Entry>)
    requires Ranked(es)
    ensures Ranked(InsertEntry(e, es)) && multiset(InsertEntry(e, es)) == multiset(es) + multiset{e}
  {
    hide CompareEntries;
    if es == [] {
    } else if CompareEntries(e, es[0]) == Less {
      forall j | 0 <= j < |es| ensures CompareEntries(e, es[j]) != Greater {
        CompareIsTotalPreorder(e, es[0], es[j]);
      }
    } else {
      InsertRanked(e, es[1..]);
      var r := InsertEntry(e, es[1..]);
      assert es == [es[0]] + es[1..];
      forall j | 0 <= j < |r| ensures CompareEntries(es[0], r[j]) != Greater {
        assert r[j] in multiset(r);
        assert r[j] == e || r[j] in es[1..];
        CompareIsTotalPreorder(e, es[0], es[0]);
      }
    }
  }

  /** A ranking is the list of entries, rearranged into order. */
  lemma {:induction false} SortRanked(es: seq<Entry>)
    ensures Ranked(SortEntries(es)) && multiset(SortEntries(es)) == multiset(es)
  {
    hide CompareEntries;
    if es != [] {
      SortRanked(es[..|es| - 1]);
      InsertRanked(es[|es| - 1], SortEntries(es[..|es| - 1]));
      assert es == es[..|es| - 1] + [es[|es| - 1]];
    }
  }

  // ------------------------------------------------------------- solved counts

  function AcCount(attempts: seq<Submission>, n: nat): nat
    requires n <= |attempts|
  {
    if n == 0 then 0 else AcCount(attempts, n - 1) + if IsAc(attempts[n - 1]) then 1 else 0
  }

  /** How many of the problems have an accepted counted attempt. */
  function DistinctSolved(db: Db, c: nat, cutoff: int, user: nat, problems: seq<Problem>): nat {
    if problems == [] then 0
    else
      var a := Attempts(db, c, cutoff, user, problems[|problems| - 1].id, |db.submissions|);
      DistinctSolved(db, c, cutoff, user, problems[..|problems| - 1]) + if AcCount(a, |a|) > 0 then 1 else 0
  }

  lemma {:induction false} SolvedRowsConcat(a: seq<ProblemRow>, b: seq<ProblemRow>)
    ensures SolvedRows(a + b) == SolvedRows(a) + SolvedRows(b)
  {
    if a == [] {
      assert a + b == b;
    } else {
      assert (a + b)[1..] == a[1..] + b;
      SolvedRowsConcat(a[1..], b);
    }
  }

  lemma {:induction false} AcRowsCounted(p: Problem, start: int, attempts: seq<Submission>, n: nat)
    requires n <= |attempts|
    ensures SolvedRows(AcRows(p, start, attempts, n)) == AcCount(attempts, n)
    ensures AcRows(p, start, attempts, n) == [] <==> AcCount(attempts, n) == 0
  {
    if n > 0 {
      AcRowsCounted(p, start, attempts, n - 1);
      var s := attempts[n - 1];
      var row := ProblemRow(p.id, p.points, |attempts|, TimePenalty(start, s.createdAt, n), Some(s.createdAt));
      SolvedRowsConcat(AcRows(p, start, attempts, n - 1), [row]);
      assert [row][1..] == [];
    }
  }

  lemma ProblemRowsCounted(p: Problem, start: int, attempts: seq<Submission>)
    ensures SolvedRows(ProblemRows(p, start, attempts)) == AcCount(attempts, |attempts|)
  {
    AcRowsCounted(p, start, attempts, |attempts|);
    var unsolved := [ProblemRow(p.id, p.points, |attempts|, 0, None)];
    assert unsolved[1..] == [];
  }

  ghost predicate SolvedAtMostOnce(db: Db, c: nat, cutoff: int, user: nat, problems: seq<Problem>) {
    forall k :: 0 <= k < |problems| ==>
      var a := Attempts(db, c, cutoff, user, problems[k].id, |db.submissions|); AcCount(a, |a|) <= 1
  }

  /** `solved_count` counts accepted attempts: it is the number of solved problems
      exactly when no problem was accepted twice, and too large otherwise. */
  lemma {:induction false} SolvedCountExact(db: Db, c: nat, contest: Contest, cutoff: int, user: nat,
      problems: seq<Problem>)
    ensures var solved := SolvedRows(UserRows(db, c, contest, cutoff, user, problems));
            && solved >= DistinctSolved(db, c, cutoff, user, problems)
            && (solved == DistinctSolved(db, c, cutoff, user, problems) <==>
                  SolvedAtMostOnce(db, c, cutoff, user, problems))
  {
    hide Attempts, AcCount, ProblemRows;
    if problems != [] {
      var front, p := problems[..|problems| - 1], problems[|problems| - 1];
      var a := Attempts(db, c, cutoff, user, p.id, |db.submissions|);
      SolvedCountExact(db, c, contest, cutoff, user, front);
      ProblemRowsCounted(p, contest.start, a);
      SolvedRowsConcat(UserRows(db, c, contest, cutoff, user, front), ProblemRows(p, contest.start, a));
      assert problems == front + [p];
      assert SolvedAtMostOnce(db, c, cutoff, user, problems) <==>
             SolvedAtMostOnce(db, c, cutoff, user, front) && AcCount(a, |a|) <= 1
      by {
        assert forall k :: 0 <= k < |front| ==> problems[k] == front[k];
        assert problems[|front|] == p;
      }
    }
  }

  // ------------------------------------------------- what a ranking depends on

  /** The tables as they were when only the first `n` submissions existed. */
  function Trim(db: Db, n: nat): Db
    requires n <= |db.submissions|
  {
    db.(submissions := db.submissions[..n])
  }

  ghost predicate NoneCountedFrom(db: Db, c: nat, cutoff: int, n: nat) {
    forall i :: n <= i < |db.submissions| ==> !Counted(db, c, cutoff, i)
  }

  /** The same submissions count, with the same contents, and later ones do not. */
  ghost predicate SameCounted(db: Db, db': Db, c: nat, cutoff: int) {
    && |db.submissions| <= |db'.submissions|
    && (forall i :: 0 <= i < |db'.submissions| ==>
          (Counted(db', c, cutoff, i) <==> i < |db.submissions| && Counted(db, c, cutoff, i)))
    && (forall i :: 0 <= i < |db.submissions| && Counted(db, c, cutoff, i) ==> db.submissions[i] == db'.submissions[i])
  }

  lemma {:induction false} AttemptsSame(db: Db, db': Db, c: nat, cutoff: int, user: nat, problem: int, m: nat)
    requires SameCounted(db, db', c, cutoff) && m <= |db'.submissions|
    ensures Attempts(db', c, cutoff, user, problem, m) ==
            Attempts(db, c, cutoff, user, problem, if m < |db.submissions| then m else |db.submissions|)
  {
    if m > 0 {
      AttemptsSame(db, db', c, cutoff, user, problem, m - 1);
    }
  }

  lemma {:induction false} UserRowsSame(db: Db, db': Db, c: nat, contest: Contest, cutoff: int, user: nat,
      problems: seq<Problem>)
    requires SameCounted(db, db', c, cutoff)
    ensures UserRows(db, c, contest, cutoff, user, problems) == UserRows(db', c, contest, cutoff, user, problems)
  {
    if problems != [] {
      UserRowsSame(db, db', c, contest, cutoff, user, problems[..|problems| - 1]);
      AttemptsSame(db, db', c, cutoff, user, problems[|problems| - 1].id, |db'.submissions|);
      hide Attempts, SameCounted;
    }
  }

  lemma ParticipatesSame(db: Db, db': Db, c: nat, cutoff: int, user: nat)
    requires SameCounted(db, db', c, cutoff)
    ensures Participates(db, c, cutoff, user) <==> Participates(db', c, cutoff, user)
  {
  }

  lemma {:induction false} EntriesSame(db: Db, db': Db, c: nat, contest: Contest, cutoff: int, users: seq<nat>)
    requires SameCounted(db, db', c, cutoff)
    ensures Entries(db, c, contest, cutoff, users) == Entries(db', c, contest, cutoff, users)
  {
    hide UserRows, Participates, SameCounted;
    if users != [] {
      EntriesSame(db, db', c, contest, cutoff, users[..|users| - 1]);
      ParticipatesSame(db, db', c, cutoff, users[|users| - 1]);
      UserRowsSame(db, db', c, contest, cutoff, users[|users| - 1], contest.problems);
    }
  }

  /** A ranking depends only on the submissions that count. */
  lemma RankingsSame(w: World, db: Db, db': Db, c: nat, contest: Contest, cutoff: int)
    requires SameCounted(db, db', c, cutoff)
    ensures Rankings(w, db, c, contest, cutoff) == Rankings(w, db', c, contest, cutoff)
  {
    EntriesSame(db, db', c, contest, cutoff, w.users);
  }

  /** Submissions that are not counted have no influence on a ranking. */
  lemma RankingsTrim(w: World, db: Db, c: nat, contest: Contest, cutoff: int, n: nat)
    requires n <= |db.submissions| && NoneCountedFrom(db, c, cutoff, n)
    ensures Rankings(w, db, c, contest, cutoff) == Rankings(w, Trim(db, n), c, contest, cutoff)
  {
    RankingsSame(w, Trim(db, n), db, c, contest, cutoff);
  }
}
