/** What a ranking says, on its fields and from the submissions (domain-contests
    `service.rs`, `compute_rankings`). */
module Scoreboards {
  import opened Common
  import opened Contests

  // ------------------------------------------------------------- the order of a ranking

  predicate Solver(e: Entry) { exists k :: 0 <= k < |e.rows| && e.rows[k].solvedAt.Some? }

  /** `t` is the latest time at which one of the rows was solved. */
  ghost predicate IsLastSolved(rows: seq<ProblemRow>, t: int) {
    && (exists k :: 0 <= k < |rows| && rows[k].solvedAt == Some(t))
    && (forall k :: 0 <= k < |rows| && rows[k].solvedAt.Some? ==> rows[k].solvedAt.value <= t)
  }

  lemma {:induction false} LastAcExactly(rows: seq<ProblemRow>)
    ensures LastAc(rows).Some? <==> exists k :: 0 <= k < |rows| && rows[k].solvedAt.Some?
    ensures LastAc(rows).Some? ==> IsLastSolved(rows, LastAc(rows).value)
  {
    if rows != [] {
      LastAcExactly(rows[1..]);
      var rest, last := LastAc(rows[1..]), LastAc(rows);
      if rest.Some? {
        var k :| 0 <= k < |rows[1..]| && rows[1..][k].solvedAt == rest;
        assert rows[k + 1].solvedAt == rest;
      }
      if rows[0].solvedAt.Some? {
        assert rows[0].solvedAt == Some(rows[0].solvedAt.value);
      }
      forall k | 0 <= k < |rows| && rows[k].solvedAt.Some? ensures last.Some? && rows[k].solvedAt.value <= last.value {
        if k > 0 { assert rows[1..][k - 1] == rows[k]; }
      }
    }
  }

  /** More solved problems come first, then less penalty, then a later last solution. */
  ghost predicate NotAfter(a: Entry, b: Entry) {
    && a.solvedCount >= b.solvedCount
    && (a.solvedCount == b.solvedCount ==> a.penalty <= b.penalty)
    && (a.solvedCount == b.solvedCount && a.penalty == b.penalty ==>
          && (Solver(b) ==> Solver(a))
          && forall s, t :: IsLastSolved(a.rows, s) && IsLastSolved(b.rows, t) ==> s >= t)
  }

  lemma NotGreaterIsNotAfter(a: Entry, b: Entry)
    requires CompareEntries(a, b) != Greater
    ensures NotAfter(a, b)
  {
    LastAcExactly(a.rows);
    LastAcExactly(b.rows);
    forall s, t | IsLastSolved(a.rows, s) && IsLastSolved(b.rows, t)
      ensures LastAc(a.rows) == Some(s) && LastAc(b.rows) == Some(t)
    {
    }
  }

  /** A ranking is in that order, on the fields of its entries. */
  lemma RankingOrder(w: World, db: Db, c: nat, contest: Contest, cutoff: int, i: nat, j: nat)
    requires i < j < |Rankings(w, db, c, contest, cutoff)|
    ensures NotAfter(Rankings(w, db, c, contest, cutoff)[i], Rankings(w, db, c, contest, cutoff)[j])
  {
    hide CompareEntries, NotAfter;
    SortRanked(Entries(db, c, contest, cutoff, w.users));
    NotGreaterIsNotAfter(Rankings(w, db, c, contest, cutoff)[i], Rankings(w, db, c, contest, cutoff)[j]);
  }

  /** The entries that compare equal to `e`, in order. */
  ghost function TiedWith(es: seq<Entry>, e: Entry): seq<Entry> {
    if es == [] then []
    else if CompareEntries(es[0], e) == Equal then [es[0]] + TiedWith(es[1..], e)
    else TiedWith(es[1..], e)
  }

  lemma {:induction false} TiedConcat(xs: seq<Entry>, ys: seq<Entry>, e: Entry)
    ensures TiedWith(xs + ys, e) == TiedWith(xs, e) + TiedWith(ys, e)
  {
    hide CompareEntries;
    if xs == [] {
      assert xs + ys == ys;
    } else {
      assert (xs + ys)[1..] == xs[1..] + ys;
      TiedConcat(xs[1..], ys, e);
    }
  }

  lemma {:induction false} NoneTiedAfter(x: Entry, es: seq<Entry>, e: Entry)
    requires Ranked(es) && CompareEntries(x, e) == Equal && (es != [] ==> CompareEntries(x, es[0]) == Less)
    ensures TiedWith(es, e) == []
  {
    hide CompareEntries;
    if es != [] {
      CompareIsTotalPreorder(x, es[0], e);
      CompareIsTotalPreorder(es[0], e, x);
      CompareIsTotalPreorder(e, x, es[0]);
      if es[1..] != [] {
        LessThrough(x, es[0], es[1]);
      }
      NoneTiedAfter(x, es[1..], e);
    }
  }

  lemma LessThrough(x: Entry, y: Entry, z: Entry)
    requires CompareEntries(x, y) == Less && CompareEntries(y, z) != Greater
    ensures CompareEntries(x, z) == Less
  {
  }

  lemma {:induction false} InsertKeepsTies(x: Entry, es: seq<Entry>, e: Entry)
    requires Ranked(es)
    ensures TiedWith(InsertEntry(x, es), e) == TiedWith(es, e) + TiedWith([x], e)
  {
    hide CompareEntries;
    assert [x][1..] == [];
    if es == [] || CompareEntries(x, es[0]) == Less {
      assert ([x] + es)[1..] == es;
      if CompareEntries(x, e) == Equal { NoneTiedAfter(x, es, e); }
    } else {
      InsertKeepsTies(x, es[1..], e);
      var r := InsertEntry(x, es[1..]);
      assert ([es[0]] + r)[1..] == r;
    }
  }

  lemma {:induction false} SortKeepsTies(es: seq<Entry>, e: Entry)
    ensures TiedWith(SortEntries(es), e) == TiedWith(es, e)
  {
    hide CompareEntries, InsertEntry;
    if es != [] {
      var front, last := es[..|es| - 1], es[|es| - 1];
      assert es == front + [last];
      SortKeepsTies(front, e);
      SortRanked(front);
      InsertKeepsTies(last, SortEntries(front), e);
      TiedConcat(front, [last], e);
    }
  }

  /** Participants equal in all three stay in order of username. */
  lemma TiesKeepUsernameOrder(w: World, db: Db, c: nat, contest: Contest, cutoff: int, e: Entry)
    ensures TiedWith(Rankings(w, db, c, contest, cutoff), e) == TiedWith(Entries(db, c, contest, cutoff, w.users), e)
    ensures forall x: Entry :: CompareEntries(x, e) == Equal <==>
              x.solvedCount == e.solvedCount && x.penalty == e.penalty && LastAc(x.rows) == LastAc(e.rows)
  {
    forall x: Entry
      ensures CompareEntries(x, e) == Equal <==>
                x.solvedCount == e.solvedCount && x.penalty == e.penalty && LastAc(x.rows) == LastAc(e.rows)
    {
    }
    hide CompareEntries;
    SortKeepsTies(Entries(db, c, contest, cutoff, w.users), e);
  }

  // --------------------------------------------------------- who is in a ranking

  /** A submission of the user, linked to the contest as no upsolving, before the cutoff. */
  predicate CountsFor(db: Db, c: nat, cutoff: int, user: nat, i: nat) {
    && i < |db.submissions| && db.submissions[i].user == user && db.submissions[i].createdAt < cutoff
    && i in db.links && db.links[i].contest == c && !db.links[i].isUpsolving
  }

  ghost predicate TakesPart(db: Db, c: nat, cutoff: int, user: nat) {
    exists i: nat :: CountsFor(db, c, cutoff, user, i)
  }

  lemma {:induction false} EntriesExactly(db: Db, c: nat, contest: Contest, cutoff: int, users: seq<nat>, e: Entry)
    ensures e in Entries(db, c, contest, cutoff, users) <==>
              exists u :: u in users && TakesPart(db, c, cutoff, u) && e == EntryOf(db, c, contest, cutoff, u)
  {
    hide EntryOf;
    if users != [] {
      var front, last := users[..|users| - 1], users[|users| - 1];
      EntriesExactly(db, c, contest, cutoff, front, e);
      ParticipatesExactly(db, c, cutoff, last);
      assert users == front + [last];
      assert forall u :: u in users <==> u in front || u == last;
      hide Participates, TakesPart;
    }
  }

  lemma ParticipatesExactly(db: Db, c: nat, cutoff: int, user: nat)
    ensures Participates(db, c, cutoff, user) <==> TakesPart(db, c, cutoff, user)
  {
    if TakesPart(db, c, cutoff, user) {
      var i: nat :| CountsFor(db, c, cutoff, user, i);
      assert Counted(db, c, cutoff, i);
    }
    if Participates(db, c, cutoff, user) {
      var i :| 0 <= i < |db.submissions| && Counted(db, c, cutoff, i) && db.submissions[i].user == user;
      assert CountsFor(db, c, cutoff, user, i);
    }
  }

  /** A ranking holds one entry for each user with a counted submission, and no other. */
  lemma ParticipantsExactly(w: World, db: Db, c: nat, contest: Contest, cutoff: int, e: Entry)
    ensures e in Rankings(w, db, c, contest, cutoff) <==>
              exists u :: u in w.users && TakesPart(db, c, cutoff, u) && e == EntryOf(db, c, contest, cutoff, u)
  {
    var es := Entries(db, c, contest, cutoff, w.users);
    SortRanked(es);
    EntriesExactly(db, c, contest, cutoff, w.users, e);
    assert e in Rankings(w, db, c, contest, cutoff) <==> e in multiset(SortEntries(es));
    hide Rankings, SortEntries;
    assert e in es <==> e in multiset(es);
  }

  // ------------------------------------------------------- the numbers of an entry

  /** `p` is the number of minutes nearest to the time `t`, halves up, and never negative. */
  predicate NearestMinute(p: int, t: int) {
    if t <= 0 then p == 0 else 2 * t - MINUTE < 2 * (p * MINUTE) <= 2 * t + MINUTE
  }

  /** The time of the solution plus twenty minutes for each earlier attempt. */
  lemma PenaltyIsNearest(start: int, solvedAt: int, attempt: nat)
    requires attempt >= 1
    ensures NearestMinute(TimePenalty(start, solvedAt, attempt), solvedAt - start + (attempt - 1) * 20 * MINUTE)
  {
    var t := solvedAt - start + 20 * MINUTE * (attempt - 1);
    assert t == solvedAt - start + (attempt - 1) * 20 * MINUTE;
    if t > 0 {
      var q := (t + MINUTE / 2) / MINUTE;
      assert q * MINUTE <= t + MINUTE / 2 < q * MINUTE + MINUTE;
    }
  }

  /** The counted submissions of a user at a problem, in order: `idx` says which. */
  lemma {:induction false} AttemptsExactly(db: Db, c: nat, cutoff: int, user: nat, problem: int, n: nat)
    returns (idx: seq<nat>)
    requires n <= |db.submissions|
    ensures |idx| == |Attempts(db, c, cutoff, user, problem, n)|
    ensures forall k :: 0 <= k < |idx| ==>
              idx[k] < n && Attempts(db, c, cutoff, user, problem, n)[k] == db.submissions[idx[k]]
    ensures forall k, l :: 0 <= k < l < |idx| ==> idx[k] < idx[l]
    ensures forall i: nat :: i < n ==>
              (i in idx <==> CountsFor(db, c, cutoff, user, i) && db.submissions[i].problem == problem)
  {
    idx := [];
    if n > 0 {
      var before := AttemptsExactly(db, c, cutoff, user, problem, n - 1);
      idx := before;
      assert forall k :: 0 <= k < |before| ==> before[k] in before;
      if CountsFor(db, c, cutoff, user, n - 1) && db.submissions[n - 1].problem == problem {
        idx := before + [n - 1];
      }
    }
  }

  /** The penalties of the accepted ones among the first `n` attempts. */
  ghost function PenaltySum(start: int, attempts: seq<Submission>, n: nat): int
    requires n <= |attempts|
  {
    if n == 0 then 0
    else
      var s := attempts[n - 1];
      PenaltySum(start, attempts, n - 1) + if IsAc(s) then TimePenalty(start, s.createdAt, n) else 0
  }

  lemma {:induction false} TotalsAdd(a: seq<ProblemRow>, b: seq<ProblemRow>)
    ensures TotalScore(a + b) == TotalScore(a) + TotalScore(b)
    ensures TotalPenalty(a + b) == TotalPenalty(a) + TotalPenalty(b)
  {
    if a == [] {
      assert a + b == b;
    } else {
      assert (a + b)[1..] == a[1..] + b;
      TotalsAdd(a[1..], b);
    }
  }

  lemma {:induction false} AcRowTotals(p: Problem, start: int, attempts: seq<Submission>, n: nat)
    requires n <= |attempts|
    ensures TotalScore(AcRows(p, start, attempts, n)) == p.points * AcCount(attempts, n)
    ensures TotalPenalty(AcRows(p, start, attempts, n)) == PenaltySum(start, attempts, n)
  {
    hide TimePenalty;
    if n > 0 {
      AcRowTotals(p, start, attempts, n - 1);
      var s := attempts[n - 1];
      if IsAc(s) {
        var row := ProblemRow(p.id, p.points, |attempts|, TimePenalty(start, s.createdAt, n), Some(s.createdAt));
        TotalsAdd(AcRows(p, start, attempts, n - 1), [row]);
        assert p.points * (AcCount(attempts, n - 1) + 1) == p.points * AcCount(attempts, n - 1) + p.points;
      }
    }
  }

  /** The points of a problem count once per accepted attempt, and once if there were
      attempts but none was accepted. */
  function TimesCounted(attempts: seq<Submission>): nat {
    if attempts != [] && AcCount(attempts, |attempts|) == 0 then 1 else AcCount(attempts, |attempts|)
  }

  lemma ProblemTotals(p: Problem, start: int, attempts: seq<Submission>)
    ensures TotalScore(ProblemRows(p, start, attempts)) == p.points * TimesCounted(attempts)
    ensures TotalPenalty(ProblemRows(p, start, attempts)) == PenaltySum(start, attempts, |attempts|)
  {
    AcRowTotals(p, start, attempts, |attempts|);
    AcRowsCounted(p, start, attempts, |attempts|);
  }

  ghost function ScoreOver(db: Db, c: nat, cutoff: int, user: nat, problems: seq<Problem>): int {
    if problems == [] then 0
    else
      var p := problems[|problems| - 1];
      ScoreOver(db, c, cutoff, user, problems[..|problems| - 1])
      + p.points * TimesCounted(Attempts(db, c, cutoff, user, p.id, |db.submissions|))
  }

  ghost function PenaltyOver(db: Db, c: nat, contest: Contest, cutoff: int, user: nat, problems: seq<Problem>): int {
    if problems == [] then 0
    else
      var a := Attempts(db, c, cutoff, user, problems[|problems| - 1].id, |db.submissions|);
      PenaltyOver(db, c, contest, cutoff, user, problems[..|problems| - 1]) + PenaltySum(contest.start, a, |a|)
  }

  lemma {:induction false} RowTotals(db: Db, c: nat, contest: Contest, cutoff: int, user: nat, problems: seq<Problem>)
    ensures var rows := UserRows(db, c, contest, cutoff, user, problems);
            && TotalScore(rows) == ScoreOver(db, c, cutoff, user, problems)
            && TotalPenalty(rows) == PenaltyOver(db, c, contest, cutoff, user, problems)
  {
    hide Attempts, ProblemRows, PenaltySum, TimesCounted;
    if problems != [] {
      var front, p := problems[..|problems| - 1], problems[|problems| - 1];
      var a := Attempts(db, c, cutoff, user, p.id, |db.submissions|);
      RowTotals(db, c, contest, cutoff, user, front);
      ProblemTotals(p, contest.start, a);
      TotalsAdd(UserRows(db, c, contest, cutoff, user, front), ProblemRows(p, contest.start, a));
    }
  }

  /** The numbers of an entry, from the attempts: penalty adds up over the accepted
      attempts, score over the problems tried, and the solved count is the number of
      accepted attempts. */
  lemma EntryExactly(db: Db, c: nat, contest: Contest, cutoff: int, user: nat)
    ensures var e := EntryOf(db, c, contest, cutoff, user);
            && e.user == user
            && e.penalty == PenaltyOver(db, c, contest, cutoff, user, contest.problems)
            && e.score == ScoreOver(db, c, cutoff, user, contest.problems)
            && e.solvedCount == AcceptedOver(db, c, cutoff, user, contest.problems)
  {
    RowTotals(db, c, contest, cutoff, user, contest.problems);
    SolvedTotals(db, c, contest, cutoff, user, contest.problems);
  }

  ghost function AcceptedOver(db: Db, c: nat, cutoff: int, user: nat, problems: seq<Problem>): nat {
    if problems == [] then 0
    else
      var a := Attempts(db, c, cutoff, user, problems[|problems| - 1].id, |db.submissions|);
      AcceptedOver(db, c, cutoff, user, problems[..|problems| - 1]) + AcCount(a, |a|)
  }

  lemma {:induction false} SolvedTotals(db: Db, c: nat, contest: Contest, cutoff: int, user: nat,
      problems: seq<Problem>)
    ensures SolvedRows(UserRows(db, c, contest, cutoff, user, problems)) == AcceptedOver(db, c, cutoff, user, problems)
  {
    hide Attempts, ProblemRows, AcCount;
    if problems != [] {
      var front, p := problems[..|problems| - 1], problems[|problems| - 1];
      var a := Attempts(db, c, cutoff, user, p.id, |db.submissions|);
      SolvedTotals(db, c, contest, cutoff, user, front);
      ProblemRowsCounted(p, contest.start, a);
      SolvedRowsConcat(UserRows(db, c, contest, cutoff, user, front), ProblemRows(p, contest.start, a));
    }
  }

  /** One row for each accepted attempt, with its time, its penalty and the points of
      the problem; `idx` says which attempts. */
  lemma {:induction false} AcRowsExactly(p: Problem, start: int, attempts: seq<Submission>, n: nat)
    returns (idx: seq<nat>)
    requires n <= |attempts|
    ensures |idx| == |AcRows(p, start, attempts, n)|
    ensures forall k :: 0 <= k < |idx| ==>
              idx[k] < n && RowOf(p, start, attempts, idx[k], AcRows(p, start, attempts, n)[k])
    ensures forall k, l :: 0 <= k < l < |idx| ==> idx[k] < idx[l]
    ensures forall i: nat :: i < n ==> (i in idx <==> attempts[i].verdict == Some("ac"))
  {
    hide TimePenalty, NearestMinute;
    idx := [];
    if n > 0 {
      var before := AcRowsExactly(p, start, attempts, n - 1);
      idx := before;
      assert forall k :: 0 <= k < |before| ==> before[k] in before;
      if IsAc(attempts[n - 1]) {
        idx := before + [n - 1];
        PenaltyIsNearest(start, attempts[n - 1].createdAt, n);
      }
    }
  }

  /** The row of the attempt that `k` others came before. */
  predicate RowOf(p: Problem, start: int, attempts: seq<Submission>, k: nat, row: ProblemRow) {
    && k < |attempts| && row.problem == p.id && row.score == p.points && row.attempts == |attempts|
    && row.solvedAt == Some(attempts[k].createdAt)
    && NearestMinute(row.penalty, attempts[k].createdAt - start + k * 20 * MINUTE)
  }
}
