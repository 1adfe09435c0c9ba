/** The limit on submissions in flight per user (domain-submissions `service.rs`).
    `create_submission` counts, inserts, enqueues and on failure deletes in separate
    statements; other requests and judge callbacks may run in between. */
module InFlightLimit {

  const MAX_INFLIGHT_SUBMISSIONS: nat := 10

  datatype Status = Pending | Queued | Judging | Done

  datatype Row = Row(user: nat, status: Status)

  datatype Outcome =
    | Refused
    | Created(submission: nat)
    | QueueFailed(submission: nat, deleted: bool)

  /** Where a create request stands. */
  datatype Request =
    | Started(user: nat)
    | Checked(user: nat)
    | Inserted(user: nat, submission: nat)
    | Failing(user: nat, submission: nat)
    | Finished(user: nat, outcome: Outcome)
  {
    predicate Owns() { Inserted? || Failing? }
  }

  /** `used` holds every identifier ever handed out by the table's sequence. */
  datatype State = State(rows: map<nat, Row>, requests: map<nat, Request>, used: set<nat>)

  const Initial: State := State(map[], map[], {})

  datatype Step =
    | Begin(id: nat, user: nat)
    | Check(id: nat)
    | Abort(id: nat)
    | Insert(id: nat, submission: nat)
    | MarkQueued(id: nat)
    | Enqueue(id: nat)
    | QueueFails(id: nat, markedPending: bool)
    | Compensate(id: nat, deleted: bool)
    | JudgeCallback(submission: nat, status: Status)

  predicate Enabled(s: State, step: Step) {
    match step
    case Begin(id, _) => id !in s.requests
    case Check(id) => id in s.requests && s.requests[id].Started?
    case Abort(id) => id in s.requests && s.requests[id].Checked?
    case Insert(id, sub) => id in s.requests && s.requests[id].Checked? && sub !in s.used
    case MarkQueued(id) => id in s.requests && s.requests[id].Inserted?
    case Enqueue(id) => id in s.requests && s.requests[id].Inserted?
    case QueueFails(id, _) => id in s.requests && s.requests[id].Inserted?
    case Compensate(id, _) => id in s.requests && s.requests[id].Failing?
    case JudgeCallback(_, _) => true
  }

  /** `UPDATE submissions SET status = ... WHERE id = ...`. */
  function SetStatus(rows: map<nat, Row>, sub: nat, status: Status): map<nat, Row> {
    if sub in rows then rows[sub := rows[sub].(status := status)] else rows
  }

  ghost function InFlight(s: State, user: nat): set<nat> {
    set r | r in s.rows && s.rows[r].user == user && s.rows[r].status != Done
  }

  ghost function Apply(s: State, step: Step): State
    requires Enabled(s, step)
  {
    match step
    case Begin(id, user) => s.(requests := s.requests[id := Started(user)])
    case Check(id) =>
      var u := s.requests[id].user;
      var next := if |InFlight(s, u)| >= MAX_INFLIGHT_SUBMISSIONS then Finished(u, Refused) else Checked(u);
      s.(requests := s.requests[id := next])
    case Abort(id) => s.(requests := s.requests[id := Finished(s.requests[id].user, Refused)])
    case Insert(id, sub) =>
      var u := s.requests[id].user;
      State(s.rows[sub := Row(u, Queued)], s.requests[id := Inserted(u, sub)], s.used + {sub})
    case MarkQueued(id) => s.(rows := SetStatus(s.rows, s.requests[id].submission, Queued))
    case Enqueue(id) =>
      var r := s.requests[id];
      s.(requests := s.requests[id := Finished(r.user, Created(r.submission))])
    case QueueFails(id, pending) =>
      var r := s.requests[id];
      s.(rows := if pending then SetStatus(s.rows, r.submission, Pending) else s.rows,
         requests := s.requests[id := Failing(r.user, r.submission)])
    case Compensate(id, deleted) =>
      var r := s.requests[id];
      s.(rows := if deleted then s.rows - {r.submission} else s.rows,
         requests := s.requests[id := Finished(r.user, QueueFailed(r.submission, deleted))])
    case JudgeCallback(sub, status) =>
      if sub in s.rows && s.rows[sub].status != Done then s.(rows := SetStatus(s.rows, sub, status)) else s
  }

  ghost function Active(s: State, user: nat): set<nat> {
    set id | id in s.requests && s.requests[id].user == user && !s.requests[id].Finished?
  }

  ghost function CheckedBy(s: State, user: nat): set<nat> {
    set id | id in s.requests && s.requests[id].user == user && s.requests[id].Checked?
  }

  ghost function Owners(s: State, user: nat): set<nat> {
    set id | id in s.requests && s.requests[id].user == user && s.requests[id].Owns()
  }

  /** Submissions whose request is still between insert and return. */
  ghost function Owned(s: State, user: nat): set<nat> {
    SubmissionsOf(s, Owners(s, user))
  }

  ghost function SubmissionsOf(s: State, ids: set<nat>): set<nat>
    requires forall id :: id in ids ==> id in s.requests && s.requests[id].Owns()
  {
    set id | id in ids && s.requests[id].Owns() :: s.requests[id].submission
  }

  /** Rows that are in flight, or can be put back in flight by their request, plus
      requests that have passed the check and not inserted yet. */
  ghost function Charge(s: State, user: nat): nat {
    |InFlight(s, user) + Owned(s, user)| + |CheckedBy(s, user)|
  }

  // ---------------------------------------------------------------- invariant

  ghost predicate Tracked(s: State) {
    && (forall r :: r in s.rows ==> r in s.used)
    && (forall id :: id in s.requests && s.requests[id].Owns() ==>
          s.requests[id].submission in s.used
          && (s.requests[id].submission in s.rows ==> s.rows[s.requests[id].submission].user == s.requests[id].user))
    && (forall i, j :: i in s.requests && j in s.requests && s.requests[i].Owns() && s.requests[j].Owns() ==>
          (s.requests[i].submission == s.requests[j].submission ==> i == j))
  }

  /** A finished create leaves a row exactly if it succeeded, unless the
      compensating delete failed. */
  ghost predicate OutcomesHold(s: State) {
    forall id :: id in s.requests && s.requests[id].Finished? ==>
      match s.requests[id].outcome
      case Refused => true
      case Created(sub) =>
        && sub in s.used && sub in s.rows
        && forall j :: j in s.requests && s.requests[j].Owns() ==> s.requests[j].submission != sub
      case QueueFailed(sub, deleted) => sub in s.used && (deleted ==> sub !in s.rows)
  }

  lemma StepKeepsTracked(s: State, step: Step)
    requires Tracked(s) && Enabled(s, step)
    ensures Tracked(Apply(s, step))
  {
    hide InFlight;
  }

  ghost predicate OwnersKeepRows(s: State) {
    forall id :: id in s.requests && s.requests[id].Owns() ==> s.requests[id].submission in s.rows
  }

  lemma StepKeepsOwnerRows(s: State, step: Step)
    requires Tracked(s) && OwnersKeepRows(s) && Enabled(s, step)
    ensures OwnersKeepRows(Apply(s, step))
  {
  }

  lemma StepKeepsOutcomes(s: State, step: Step)
    requires Tracked(s) && OwnersKeepRows(s) && OutcomesHold(s) && Enabled(s, step)
    ensures OutcomesHold(Apply(s, step))
  {
    hide InFlight;
  }

  // ------------------------------------------------------------------- charge

  lemma SubsetSize<T>(a: set<T>, b: set<T>)
    requires a <= b
    ensures |a| <= |b|
  {
    assert b == a + (b - a);
  }

  lemma UnionSize<T>(a: set<T>, b: set<T>)
    ensures |a + b| <= |a| + |b|
    ensures a !! b ==> |a + b| == |a| + |b|
  {
  }

  lemma {:induction false} ImageSize(s: State, ids: set<nat>)
    requires forall id :: id in ids ==> id in s.requests && s.requests[id].Owns()
    ensures |SubmissionsOf(s, ids)| <= |ids|
    decreases ids
  {
    if ids == {} {
      assert SubmissionsOf(s, ids) == {};
    } else {
      var x :| x in ids;
      var rest := ids - {x};
      ImageSize(s, rest);
      assert SubmissionsOf(s, ids) == SubmissionsOf(s, rest) + {s.requests[x].submission};
    }
  }

  /** Passing the check leaves room for itself and everyone else under way. */
  lemma CheckedCharge(s: State, s': State, id: nat, user: nat)
    requires id in s.requests && s.requests[id] == Started(user) && |InFlight(s, user)| < MAX_INFLIGHT_SUBMISSIONS
    requires s' == s.(requests := s.requests[id := Checked(user)])
    ensures Charge(s', user) <= MAX_INFLIGHT_SUBMISSIONS - 1 + |Active(s', user)|
  {
    assert InFlight(s', user) == InFlight(s, user);
    ImageSize(s', Owners(s', user));
    UnionSize(InFlight(s', user), Owned(s', user));
    var owners, checked := Owners(s', user), CheckedBy(s', user);
    assert owners !! checked && owners + checked <= Active(s', user);
    UnionSize(owners, checked);
    SubsetSize(owners + checked, Active(s', user));
  }

  lemma InsertCharge(s: State, s': State, id: nat, sub: nat, user: nat)
    requires Tracked(s) && id in s.requests && s.requests[id] == Checked(user) && sub !in s.used
    requires s' == State(s.rows[sub := Row(user, Queued)], s.requests[id := Inserted(user, sub)], s.used + {sub})
    ensures Charge(s', user) <= Charge(s, user)
  {
    assert CheckedBy(s', user) == CheckedBy(s, user) - {id} && id in CheckedBy(s, user);
    OwnedOnlyAdds(s, s', id, user, sub);
    assert InFlight(s', user) <= InFlight(s, user) + {sub};
    hide Owned, CheckedBy, InFlight, Tracked;
    SubsetSize(InFlight(s', user) + Owned(s', user), InFlight(s, user) + Owned(s, user) + {sub});
    UnionSize(InFlight(s, user) + Owned(s, user), {sub});
  }

  lemma OwnedOnlyAdds(s: State, s': State, id: nat, user: nat, sub: nat)
    requires id in s.requests && s'.requests == s.requests[id := Inserted(user, sub)]
    ensures Owned(s', user) <= Owned(s, user) + {sub}
  {
  }

  /** No other step brings in a row or a passed check. */
  lemma OtherStepsShrink(s: State, step: Step, user: nat)
    requires Tracked(s) && Enabled(s, step)
    requires step.Check? ==> s.requests[step.id].user != user || |InFlight(s, user)| >= MAX_INFLIGHT_SUBMISSIONS
    requires step.Insert? ==> s.requests[step.id].user != user
    ensures Charge(Apply(s, step), user) <= Charge(s, user)
  {
    var s' := Apply(s, step);
    SubsetSize(CheckedBy(s', user), CheckedBy(s, user));
    forall x | x in Owned(s', user) ensures x in Owned(s, user) {
      var i :| i in Owners(s', user) && s'.requests[i].submission == x;
      assert i in Owners(s, user);
    }
    forall x | x in InFlight(s', user) ensures x in InFlight(s, user) + Owned(s, user) {
      if step.MarkQueued? || step.QueueFails? {
        var r := s.requests[step.id];
        if x == r.submission {
          assert r.user == user;
          assert step.id in Owners(s, user);
        }
      }
    }
    SubsetSize(InFlight(s', user) + Owned(s', user), InFlight(s, user) + Owned(s, user));
  }

  lemma StepKeepsCharge(s: State, step: Step, user: nat, k: nat)
    requires Tracked(s) && Enabled(s, step)
    requires Charge(s, user) <= MAX_INFLIGHT_SUBMISSIONS - 1 + k && |Active(Apply(s, step), user)| <= k
    ensures Charge(Apply(s, step), user) <= MAX_INFLIGHT_SUBMISSIONS - 1 + k
  {
    hide Charge, Active, InFlight;
    if step.Check? && s.requests[step.id].user == user && |InFlight(s, user)| < MAX_INFLIGHT_SUBMISSIONS {
      CheckedCharge(s, Apply(s, step), step.id, user);
    } else if step.Insert? && s.requests[step.id].user == user {
      InsertCharge(s, Apply(s, step), step.id, step.submission, user);
    } else {
      OtherStepsShrink(s, step, user);
    }
  }

  // --------------------------------------------------------------- whole runs

  ghost predicate IsRun(states: seq<State>, steps: seq<Step>) {
    && |states| == |steps| + 1
    && states[0] == Initial
    && forall k :: 0 <= k < |steps| ==> Enabled(states[k], steps[k]) && states[k + 1] == Apply(states[k], steps[k])
  }

  /** At no time are more than `k` create requests of this user under way. */
  ghost predicate AtMostConcurrent(states: seq<State>, user: nat, k: nat) {
    forall i :: 0 <= i < |states| ==> |Active(states[i], user)| <= k
  }

  lemma {:induction false} RunInvariant(states: seq<State>, steps: seq<Step>, n: nat)
    requires IsRun(states, steps) && n <= |steps|
    ensures Tracked(states[n]) && OwnersKeepRows(states[n]) && OutcomesHold(states[n])
  {
    hide Tracked, OwnersKeepRows, OutcomesHold, Apply;
    if n == 0 {
      InitialHolds();
    } else {
      RunInvariant(states, steps, n - 1);
      StepKeepsTracked(states[n - 1], steps[n - 1]);
      StepKeepsOwnerRows(states[n - 1], steps[n - 1]);
      StepKeepsOutcomes(states[n - 1], steps[n - 1]);
    }
  }

  lemma InitialHolds()
    ensures Tracked(Initial) && OwnersKeepRows(Initial) && OutcomesHold(Initial)
    ensures forall user :: InFlight(Initial, user) == {} && Charge(Initial, user) == 0 && Active(Initial, user) == {}
  {
  }

  lemma {:induction false} ChargeBounded(states: seq<State>, steps: seq<Step>, user: nat, k: nat, n: nat)
    requires IsRun(states, steps) && AtMostConcurrent(states, user, k) && n <= |steps|
    ensures Charge(states[n], user) <= MAX_INFLIGHT_SUBMISSIONS - 1 + k
  {
    hide Charge, Tracked, OwnersKeepRows, OutcomesHold;
    if n == 0 {
      InitialHolds();
    } else {
      ChargeBounded(states, steps, user, k, n - 1);
      RunInvariant(states, steps, n - 1);
      assert states[n] == Apply(states[n - 1], steps[n - 1]) && |Active(states[n], user)| <= k;
      StepKeepsCharge(states[n - 1], steps[n - 1], user, k);
    }
  }

  /** With at most `k` create requests of a user at a time, the user never has more
      than 9 + k submissions in flight, whatever the interleaving: 10 if requests
      come one by one. */
  lemma InFlightBounded(states: seq<State>, steps: seq<Step>, user: nat, k: nat, n: nat)
    requires IsRun(states, steps) && AtMostConcurrent(states, user, k) && n <= |steps|
    ensures |InFlight(states[n], user)| <= MAX_INFLIGHT_SUBMISSIONS - 1 + k
  {
    ChargeBounded(states, steps, user, k, n);
    SubsetSize(InFlight(states[n], user), InFlight(states[n], user) + Owned(states[n], user));
  }

  /** A create that failed after its insert has left no row behind, at any later
      time, unless its own delete failed; one that succeeded has a row. */
  lemma FailedCreateLeavesNoRow(states: seq<State>, steps: seq<Step>, n: nat, id: nat)
    requires IsRun(states, steps) && n <= |steps| && id in states[n].requests && states[n].requests[id].Finished?
    ensures states[n].requests[id].outcome.QueueFailed? && states[n].requests[id].outcome.deleted ==>
              states[n].requests[id].outcome.submission !in states[n].rows
    ensures states[n].requests[id].outcome.Created? ==> states[n].requests[id].outcome.submission in states[n].rows
  {
    RunInvariant(states, steps, n);
  }

  /** What becomes of a submission's row in a step: a new row is queued and its
      maker's; a row goes only when its create compensates; and its status changes only
      by its own request, or by a callback while it is not done. */
  lemma RowHistory(states: seq<State>, steps: seq<Step>, k: nat, sub: nat)
    requires IsRun(states, steps) && k < |steps|
    ensures var s, s', step := states[k], states[k + 1], steps[k];
            && (sub in s'.rows && sub !in s.rows ==>
                  step.Insert? && step.submission == sub && s'.rows[sub] == Row(s.requests[step.id].user, Queued))
            && (sub in s.rows && sub !in s'.rows ==>
                  step.Compensate? && step.deleted && s.requests[step.id].submission == sub)
            && (sub in s.rows && sub in s'.rows ==>
                  && s'.rows[sub].user == s.rows[sub].user
                  && s'.rows[sub].status == NextStatus(s, step, sub, s.rows[sub].status))
  {
    RunInvariant(states, steps, k);
    assert Enabled(states[k], steps[k]) && states[k + 1] == Apply(states[k], steps[k]);
    hide IsRun, OutcomesHold, InFlight;
  }

  /** The status a row with status `was` has after the step. */
  ghost function NextStatus(s: State, step: Step, sub: nat, was: Status): Status
    requires Enabled(s, step)
  {
    if step.JudgeCallback? && step.submission == sub && was != Done then step.status
    else if step.MarkQueued? && s.requests[step.id].submission == sub then Queued
    else if step.QueueFails? && step.markedPending && s.requests[step.id].submission == sub then Pending
    else was
  }

  /** How a create request goes on: refused exactly with ten submissions in flight, and
      created exactly when the enqueue succeeds. */
  lemma CreateExactly(states: seq<State>, steps: seq<Step>, k: nat)
    requires IsRun(states, steps) && k < |steps| && !steps[k].Begin? && !steps[k].JudgeCallback?
    ensures steps[k].id in states[k].requests && steps[k].id in states[k + 1].requests
    ensures var s, r, r' := states[k], states[k].requests[steps[k].id], states[k + 1].requests[steps[k].id];
            && r'.user == r.user
            && (steps[k].Check? ==>
                  && (r' == Checked(r.user) <==> |InFlight(s, r.user)| < 10)
                  && (r' == Finished(r.user, Refused) <==> |InFlight(s, r.user)| >= 10))
            && (steps[k].Insert? ==>
                  r' == Inserted(r.user, steps[k].submission) && steps[k].submission in states[k + 1].rows)
            && (steps[k].Enqueue? <==> r'.Finished? && r'.outcome.Created?)
            && (steps[k].Enqueue? ==> r.Inserted? && r'.outcome == Created(r.submission))
  {
    assert Enabled(states[k], steps[k]) && states[k + 1] == Apply(states[k], steps[k]);
    hide IsRun, InFlight;
  }

  // ------------------------------------------------------ the bound is reached

  /** Some run with at most `k` requests of the user at a time ends in `s`. */
  ghost predicate Reachable(user: nat, k: nat, s: State) {
    exists states, steps :: IsRun(states, steps) && AtMostConcurrent(states, user, k) && states[|steps|] == s
  }

  lemma ReachableStep(user: nat, k: nat, s: State, step: Step, s': State)
    requires Reachable(user, k, s) && Enabled(s, step) && s' == Apply(s, step) && |Active(s', user)| <= k
    ensures Reachable(user, k, s')
  {
    hide Apply, Active;
    var states, steps :| IsRun(states, steps) && AtMostConcurrent(states, user, k) && states[|steps|] == s;
    var states', steps' := states + [s'], steps + [step];
    forall i | 0 <= i < |steps'|
      ensures Enabled(states'[i], steps'[i]) && states'[i + 1] == Apply(states'[i], steps'[i])
    {
      if i < |steps| { assert states'[i] == states[i] && states'[i + 1] == states[i + 1]; }
    }
    assert IsRun(states', steps');
  }

  ghost function Range(low: nat, high: nat): (r: set<nat>)
    ensures forall x: nat :: x in r <==> low <= x < high
    ensures low <= high ==> |r| == high - low
  {
    if low >= high then {} else Range(low, high - 1) + {high - 1}
  }

  /** `done` creates finished, `inserted` more have inserted, `checked` more have
      passed the check. */
  ghost function Lined(user: nat, done: nat, inserted: nat, checked: nat): State {
    var n, m := done + inserted, done + inserted + checked;
    State(map r | r in Range(0, n) :: Row(user, Queued),
          map id | id in Range(0, m) ::
            if id < done then Finished(user, Created(id)) else if id < n then Inserted(user, id) else Checked(user),
          Range(0, n))
  }

  lemma LinedCounts(user: nat, done: nat, inserted: nat, checked: nat)
    ensures |InFlight(Lined(user, done, inserted, checked), user)| == done + inserted
    ensures |Active(Lined(user, done, inserted, checked), user)| == inserted + checked
  {
    hide Range;
    var s := Lined(user, done, inserted, checked);
    assert InFlight(s, user) == Range(0, done + inserted);
    assert Active(s, user) == Range(done, done + inserted + checked);
  }

  lemma LinedCheck(user: nat, done: nat, checked: nat)
    ensures var id := done + checked;
            Lined(user, done, 0, checked + 1).requests == Lined(user, done, 0, checked).requests[id := Checked(user)]
            && Lined(user, done, 0, checked + 1).rows == Lined(user, done, 0, checked).rows
            && id !in Lined(user, done, 0, checked).requests
  {
    hide Range;
  }

  lemma CheckNext(user: nat, k: nat, done: nat, checked: nat)
    requires Reachable(user, k, Lined(user, done, 0, checked)) && done < MAX_INFLIGHT_SUBMISSIONS && checked < k
    ensures Reachable(user, k, Lined(user, done, 0, checked + 1))
  {
    hide Reachable, Lined, Apply, Active, InFlight;
    var s, t, id := Lined(user, done, 0, checked), Lined(user, done, 0, checked + 1), done + checked;
    LinedCheck(user, done, checked);
    LinedUsed(user, done, 0, checked);
    LinedUsed(user, done, 0, checked + 1);
    var m := s.(requests := s.requests[id := Started(user)]);
    LinedCounts(user, done, 0, checked);
    LinedCounts(user, done, 0, checked + 1);
    BeginThenCheck(s, m, t, id, user);
    ReachableStep(user, k, s, Begin(id, user), m);
    ReachableStep(user, k, m, Check(id), t);
  }

  lemma BeginThenCheck(s: State, m: State, t: State, id: nat, user: nat)
    requires id !in s.requests && m == s.(requests := s.requests[id := Started(user)])
    requires t == s.(requests := s.requests[id := Checked(user)]) && |InFlight(s, user)| < MAX_INFLIGHT_SUBMISSIONS
    ensures Apply(s, Begin(id, user)) == m && Apply(m, Check(id)) == t && Active(m, user) == Active(t, user)
  {
  }

  lemma LinedUsed(user: nat, done: nat, inserted: nat, checked: nat)
    ensures Lined(user, done, inserted, checked).used == Range(0, done + inserted)
  {
  }

  lemma LinedInsert(user: nat, done: nat, inserted: nat, checked: nat)
    requires checked > 0
    ensures var id, s := done + inserted, Lined(user, done, inserted, checked);
            var t := Lined(user, done, inserted + 1, checked - 1);
            && id in s.requests && s.requests[id] == Checked(user) && id !in s.used
            && t.requests == s.requests[id := Inserted(user, id)]
            && t.rows == s.rows[id := Row(user, Queued)] && t.used == s.used + {id}
  {
    hide Range;
  }

  lemma InsertNext(user: nat, k: nat, done: nat, inserted: nat, checked: nat)
    requires Reachable(user, k, Lined(user, done, inserted, checked)) && checked > 0 && inserted + checked <= k
    ensures Reachable(user, k, Lined(user, done, inserted + 1, checked - 1))
  {
    hide Reachable, InFlight, Lined, Active;
    LinedInsert(user, done, inserted, checked);
    LinedCounts(user, done, inserted + 1, checked - 1);
    var s, t, id := Lined(user, done, inserted, checked), Lined(user, done, inserted + 1, checked - 1), done + inserted;
    ReachableStep(user, k, s, Insert(id, id), t);
  }

  lemma FinishOne(user: nat, k: nat, done: nat)
    requires Reachable(user, k, Lined(user, done, 1, 0))
    ensures Reachable(user, k, Lined(user, done + 1, 0, 0))
  {
    hide Reachable, InFlight, Range;
    var s, t := Lined(user, done, 1, 0), Lined(user, done + 1, 0, 0);
    LinedCounts(user, done + 1, 0, 0);
    assert Apply(s, Enqueue(done)) == t;
    ReachableStep(user, k, s, Enqueue(done), t);
  }

  lemma LinedNothing(user: nat)
    ensures Lined(user, 0, 0, 0) == Initial
  {
  }

  lemma InitialReachable(user: nat, k: nat, states: seq<State>, steps: seq<Step>)
    requires states == [Initial] && steps == []
    ensures Reachable(user, k, Initial)
  {
    InitialHolds();
    hide Active, Apply;
    assert IsRun(states, steps) && AtMostConcurrent(states, user, k) && states[|steps|] == Initial;
  }

  lemma NothingYet(user: nat, k: nat)
    ensures Reachable(user, k, Lined(user, 0, 0, 0))
  {
    hide Reachable, Lined;
    LinedNothing(user);
    InitialReachable(user, k, [Initial], []);
  }

  lemma {:induction false} OneByOne(user: nat, k: nat, n: nat)
    requires k > 0 && n < MAX_INFLIGHT_SUBMISSIONS
    ensures Reachable(user, k, Lined(user, n, 0, 0))
  {
    hide Reachable, Lined;
    if n == 0 {
      NothingYet(user, k);
    } else {
      OneByOne(user, k, n - 1);
      CheckNext(user, k, n - 1, 0);
      InsertNext(user, k, n - 1, 0, 1);
      FinishOne(user, k, n - 1);
    }
  }

  lemma {:induction false} AllCheck(user: nat, k: nat, c: nat)
    requires 0 < k && c <= k
    ensures Reachable(user, k, Lined(user, MAX_INFLIGHT_SUBMISSIONS - 1, 0, c))
  {
    hide Reachable, Lined;
    if c == 0 {
      OneByOne(user, k, MAX_INFLIGHT_SUBMISSIONS - 1);
    } else {
      AllCheck(user, k, c - 1);
      CheckNext(user, k, MAX_INFLIGHT_SUBMISSIONS - 1, c - 1);
    }
  }

  lemma {:induction false} AllInsert(user: nat, k: nat, c: nat)
    requires 0 < k && c <= k
    ensures Reachable(user, k, Lined(user, MAX_INFLIGHT_SUBMISSIONS - 1, c, k - c))
  {
    hide Reachable, Lined;
    if c == 0 {
      AllCheck(user, k, k);
    } else {
      AllInsert(user, k, c - 1);
      InsertNext(user, k, MAX_INFLIGHT_SUBMISSIONS - 1, c - 1, k - c + 1);
    }
  }

  /** The bound is exact: `k` requests that all count before any of them inserts
      bring the user to 9 + k, past the documented ten as soon as `k` is two. */
  lemma BoundIsReached(user: nat, k: nat)
    requires k > 0
    ensures exists states, steps :: IsRun(states, steps) && AtMostConcurrent(states, user, k)
              && |InFlight(states[|steps|], user)| == MAX_INFLIGHT_SUBMISSIONS - 1 + k
  {
    AllInsert(user, k, k);
    LinedCounts(user, MAX_INFLIGHT_SUBMISSIONS - 1, k, 0);
  }
}
