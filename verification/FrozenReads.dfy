/** Reading a frozen ranking in the steps the code takes (domain-contests
    `service.rs`, `get_contest_rankings`): look for a snapshot, compute one if there
    is none, store it over whatever is there by then. Readers interleave with each
    other and with changes to the tables. */
module FrozenReads {
  import opened Common
  import opened Contests
  import ContestRuns

  datatype Reader =
    | Looking(contest: nat)
    | Missed(contest: nat)
    | Computed(contest: nat, rankings: seq<Entry>)
    | Answered(contest: nat, rankings: seq<Entry>)
  {
    /** Found no snapshot and has not stored one yet. */
    predicate AtWork() { Missed? || Computed? }
  }

  datatype State = State(base: ContestRuns.State, readers: map<nat, Reader>)

  datatype Step =
    | Table(change: ContestRuns.Step)
    | Begin(id: nat, contest: nat)
    | Lookup(id: nat)
    | Compute(id: nat)
    | Store(id: nat)

  predicate Freezes(w: World, c: nat) { c in w.contests && w.contests[c].freezeMinutes.Some? }

  predicate Enabled(w: World, s: State, step: Step) {
    match step
    case Table(t) => !t.ReadStep? && ContestRuns.Enabled(s.base, t)
    case Begin(id, c) => id !in s.readers && Freezes(w, c) && ContestRuns.Frozen(w.contests[c], s.base.now)
    case Lookup(id) => id in s.readers && s.readers[id].Looking?
    case Compute(id) => id in s.readers && s.readers[id].Missed?
    case Store(id) => id in s.readers && s.readers[id].Computed?
  }

  /** The ranking of a contest as of its freeze time, with the tables as they are. */
  function FrozenRanking(w: World, db: Db, c: nat): seq<Entry> {
    if Freezes(w, c) then Rankings(w, db, c, w.contests[c], ContestRuns.FreezeTime(w.contests[c])) else []
  }

  function Move(s: State, id: nat, r: Reader): State { s.(readers := s.readers[id := r]) }

  function Apply(w: World, s: State, step: Step): State
    requires Enabled(w, s, step)
  {
    match step
    case Table(t) => s.(base := ContestRuns.Apply(w, s.base, t))
    case Begin(id, c) => Move(s, id, Looking(c))
    case Lookup(id) =>
      var c := s.readers[id].contest;
      Move(s, id, if c in s.base.db.snapshots then Answered(c, s.base.db.snapshots[c]) else Missed(c))
    case Compute(id) =>
      var c := s.readers[id].contest;
      Move(s, id, Computed(c, FrozenRanking(w, s.base.db, c)))
    case Store(id) =>
      var Computed(c, r) := s.readers[id];
      var db := s.base.db;
      Move(s.(base := s.base.(db := db.(snapshots := db.snapshots[c := r]))), id, Answered(c, r))
  }

  ghost predicate IsRun(w: World, states: seq<State>, steps: seq<Step>) {
    && |states| == |steps| + 1
    && states[0].base.db == Db([], map[], map[]) && states[0].base.answers == [] && states[0].readers == map[]
    && forall k :: 0 <= k < |steps| ==>
          Enabled(w, states[k], steps[k]) && states[k + 1] == Apply(w, states[k], steps[k])
  }

  /** All readers of the contest that have answered gave the same ranking. */
  ghost predicate AnswersAgree(s: State, c: nat) {
    forall i, j :: HasAnswered(s, i, c) && HasAnswered(s, j, c) ==> s.readers[i].rankings == s.readers[j].rankings
  }

  ghost predicate HasAnswered(s: State, id: nat, c: nat) {
    id in s.readers && s.readers[id].Answered? && s.readers[id].contest == c
  }

  ghost predicate HasComputed(s: State, id: nat, c: nat) {
    id in s.readers && s.readers[id].Computed? && s.readers[id].contest == c
  }

  ghost predicate Working(s: State, id: nat, c: nat) {
    id in s.readers && s.readers[id].AtWork() && s.readers[id].contest == c
  }

  // ------------------------------------------------- readers that do not overlap

  /** No two readers of the contest are at work on its snapshot at once. */
  ghost predicate AtMostOneAtWork(s: State, c: nat) {
    forall i, j :: Working(s, i, c) && Working(s, j, c) ==> i == j
  }

  /** A stored snapshot is what everyone answered, and nobody is about to replace it. */
  ghost predicate OneSnapshot(s: State, c: nat) {
    && (forall id :: HasAnswered(s, id, c) ==>
          c in s.base.db.snapshots && s.readers[id].rankings == s.base.db.snapshots[c])
    && (c in s.base.db.snapshots ==> forall id :: !Working(s, id, c))
  }

  lemma TablesKeepSnapshots(w: World, s: ContestRuns.State, t: ContestRuns.Step)
    requires ContestRuns.Enabled(s, t) && !t.ReadStep?
    ensures ContestRuns.Apply(w, s, t).db.snapshots == s.db.snapshots
  {
  }

  lemma StepKeepsOneSnapshot(w: World, s: State, step: Step, c: nat)
    requires OneSnapshot(s, c) && AtMostOneAtWork(s, c) && Enabled(w, s, step)
    ensures OneSnapshot(Apply(w, s, step), c)
  {
    hide FrozenRanking, ContestRuns.Apply;
    var s' := Apply(w, s, step);
    if step.Table? {
      TablesKeepSnapshots(w, s.base, step.change);
      assert forall id :: Working(s', id, c) == Working(s, id, c) && HasAnswered(s', id, c) == HasAnswered(s, id, c);
    } else {
      assert forall id :: id != step.id ==>
          Working(s', id, c) == Working(s, id, c) && HasAnswered(s', id, c) == HasAnswered(s, id, c);
      assert step.Compute? || step.Store? ==> (Working(s, step.id, c) <==> s.readers[step.id].contest == c);
    }
  }

  /** Readers that do not overlap always agree, whatever happens to the tables. */
  lemma {:induction false} LoneReadersAgree(w: World, states: seq<State>, steps: seq<Step>, k: nat, c: nat)
    requires IsRun(w, states, steps) && k <= |steps|
    requires forall i :: 0 <= i < k ==> AtMostOneAtWork(states[i], c)
    ensures OneSnapshot(states[k], c) && AnswersAgree(states[k], c)
  {
    hide Enabled, Apply, AtMostOneAtWork;
    if k > 0 {
      LoneReadersAgree(w, states, steps, k - 1, c);
      StepKeepsOneSnapshot(w, states[k - 1], steps[k - 1], c);
    }
  }

  // ---------------------------------------------- where each answer comes from

  /** Step `j` computed a frozen ranking of the contest. */
  ghost predicate ComputesAt(w: World, states: seq<State>, steps: seq<Step>, j: nat, c: nat)
    requires IsRun(w, states, steps)
  {
    j < |steps| && steps[j].Compute? && states[j].readers[steps[j].id].contest == c
  }

  ghost predicate HoldsComputed(s: State, id: nat, c: nat, r: seq<Entry>) {
    id in s.readers && (s.readers[id] == Computed(c, r) || s.readers[id] == Answered(c, r))
  }

  lemma {:induction false} ComputationIsKept(w: World, states: seq<State>, steps: seq<Step>, j: nat, k: nat, c: nat)
    requires IsRun(w, states, steps) && j < k <= |steps| && ComputesAt(w, states, steps, j, c)
    ensures HoldsComputed(states[k], steps[j].id, c, FrozenRanking(w, states[j].base.db, c))
  {
    hide FrozenRanking, ContestRuns.Apply;
    if j + 1 < k {
      ComputationIsKept(w, states, steps, j, k - 1, c);
      assert states[k] == Apply(w, states[k - 1], steps[k - 1]) && Enabled(w, states[k - 1], steps[k - 1]);
    }
  }

  /** The ranking was computed for the contest by a reader that has answered with it. */
  ghost predicate AnsweredFrom(w: World, states: seq<State>, steps: seq<Step>, k: nat, c: nat, r: seq<Entry>)
    requires IsRun(w, states, steps) && k <= |steps|
  {
    exists j: nat :: j < k && ComputesAt(w, states, steps, j, c) && r == FrozenRanking(w, states[j].base.db, c)
                     && HasAnswered(states[k], steps[j].id, c)
  }

  lemma AnsweredFromGrows(w: World, states: seq<State>, steps: seq<Step>, k: nat, c: nat, r: seq<Entry>)
    requires IsRun(w, states, steps) && k < |steps| && AnsweredFrom(w, states, steps, k, c, r)
    ensures AnsweredFrom(w, states, steps, k + 1, c, r)
  {
    hide FrozenRanking, ContestRuns.Apply;
    var j: nat :| j < k && ComputesAt(w, states, steps, j, c) && r == FrozenRanking(w, states[j].base.db, c)
                  && HasAnswered(states[k], steps[j].id, c);
    assert states[k + 1] == Apply(w, states[k], steps[k]) && Enabled(w, states[k], steps[k]);
    assert HasAnswered(states[k + 1], steps[j].id, c);
  }

  ghost predicate Traced(w: World, states: seq<State>, steps: seq<Step>, k: nat, c: nat)
    requires IsRun(w, states, steps) && k <= |steps|
  {
    && (c in states[k].base.db.snapshots ==> AnsweredFrom(w, states, steps, k, c, states[k].base.db.snapshots[c]))
    && (forall id :: HasAnswered(states[k], id, c) ==>
          AnsweredFrom(w, states, steps, k, c, states[k].readers[id].rankings))
    && (forall id :: HasComputed(states[k], id, c) ==> ComputedBy(w, states, steps, k, c, id))
  }

  ghost predicate ComputedBy(w: World, states: seq<State>, steps: seq<Step>, k: nat, c: nat, id: nat)
    requires IsRun(w, states, steps)
  {
    exists j: nat :: j < k && ComputesAt(w, states, steps, j, c) && steps[j].id == id
  }

  lemma StoredIsAnswered(w: World, states: seq<State>, steps: seq<Step>, k: nat, c: nat)
    requires IsRun(w, states, steps) && k < |steps| && steps[k].Store? && Traced(w, states, steps, k, c)
    requires states[k].readers[steps[k].id].contest == c
    ensures AnsweredFrom(w, states, steps, k + 1, c, states[k].readers[steps[k].id].rankings)
  {
    hide FrozenRanking, ContestRuns.Apply, AnsweredFrom;
    var id := steps[k].id;
    assert Enabled(w, states[k], steps[k]) && states[k + 1] == Apply(w, states[k], steps[k]);
    assert ComputedBy(w, states, steps, k, c, id);
    var j: nat :| j < k && ComputesAt(w, states, steps, j, c) && steps[j].id == id;
    ComputationIsKept(w, states, steps, j, k, c);
    assert HasAnswered(states[k + 1], id, c);
    AnsweredBy(w, states, steps, k + 1, c, j);
  }

  lemma AnsweredBy(w: World, states: seq<State>, steps: seq<Step>, k: nat, c: nat, j: nat)
    requires IsRun(w, states, steps) && j < k <= |steps| && ComputesAt(w, states, steps, j, c)
    requires HasAnswered(states[k], steps[j].id, c)
    ensures AnsweredFrom(w, states, steps, k, c, FrozenRanking(w, states[j].base.db, c))
  {
  }

  lemma {:induction false} RunTraced(w: World, states: seq<State>, steps: seq<Step>, k: nat, c: nat)
    requires IsRun(w, states, steps) && k <= |steps|
    ensures Traced(w, states, steps, k, c)
  {
    hide FrozenRanking, ContestRuns.Apply, AnsweredFrom;
    if k > 0 {
      RunTraced(w, states, steps, k - 1, c);
      TracedStep(w, states, steps, k - 1, c);
    }
  }

  lemma TracedStep(w: World, states: seq<State>, steps: seq<Step>, k: nat, c: nat)
    requires IsRun(w, states, steps) && k < |steps| && Traced(w, states, steps, k, c)
    ensures Traced(w, states, steps, k + 1, c)
  {
    hide FrozenRanking, ContestRuns.Apply, AnsweredFrom;
    var s, s', step := states[k], states[k + 1], steps[k];
    assert Enabled(w, s, step) && s' == Apply(w, s, step);
    if step.Table? { TablesKeepSnapshots(w, s.base, step.change); }
    if step.Store? && s.readers[step.id].contest == c { StoredIsAnswered(w, states, steps, k, c); }
    if c in s.base.db.snapshots { AnsweredFromGrows(w, states, steps, k, c, s.base.db.snapshots[c]); }
    forall id | HasAnswered(s', id, c) ensures AnsweredFrom(w, states, steps, k + 1, c, s'.readers[id].rankings) {
      if HasAnswered(s, id, c) {
        AnsweredFromGrows(w, states, steps, k, c, s.readers[id].rankings);
      }
    }
    forall id | HasComputed(s', id, c) ensures ComputedBy(w, states, steps, k + 1, c, id) {
      if step.Compute? && step.id == id {
        assert ComputesAt(w, states, steps, k, c);
      } else {
        assert ComputedBy(w, states, steps, k, c, id);
      }
    }
  }

  /** Step `j` computed a ranking of the contest, and its reader has answered by `k`. */
  ghost predicate CountsAt(w: World, states: seq<State>, steps: seq<Step>, j: nat, k: nat, c: nat)
    requires IsRun(w, states, steps) && k <= |steps|
  {
    j < k && ComputesAt(w, states, steps, j, c) && HasAnswered(states[k], steps[j].id, c)
  }

  /** All computations whose readers have answered gave the same ranking. */
  ghost predicate ComputationsAgree(w: World, states: seq<State>, steps: seq<Step>, k: nat, c: nat)
    requires IsRun(w, states, steps) && k <= |steps|
  {
    forall i: nat, j: nat :: CountsAt(w, states, steps, i, k, c) && CountsAt(w, states, steps, j, k, c) ==>
      FrozenRanking(w, states[i].base.db, c) == FrozenRanking(w, states[j].base.db, c)
  }

  lemma AnswerOrigin(w: World, states: seq<State>, steps: seq<Step>, k: nat, c: nat, id: nat) returns (j: nat)
    requires IsRun(w, states, steps) && k <= |steps| && Traced(w, states, steps, k, c) && HasAnswered(states[k], id, c)
    ensures CountsAt(w, states, steps, j, k, c)
    ensures states[k].readers[id].rankings == FrozenRanking(w, states[j].base.db, c)
  {
    hide FrozenRanking;
    j :| j < k && ComputesAt(w, states, steps, j, c) && HasAnswered(states[k], steps[j].id, c)
         && states[k].readers[id].rankings == FrozenRanking(w, states[j].base.db, c);
  }

  /** In every interleaving, the frozen rankings handed out agree exactly when the
      computations behind them do. */
  lemma AgreeIffComputationsAgree(w: World, states: seq<State>, steps: seq<Step>, k: nat, c: nat)
    requires IsRun(w, states, steps) && k <= |steps|
    ensures AnswersAgree(states[k], c) <==> ComputationsAgree(w, states, steps, k, c)
  {
    hide FrozenRanking, Apply, Enabled;
    RunTraced(w, states, steps, k, c);
    if AnswersAgree(states[k], c) {
      forall i: nat, j: nat | CountsAt(w, states, steps, i, k, c) && CountsAt(w, states, steps, j, k, c)
        ensures FrozenRanking(w, states[i].base.db, c) == FrozenRanking(w, states[j].base.db, c)
      {
        ComputationIsKept(w, states, steps, i, k, c);
        ComputationIsKept(w, states, steps, j, k, c);
      }
    }
    if ComputationsAgree(w, states, steps, k, c) {
      forall a, b | HasAnswered(states[k], a, c) && HasAnswered(states[k], b, c)
        ensures states[k].readers[a].rankings == states[k].readers[b].rankings
      {
        var i := AnswerOrigin(w, states, steps, k, c, a);
        var j := AnswerOrigin(w, states, steps, k, c, b);
      }
    }
  }

  // --------------------------------------------- tables that have come to rest

  /** The change touches nothing that the frozen ranking counts: it sets no new
      verdict on a counted submission and adds no link of one from before the freeze. */
  ghost predicate Quiet(w: World, s: ContestRuns.State, t: ContestRuns.Step, c: nat)
    requires Freezes(w, c)
  {
    var freeze := ContestRuns.FreezeTime(w.contests[c]);
    match t
    case SetVerdict(i, v) => i < |s.db.submissions| && Counted(s.db, c, freeze, i) ==> s.db.submissions[i].verdict == v
    case LinkTo(d, i) => d == c && i < |s.db.submissions| && i !in s.db.links ==>
        s.db.submissions[i].createdAt >= freeze
    case _ => true
  }

  lemma QuietKeepsRanking(w: World, s: ContestRuns.State, t: ContestRuns.Step, c: nat)
    requires Freezes(w, c) && ContestRuns.LinksHold(w, s.db)
    requires ContestRuns.Enabled(s, t) && !t.ReadStep? && Quiet(w, s, t, c)
    ensures FrozenRanking(w, ContestRuns.Apply(w, s, t).db, c) == FrozenRanking(w, s.db, c)
  {
    hide Rankings, ContestRuns.HasProblem;
    var freeze, db' := ContestRuns.FreezeTime(w.contests[c]), ContestRuns.Apply(w, s, t).db;
    assert SameCounted(s.db, db', c, freeze);
    RankingsSame(w, s.db, db', c, w.contests[c], freeze);
  }

  lemma {:induction false} RunKeepsLinks(w: World, states: seq<State>, steps: seq<Step>, k: nat)
    requires IsRun(w, states, steps) && k <= |steps|
    ensures ContestRuns.LinksHold(w, states[k].base.db)
  {
    hide FrozenRanking, ContestRuns.Apply;
    if k > 0 {
      RunKeepsLinks(w, states, steps, k - 1);
      assert states[k] == Apply(w, states[k - 1], steps[k - 1]) && Enabled(w, states[k - 1], steps[k - 1]);
      if steps[k - 1].Table? {
        ContestRuns.StepKeepsLinks(w, states[k - 1].base, steps[k - 1].change);
      }
    }
  }

  /** Every change to the tables in steps `i` to `k` is quiet. */
  ghost predicate QuietFrom(w: World, states: seq<State>, steps: seq<Step>, i: nat, k: nat, c: nat)
    requires IsRun(w, states, steps) && k <= |steps| && Freezes(w, c)
  {
    forall x :: i <= x < k && steps[x].Table? ==> Quiet(w, states[x].base, steps[x].change, c)
  }

  lemma {:induction false} RankingUnchanged(w: World, states: seq<State>, steps: seq<Step>, i: nat, k: nat, c: nat)
    requires IsRun(w, states, steps) && i <= k <= |steps| && Freezes(w, c) && QuietFrom(w, states, steps, i, k, c)
    ensures FrozenRanking(w, states[i].base.db, c) == FrozenRanking(w, states[k].base.db, c)
  {
    hide Rankings, ContestRuns.Apply, Quiet;
    if i < k {
      RankingUnchanged(w, states, steps, i, k - 1, c);
      var s, step := states[k - 1], steps[k - 1];
      assert states[k] == Apply(w, s, step) && Enabled(w, s, step);
      if step.Table? {
        RunKeepsLinks(w, states, steps, k - 1);
        QuietKeepsRanking(w, s.base, step.change, c);
      } else {
        SnapshotsDoNotCount(w, s.base.db, states[k].base.db, c);
      }
    }
  }

  lemma SnapshotsDoNotCount(w: World, db: Db, db': Db, c: nat)
    requires Freezes(w, c) && db'.submissions == db.submissions && db'.links == db.links
    ensures FrozenRanking(w, db, c) == FrozenRanking(w, db', c)
  {
    hide Rankings;
    RankingsSame(w, db, db', c, w.contests[c], ContestRuns.FreezeTime(w.contests[c]));
  }

  /** If from its first computation on nothing that counts changes, all readers agree,
      however they overlap. */
  lemma QuietReadersAgree(w: World, states: seq<State>, steps: seq<Step>, k: nat, c: nat)
    requires IsRun(w, states, steps) && k <= |steps| && Freezes(w, c)
    requires forall i: nat :: i < k && ComputesAt(w, states, steps, i, c) ==> QuietFrom(w, states, steps, i, k, c)
    ensures AnswersAgree(states[k], c)
  {
    hide FrozenRanking, Apply, Enabled, AnswersAgree, HasAnswered, Quiet;
    forall i: nat | i < k && ComputesAt(w, states, steps, i, c)
      ensures FrozenRanking(w, states[i].base.db, c) == FrozenRanking(w, states[k].base.db, c)
    {
      RankingUnchanged(w, states, steps, i, k, c);
    }
    AgreeIffComputationsAgree(w, states, steps, k, c);
  }

  /** Frozen readers disagree only in a race: two of them were at work at once, and
      after one of them had computed, something that counts changed. */
  lemma DisagreementIsARace(w: World, states: seq<State>, steps: seq<Step>, k: nat, c: nat)
    requires IsRun(w, states, steps) && k <= |steps| && Freezes(w, c) && !AnswersAgree(states[k], c)
    ensures exists i :: 0 <= i < k && !AtMostOneAtWork(states[i], c)
    ensures exists i: nat :: i < k && ComputesAt(w, states, steps, i, c) && !QuietFrom(w, states, steps, i, k, c)
  {
    hide Apply, Enabled, AnswersAgree, AtMostOneAtWork, QuietFrom, OneSnapshot;
    if forall i :: 0 <= i < k ==> AtMostOneAtWork(states[i], c) {
      LoneReadersAgree(w, states, steps, k, c);
    }
    if forall i: nat :: i < k && ComputesAt(w, states, steps, i, c) ==> QuietFrom(w, states, steps, i, k, c) {
      QuietReadersAgree(w, states, steps, k, c);
    }
  }

  // --------------------------------------------------------- when it can happen

  /** `tail` is what the steps lead to from `s` on. */
  ghost predicate Continues(w: World, s: State, tail: seq<State>, more: seq<Step>) {
    |tail| == |more| && forall k: nat :: k < |more| ==> Leads(w, StateAt(s, tail, k), more[k], tail[k])
  }

  function StateAt(s: State, tail: seq<State>, k: nat): State
    requires k <= |tail|
  {
    if k == 0 then s else tail[k - 1]
  }

  ghost predicate Leads(w: World, s: State, step: Step, s': State) {
    Enabled(w, s, step) && s' == Apply(w, s, step)
  }

  lemma RunContinues(w: World, states: seq<State>, steps: seq<Step>, tail: seq<State>, more: seq<Step>)
    requires IsRun(w, states, steps) && Continues(w, states[|steps|], tail, more)
    ensures IsRun(w, states + tail, steps + more)
  {
    hide Enabled, Apply;
    var n, states', steps' := |steps|, states + tail, steps + more;
    forall k | 0 <= k < |steps'| ensures Leads(w, states'[k], steps'[k], states'[k + 1]) {
      if k < n {
        assert states'[k] == states[k] && states'[k + 1] == states[k + 1] && steps'[k] == steps[k];
      } else {
        var x: nat := k - n;
        assert Leads(w, StateAt(states[n], tail, x), more[x], tail[x]);
        assert states'[k] == StateAt(states[n], tail, x) && states'[k + 1] == tail[x] && steps'[k] == more[x];
      }
    }
    hide StateAt, Continues;
    assert forall k :: 0 <= k < |steps'| ==> Leads(w, states'[k], steps'[k], states'[k + 1]);
  }

  lemma ContinuesFurther(w: World, s: State, tail: seq<State>, more: seq<Step>, tail': seq<State>, more': seq<Step>)
    requires Continues(w, s, tail, more) && Continues(w, StateAt(s, tail, |tail|), tail', more')
    ensures Continues(w, s, tail + tail', more + more')
    ensures StateAt(s, tail + tail', |tail + tail'|) == StateAt(StateAt(s, tail, |tail|), tail', |tail'|)
  {
    hide Leads;
    var all, steps := tail + tail', more + more';
    forall k: nat | k < |steps| ensures Leads(w, StateAt(s, all, k), steps[k], all[k]) {
      if k < |tail| {
        assert Leads(w, StateAt(s, tail, k), more[k], tail[k]);
      } else {
        var x: nat := k - |tail|;
        assert Leads(w, StateAt(StateAt(s, tail, |tail|), tail', x), more'[x], tail'[x]);
      }
    }
  }

  /** The changes can be made to the tables one after another. */
  ghost predicate Allowed(w: World, s: ContestRuns.State, xs: seq<ContestRuns.Step>)
    decreases |xs|
  {
    xs != [] ==>
      !xs[0].ReadStep? && ContestRuns.Enabled(s, xs[0]) && Allowed(w, ContestRuns.Apply(w, s, xs[0]), xs[1..])
  }

  ghost function Follow(w: World, s: ContestRuns.State, xs: seq<ContestRuns.Step>): ContestRuns.State
    requires Allowed(w, s, xs)
    decreases |xs|
  {
    if xs == [] then s else Follow(w, ContestRuns.Apply(w, s, xs[0]), xs[1..])
  }

  /** The tables can change so that some time inside the freeze window the frozen
      ranking is one thing, and later another. */
  ghost predicate CanChange(w: World, s: ContestRuns.State, c: nat) {
    exists xs, ys :: Changes(w, s, c, xs, ys)
  }

  ghost predicate Changes(w: World, s: ContestRuns.State, c: nat, xs: seq<ContestRuns.Step>,
      ys: seq<ContestRuns.Step>) {
    && Freezes(w, c) && Allowed(w, s, xs)
    && var u := Follow(w, s, xs);
       && ContestRuns.Frozen(w.contests[c], u.now) && Allowed(w, u, ys)
       && FrozenRanking(w, u.db, c) != FrozenRanking(w, Follow(w, u, ys).db, c)
  }

  /** Readers of the contest can come to disagree. */
  ghost predicate CanDisagree(w: World, s: State, c: nat) {
    exists tail, more :: Disagrees(w, s, c, tail, more)
  }

  ghost predicate Disagrees(w: World, s: State, c: nat, tail: seq<State>, more: seq<Step>) {
    Continues(w, s, tail, more) && !AnswersAgree(StateAt(s, tail, |tail|), c)
  }

  // ------------------------------------------------------------- making them disagree

  lemma {:induction false} TablesContinue(w: World, s: State, xs: seq<ContestRuns.Step>)
    returns (tail: seq<State>, more: seq<Step>)
    requires Allowed(w, s.base, xs)
    ensures Continues(w, s, tail, more)
    ensures StateAt(s, tail, |tail|) == s.(base := Follow(w, s.base, xs))
    ensures Follow(w, s.base, xs).db.snapshots == s.base.db.snapshots
    decreases |xs|
  {
    hide ContestRuns.Apply, ContestRuns.Enabled, FrozenRanking;
    if xs == [] {
      tail, more := [], [];
    } else {
      var s1 := Apply(w, s, Table(xs[0]));
      TablesKeepSnapshots(w, s.base, xs[0]);
      assert Leads(w, s, Table(xs[0]), s1);
      var tail1, more1 := TablesContinue(w, s1, xs[1..]);
      assert Continues(w, s, [s1], [Table(xs[0])]);
      assert StateAt(s, [s1], 1) == s1;
      hide Leads, Continues, StateAt;
      ContinuesFurther(w, s, [s1], [Table(xs[0])], tail1, more1);
      tail, more := [s1] + tail1, [Table(xs[0])] + more1;
    }
  }

  /** Both readers miss, and the first computes. */
  lemma BothMiss(w: World, s: State, a: nat, b: nat, c: nat) returns (tail: seq<State>, more: seq<Step>)
    requires a != b && a !in s.readers && b !in s.readers && c !in s.base.db.snapshots
    requires Freezes(w, c) && ContestRuns.Frozen(w.contests[c], s.base.now)
    ensures Continues(w, s, tail, more)
    ensures var s' := StateAt(s, tail, |tail|);
            && s'.base == s.base && a in s'.readers && b in s'.readers
            && s'.readers[a] == Computed(c, FrozenRanking(w, s.base.db, c)) && s'.readers[b] == Missed(c)
  {
    hide ContestRuns.Apply, ContestRuns.Enabled, ContestRuns.Frozen, FrozenRanking;
    var s1 := Apply(w, s, Begin(a, c));
    var s2 := Apply(w, s1, Begin(b, c));
    var s3 := Apply(w, s2, Lookup(a));
    var s4 := Apply(w, s3, Lookup(b));
    var s5 := Apply(w, s4, Compute(a));
    tail, more := [s1, s2, s3, s4, s5], [Begin(a, c), Begin(b, c), Lookup(a), Lookup(b), Compute(a)];
    assert Leads(w, s, Begin(a, c), s1) && Leads(w, s1, Begin(b, c), s2) && Leads(w, s2, Lookup(a), s3);
    assert Leads(w, s3, Lookup(b), s4) && Leads(w, s4, Compute(a), s5);
  }

  /** The second computes something else, and both store what they have. */
  lemma BothStore(w: World, s: State, a: nat, b: nat, c: nat, r: seq<Entry>) returns (tail: seq<State>, more: seq<Step>)
    requires a != b && a in s.readers && s.readers[a] == Computed(c, r)
    requires b in s.readers && s.readers[b] == Missed(c) && r != FrozenRanking(w, s.base.db, c)
    ensures Continues(w, s, tail, more) && !AnswersAgree(StateAt(s, tail, |tail|), c)
  {
    hide ContestRuns.Apply, ContestRuns.Enabled, ContestRuns.Frozen, FrozenRanking;
    var s1 := Apply(w, s, Compute(b));
    var s2 := Apply(w, s1, Store(a));
    var s3 := Apply(w, s2, Store(b));
    tail, more := [s1, s2, s3], [Compute(b), Store(a), Store(b)];
    assert Leads(w, s, Compute(b), s1) && Leads(w, s1, Store(a), s2) && Leads(w, s2, Store(b), s3);
    assert HasAnswered(s3, a, c) && HasAnswered(s3, b, c);
  }

  lemma {:induction false} Above(S: set<nat>) returns (n: nat)
    ensures forall x :: x in S ==> x < n
  {
    n := 0;
    if S != {} {
      var x :| x in S;
      var m := Above(S - {x});
      n := if x < m then m else x + 1;
      assert forall y :: y in S ==> y == x || y in S - {x};
    }
  }

  /** Two readers who begin together, with the change between their computations. */
  lemma Race(w: World, s: State, c: nat, xs: seq<ContestRuns.Step>, ys: seq<ContestRuns.Step>)
    returns (tail: seq<State>, more: seq<Step>)
    requires c !in s.base.db.snapshots && Changes(w, s.base, c, xs, ys)
    ensures Disagrees(w, s, c, tail, more)
  {
    hide ContestRuns.Frozen, FrozenRanking, Allowed, Follow, Continues, StateAt, AnswersAgree;
    var a := Above(s.readers.Keys);
    var b := a + 1;
    tail, more := TablesContinue(w, s, xs);
    var s1 := StateAt(s, tail, |tail|);
    var tail1, more1 := BothMiss(w, s1, a, b, c);
    ContinuesFurther(w, s, tail, more, tail1, more1);
    tail, more := tail + tail1, more + more1;
    var s2 := StateAt(s, tail, |tail|);
    var tail2, more2 := TablesContinue(w, s2, ys);
    ContinuesFurther(w, s, tail, more, tail2, more2);
    tail, more := tail + tail2, more + more2;
    var s3 := StateAt(s, tail, |tail|);
    var tail3, more3 := BothStore(w, s3, a, b, c, FrozenRanking(w, s1.base.db, c));
    ContinuesFurther(w, s, tail, more, tail3, more3);
    tail, more := tail + tail3, more + more3;
  }

  // ------------------------------------------------- what a disagreement shows

  /** The states differ at most in their snapshots and answers. */
  ghost predicate SameTables(s: ContestRuns.State, s': ContestRuns.State) {
    s.now == s'.now && s.db.submissions == s'.db.submissions && s.db.links == s'.db.links
  }

  lemma SameTablesStep(w: World, s: ContestRuns.State, s': ContestRuns.State, t: ContestRuns.Step)
    requires SameTables(s, s') && ContestRuns.Enabled(s', t) && !t.ReadStep?
    ensures ContestRuns.Enabled(s, t)
    ensures SameTables(ContestRuns.Apply(w, s, t), ContestRuns.Apply(w, s', t))
  {
    hide ContestRuns.HasProblem;
  }

  /** The changes to the tables among steps `x` to `y`. */
  function TableSteps(steps: seq<Step>, x: nat, y: nat): seq<ContestRuns.Step>
    requires x <= y <= |steps|
    decreases y - x
  {
    if x == y then []
    else (if steps[x].Table? then [steps[x].change] else []) + TableSteps(steps, x + 1, y)
  }

  /** The tables change in a run as they would without any readers. */
  lemma {:induction false} TablesAlone(w: World, states: seq<State>, steps: seq<Step>, x: nat, y: nat,
      s: ContestRuns.State)
    requires IsRun(w, states, steps) && x <= y <= |steps| && SameTables(s, states[x].base)
    ensures Allowed(w, s, TableSteps(steps, x, y))
    ensures SameTables(Follow(w, s, TableSteps(steps, x, y)), states[y].base)
    decreases y - x
  {
    hide ContestRuns.Apply, ContestRuns.Enabled, FrozenRanking;
    if x < y {
      var step := steps[x];
      assert Enabled(w, states[x], step) && states[x + 1] == Apply(w, states[x], step);
      if step.Table? {
        SameTablesStep(w, s, states[x].base, step.change);
        var s1 := ContestRuns.Apply(w, s, step.change);
        TablesAlone(w, states, steps, x + 1, y, s1);
        var xs := TableSteps(steps, x, y);
        assert xs[0] == step.change && xs[1..] == TableSteps(steps, x + 1, y);
      } else {
        TablesAlone(w, states, steps, x + 1, y, s);
        assert [] + TableSteps(steps, x + 1, y) == TableSteps(steps, x + 1, y);
      }
    }
  }

  ghost predicate Reads(s: State, id: nat, c: nat) { id in s.readers && s.readers[id].contest == c }

  /** Whoever reads the contest at `k` and not at `n` has begun in between, inside the
      freeze window. */
  lemma {:induction false} ReaderBegan(w: World, states: seq<State>, steps: seq<Step>, n: nat, k: nat, id: nat, c: nat)
    returns (b: nat)
    requires IsRun(w, states, steps) && n <= k <= |steps| && Reads(states[k], id, c) && !Reads(states[n], id, c)
    ensures n <= b < k && Freezes(w, c) && ContestRuns.Frozen(w.contests[c], states[b].base.now)
  {
    hide ContestRuns.Apply, ContestRuns.Enabled, ContestRuns.Frozen, FrozenRanking;
    b := k - 1;
    assert Enabled(w, states[b], steps[b]) && states[k] == Apply(w, states[b], steps[b]);
    if Reads(states[b], id, c) {
      b := ReaderBegan(w, states, steps, n, b, id, c);
    }
  }

  /** Two computations in a run that differ, of readers that began after `n`: the
      tables can change that way from there on. */
  lemma DifferenceIsChange(w: World, states: seq<State>, steps: seq<Step>, n: nat, i: nat, j: nat, c: nat)
    requires IsRun(w, states, steps) && n <= i < j <= |steps| && (forall id :: !Reads(states[n], id, c))
    requires ComputesAt(w, states, steps, i, c)
    requires FrozenRanking(w, states[i].base.db, c) != FrozenRanking(w, states[j].base.db, c)
    ensures CanChange(w, states[n].base, c)
  {
    hide ContestRuns.Frozen, FrozenRanking, Allowed, Follow, Apply;
    assert Enabled(w, states[i], steps[i]);
    var b := ReaderBegan(w, states, steps, n, i, steps[i].id, c);
    var v := if FrozenRanking(w, states[b].base.db, c) != FrozenRanking(w, states[i].base.db, c) then i else j;
    var s, xs := states[n].base, TableSteps(steps, n, b);
    TablesAlone(w, states, steps, n, b, s);
    var u, ys := Follow(w, s, xs), TableSteps(steps, b, v);
    TablesAlone(w, states, steps, b, v, u);
    SnapshotsDoNotCount(w, u.db, states[b].base.db, c);
    SnapshotsDoNotCount(w, Follow(w, u, ys).db, states[v].base.db, c);
    assert Changes(w, s, c, xs, ys);
  }

  lemma DisagreementShowsChange(w: World, states: seq<State>, steps: seq<Step>, n: nat, c: nat)
    requires IsRun(w, states, steps) && n <= |steps| && (forall id :: !Reads(states[n], id, c))
    requires !AnswersAgree(states[|steps|], c)
    ensures CanChange(w, states[n].base, c)
  {
    hide FrozenRanking, Apply, Enabled, AnswersAgree, CanChange;
    var k := |steps|;
    AgreeIffComputationsAgree(w, states, steps, k, c);
    var i: nat, j: nat :| CountsAt(w, states, steps, i, k, c) && CountsAt(w, states, steps, j, k, c)
                          && FrozenRanking(w, states[i].base.db, c) != FrozenRanking(w, states[j].base.db, c);
    ComputesAfter(w, states, steps, n, i, c);
    ComputesAfter(w, states, steps, n, j, c);
    if i < j {
      DifferenceIsChange(w, states, steps, n, i, j, c);
    } else {
      DifferenceIsChange(w, states, steps, n, j, i, c);
    }
  }

  lemma ComputesAfter(w: World, states: seq<State>, steps: seq<Step>, n: nat, j: nat, c: nat)
    requires IsRun(w, states, steps) && n <= |steps| && (forall id :: !Reads(states[n], id, c))
    requires ComputesAt(w, states, steps, j, c)
    ensures n <= j
  {
    hide FrozenRanking, Apply, Enabled;
    assert forall r :: HoldsComputed(states[n], steps[j].id, c, r) ==> Reads(states[n], steps[j].id, c);
    if j < n {
      ComputationIsKept(w, states, steps, j, n, c);
    }
  }

  lemma NoReaderNoSnapshot(w: World, states: seq<State>, steps: seq<Step>, n: nat, c: nat)
    requires IsRun(w, states, steps) && n <= |steps| && (forall id :: !Reads(states[n], id, c))
    ensures c !in states[n].base.db.snapshots
  {
    hide FrozenRanking, Apply, Enabled;
    RunTraced(w, states, steps, n, c);
    assert forall id :: HasAnswered(states[n], id, c) ==> Reads(states[n], id, c);
  }

  /** From a reachable state in which nobody has read the contest frozen, readers can
      come to disagree exactly when the tables alone can change so that its frozen
      ranking is one thing inside the freeze window and another later. */
  lemma DisagreementExactly(w: World, states: seq<State>, steps: seq<Step>, c: nat)
    requires IsRun(w, states, steps) && forall id :: !Reads(states[|steps|], id, c)
    ensures CanDisagree(w, states[|steps|], c) <==> CanChange(w, states[|steps|].base, c)
  {
    hide Continues, AnswersAgree, Changes;
    var n := |steps|;
    var s := states[n];
    if CanChange(w, s.base, c) {
      var xs, ys :| Changes(w, s.base, c, xs, ys);
      NoReaderNoSnapshot(w, states, steps, n, c);
      var tail, more := Race(w, s, c, xs, ys);
    }
    if CanDisagree(w, s, c) {
      var tail, more :| Disagrees(w, s, c, tail, more);
      RunContinues(w, states, steps, tail, more);
      var states', steps' := states + tail, steps + more;
      assert |tail| == |more| && states'[|steps'|] == StateAt(s, tail, |tail|) && states'[n] == s;
      DisagreementShowsChange(w, states', steps', n, c);
    }
  }

  // ------------------------------------------------------------------ an instance

  const SampleContest: Contest := Contest(1, 0, 100 * MINUTE, Some(10), [Problem(7, 10)])
  const SampleWorld: World := World(map[3 := SampleContest], [5])
  const Attempt: Submission := Submission(5, 7, 1, MINUTE, None)
  const Verdict: ContestRuns.Step := ContestRuns.SetVerdict(0, Some("ac"))
  const SampleSteps: seq<Step> := [
    Table(ContestRuns.Submit(5, 7, 1)), Table(ContestRuns.LinkTo(3, 0)), Table(ContestRuns.Advance(95 * MINUTE))]

  /** One attempt from before the freeze is still unjudged in the freeze window. */
  lemma SampleRun() returns (states: seq<State>)
    ensures IsRun(SampleWorld, states, SampleSteps)
    ensures states[3] ==
        State(ContestRuns.State(95 * MINUTE, Db([Attempt], map[0 := Link(3, false)], map[]), []), map[])
  {
    hide ContestRuns.ReadRankings;
    assert SampleContest.problems[0].id == 7 && ContestRuns.HasProblem(SampleContest, 7);
    var s0 := State(ContestRuns.State(MINUTE, Db([], map[], map[]), []), map[]);
    var s1 := State(ContestRuns.State(MINUTE, Db([Attempt], map[], map[]), []), map[]);
    var s2 := State(ContestRuns.State(MINUTE, Db([Attempt], map[0 := Link(3, false)], map[]), []), map[]);
    var s3 := s2.(base := s2.base.(now := 95 * MINUTE));
    assert Leads(SampleWorld, s0, SampleSteps[0], s1);
    assert Leads(SampleWorld, s1, SampleSteps[1], s2);
    assert Leads(SampleWorld, s2, SampleSteps[2], s3);
    states := [s0, s1, s2, s3];
    hide Apply, Enabled;
  }

  /** With one counted attempt the ranking is one entry, which counts it as solved
      exactly if it was accepted. */
  lemma SampleRanking(db: Db)
    requires |db.submissions| == 1 && db.submissions[0] == Attempt.(verdict := db.submissions[0].verdict)
    requires db.links == map[0 := Link(3, false)]
    ensures var r := FrozenRanking(SampleWorld, db, 3);
            |r| == 1 && r[0].solvedCount == if IsAc(db.submissions[0]) then 1 else 0
  {
    var freeze := 90 * MINUTE;
    assert ContestRuns.FreezeTime(SampleContest) == freeze;
    assert Counted(db, 3, freeze, 0) && Participates(db, 3, freeze, 5);
    var e := EntryOf(db, 3, SampleContest, freeze, 5);
    SampleEntry(db);
    hide EntryOf, Participates;
    assert SampleWorld.users[..0] == [] && Entries(db, 3, SampleContest, freeze, []) == [];
    assert Entries(db, 3, SampleContest, freeze, [5]) == [] + [e];
    assert [e][..0] == [] && SortEntries([e][..0]) == [];
    assert SortEntries([e]) == [e];
  }

  lemma SampleEntry(db: Db)
    requires |db.submissions| == 1 && db.submissions[0] == Attempt.(verdict := db.submissions[0].verdict)
    requires db.links == map[0 := Link(3, false)]
    ensures EntryOf(db, 3, SampleContest, 90 * MINUTE, 5).solvedCount == if IsAc(db.submissions[0]) then 1 else 0
  {
    var freeze, s := 90 * MINUTE, db.submissions[0];
    assert Counted(db, 3, freeze, 0);
    assert Attempts(db, 3, freeze, 5, 7, 0) == [];
    var a := Attempts(db, 3, freeze, 5, 7, 1);
    assert a == [s];
    assert AcCount(a, 0) == 0 && AcCount(a, 1) == if IsAc(s) then 1 else 0;
    hide Attempts, AcCount, ProblemRows;
    ProblemRowsCounted(Problem(7, 10), 0, a);
    assert SampleContest.problems[..0] == [] && UserRows(db, 3, SampleContest, freeze, 5, []) == [];
    var rows := ProblemRows(Problem(7, 10), 0, a);
    assert [] + rows == rows;
    assert UserRows(db, 3, SampleContest, freeze, 5, SampleContest.problems) == rows;
  }

  /** A verdict that arrives between two first readers' computations: they disagree. */
  lemma FirstReadersDisagree() returns (states: seq<State>, steps: seq<Step>)
    ensures IsRun(SampleWorld, states, steps) && !AnswersAgree(states[|steps|], 3)
  {
    states := SampleRun();
    var s := states[3];
    SampleChanges(s.base);
    hide Changes, IsRun, AnswersAgree;
    var tail, more := Race(SampleWorld, s, 3, [], [Verdict]);
    RunContinues(SampleWorld, states, SampleSteps, tail, more);
    states, steps := states + tail, SampleSteps + more;
  }

  lemma SampleChanges(s: ContestRuns.State)
    requires s == ContestRuns.State(95 * MINUTE, Db([Attempt], map[0 := Link(3, false)], map[]), [])
    ensures Changes(SampleWorld, s, 3, [], [Verdict])
  {
    hide FrozenRanking;
    var judged := ContestRuns.Apply(SampleWorld, s, Verdict);
    SampleRanking(s.db);
    SampleRanking(judged.db);
    assert [Verdict][1..] == [] && Allowed(SampleWorld, judged, []) && Allowed(SampleWorld, s, [Verdict]);
    assert Follow(SampleWorld, s, []) == s && Follow(SampleWorld, s, [Verdict]) == judged;
  }
}
