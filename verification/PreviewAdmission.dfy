/** Admission, consumption and expiry of import previews (domain-imex `routes.rs`).

    A global counter and a shared token map are changed in separate atomic steps by
    three kinds of actor: validate requests, execute requests and the expiry task
    each successful validate spawns. Any actor may take its next step at any time. */
module PreviewAdmission {

  const MAX_PREVIEW_CACHE_SIZE: nat := 50

  type Token = nat

  datatype Kind = ProblemImport | UserImport

  datatype Preview = Preview(kind: Kind, creator: nat, org: int, payload: nat)

  datatype Caller = Caller(kind: Kind, user: nat, org: int)

  predicate Owns(c: Caller, p: Preview) {
    c.kind == p.kind && c.user == p.creator && c.org == p.org
  }

  datatype Outcome =
    Previewed | Unavailable | BadRequest | Forbidden | Executed(preview: Preview) | Expired | NothingToExpire

  /** Where one request or background task stands between two atomic steps. */
  datatype Actor =
    | ValidateReady(token: Token, preview: Preview)
    | Admitted(token: Token, preview: Preview)
    | Rejected
    | Inserted(token: Token)
    | ExpiryWaiting(token: Token)
    | ExecuteReady(caller: Caller, token: Token)
    | Peeked(caller: Caller, token: Token)
    | Removed(outcome: Outcome)
    | Finished(outcome: Outcome)
  {
    /** Has added one to the counter that nothing in the cache stands for. */
    predicate Charged() { Admitted? || Rejected? || Removed? }

    /** Still going to put this token in the cache. */
    predicate WillInsert(t: Token) { (ValidateReady? || Admitted?) && token == t }

    /** Still going to look for this token in order to expire it. */
    predicate WillExpire(t: Token) { (Inserted? || ExpiryWaiting?) && token == t }
  }

  /** `issued` and `consumed` record history: which preview each token was made
      for, and which tokens have been taken out of the cache. */
  datatype State = State(
    counter: int,
    cache: map<Token, Preview>,
    actors: map<nat, Actor>,
    issued: map<Token, Preview>,
    consumed: set<Token>)

  const Initial: State := State(0, map[], map[], map[], {})

  datatype Step =
    | BeginValidate(id: nat, token: Token, preview: Preview)
    | FetchAdd(id: nat)
    | UndoReject(id: nat)
    | Insert(id: nat)
    | SpawnExpiry(id: nat, task: nat)
    | BeginExecute(id: nat, caller: Caller, token: Token)
    | Peek(id: nat)
    | Consume(id: nat)
    | Expire(id: nat)
    | Release(id: nat)

  /** Tokens are fresh random identifiers; every other step continues an actor. */
  predicate Enabled(s: State, step: Step) {
    match step
    case BeginValidate(id, t, _) => id !in s.actors && t !in s.issued
    case FetchAdd(id) => id in s.actors && s.actors[id].ValidateReady?
    case UndoReject(id) => id in s.actors && s.actors[id].Rejected?
    case Insert(id) => id in s.actors && s.actors[id].Admitted?
    case SpawnExpiry(id, task) => id in s.actors && s.actors[id].Inserted? && task !in s.actors
    case BeginExecute(id, _, _) => id !in s.actors
    case Peek(id) => id in s.actors && s.actors[id].ExecuteReady?
    case Consume(id) => id in s.actors && s.actors[id].Peeked?
    case Expire(id) => id in s.actors && s.actors[id].ExpiryWaiting?
    case Release(id) => id in s.actors && s.actors[id].Removed?
  }

  function Move(s: State, id: nat, a: Actor): State {
    s.(actors := s.actors[id := a])
  }

  /** Removes a token that is present; the remover has yet to release its slot. */
  function Take(s: State, id: nat, t: Token, outcome: Outcome): State {
    Move(s, id, Removed(outcome)).(cache := s.cache - {t}, consumed := s.consumed + {t})
  }

  function Apply(s: State, step: Step): State
    requires Enabled(s, step)
  {
    match step
    case BeginValidate(id, t, p) => Move(s, id, ValidateReady(t, p)).(issued := s.issued[t := p])
    case FetchAdd(id) =>
      var a := s.actors[id];
      var next := if s.counter >= MAX_PREVIEW_CACHE_SIZE then Rejected else Admitted(a.token, a.preview);
      Move(s, id, next).(counter := s.counter + 1)
    case UndoReject(id) => Move(s, id, Finished(Unavailable)).(counter := s.counter - 1)
    case Insert(id) =>
      var a := s.actors[id];
      Move(s, id, Inserted(a.token)).(cache := s.cache[a.token := a.preview])
    case SpawnExpiry(id, task) =>
      Move(Move(s, id, Finished(Previewed)), task, ExpiryWaiting(s.actors[id].token))
    case BeginExecute(id, caller, t) => Move(s, id, ExecuteReady(caller, t))
    case Peek(id) =>
      var a := s.actors[id];
      if a.token !in s.cache then Move(s, id, Finished(BadRequest))
      else
        var p := s.cache[a.token];
        if p.kind != a.caller.kind then Move(s, id, Finished(BadRequest))
        else if p.creator != a.caller.user || p.org != a.caller.org then Move(s, id, Finished(Forbidden))
        else Move(s, id, Peeked(a.caller, a.token))
    case Consume(id) =>
      var a := s.actors[id];
      if a.token !in s.cache then Move(s, id, Finished(BadRequest))
      else
        var p := s.cache[a.token];
        Take(s, id, a.token, if p.kind == a.caller.kind then Executed(p) else BadRequest)
    case Expire(id) =>
      var t := s.actors[id].token;
      if t !in s.cache then Move(s, id, Finished(NothingToExpire)) else Take(s, id, t, Expired)
    case Release(id) => Move(s, id, Finished(s.actors[id].outcome)).(counter := s.counter - 1)
  }

  // ----------------------------------------------------------------- counting

  ghost function Ids(actors: map<nat, Actor>, p: Actor -> bool): set<nat> {
    set id | id in actors && p(actors[id])
  }

  const IsCharged: Actor -> bool := (a: Actor) => a.Charged()
  const IsAdmitted: Actor -> bool := (a: Actor) => a.Admitted?
  const IsRejected: Actor -> bool := (a: Actor) => a.Rejected?
  const IsRemoved: Actor -> bool := (a: Actor) => a.Removed?

  function Bit(b: bool): nat { if b then 1 else 0 }

  lemma SetSizes(before: set<nat>, after: set<nat>, id: nat)
    requires before - {id} == after - {id}
    ensures |after| == |before| - Bit(id in before) + Bit(id in after)
  {
    var rest := before - {id};
    assert before == if id in before then rest + {id} else rest;
    assert after == if id in after then rest + {id} else rest;
  }

  lemma MoveCount(actors: map<nat, Actor>, p: Actor -> bool, id: nat, a: Actor)
    ensures |Ids(actors[id := a], p)| == |Ids(actors, p)| - Bit(id in actors && p(actors[id])) + Bit(p(a))
  {
    var before, after := Ids(actors, p), Ids(actors[id := a], p);
    assert id in before <==> id in actors && p(actors[id]);
    assert id in after <==> p(a);
    SetSizes(before, after, id);
  }

  lemma DisjointSizes(all: set<nat>, a: set<nat>, r: set<nat>, m: set<nat>)
    requires all == a + r + m && a !! r && (a + r) !! m
    ensures |all| == |a| + |r| + |m|
  {
    assert |a + r| == |a| + |r|;
  }

  lemma ChargedClass(actors: map<nat, Actor>, id: nat)
    ensures id in Ids(actors, IsCharged) <==>
            id in Ids(actors, IsAdmitted) || id in Ids(actors, IsRejected) || id in Ids(actors, IsRemoved)
    ensures id in Ids(actors, IsAdmitted) ==> id !in Ids(actors, IsRejected) && id !in Ids(actors, IsRemoved)
    ensures id in Ids(actors, IsRejected) ==> id !in Ids(actors, IsRemoved)
  {
  }

  lemma ChargedSplits(actors: map<nat, Actor>)
    ensures |Ids(actors, IsCharged)| == |Ids(actors, IsAdmitted)| + |Ids(actors, IsRejected)| + |Ids(actors, IsRemoved)|
  {
    hide Ids, IsCharged, IsAdmitted, IsRejected, IsRemoved;
    forall id: nat {
      ChargedClass(actors, id);
    }
    DisjointSizes(Ids(actors, IsCharged), Ids(actors, IsAdmitted), Ids(actors, IsRejected), Ids(actors, IsRemoved));
  }

  // ---------------------------------------------------------------- invariants

  ghost predicate Counted(s: State) {
    && s.counter == |s.cache| + |Ids(s.actors, IsCharged)|
    && |s.cache| + |Ids(s.actors, IsAdmitted)| <= MAX_PREVIEW_CACHE_SIZE
  }

  ghost predicate CacheTracked(s: State) {
    && (forall t :: t in s.cache ==> t in s.issued && s.cache[t] == s.issued[t] && t !in s.consumed)
    && (forall t :: t in s.consumed ==> t in s.issued)
  }

  ghost predicate Awaits(s: State, id: nat, t: Token) {
    id in s.actors && s.actors[id].WillInsert(t)
  }

  ghost predicate InsertsTracked(s: State) {
    && (forall id, t :: Awaits(s, id, t) ==>
          t in s.issued && s.issued[t] == s.actors[id].preview && t !in s.cache && t !in s.consumed)
    && (forall i, j, t :: Awaits(s, i, t) && Awaits(s, j, t) ==> i == j)
  }

  ghost predicate PeeksTracked(s: State) {
    forall id :: id in s.actors && s.actors[id].Peeked? ==>
      s.actors[id].token in s.issued && Owns(s.actors[id].caller, s.issued[s.actors[id].token])
  }

  /** A token stands for one preview for ever, and passes through the cache once. */
  ghost predicate TokensTracked(s: State) {
    CacheTracked(s) && InsertsTracked(s) && PeeksTracked(s)
  }

  ghost predicate HasExpiry(s: State, t: Token) {
    exists id :: id in s.actors && s.actors[id].WillExpire(t)
  }

  ghost predicate ExpiryPending(s: State) {
    forall t :: t in s.cache ==> HasExpiry(s, t)
  }

  ghost predicate Inv(s: State) {
    Counted(s) && TokensTracked(s) && ExpiryPending(s)
  }

  lemma StepKeepsCache(s: State, step: Step)
    requires TokensTracked(s) && Enabled(s, step)
    ensures CacheTracked(Apply(s, step))
  {
    if step.Insert? {
      assert Awaits(s, step.id, s.actors[step.id].token);
    }
  }

  /** The actors that will still insert after a step are those that would have
      before it, or a newly begun one with a fresh token. */
  lemma AwaitsBefore(s: State, step: Step, id: nat, t: Token)
    requires Enabled(s, step) && Awaits(Apply(s, step), id, t)
    ensures Awaits(s, id, t) || (step.BeginValidate? && id == step.id && t == step.token)
    ensures step.Insert? ==> id != step.id
    ensures Awaits(s, id, t) ==> Apply(s, step).actors[id].preview == s.actors[id].preview
  {
  }

  lemma StepKeepsInserts(s: State, step: Step)
    requires TokensTracked(s) && Enabled(s, step)
    ensures InsertsTracked(Apply(s, step))
  {
    var s' := Apply(s, step);
    forall id, t | Awaits(s', id, t)
      ensures t in s'.issued && s'.issued[t] == s'.actors[id].preview && t !in s'.cache && t !in s'.consumed
    {
      AwaitsBefore(s, step, id, t);
      if step.Insert? {
        assert Awaits(s, step.id, s.actors[step.id].token);
      }
    }
    forall i, j, t | Awaits(s', i, t) && Awaits(s', j, t) ensures i == j {
      AwaitsBefore(s, step, i, t);
      AwaitsBefore(s, step, j, t);
    }
  }

  lemma StepKeepsPeeks(s: State, step: Step)
    requires TokensTracked(s) && Enabled(s, step)
    ensures PeeksTracked(Apply(s, step))
  {
  }

  lemma StepKeepsExpiry(s: State, step: Step)
    requires ExpiryPending(s) && Enabled(s, step)
    ensures ExpiryPending(Apply(s, step))
  {
    var s' := Apply(s, step);
    forall t | t in s'.cache ensures HasExpiry(s', t) {
      if t in s.cache {
        assert HasExpiry(s, t);
        var id :| id in s.actors && s.actors[id].WillExpire(t);
        if step.SpawnExpiry? && id == step.id {
          assert s'.actors[step.task].WillExpire(t);
        } else {
          assert s'.actors[id].WillExpire(t);
        }
      } else {
        assert s'.actors[step.id].WillExpire(t);
      }
    }
  }

  lemma AddSize(m: map<Token, Preview>, t: Token, p: Preview)
    requires t !in m
    ensures |m[t := p]| == |m| + 1
  {
  }

  lemma RemoveSize(m: map<Token, Preview>, t: Token)
    requires t in m
    ensures |m - {t}| == |m| - 1
  {
  }

  lemma InsertedIsNew(s: State, id: nat)
    requires TokensTracked(s) && id in s.actors && s.actors[id].Admitted?
    ensures s.actors[id].token !in s.cache
  {
  }

  lemma CacheSize(s: State, step: Step)
    requires TokensTracked(s) && Enabled(s, step)
    ensures |Apply(s, step).cache| == |s.cache| + Bit(step.Insert?) -
            Bit((step.Consume? || step.Expire?) && s.actors[step.id].token in s.cache)
  {
    hide TokensTracked, CacheTracked, InsertsTracked, PeeksTracked;
    if step.Insert? {
      InsertedIsNew(s, step.id);
      AddSize(s.cache, s.actors[step.id].token, s.actors[step.id].preview);
    } else if (step.Consume? || step.Expire?) && s.actors[step.id].token in s.cache {
      RemoveSize(s.cache, s.actors[step.id].token);
    }
  }

  /** Only the stepping actor enters or leaves a counted class; a spawned task is in none. */
  lemma StepCounts(s: State, step: Step)
    requires Enabled(s, step)
    ensures var a' := Apply(s, step).actors[step.id];
            && |Ids(Apply(s, step).actors, IsCharged)| == |Ids(s.actors, IsCharged)|
               - Bit(step.id in s.actors && s.actors[step.id].Charged()) + Bit(a'.Charged())
            && |Ids(Apply(s, step).actors, IsAdmitted)| == |Ids(s.actors, IsAdmitted)|
               - Bit(step.id in s.actors && s.actors[step.id].Admitted?) + Bit(a'.Admitted?)
  {
    hide Ids;
    var s' := Apply(s, step);
    ActorCounts(s.actors, step.id, s'.actors[step.id]);
    if step.SpawnExpiry? {
      ActorCounts(s.actors[step.id := s'.actors[step.id]], step.task, s'.actors[step.task]);
    } else {
      assert s'.actors == s.actors[step.id := s'.actors[step.id]];
    }
  }

  lemma StepKeepsCount(s: State, step: Step)
    requires Counted(s) && TokensTracked(s) && Enabled(s, step)
    ensures Counted(Apply(s, step))
  {
    hide Ids, TokensTracked, CacheTracked, InsertsTracked, PeeksTracked;
    CacheSize(s, step);
    StepCounts(s, step);
    ActorCounts(s.actors, step.id, Rejected);
  }

  lemma ActorCounts(actors: map<nat, Actor>, id: nat, a: Actor)
    ensures |Ids(actors[id := a], IsCharged)| ==
        |Ids(actors, IsCharged)| - Bit(id in actors && actors[id].Charged()) + Bit(a.Charged())
    ensures |Ids(actors[id := a], IsAdmitted)| ==
        |Ids(actors, IsAdmitted)| - Bit(id in actors && actors[id].Admitted?) + Bit(a.Admitted?)
    ensures |Ids(actors, IsAdmitted)| <= |Ids(actors, IsCharged)|
  {
    MoveCount(actors, IsCharged, id, a);
    MoveCount(actors, IsAdmitted, id, a);
    ChargedSplits(actors);
  }

  // -------------------------------------------------------------- whole runs

  /** A run visits `states`, taking `steps` in some interleaving of the actors. */
  ghost predicate IsRun(states: seq<State>, steps: seq<Step>) {
    && |states| == |steps| + 1
    && states[0] == Initial
    && forall k :: 0 <= k < |steps| ==> Enabled(states[k], steps[k]) && states[k + 1] == Apply(states[k], steps[k])
  }

  lemma {:induction false} RunKeepsInv(states: seq<State>, steps: seq<Step>, k: nat)
    requires IsRun(states, steps) && k <= |steps|
    ensures Inv(states[k])
  {
    if k > 0 {
      RunKeepsInv(states, steps, k - 1);
      StepKeepsCache(states[k - 1], steps[k - 1]);
      StepKeepsInserts(states[k - 1], steps[k - 1]);
      StepKeepsPeeks(states[k - 1], steps[k - 1]);
      StepKeepsExpiry(states[k - 1], steps[k - 1]);
      StepKeepsCount(states[k - 1], steps[k - 1]);
    }
  }

  /** The counter is the cached previews plus the three kinds of step in progress,
      it is never negative, and the cache never outgrows its limit. */
  lemma CounterIdentity(states: seq<State>, steps: seq<Step>, k: nat)
    requires IsRun(states, steps) && k <= |steps|
    ensures var s := states[k];
            && s.counter ==
               |s.cache| + |Ids(s.actors, IsAdmitted)| + |Ids(s.actors, IsRejected)| + |Ids(s.actors, IsRemoved)|
            && s.counter >= 0 && |s.cache| <= MAX_PREVIEW_CACHE_SIZE
  {
    RunKeepsInv(states, steps, k);
    ChargedSplits(states[k].actors);
  }

  /** No decrement ever finds the counter at zero. */
  lemma CounterNeverUnderflows(states: seq<State>, steps: seq<Step>, k: nat)
    requires IsRun(states, steps) && k < |steps| && (steps[k].UndoReject? || steps[k].Release?)
    ensures states[k].counter >= 1
  {
    RunKeepsInv(states, steps, k);
    assert steps[k].id in Ids(states[k].actors, IsCharged);
  }

  /** A validate is turned away exactly when every slot is held by a cached preview
      or by a step in progress. */
  lemma AdmissionExact(states: seq<State>, steps: seq<Step>, k: nat)
    requires IsRun(states, steps) && k < |steps| && steps[k].FetchAdd?
    ensures states[k + 1].actors[steps[k].id].Rejected? <==>
            |states[k].cache| + |Ids(states[k].actors, IsCharged)| >= MAX_PREVIEW_CACHE_SIZE
  {
    RunKeepsInv(states, steps, k);
  }

  /** The step finds this token in the cache and removes it. */
  predicate Takes(s: State, step: Step, t: Token) {
    Enabled(s, step) && (step.Consume? || step.Expire?) && s.actors[step.id].token == t && t in s.cache
  }

  lemma {:induction false} ConsumedGrows(states: seq<State>, steps: seq<Step>, j: nat, k: nat)
    requires IsRun(states, steps) && j <= k <= |steps|
    ensures states[j].consumed <= states[k].consumed
  {
    if j < k {
      ConsumedGrows(states, steps, j, k - 1);
    }
  }

  lemma TokenConsumedOnce(states: seq<State>, steps: seq<Step>, j: nat, k: nat, t: Token)
    requires IsRun(states, steps) && j < k < |steps|
    requires Takes(states[j], steps[j], t)
    ensures !Takes(states[k], steps[k], t)
  {
    ConsumedGrows(states, steps, j + 1, k);
    assert t in states[j + 1].consumed;
    RunKeepsInv(states, steps, k);
  }

  /** An execute request that gets a preview gets the one made with its token, and
      it is the same user, organization and kind of import that made it. */
  lemma ConsumedByOwner(states: seq<State>, steps: seq<Step>, k: nat)
    requires IsRun(states, steps) && k < |steps| && steps[k].Consume?
    requires Takes(states[k], steps[k], states[k].actors[steps[k].id].token)
    ensures var a := states[k].actors[steps[k].id];
            && a.token in states[k].issued && Owns(a.caller, states[k].issued[a.token])
            && states[k + 1].actors[steps[k].id] == Removed(Executed(states[k].issued[a.token]))
  {
    RunKeepsInv(states, steps, k);
  }

  /** When every actor has finished, every slot has been given back. */
  lemma DrainedWhenQuiet(states: seq<State>, steps: seq<Step>, k: nat)
    requires IsRun(states, steps) && k <= |steps|
    requires forall id :: id in states[k].actors ==> states[k].actors[id].Finished?
    ensures states[k].cache == map[] && states[k].counter == 0
  {
    RunKeepsInv(states, steps, k);
    var s := states[k];
    assert Ids(s.actors, IsCharged) == {};
    assert forall t :: !HasExpiry(s, t);
  }

  // ---------------------------------------------------------- how requests end

  lemma StepAt(states: seq<State>, steps: seq<Step>, k: nat)
    requires IsRun(states, steps) && k < |steps|
    ensures Enabled(states[k], steps[k]) && states[k + 1] == Apply(states[k], steps[k])
  {
  }

  /** A peek lets exactly the owner of a cached preview through, whose preview it then
      is; it forbids exactly the others who ask for the right kind of import. */
  lemma PeekExact(states: seq<State>, steps: seq<Step>, k: nat)
    requires IsRun(states, steps) && k < |steps| && steps[k].Peek?
    ensures states[k].actors[steps[k].id].ExecuteReady?
    ensures var s, after := states[k], states[k + 1].actors[steps[k].id];
            var caller, t := s.actors[steps[k].id].caller, s.actors[steps[k].id].token;
            && (after == Peeked(caller, t) <==> t in s.cache && Owns(caller, s.cache[t]))
            && (after == Finished(Forbidden) <==>
                  t in s.cache && s.cache[t].kind == caller.kind && !Owns(caller, s.cache[t]))
            && (after == Finished(BadRequest) <==> t !in s.cache || s.cache[t].kind != caller.kind)
            && (t in s.cache ==> t in s.issued && s.cache[t] == s.issued[t])
    ensures states[k + 1].cache == states[k].cache && states[k + 1].counter == states[k].counter
  {
    StepAt(states, steps, k);
    RunKeepsInv(states, steps, k);
    hide Inv, IsRun;
    assert CacheTracked(states[k]) by { InvTracks(states[k]); }
  }

  lemma InvTracks(s: State)
    requires Inv(s)
    ensures CacheTracked(s) && InsertsTracked(s)
  {
  }

  /** Nothing but a step that takes it removes a token from the cache. */
  lemma {:induction false} StaysCached(states: seq<State>, steps: seq<Step>, j: nat, k: nat, t: Token)
    requires IsRun(states, steps) && j <= k <= |steps| && t in states[j].cache
    requires forall x :: j <= x < k ==> !Takes(states[x], steps[x], t)
    ensures t in states[k].cache
  {
    if j < k {
      StaysCached(states, steps, j, k - 1, t);
      StepAt(states, steps, k - 1);
      hide IsRun;
    }
  }

  /** A token that was taken is not in the cache again. */
  lemma TakenIsGone(states: seq<State>, steps: seq<Step>, x: nat, k: nat, t: Token)
    requires IsRun(states, steps) && x < k <= |steps| && Takes(states[x], steps[x], t)
    ensures t !in states[k].cache
  {
    ConsumedGrows(states, steps, x + 1, k);
    StepAt(states, steps, x);
    RunKeepsInv(states, steps, k);
    InvTracks(states[k]);
    hide IsRun, Inv;
  }

  /** How far an actor has come. */
  function Rank(a: Actor): nat {
    match a
    case ValidateReady(_, _) => 0
    case ExecuteReady(_, _) => 0
    case ExpiryWaiting(_) => 0
    case Admitted(_, _) => 1
    case Rejected => 1
    case Peeked(_, _) => 1
    case Inserted(_) => 2
    case Removed(_) => 2
    case Finished(_) => 3
  }

  /** A step moves its own actor on and leaves every other as it is. */
  lemma StepMovesOne(s: State, step: Step, id: nat)
    requires Enabled(s, step) && id in s.actors
    ensures id in Apply(s, step).actors
    ensures id != step.id ==> Apply(s, step).actors[id] == s.actors[id]
    ensures id == step.id ==> Rank(Apply(s, step).actors[id]) > Rank(s.actors[id])
  {
  }

  lemma {:induction false} RankGrows(states: seq<State>, steps: seq<Step>, j: nat, k: nat, id: nat)
    requires IsRun(states, steps) && j <= k <= |steps| && id in states[j].actors
    ensures id in states[k].actors && Rank(states[k].actors[id]) >= Rank(states[j].actors[id])
    ensures Rank(states[k].actors[id]) == Rank(states[j].actors[id]) ==> states[k].actors[id] == states[j].actors[id]
  {
    hide Rank, Apply, Enabled;
    if j < k {
      RankGrows(states, steps, j, k - 1, id);
      StepMovesOne(states[k - 1], steps[k - 1], id);
    }
  }

  /** An execute request whose peek went on gets the preview issued with its token
      exactly if no step took the token between its peek and its consume; otherwise it
      ends as a bad request. */
  lemma ConsumeExact(states: seq<State>, steps: seq<Step>, p: nat, c: nat, id: nat)
    requires IsRun(states, steps) && p < c < |steps| && steps[p] == Peek(id) && steps[c] == Consume(id)
    ensures id in states[p].actors && states[p].actors[id].ExecuteReady?
    ensures var t, after := states[p].actors[id].token, states[c + 1].actors[id];
            && t in states[c].issued
            && (after == Removed(Executed(states[c].issued[t])) <==>
                  forall x :: p < x < c ==> !Takes(states[x], steps[x], t))
            && (after == Finished(BadRequest) <==> exists x :: p < x < c && Takes(states[x], steps[x], t))
  {
    var caller, t := states[p].actors[id].caller, states[p].actors[id].token;
    StepAt(states, steps, p);
    PeekExact(states, steps, p);
    StepAt(states, steps, c);
    RankGrows(states, steps, p + 1, c, id);
    var taken := exists x :: p < x < c && Takes(states[x], steps[x], t);
    if taken {
      var x :| p < x < c && Takes(states[x], steps[x], t);
      TakenIsGone(states, steps, x, c, t);
    } else {
      StaysCached(states, steps, p + 1, c, t);
      ConsumedByOwner(states, steps, c);
    }
    IssuedGrows(states, steps, p, c, t);
  }

  lemma {:induction false} IssuedGrows(states: seq<State>, steps: seq<Step>, j: nat, k: nat, t: Token)
    requires IsRun(states, steps) && j <= k <= |steps| && t in states[j].issued
    ensures t in states[k].issued && states[k].issued[t] == states[j].issued[t]
  {
    if j < k {
      IssuedGrows(states, steps, j, k - 1, t);
      StepAt(states, steps, k - 1);
      hide IsRun;
    }
  }

  /** Once a preview is in the cache, its owner's execute request succeeds with just
      that preview, unless some other step takes the token before its consume. */
  lemma OwnerExecutes(states: seq<State>, steps: seq<Step>, i: nat, p: nat, c: nat, r: nat, id: nat)
    requires IsRun(states, steps) && i < p < c < r < |steps| && steps[i].Insert?
    requires steps[p] == Peek(id) && steps[c] == Consume(id) && steps[r] == Release(id)
    requires var t := states[i].actors[steps[i].id].token;
             && states[p].actors[id].token == t && t in states[p].issued
             && Owns(states[p].actors[id].caller, states[p].issued[t])
             && forall x :: i < x < c ==> !Takes(states[x], steps[x], t)
    ensures var t := states[i].actors[steps[i].id].token;
            t in states[i].issued && states[r + 1].actors[id] == Finished(Executed(states[i].issued[t]))
  {
    var t := states[i].actors[steps[i].id].token;
    InsertExact(states, steps, i);
    StaysCached(states, steps, i + 1, p, t);
    PeekExact(states, steps, p);
    ConsumeExact(states, steps, p, c, id);
    IssuedGrows(states, steps, i, p, t);
    IssuedGrows(states, steps, p, c, t);
    RankGrows(states, steps, c + 1, r, id);
    StepAt(states, steps, r);
  }

  /** An insert puts the preview issued with the token into the cache. */
  lemma InsertExact(states: seq<State>, steps: seq<Step>, k: nat)
    requires IsRun(states, steps) && k < |steps| && steps[k].Insert?
    ensures var t := states[k].actors[steps[k].id].token;
            && t in states[k].issued && t !in states[k].cache
            && states[k + 1].cache == states[k].cache[t := states[k].issued[t]]
  {
    StepAt(states, steps, k);
    RunKeepsInv(states, steps, k);
    InvTracks(states[k]);
    hide Inv, IsRun;
    assert Awaits(states[k], steps[k].id, states[k].actors[steps[k].id].token);
  }

  /** What can become of a validate request once it has been counted. */
  predicate Admits(a: Actor) { a.Admitted? || a.Inserted? || a == Finished(Previewed) }

  predicate Rejects(a: Actor) { a.Rejected? || a == Finished(Unavailable) }

  lemma StepKeepsPath(s: State, step: Step, id: nat)
    requires Enabled(s, step) && id in s.actors
    ensures Admits(s.actors[id]) ==> Admits(Apply(s, step).actors[id])
    ensures Rejects(s.actors[id]) ==> Rejects(Apply(s, step).actors[id])
  {
  }

  lemma {:induction false} PathKept(states: seq<State>, steps: seq<Step>, j: nat, k: nat, id: nat)
    requires IsRun(states, steps) && j <= k <= |steps| && id in states[j].actors
    ensures id in states[k].actors
    ensures Admits(states[j].actors[id]) ==> Admits(states[k].actors[id])
    ensures Rejects(states[j].actors[id]) ==> Rejects(states[k].actors[id])
  {
    hide Admits, Rejects, Apply, Enabled;
    if j < k {
      PathKept(states, steps, j, k - 1, id);
      StepMovesOne(states[k - 1], steps[k - 1], id);
      StepKeepsPath(states[k - 1], steps[k - 1], id);
    }
  }

  /** A validate request that has finished ended as unavailable exactly if every slot was
      held when it was counted, and with a preview otherwise. */
  lemma ValidateExact(states: seq<State>, steps: seq<Step>, f: nat, k: nat, id: nat)
    requires IsRun(states, steps) && f < k <= |steps| && steps[f] == FetchAdd(id)
    ensures id in states[k].actors
    ensures var full := |states[f].cache| + |Ids(states[f].actors, IsCharged)| >= MAX_PREVIEW_CACHE_SIZE;
            states[k].actors[id].Finished? ==>
              states[k].actors[id].outcome == if full then Unavailable else Previewed
  {
    StepAt(states, steps, f);
    AdmissionExact(states, steps, f);
    PathKept(states, steps, f + 1, k, id);
    hide IsRun, Ids;
  }

  /** An expiry task removes its token exactly if it is still there. */
  lemma ExpireExact(states: seq<State>, steps: seq<Step>, k: nat)
    requires IsRun(states, steps) && k < |steps| && steps[k].Expire?
    ensures var t, after := states[k].actors[steps[k].id].token, states[k + 1].actors[steps[k].id];
            && (after == Removed(Expired) <==> t in states[k].cache)
            && (after == Finished(NothingToExpire) <==> t !in states[k].cache)
            && states[k + 1].cache == states[k].cache - {t}
  {
    StepAt(states, steps, k);
    hide IsRun;
  }
}
