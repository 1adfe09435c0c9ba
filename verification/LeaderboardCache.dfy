/** The global leaderboard and its Redis cache (domain-leaderboard `service.rs`).
    Requests look up, compute and store in separate steps, in any interleaving. */
module LeaderboardCache {
  import opened Common
  import opened Text

  datatype Query = Query(limit: Option<int>, offset: Option<int>, timeframe: Option<string>, minProblems: Option<int>)

  /** One request: its parameters and the tenant scope of the caller. */
  datatype Request = Request(query: Query, school: Option<int>, grade: Option<int>)

  /** What the result depends on, after defaults are filled in. */
  datatype Scope = Scope(school: Option<int>, grade: Option<int>, timeframe: string, minProblems: int, limit: int,
      offset: int)

  function OrElse<T>(o: Option<T>, d: T): T { if o.Some? then o.value else d }

  function Min(a: int, b: int): int { if a < b then a else b }

  function ScopeOf(r: Request): Scope {
    Scope(r.school, r.grade, OrElse(r.query.timeframe, "all"), OrElse(r.query.minProblems, 0),
          Min(OrElse(r.query.limit, 100), 1000), OrElse(r.query.offset, 0))
  }

  const Prefix: string := "leaderboard:global"

  function SchoolSuffix(o: Option<int>): string { if o.Some? then ":org:" + Decimal(o.value) else "" }

  function GradeSuffix(o: Option<int>): string { if o.Some? then ":grade:" + Decimal(o.value) else "" }

  function TimeframePart(s: Scope): string { "tf=" + s.timeframe + ":min" }

  function MinimumPart(s: Scope): string { TimeframePart(s) + "=" + Decimal(s.minProblems) }

  function LimitPart(s: Scope): string { MinimumPart(s) + ":" + Decimal(s.limit) }

  /** The part of the key after the scopes: `tf=...:min=...:limit:offset`. */
  function KeyTail(s: Scope): string { LimitPart(s) + ":" + Decimal(s.offset) }

  function CacheKey(s: Scope): string {
    Prefix + SchoolSuffix(s.school) + GradeSuffix(s.grade) + ":" + KeyTail(s)
  }

  // ------------------------------------------------------------ reading a key

  function GradedTail(s: Scope): string {
    if s.grade.Some? then "grade:" + Decimal(s.grade.value) + ":" + KeyTail(s) else KeyTail(s)
  }

  function ScopedTail(s: Scope): string {
    if s.school.Some? then "org:" + Decimal(s.school.value) + ":" + GradedTail(s) else GradedTail(s)
  }

  lemma Regroup(p: string, o: string, g: string, t: string)
    ensures p + o + g + ":" + t == p + (o + (g + ":" + t))
  {
  }

  lemma KeyParts(s: Scope)
    ensures CacheKey(s) == (Prefix + ":") + ScopedTail(s)
  {
    hide KeyTail, Decimal;
    var o, g, t := SchoolSuffix(s.school), GradeSuffix(s.grade), KeyTail(s);
    Regroup(Prefix, o, g, t);
    if s.grade.Some? {
      assert ":grade:" == ":" + "grade:";
    }
    assert g + ":" + t == ":" + GradedTail(s);
    if s.school.Some? {
      assert ":org:" == ":" + "org:";
      assert o + (":" + GradedTail(s)) == o + ":" + GradedTail(s);
    }
    assert o + (":" + GradedTail(s)) == ":" + ScopedTail(s);
    assert Prefix + (":" + ScopedTail(s)) == (Prefix + ":") + ScopedTail(s);
  }

  lemma DropPrefix(p: string, x: string, y: string)
    requires p + x == p + y
    ensures x == y
  {
    assert x == (p + x)[|p|..] && y == (p + y)[|p|..];
  }

  /** A number between a fixed opening and a colon can be read off. */
  lemma NumberField(head: string, a: int, x: string, b: int, y: string)
    requires head + Decimal(a) + ":" + x == head + Decimal(b) + ":" + y
    ensures a == b && x == y
  {
    DecimalChars(a);
    DecimalChars(b);
    assert head + Decimal(a) + ":" + x == head + (Decimal(a) + ":" + x);
    assert head + Decimal(b) + ":" + y == head + (Decimal(b) + ":" + y);
    DropPrefix(head, Decimal(a) + ":" + x, Decimal(b) + ":" + y);
    SplitFirst(Decimal(a), x, Decimal(b), y, ':');
    DecimalInjective(a, b);
  }

  /** A number after the last occurrence of a separator can be read off. */
  lemma TrailingNumber(x: string, a: int, y: string, b: int, sep: char)
    requires sep == ':' || sep == '='
    requires x + [sep] + Decimal(a) == y + [sep] + Decimal(b)
    ensures a == b && x == y
  {
    DecimalChars(a);
    DecimalChars(b);
    SplitLast(x, Decimal(a), y, Decimal(b), sep);
    DecimalInjective(a, b);
  }

  /** The timeframe may hold colons and equals signs: the numbers after it are read
      from the right. */
  lemma KeyTailInjective(s: Scope, t: Scope)
    requires KeyTail(s) == KeyTail(t)
    ensures s.timeframe == t.timeframe && s.minProblems == t.minProblems && s.limit == t.limit && s.offset == t.offset
  {
    hide Decimal, TimeframePart, MinimumPart, LimitPart;
    TrailingNumber(LimitPart(s), s.offset, LimitPart(t), t.offset, ':');
    LimitPartInjective(s, t);
  }

  lemma LimitPartInjective(s: Scope, t: Scope)
    requires LimitPart(s) == LimitPart(t)
    ensures s.timeframe == t.timeframe && s.minProblems == t.minProblems && s.limit == t.limit
  {
    hide Decimal, TimeframePart;
    TrailingNumber(MinimumPart(s), s.limit, MinimumPart(t), t.limit, ':');
    TrailingNumber(TimeframePart(s), s.minProblems, TimeframePart(t), t.minProblems, '=');
    TimeframePartInjective(s, t);
  }

  lemma TimeframePartInjective(s: Scope, t: Scope)
    requires TimeframePart(s) == TimeframePart(t)
    ensures s.timeframe == t.timeframe
  {
    var p, q := TimeframePart(s), TimeframePart(t);
    assert s.timeframe == p[3..|p| - 4] && t.timeframe == q[3..|q| - 4];
  }

  lemma GradedTailInjective(s: Scope, t: Scope)
    requires GradedTail(s) == GradedTail(t)
    ensures s.grade == t.grade && KeyTail(s) == KeyTail(t)
  {
    assert GradedTail(s)[0] == if s.grade.Some? then 'g' else 't';
    assert GradedTail(t)[0] == if t.grade.Some? then 'g' else 't';
    if s.grade.Some? {
      NumberField("grade:", s.grade.value, KeyTail(s), t.grade.value, KeyTail(t));
    }
  }

  /** Different scopes never share a cache key, whatever the timeframe text. */
  lemma CacheKeyInjective(s: Scope, t: Scope)
    requires CacheKey(s) == CacheKey(t)
    ensures s == t
  {
    KeyParts(s);
    KeyParts(t);
    DropPrefix(Prefix + ":", ScopedTail(s), ScopedTail(t));
    assert ScopedTail(s)[0] == if s.school.Some? then 'o' else if s.grade.Some? then 'g' else 't';
    assert ScopedTail(t)[0] == if t.school.Some? then 'o' else if t.grade.Some? then 'g' else 't';
    if s.school.Some? {
      NumberField("org:", s.school.value, GradedTail(s), t.school.value, GradedTail(t));
    }
    GradedTailInjective(s, t);
    KeyTailInjective(s, t);
  }

  // ------------------------------------------------------------- what is asked

  datatype Window = AllTime | Last(days: nat)

  function TimeFilter(timeframe: Option<string>): Window {
    if timeframe == Some("week") then Last(7)
    else if timeframe == Some("month") then Last(30)
    else if timeframe == Some("year") then Last(365)
    else AllTime
  }

  /** The parameters of the SQL statement that a request runs. */
  datatype Statement = Statement(
    school: Option<int>, grade: Option<int>, window: Window, minProblems: int, limit: int, offset: int)

  function StatementOf(r: Request): Statement {
    Statement(r.school, r.grade, TimeFilter(r.query.timeframe), OrElse(r.query.minProblems, 0),
              Min(OrElse(r.query.limit, 100), 1000), OrElse(r.query.offset, 0))
  }

  /** The defaults: a hundred entries, never more than a thousand, from the first on;
      no minimum; and the days of the timeframes that have any. */
  lemma StatementExactly(r: Request)
    ensures var q, s := r.query, StatementOf(r);
            && s.school == r.school && s.grade == r.grade
            && (s.limit == 100 <==> q.limit == None || q.limit == Some(100))
            && (s.limit == 1000 <==> q.limit.Some? && q.limit.value >= 1000)
            && (q.limit.Some? && q.limit.value < 1000 ==> s.limit == q.limit.value)
            && (q.offset == None ==> s.offset == 0) && (q.offset.Some? ==> s.offset == q.offset.value)
            && (q.minProblems == None ==> s.minProblems == 0)
            && (q.minProblems.Some? ==> s.minProblems == q.minProblems.value)
            && (s.window == Last(7) <==> q.timeframe == Some("week"))
            && (s.window == Last(30) <==> q.timeframe == Some("month"))
            && (s.window == Last(365) <==> q.timeframe == Some("year"))
            && (s.window == AllTime <==> q.timeframe !in {Some("week"), Some("month"), Some("year")})
  {
    assert "week" != "month" && "week" != "year" && "month" != "year";
  }

  /** Requests with the same key run the same statement. */
  lemma SameKeySameStatement(r: Request, s: Request)
    requires CacheKey(ScopeOf(r)) == CacheKey(ScopeOf(s))
    ensures StatementOf(r) == StatementOf(s)
  {
    CacheKeyInjective(ScopeOf(r), ScopeOf(s));
    assert "all" != "week" && "all" != "month" && "all" != "year";
  }

  // ------------------------------------------------- placeholders and bound values

  /** What a statement text compares with one of its placeholders. */
  datatype Use = MinimumUse | LimitUse | OffsetUse | SchoolUse | GradeUse

  /** `$index` in a statement text, and what stands beside it. */
  datatype Hole = Hole(use: Use, index: nat)

  datatype Value = Value(use: Use, number: int)

  function OptionalHole(o: Option<int>, use: Use, index: nat): seq<Hole> { if o.Some? then [Hole(use, index)] else [] }

  function OptionalValue(o: Option<int>, use: Use): seq<Value> { if o.Some? then [Value(use, o.value)] else [] }

  /** The statement for the entries numbers its placeholders once and for all. */
  function EntriesText(r: Request): seq<Hole> {
    [Hole(MinimumUse, 1), Hole(LimitUse, 2), Hole(OffsetUse, 3)]
    + OptionalHole(r.school, SchoolUse, 4) + OptionalHole(r.grade, GradeUse, 5)
  }

  function EntriesValues(r: Request): seq<Value> {
    var q := StatementOf(r);
    [Value(MinimumUse, q.minProblems), Value(LimitUse, q.limit), Value(OffsetUse, q.offset)]
    + OptionalValue(r.school, SchoolUse) + OptionalValue(r.grade, GradeUse)
  }

  /** The counting statement numbers the grade after the school, if there is one. */
  function CountText(r: Request): seq<Hole> {
    [Hole(MinimumUse, 1)] + OptionalHole(r.school, SchoolUse, 2)
    + OptionalHole(r.grade, GradeUse, if r.school.Some? then 3 else 2)
  }

  function CountValues(r: Request): seq<Value> {
    [Value(MinimumUse, StatementOf(r).minProblems)] + OptionalValue(r.school, SchoolUse)
    + OptionalValue(r.grade, GradeUse)
  }

  /** The database runs a statement whose placeholders are `$1` to `$n`, none left
      out, when exactly `n` values are bound. */
  ghost predicate Executable(text: seq<Hole>, values: seq<Value>) {
    && (forall h :: h in text ==> 1 <= h.index <= |values|)
    && (forall i :: 1 <= i <= |values| ==> Mentions(text, i))
  }

  ghost predicate Mentions(text: seq<Hole>, i: nat) { exists h :: h in text && h.index == i }

  /** Every placeholder receives the value meant for it. */
  ghost predicate RightlyBound(text: seq<Hole>, values: seq<Value>) {
    forall h :: h in text ==> 1 <= h.index <= |values| && values[h.index - 1].use == h.use
  }

  /** The database refuses a negative LIMIT or OFFSET whenever the statement runs. */
  predicate PageAccepted(values: seq<Value>) {
    forall v :: v in values && (v.use == LimitUse || v.use == OffsetUse) ==> v.number >= 0
  }

  ghost predicate Runs(r: Request) {
    && Executable(EntriesText(r), EntriesValues(r)) && PageAccepted(EntriesValues(r))
    && Executable(CountText(r), CountValues(r)) && PageAccepted(CountValues(r))
  }

  /** Neither number of the page, after defaults and the cap, is negative. */
  predicate PageInRange(r: Request) { StatementOf(r).limit >= 0 && StatementOf(r).offset >= 0 }

  lemma PageAcceptedExactly(r: Request)
    ensures PageAccepted(CountValues(r))
    ensures PageAccepted(EntriesValues(r)) <==> PageInRange(r)
  {
    hide StatementOf;
    var values, q := EntriesValues(r), StatementOf(r);
    assert values[1] == Value(LimitUse, q.limit) && values[2] == Value(OffsetUse, q.offset);
    assert values[1] in values && values[2] in values;
  }

  /** The placeholders stand in the order in which their values are bound. */
  ghost predicate Aligned(text: seq<Hole>, values: seq<Value>) {
    |text| == |values| && forall i :: 0 <= i < |text| ==> text[i] == Hole(values[i].use, i + 1)
  }

  lemma AlignedRuns(text: seq<Hole>, values: seq<Value>)
    requires Aligned(text, values)
    ensures Executable(text, values) && RightlyBound(text, values)
  {
    forall i: nat | 1 <= i <= |values| ensures Mentions(text, i) {
      assert text[i - 1] in text;
    }
  }

  /** The counting statement always runs. The other runs unless a grade comes without
      a school, when the text asks for a fifth value and four are bound, or the page
      is negative. When they run, each placeholder receives the value meant for it. */
  lemma RunsExactly(r: Request)
    ensures Executable(CountText(r), CountValues(r)) && RightlyBound(CountText(r), CountValues(r))
    ensures Runs(r) <==> (r.grade.Some? ==> r.school.Some?) && PageInRange(r)
    ensures Runs(r) ==> RightlyBound(EntriesText(r), EntriesValues(r))
  {
    PageAcceptedExactly(r);
    hide StatementOf, RightlyBound, Mentions, PageAccepted, PageInRange;
    assert Aligned(CountText(r), CountValues(r));
    AlignedRuns(CountText(r), CountValues(r));
    if r.grade.Some? ==> r.school.Some? {
      assert Aligned(EntriesText(r), EntriesValues(r));
      AlignedRuns(EntriesText(r), EntriesValues(r));
    } else {
      assert EntriesText(r)[|EntriesText(r)| - 1] == Hole(GradeUse, 5);
      assert Hole(GradeUse, 5) in EntriesText(r) && |EntriesValues(r)| == 4;
    }
  }

  // ----------------------------------------------------------------- whole runs

  /** A payload is what one run of a statement returned. */
  type Payload = nat

  datatype Stage =
    | Looking(request: Request)
    | Missed(request: Request)
    | Computed(request: Request, payload: Payload)
    | Answered(request: Request, payload: Payload)
    | Failed(request: Request)

  datatype State = State(cache: map<string, Payload>, stages: map<nat, Stage>)

  const Initial: State := State(map[], map[])

  datatype Step =
    | Begin(id: nat, request: Request)
    | Lookup(id: nat, readable: bool)
    | Compute(id: nat, payload: Payload)
    | ComputeFails(id: nat)
    | Store(id: nat, stored: bool)
    | Expire(key: string)
    | WriteElsewhere(key: string, payload: Payload)

  ghost predicate Enabled(s: State, step: Step) {
    match step
    case Begin(id, _) => id !in s.stages
    case Lookup(id, _) => id in s.stages && s.stages[id].Looking?
    case Compute(id, _) => id in s.stages && s.stages[id].Missed? && Runs(s.stages[id].request)
    case ComputeFails(id) => id in s.stages && s.stages[id].Missed?
    case Store(id, _) => id in s.stages && s.stages[id].Computed?
    case Expire(_) => true
    case WriteElsewhere(key, _) => !(Prefix <= key)
  }

  /** A lookup can miss because Redis fails or the entry does not decode
      (`readable` is false); a store can fail silently. */
  ghost function Apply(s: State, step: Step): State
    requires Enabled(s, step)
  {
    match step
    case Begin(id, r) => s.(stages := s.stages[id := Looking(r)])
    case Lookup(id, readable) =>
      var r := s.stages[id].request;
      var key := CacheKey(ScopeOf(r));
      if readable && key in s.cache then s.(stages := s.stages[id := Answered(r, s.cache[key])])
      else s.(stages := s.stages[id := Missed(r)])
    case Compute(id, p) => s.(stages := s.stages[id := Computed(s.stages[id].request, p)])
    case ComputeFails(id) => s.(stages := s.stages[id := Failed(s.stages[id].request)])
    case Store(id, stored) =>
      var Computed(r, p) := s.stages[id];
      State(if stored then s.cache[CacheKey(ScopeOf(r)) := p] else s.cache, s.stages[id := Answered(r, p)])
    case Expire(key) => s.(cache := s.cache - {key})
    case WriteElsewhere(key, p) => s.(cache := s.cache[key := p])
  }

  ghost predicate IsRun(states: seq<State>, steps: seq<Step>) {
    && |states| == |steps| + 1
    && states[0] == Initial
    && forall k :: 0 <= k < |steps| ==> Enabled(states[k], steps[k]) && states[k + 1] == Apply(states[k], steps[k])
  }

  /** Step `j` of the run computed payload `p` for a request of scope `sc`. */
  ghost predicate ComputesAt(states: seq<State>, steps: seq<Step>, j: nat, sc: Scope, p: Payload)
    requires IsRun(states, steps)
  {
    && j < |steps| && steps[j].Compute? && steps[j].payload == p
    && ScopeOf(states[j].stages[steps[j].id].request) == sc
  }

  ghost predicate ComputedBefore(states: seq<State>, steps: seq<Step>, k: nat, sc: Scope, p: Payload)
    requires IsRun(states, steps)
  {
    exists j: nat :: j < k && ComputesAt(states, steps, j, sc, p)
  }

  ghost predicate Traced(states: seq<State>, steps: seq<Step>, k: nat)
    requires IsRun(states, steps) && k <= |steps|
  {
    && (forall sc :: CacheKey(sc) in states[k].cache ==>
          ComputedBefore(states, steps, k, sc, states[k].cache[CacheKey(sc)]))
    && (forall id :: id in states[k].stages && (states[k].stages[id].Computed? || states[k].stages[id].Answered?) ==>
          ComputedBefore(states, steps, k, ScopeOf(states[k].stages[id].request), states[k].stages[id].payload))
  }

  lemma KeyHasPrefix(s: Scope)
    ensures Prefix <= CacheKey(s)
  {
  }

  lemma ComputedBeforeGrows(states: seq<State>, steps: seq<Step>, k: nat, sc: Scope, p: Payload)
    requires IsRun(states, steps) && k < |steps|
    requires ComputedBefore(states, steps, k, sc, p) || ComputesAt(states, steps, k, sc, p)
    ensures ComputedBefore(states, steps, k + 1, sc, p)
  {
  }

  lemma {:induction false} RunTraced(states: seq<State>, steps: seq<Step>, k: nat)
    requires IsRun(states, steps) && k <= |steps|
    ensures Traced(states, steps, k)
  {
    hide CacheKey, ComputedBefore, ComputesAt;
    if k > 0 {
      RunTraced(states, steps, k - 1);
      TracedStep(states, steps, k - 1);
    }
  }

  lemma TracedStep(states: seq<State>, steps: seq<Step>, k: nat)
    requires IsRun(states, steps) && k < |steps| && Traced(states, steps, k)
    ensures Traced(states, steps, k + 1)
  {
    hide CacheKey, ComputedBefore, ScopeOf;
    var s, s', step := states[k], states[k + 1], steps[k];
    forall sc | CacheKey(sc) in s'.cache ensures ComputedBefore(states, steps, k + 1, sc, s'.cache[CacheKey(sc)]) {
      KeyHasPrefix(sc);
      if step.Store? && step.stored && CacheKey(sc) == CacheKey(ScopeOf(s.stages[step.id].request)) {
        CacheKeyInjective(sc, ScopeOf(s.stages[step.id].request));
      }
      ComputedBeforeGrows(states, steps, k, sc, s'.cache[CacheKey(sc)]);
    }
    forall id | id in s'.stages && (s'.stages[id].Computed? || s'.stages[id].Answered?)
      ensures ComputedBefore(states, steps, k + 1, ScopeOf(s'.stages[id].request), s'.stages[id].payload)
    {
      if !(step.Begin? || step.Expire? || step.WriteElsewhere?) && step.id == id {
        if step.Compute? { assert ComputesAt(states, steps, k, ScopeOf(s'.stages[id].request), step.payload); }
      }
      ComputedBeforeGrows(states, steps, k, ScopeOf(s'.stages[id].request), s'.stages[id].payload);
    }
  }

  /** Every answer, cached or not, is what an earlier computation of the same scope
      returned: a hit never shows another school, grade, timeframe or page. */
  lemma AnswersAreOfTheSameScope(states: seq<State>, steps: seq<Step>, k: nat, id: nat)
    requires IsRun(states, steps) && k <= |steps| && id in states[k].stages && states[k].stages[id].Answered?
    ensures ComputedBefore(states, steps, k, ScopeOf(states[k].stages[id].request), states[k].stages[id].payload)
  {
    RunTraced(states, steps, k);
  }

  // ----------------------------------------------------------------- what is cached

  /** Step `j` stored payload `p` under this key. */
  ghost predicate StoresAt(states: seq<State>, steps: seq<Step>, j: nat, key: string, p: Payload)
    requires IsRun(states, steps)
  {
    && j < |steps| && steps[j].Store? && steps[j].stored
    && CacheKey(ScopeOf(states[j].stages[steps[j].id].request)) == key && states[j].stages[steps[j].id].payload == p
  }

  /** Step `j` removed or replaced what the key holds. */
  ghost predicate Clears(states: seq<State>, steps: seq<Step>, j: nat, key: string)
    requires IsRun(states, steps)
  {
    j < |steps| && (steps[j] == Expire(key) || exists p :: StoresAt(states, steps, j, key, p))
  }

  /** `p` was stored under the key before step `k` and is still there. */
  ghost predicate Standing(states: seq<State>, steps: seq<Step>, k: nat, key: string, p: Payload)
    requires IsRun(states, steps)
  {
    exists j: nat :: StoredSince(states, steps, j, k, key, p)
  }

  ghost predicate StoredSince(states: seq<State>, steps: seq<Step>, j: nat, k: nat, key: string, p: Payload)
    requires IsRun(states, steps)
  {
    j < k && StoresAt(states, steps, j, key, p) && forall i: nat :: j < i < k ==> !Clears(states, steps, i, key)
  }

  /** A leaderboard key holds exactly what was last stored under it and has not expired. */
  lemma {:induction false} CacheExactly(states: seq<State>, steps: seq<Step>, k: nat, key: string, p: Payload)
    requires IsRun(states, steps) && k <= |steps| && Prefix <= key
    ensures key in states[k].cache && states[k].cache[key] == p <==> Standing(states, steps, k, key, p)
  {
    hide CacheKey, ScopeOf, Runs;
    if k > 0 {
      var n := k - 1;
      CacheExactly(states, steps, n, key, p);
      assert Enabled(states[n], steps[n]) && states[k] == Apply(states[n], steps[n]);
      if Clears(states, steps, n, key) {
        if StoresAt(states, steps, n, key, p) {
          assert StoredSince(states, steps, n, k, key, p);
        } else {
          assert !Standing(states, steps, k, key, p);
        }
      } else {
        if steps[n].Store? && steps[n].stored {
          var Computed(r, q) := states[n].stages[steps[n].id];
          assert StoresAt(states, steps, n, CacheKey(ScopeOf(r)), q);
        }
        StandingStays(states, steps, n, key, p);
      }
    }
  }

  lemma StandingStays(states: seq<State>, steps: seq<Step>, n: nat, key: string, p: Payload)
    requires IsRun(states, steps) && n < |steps| && !Clears(states, steps, n, key)
    ensures Standing(states, steps, n + 1, key, p) <==> Standing(states, steps, n, key, p)
  {
    hide IsRun, StoresAt;
    if Standing(states, steps, n, key, p) {
      var j: nat :| StoredSince(states, steps, j, n, key, p);
      assert StoredSince(states, steps, j, n + 1, key, p);
    }
    if Standing(states, steps, n + 1, key, p) {
      var j: nat :| StoredSince(states, steps, j, n + 1, key, p);
      assert j != n && StoredSince(states, steps, j, n, key, p);
    }
  }

  /** A lookup answers with a payload exactly if Redis can be read and the payload is
      what was last stored for the request's scope and has not expired; else it misses. */
  lemma LookupExactly(states: seq<State>, steps: seq<Step>, k: nat, p: Payload)
    requires IsRun(states, steps) && k < |steps| && steps[k].Lookup?
    ensures var id := steps[k].id;
            && id in states[k].stages && id in states[k + 1].stages
            && var r := states[k].stages[id].request;
               && (states[k + 1].stages[id] == Answered(r, p) <==>
                     steps[k].readable && Standing(states, steps, k, CacheKey(ScopeOf(r)), p))
               && (states[k + 1].stages[id].Answered? || states[k + 1].stages[id] == Missed(r))
  {
    hide CacheKey, ScopeOf, Runs, Standing;
    assert Enabled(states[k], steps[k]) && states[k + 1] == Apply(states[k], steps[k]);
    var sc := ScopeOf(states[k].stages[steps[k].id].request);
    KeyHasPrefix(sc);
    CacheExactly(states, steps, k, CacheKey(sc), p);
  }

  /** A request whose computation failed is over. */
  lemma {:induction false} FailsForGood(states: seq<State>, steps: seq<Step>, j: nat, k: nat, id: nat)
    requires IsRun(states, steps) && j < k <= |steps| && steps[j] == ComputeFails(id)
    ensures id in states[k].stages && states[k].stages[id].Failed?
  {
    hide CacheKey, Runs;
    assert Enabled(states[k - 1], steps[k - 1]) && states[k] == Apply(states[k - 1], steps[k - 1]);
    if j < k - 1 {
      FailsForGood(states, steps, j, k - 1, id);
    }
  }

  // --------------------------------------------------------------- what is answered

  ghost predicate Answers(states: seq<State>, steps: seq<Step>, k: nat, id: nat, r: Request) {
    && IsRun(states, steps) && k <= |steps|
    && id in states[k].stages && states[k].stages[id].Answered? && states[k].stages[id].request == r
  }

  /** Some run answers the request, from the cache or not. */
  ghost predicate Answerable(r: Request) {
    exists states, steps, k, id :: Answers(states, steps, k, id, r)
  }

  lemma AnswerWasComputed(states: seq<State>, steps: seq<Step>, k: nat, id: nat, r: Request)
    requires Answers(states, steps, k, id, r)
    ensures Runs(r)
  {
    AnswersAreOfTheSameScope(states, steps, k, id);
    var sc, p := ScopeOf(r), states[k].stages[id].payload;
    var j: nat :| j < k && ComputesAt(states, steps, j, sc, p);
    assert Enabled(states[j], steps[j]);
    RunsExactly(states[j].stages[steps[j].id].request);
    RunsExactly(r);
  }

  /** A request that can be computed is answered by a run that does nothing else. */
  lemma RunForRequest(r: Request)
    requires Runs(r)
    ensures Answerable(r)
  {
    hide Runs, CacheKey;
    var s0 := Initial;
    var s1 := Apply(s0, Begin(0, r));
    var s2 := Apply(s1, Lookup(0, false));
    var s3 := Apply(s2, Compute(0, 7));
    var s4 := Apply(s3, Store(0, true));
    var states, steps := [s0, s1, s2, s3, s4], [Begin(0, r), Lookup(0, false), Compute(0, 7), Store(0, true)];
    assert Answers(states, steps, 4, 0, r);
  }

  /** The requests that are ever answered, in any run and from the cache or not, are
      those without a negative page whose grade scope, if any, has a school scope. */
  lemma AnswerableExactly(r: Request)
    ensures Answerable(r) <==> (r.grade.Some? ==> r.school.Some?) && PageInRange(r)
  {
    RunsExactly(r);
    if Runs(r) {
      RunForRequest(r);
    }
    if Answerable(r) {
      var states, steps, k, id :| Answers(states, steps, k, id, r);
      AnswerWasComputed(states, steps, k, id, r);
    }
  }

  /** The default page of grade 1 over all schools is never answered. */
  lemma GradeAloneFails()
    ensures !Answerable(Request(Query(None, None, None, None), None, Some(1)))
  {
    AnswerableExactly(Request(Query(None, None, None, None), None, Some(1)));
  }

  // ------------------------------------------------------------------ the route

  /** The request the route makes for a caller, or none if it is forbidden. Whether a
      role text names the root role depends on its lowercase form. */
  function RouteRequest(lower: string -> string, role: string, school: int, grade: Option<int>, q: Query)
    : Option<Request>
  {
    if role == "gradeadmin" && grade.None? then None
    else
      Some(Request(q, if lower(role) == "root" then None else Some(school),
                   if role == "gradeadmin" then grade else None))
  }

  /** The route never sends a grade alone, but passes the page on as it is: its
      requests can be answered exactly when limit and offset, if given, are not negative. */
  lemma RoutedRequestsAnswerable(lower: string -> string, role: string, school: int, grade: Option<int>, q: Query)
    requires lower("gradeadmin") == "gradeadmin"
    ensures var r := RouteRequest(lower, role, school, grade, q);
            r.Some? ==> (Answerable(r.value) <==> OrElse(q.limit, 0) >= 0 && OrElse(q.offset, 0) >= 0)
  {
    var r := RouteRequest(lower, role, school, grade, q);
    if r.Some? {
      AnswerableExactly(r.value);
    }
  }

  /** A student who asks for -1 entries, or for the entries from -1 on, gets no answer. */
  lemma NegativePageFails(lower: string -> string, q: Query)
    requires lower("gradeadmin") == "gradeadmin" && (q.limit == Some(-1) || q.offset == Some(-1))
    ensures var r := RouteRequest(lower, "student", 1, None, q); r.Some? && !Answerable(r.value)
  {
    RoutedRequestsAnswerable(lower, "student", 1, None, q);
  }
}
