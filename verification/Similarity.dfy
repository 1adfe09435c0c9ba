/** Similarity of submissions and their ranking (domain-analysis `service.rs`), in
    exact arithmetic. */
module Similarity {
  import opened Common
  import opened Vectors

  // ------------------------------------------------------------- real squares

  lemma PositiveProduct(x: real, y: real, p: real)
    requires x > 0.0 && y > 0.0 && p == x * y
    ensures p > 0.0
  {
  }

  lemma SquareOfPositive(x: real)
    requires x > 0.0
    ensures Square(x) > 0.0
  {
    PositiveProduct(x, x, Square(x));
  }

  lemma SquareEven(x: real)
    ensures Square(-x) == Square(x)
    ensures Square(0.0) == 0.0
  {
  }

  lemma SquareLess(a: real, b: real)
    requires 0.0 <= b < a
    ensures Square(b) < Square(a)
  {
    PositiveProduct(a - b, a + b, a * a - b * b);
  }

  lemma SquareSign(x: real)
    ensures Square(x) >= 0.0
    ensures x == 0.0 ==> Square(x) == 0.0
    ensures x != 0.0 ==> Square(x) > 0.0
    ensures Square(-x) == Square(x)
  {
    hide Square;
    SquareEven(x);
    if x > 0.0 {
      SquareOfPositive(x);
    } else if x < 0.0 {
      SquareOfPositive(-x);
    }
  }

  // --------------------------------------------------------- cosine similarity

  lemma {:induction false} DotSelfNonNegative(a: seq<real>)
    ensures Dot(a, a) >= 0.0
  {
    if a != [] {
      DotSelfNonNegative(a[1..]);
      SquareSign(a[0]);
    }
  }

  /** A square bounded by a product of non-negatives is bounded by their mean. */
  lemma MeanBound(p: real, q: real, r: real)
    requires p >= 0.0 && q >= 0.0 && r * r <= p * q
    ensures 2.0 * r <= p + q
  {
    SquareSign(p - q);
    assert (p + q) * (p + q) == (p - q) * (p - q) + 4.0 * (p * q);
    if 2.0 * r > p + q {
      SquareLess(2.0 * r, p + q);
    }
  }

  lemma ProductMonotone(x: real, a: real, b: real)
    requires x >= 0.0 && a <= b
    ensures x * a <= x * b
  {
  }

  lemma CrossTerm(x: real, y: real, d: real, A: real, B: real)
    requires A >= 0.0 && B >= 0.0 && d * d <= A * B
    ensures 2.0 * (x * y * d) <= x * x * B + y * y * A
  {
    var p, q, r := x * x * B, y * y * A, x * y * d;
    assert p >= 0.0 && q >= 0.0;
    var s := (x * y) * (x * y);
    ProductMonotone(s, d * d, A * B);
    assert r * r == s * (d * d);
    assert p * q == s * (A * B);
    MeanBound(p, q, r);
  }

  predicate SquareWithin(d: real, A: real, B: real) { d * d <= A * B }

  lemma CauchySchwarzStep(x: real, y: real, d: real, A: real, B: real)
    requires A >= 0.0 && B >= 0.0 && SquareWithin(d, A, B)
    ensures SquareWithin(x * y + d, x * x + A, y * y + B)
  {
    CrossTerm(x, y, d, A, B);
    var l, r := (x * y + d) * (x * y + d), (x * x + A) * (y * y + B);
    assert l == (x * y) * (x * y) + 2.0 * (x * y * d) + d * d;
    assert r == (x * x) * (y * y) + x * x * B + A * (y * y) + A * B;
    assert (x * x) * (y * y) == (x * y) * (x * y);
  }

  lemma {:induction false} CauchySchwarz(a: seq<real>, b: seq<real>)
    requires |a| == |b|
    ensures SquareWithin(Dot(a, b), Dot(a, a), Dot(b, b))
  {
    if a != [] {
      var d, A, B := Dot(a[1..], b[1..]), Dot(a[1..], a[1..]), Dot(b[1..], b[1..]);
      assert Dot(a, b) == a[0] * b[0] + d && Dot(a, a) == a[0] * a[0] + A && Dot(b, b) == b[0] * b[0] + B;
      hide Dot, SquareWithin;
      CauchySchwarz(a[1..], b[1..]);
      DotSelfNonNegative(a[1..]);
      DotSelfNonNegative(b[1..]);
      CauchySchwarzStep(a[0], b[0], d, A, B);
    }
  }

  /** A quotient whose numerator is bounded in square by its denominator. */
  lemma QuotientBounded(d: real, m: real)
    requires m > 0.0 && Square(d) <= Square(m)
    ensures -1.0 <= d / m <= 1.0
  {
    if d > m { SquareLess(d, m); }
    if d < -m {
      SquareSign(d);
      SquareLess(-d, m);
    }
    assert d == (d / m) * m;
  }

  lemma CosineOfBounded(d: real, ma: real, mb: real)
    requires ma >= 0.0 && mb >= 0.0 && SquareWithin(d, Square(ma), Square(mb))
    ensures -1.0 <= CosineOf(d, ma, mb) <= 1.0
    ensures ma != 0.0 && mb != 0.0 ==> CosineOf(d, ma, mb) == Quotient(d, ma, mb)
  {
    if ma != 0.0 && mb != 0.0 {
      PositiveProduct(ma, mb, ma * mb);
      assert Square(ma * mb) == Square(ma) * Square(mb);
      QuotientBounded(d, ma * mb);
    }
  }

  /** Clamping never changes the quotient: it is within [-1, 1] by itself. */
  lemma ClampIsIdle(sqrt: real -> real, a: seq<real>, b: seq<real>)
    requires IsSqrt(sqrt)
    ensures -1.0 <= CosineSimilarity(sqrt, a, b) <= 1.0
    ensures var ma, mb := sqrt(Dot(a, a)), sqrt(Dot(b, b));
            a != [] && |a| == |b| && ma != 0.0 && mb != 0.0 ==>
                CosineSimilarity(sqrt, a, b) == Quotient(Dot(a, b), ma, mb)
  {
    if a != [] && |a| == |b| {
      hide CosineOf, Dot, Square, Quotient, SquareWithin;
      DotSelfNonNegative(a);
      DotSelfNonNegative(b);
      CauchySchwarz(a, b);
      CosineOfBounded(Dot(a, b), sqrt(Dot(a, a)), sqrt(Dot(b, b)));
    }
  }

  // ----------------------------------------------------- structural similarity

  const EPSILON: real := 0.000001

  function Abs(x: real): real { if x < 0.0 then -x else x }

  function Max(x: real, y: real): real { if x < y then y else x }

  /** The difference in one feature, relative to the larger of the two values. */
  function NormalizedDiff(t: real, c: real): real {
    Abs(t - c) / Max(Max(Abs(t), Abs(c)), EPSILON)
  }

  lemma ScalePositive(t: real, c: real)
    ensures Max(Max(Abs(t), Abs(c)), EPSILON) > 0.0
  {
  }

  function SumSquaredDiff(t: seq<real>, c: seq<real>): real
    requires |t| == |c|
  {
    if t == [] then 0.0
    else
      var n := |t| - 1;
      SumSquaredDiff(t[..n], c[..n]) + Square(NormalizedDiff(t[n], c[n]))
  }

  function StructuralSimilarity(sqrt: real -> real, t: seq<real>, c: seq<real>): real
    requires IsSqrt(sqrt)
  {
    if t == [] || c == [] || |t| != |c| then 0.0
    else
      SumBounds(t, c);
      AverageBounds(SumSquaredDiff(t, c), |t|, 4.0);
      1.0 / (1.0 + sqrt(SumSquaredDiff(t, c) / |t| as real))
  }

  method ComputeStructuralSimilarity(sqrt: real -> real, target: seq<real>, candidate: seq<real>) returns (s: real)
    requires IsSqrt(sqrt)
    ensures s == StructuralSimilarity(sqrt, target, candidate)
  {
    if target == [] || candidate == [] || |target| != |candidate| {
      return 0.0;
    }
    hide SumSquaredDiff, Abs, Max, Square, IsSqrt;
    var sum := 0.0;
    assert target[..0] == [] && candidate[..0] == [];
    SumBounds(target[..0], candidate[..0]);
    for i := 0 to |target|
      invariant sum == SumSquaredDiff(target[..i], candidate[..i])
    {
      var scale := Max(Max(Abs(target[i]), Abs(candidate[i])), EPSILON);
      ScalePositive(target[i], candidate[i]);
      var diff := Abs(target[i] - candidate[i]) / scale;
      sum := sum + Square(diff);
      SumStep(target, candidate, i);
    }
    assert target[..|target|] == target && candidate[..|candidate|] == candidate;
    SumBounds(target, candidate);
    AverageBounds(SumSquaredDiff(target, candidate), |target|, 4.0);
    SquareConstants();
    RootBound(sqrt, sum / |target| as real, 2.0);
    var rms := sqrt(sum / |target| as real);
    return 1.0 / (1.0 + rms);
  }

  predicate NonNegative(v: seq<real>) { forall x :: x in v ==> x >= 0.0 }

  lemma QuotientRange(x: real, scale: real, bound: real)
    requires scale > 0.0 && 0.0 <= x <= bound * scale
    ensures 0.0 <= x / scale <= bound
    ensures x / scale == 0.0 <==> x == 0.0
  {
  }

  lemma DiffBounds(t: real, c: real)
    ensures 0.0 <= NormalizedDiff(t, c) <= 2.0
    ensures t >= 0.0 && c >= 0.0 ==> NormalizedDiff(t, c) <= 1.0
    ensures NormalizedDiff(t, c) == 0.0 <==> t == c
    ensures NormalizedDiff(t, c) == NormalizedDiff(c, t)
  {
    var scale := Max(Max(Abs(t), Abs(c)), EPSILON);
    QuotientRange(Abs(t - c), scale, 2.0);
    if t >= 0.0 && c >= 0.0 {
      QuotientRange(Abs(t - c), scale, 1.0);
    }
  }

  lemma SquareConstants()
    ensures Square(1.0) == 1.0 && Square(2.0) == 4.0
  {
  }

  lemma SquareBounds(x: real, bound: real)
    requires 0.0 <= x <= bound
    ensures 0.0 <= Square(x) <= Square(bound)
    ensures Square(x) == 0.0 <==> x == 0.0
  {
    hide Square;
    SquareSign(x);
    if x < bound { SquareLess(bound, x); }
  }

  lemma {:induction false} SumBounds(t: seq<real>, c: seq<real>)
    requires |t| == |c|
    ensures 0.0 <= SumSquaredDiff(t, c) <= 4.0 * |t| as real
    ensures SumSquaredDiff(t, c) == 0.0 <==> t == c
    ensures SumSquaredDiff(t, c) == SumSquaredDiff(c, t)
  {
    hide NormalizedDiff, Square;
    SquareConstants();
    if t != [] {
      var n := |t| - 1;
      SumBounds(t[..n], c[..n]);
      DiffBounds(t[n], c[n]);
      SquareBounds(NormalizedDiff(t[n], c[n]), 2.0);
      assert t == t[..n] + [t[n]] && c == c[..n] + [c[n]];
    }
  }

  lemma SumStep(t: seq<real>, c: seq<real>, i: nat)
    requires |t| == |c| && i < |t|
    ensures SumSquaredDiff(t[..i + 1], c[..i + 1]) ==
            SumSquaredDiff(t[..i], c[..i]) + Square(NormalizedDiff(t[i], c[i]))
  {
    assert t[..i + 1][..i] == t[..i] && c[..i + 1][..i] == c[..i];
  }

  lemma {:induction false} NonNegativeSumBound(t: seq<real>, c: seq<real>)
    requires |t| == |c| && NonNegative(t) && NonNegative(c)
    ensures SumSquaredDiff(t, c) <= |t| as real
  {
    hide NormalizedDiff, Square;
    SquareConstants();
    if t != [] {
      var n := |t| - 1;
      assert forall x :: x in t[..n] ==> x in t;
      assert forall x :: x in c[..n] ==> x in c;
      assert t[n] in t && c[n] in c;
      NonNegativeSumBound(t[..n], c[..n]);
      DiffBounds(t[n], c[n]);
      SquareBounds(NormalizedDiff(t[n], c[n]), 1.0);
    }
  }

  lemma AverageBounds(sum: real, n: nat, bound: real)
    requires n > 0 && 0.0 <= sum <= bound * n as real
    ensures 0.0 <= sum / n as real <= bound
    ensures sum / n as real == 0.0 <==> sum == 0.0
  {
  }

  lemma RootBound(sqrt: real -> real, x: real, bound: real)
    requires IsSqrt(sqrt) && 0.0 <= x <= Square(bound) && bound >= 0.0
    ensures 0.0 <= sqrt(x) <= bound
    ensures sqrt(x) == 0.0 <==> x == 0.0
  {
    hide Square;
    var r := sqrt(x);
    SquareSign(r);
    if r > bound { SquareLess(r, bound); }
  }

  lemma ReciprocalBounds(d: real, bound: real)
    requires 0.0 <= d <= bound
    ensures 1.0 / (1.0 + bound) <= 1.0 / (1.0 + d) <= 1.0
    ensures 1.0 / (1.0 + d) == 1.0 <==> d == 0.0
  {
  }

  /** Symmetric, 1 exactly for equal vectors, never below 1/3, and never below 1/2
      when no feature is negative. */
  lemma StructuralBounds(sqrt: real -> real, t: seq<real>, c: seq<real>)
    requires IsSqrt(sqrt) && t != [] && |t| == |c|
    ensures 1.0 / 3.0 <= StructuralSimilarity(sqrt, t, c) <= 1.0
    ensures NonNegative(t) && NonNegative(c) ==> 1.0 / 2.0 <= StructuralSimilarity(sqrt, t, c)
    ensures StructuralSimilarity(sqrt, t, c) == 1.0 <==> t == c
    ensures StructuralSimilarity(sqrt, t, c) == StructuralSimilarity(sqrt, c, t)
  {
    hide SumSquaredDiff, IsSqrt, Square;
    SquareConstants();
    SumBounds(t, c);
    var sum, n := SumSquaredDiff(t, c), |t|;
    AverageBounds(sum, n, 4.0);
    RootBound(sqrt, sum / n as real, 2.0);
    ReciprocalBounds(sqrt(sum / n as real), 2.0);
    if NonNegative(t) && NonNegative(c) {
      NonNegativeSumBound(t, c);
      AverageBounds(sum, n, 1.0);
      RootBound(sqrt, sum / n as real, 1.0);
      ReciprocalBounds(sqrt(sum / n as real), 1.0);
    }
  }

  // ------------------------------------------------------------------- ranking

  /** The stored features of a candidate submission. */
  datatype Features = Features(submission: int, embedding: Option<seq<real>>, structural: seq<real>)

  datatype Scored = Scored(submission: int, problem: int, score: real, cosine: real, structural: real)

  function ScoreCandidate(sqrt: real -> real, embedding: seq<real>, structural: seq<real>, f: Features,
      problem: int): Option<Scored>
    requires IsSqrt(sqrt)
  {
    if f.embedding.None? || f.embedding.value == [] then None
    else
      var cos := CosineSimilarity(sqrt, embedding, f.embedding.value);
      var str := StructuralSimilarity(sqrt, structural, f.structural);
      Some(Scored(f.submission, problem, cos * 0.6 + str * 0.4, cos, str))
  }

  function ScoreAll(sqrt: real -> real, embedding: seq<real>, structural: seq<real>, candidates: seq<(Features,
      int)>, problem: Option<int>): seq<Scored>
    requires IsSqrt(sqrt)
  {
    if candidates == [] then []
    else
      var (f, pid) := candidates[0];
      var s := ScoreCandidate(sqrt, embedding, structural, f, if problem.Some? then problem.value else pid);
      (if s.Some? then [s.value] else []) + ScoreAll(sqrt, embedding, structural, candidates[1..], problem)
  }

  /** A candidate is scored exactly if it has an embedding that is not empty: six tenths
      of the cosine similarity and four of the structural one. */
  lemma ScoreExactly(sqrt: real -> real, embedding: seq<real>, structural: seq<real>, f: Features, problem: int)
    requires IsSqrt(sqrt)
    ensures var s := ScoreCandidate(sqrt, embedding, structural, f, problem);
            && (s.Some? <==> f.embedding.Some? && f.embedding.value != [])
            && (s.Some? ==>
                  && s.value.submission == f.submission && s.value.problem == problem
                  && s.value.cosine == CosineSimilarity(sqrt, embedding, f.embedding.value)
                  && s.value.structural == StructuralSimilarity(sqrt, structural, f.structural)
                  && 10.0 * s.value.score == 6.0 * s.value.cosine + 4.0 * s.value.structural)
  {
    hide CosineSimilarity, StructuralSimilarity, IsSqrt;
  }

  predicate HasEmbedding(f: Features) { f.embedding.Some? && f.embedding.value != [] }

  /** `idx` lists the candidates that can be scored, in order. */
  ghost predicate Scorable(candidates: seq<(Features, int)>, idx: seq<nat>) {
    && (forall k :: 0 <= k < |idx| ==> idx[k] < |candidates|)
    && (forall k, l :: 0 <= k < l < |idx| ==> idx[k] < idx[l])
    && (forall i: nat :: i < |candidates| ==> (i in idx <==> HasEmbedding(candidates[i].0)))
  }

  /** These are their scores; the problem is the one asked about, or else their own. */
  ghost predicate ScoresOf(sqrt: real -> real, embedding: seq<real>, structural: seq<real>,
      candidates: seq<(Features, int)>, problem: Option<int>, idx: seq<nat>, scored: seq<Scored>)
    requires IsSqrt(sqrt)
  {
    && |idx| == |scored| && (forall k :: 0 <= k < |idx| ==> idx[k] < |candidates|)
    && forall k :: 0 <= k < |idx| ==>
         ScoreIn(sqrt, embedding, structural, candidates[idx[k]], problem) == Some(scored[k])
  }

  function ScoreIn(sqrt: real -> real, embedding: seq<real>, structural: seq<real>, candidate: (Features, int),
      problem: Option<int>): Option<Scored>
    requires IsSqrt(sqrt)
  {
    ScoreCandidate(sqrt, embedding, structural, candidate.0, if problem.Some? then problem.value else candidate.1)
  }

  function Later(idx: seq<nat>): (r: seq<nat>)
    ensures |r| == |idx| && forall k :: 0 <= k < |idx| ==> r[k] == idx[k] + 1
  {
    seq(|idx|, k requires 0 <= k < |idx| => idx[k] + 1)
  }

  lemma ScorableStep(candidates: seq<(Features, int)>, rest: seq<nat>)
    requires candidates != [] && Scorable(candidates[1..], rest)
    ensures Scorable(candidates, (if HasEmbedding(candidates[0].0) then [0] else []) + Later(rest))
  {
    hide HasEmbedding;
    var later := Later(rest);
    var idx := (if HasEmbedding(candidates[0].0) then [0] else []) + later;
    forall i: nat | i < |candidates| ensures i in idx <==> HasEmbedding(candidates[i].0) {
      if i > 0 {
        ShiftedIn(rest, later, i);
        assert candidates[1..][i - 1] == candidates[i];
      }
    }
  }

  lemma ScoresOfStep(sqrt: real -> real, embedding: seq<real>, structural: seq<real>,
      candidates: seq<(Features, int)>, problem: Option<int>, rest: seq<nat>, scored: seq<Scored>,
      first: Option<Scored>)
    requires IsSqrt(sqrt) && candidates != []
    requires ScoresOf(sqrt, embedding, structural, candidates[1..], problem, rest, scored)
    requires first == ScoreIn(sqrt, embedding, structural, candidates[0], problem)
    ensures ScoresOf(sqrt, embedding, structural, candidates, problem, (if first.Some? then [0] else []) + Later(rest),
                     (if first.Some? then [first.value] else []) + scored)
  {
    hide ScoreIn, IsSqrt;
    var n := if first.Some? then 1 else 0;
    var idx := (if first.Some? then [0] else []) + Later(rest);
    var all := (if first.Some? then [first.value] else []) + scored;
    forall k | 0 <= k < |idx|
      ensures idx[k] < |candidates| && ScoreIn(sqrt, embedding, structural, candidates[idx[k]], problem) == Some(all[k])
    {
      if k >= n {
        var x := k - n;
        assert idx[k] == rest[x] + 1 && all[k] == scored[x] && candidates[1..][rest[x]] == candidates[idx[k]];
      }
    }
  }

  /** Every candidate that can be scored is, in order. */
  lemma {:induction false} ScoreAllExactly(sqrt: real -> real, embedding: seq<real>, structural: seq<real>,
      candidates: seq<(Features, int)>, problem: Option<int>)
    returns (idx: seq<nat>)
    requires IsSqrt(sqrt)
    ensures Scorable(candidates, idx)
    ensures ScoresOf(sqrt, embedding, structural, candidates, problem, idx,
                     ScoreAll(sqrt, embedding, structural, candidates, problem))
  {
    hide Scorable, ScoreIn, IsSqrt;
    if candidates == [] {
      idx := [];
      NoneScorable();
    } else {
      hide ScoresOf, ScoreAll, HasEmbedding;
      var rest := ScoreAllExactly(sqrt, embedding, structural, candidates[1..], problem);
      ScorableStep(candidates, rest);
      ScoreAllFirst(sqrt, embedding, structural, candidates, problem);
      var first := ScoreIn(sqrt, embedding, structural, candidates[0], problem);
      idx := (if first.Some? then [0] else []) + Later(rest);
      ScoresOfStep(sqrt, embedding, structural, candidates, problem, rest,
                   ScoreAll(sqrt, embedding, structural, candidates[1..], problem), first);
    }
  }

  lemma NoneScorable()
    ensures Scorable([], [])
  {
  }

  lemma ScoreAllFirst(sqrt: real -> real, embedding: seq<real>, structural: seq<real>, candidates: seq<(Features, int)>,
      problem: Option<int>)
    requires IsSqrt(sqrt) && candidates != []
    ensures var s := ScoreIn(sqrt, embedding, structural, candidates[0], problem);
            && (s.Some? <==> HasEmbedding(candidates[0].0))
            && ScoreAll(sqrt, embedding, structural, candidates, problem) ==
               (if s.Some? then [s.value] else []) + ScoreAll(sqrt, embedding, structural, candidates[1..], problem)
  {
    hide IsSqrt;
    var (f, pid) := candidates[0];
    ScoreExactly(sqrt, embedding, structural, f, if problem.Some? then problem.value else pid);
  }

  lemma ShiftedIn(rest: seq<nat>, later: seq<nat>, i: nat)
    requires i > 0 && |later| == |rest| && forall k :: 0 <= k < |rest| ==> later[k] == rest[k] + 1
    ensures i in later <==> i - 1 in rest
  {
    if i - 1 in rest {
      var k :| 0 <= k < |rest| && rest[k] == i - 1;
      assert later[k] == i;
    }
  }

  /** Puts `x` before the first element with a lower score. */
  function InsertScored(x: Scored, xs: seq<Scored>): seq<Scored> {
    if xs == [] || xs[0].score < x.score then [x] + xs else [xs[0]] + InsertScored(x, xs[1..])
  }

  /** The stable descending sort. */
  function SortByScore(xs: seq<Scored>): seq<Scored> {
    if xs == [] then [] else InsertScored(xs[|xs| - 1], SortByScore(xs[..|xs| - 1]))
  }

  /** `limit as usize`: a negative limit wraps to a huge one. */
  function AsUsize(limit: int): nat
    requires -0x8000_0000_0000_0000 <= limit < 0x8000_0000_0000_0000
  {
    if limit < 0 then limit + 0x1_0000_0000_0000_0000 else limit
  }

  function Truncate<T>(xs: seq<T>, n: nat): seq<T> { if n < |xs| then xs[..n] else xs }

  ghost predicate DescendingScores(xs: seq<Scored>) {
    forall i, j :: 0 <= i < j < |xs| ==> xs[i].score >= xs[j].score
  }

  /** The elements with score `v`, in order. */
  ghost function WithScore(xs: seq<Scored>, v: real): seq<Scored> {
    if xs == [] then []
    else if xs[0].score == v then [xs[0]] + WithScore(xs[1..], v)
    else WithScore(xs[1..], v)
  }

  lemma {:induction false} WithScoreConcat(xs: seq<Scored>, ys: seq<Scored>, v: real)
    ensures WithScore(xs + ys, v) == WithScore(xs, v) + WithScore(ys, v)
  {
    if xs == [] {
      assert xs + ys == ys;
    } else {
      assert (xs + ys)[1..] == xs[1..] + ys;
      WithScoreConcat(xs[1..], ys, v);
    }
  }

  lemma {:induction false} NoLowerScores(xs: seq<Scored>, v: real)
    requires DescendingScores(xs) && (xs != [] ==> xs[0].score < v)
    ensures WithScore(xs, v) == []
  {
    if xs != [] {
      NoLowerScores(xs[1..], v);
    }
  }

  lemma {:induction false} InsertKeepsAll(x: Scored, xs: seq<Scored>)
    ensures multiset(InsertScored(x, xs)) == multiset(xs) + multiset{x}
  {
    if xs != [] && xs[0].score >= x.score {
      InsertKeepsAll(x, xs[1..]);
      assert xs == [xs[0]] + xs[1..];
    }
  }

  lemma {:induction false} InsertSorts(x: Scored, xs: seq<Scored>)
    requires DescendingScores(xs)
    ensures DescendingScores(InsertScored(x, xs))
  {
    if xs != [] && xs[0].score >= x.score {
      InsertSorts(x, xs[1..]);
      InsertKeepsAll(x, xs[1..]);
      var r := InsertScored(x, xs[1..]);
      forall j | 0 <= j < |r| ensures xs[0].score >= r[j].score {
        assert r[j] in multiset(r);
        assert r[j] == x || r[j] in xs[1..];
      }
    }
  }

  lemma {:induction false} InsertStable(x: Scored, xs: seq<Scored>, v: real)
    requires DescendingScores(xs)
    ensures WithScore(InsertScored(x, xs), v) == WithScore(xs, v) + (if x.score == v then [x] else [])
  {
    if xs == [] || xs[0].score < x.score {
      if x.score == v { NoLowerScores(xs, v); }
      assert ([x] + xs)[1..] == xs;
    } else {
      InsertStable(x, xs[1..], v);
      var r := InsertScored(x, xs[1..]);
      assert ([xs[0]] + r)[1..] == r;
    }
  }

  /** Sorting only rearranges, puts higher scores first, and keeps the order of
      candidates with equal scores. */
  lemma {:induction false} SortFacts(xs: seq<Scored>, v: real)
    ensures DescendingScores(SortByScore(xs))
    ensures multiset(SortByScore(xs)) == multiset(xs)
    ensures WithScore(SortByScore(xs), v) == WithScore(xs, v)
  {
    if xs != [] {
      var front, x := xs[..|xs| - 1], xs[|xs| - 1];
      assert xs == front + [x];
      SortFacts(front, v);
      hide InsertScored;
      InsertKeepsAll(x, SortByScore(front));
      InsertSorts(x, SortByScore(front));
      InsertStable(x, SortByScore(front), v);
      WithScoreConcat(front, [x], v);
      assert [x][1..] == [];
    }
  }

  /** The kept list and the dropped rest of a ranking. */
  ghost predicate TopOf(all: seq<Scored>, kept: seq<Scored>, dropped: seq<Scored>, n: nat) {
    && DescendingScores(kept)
    && |kept| == (if n < |all| then n else |all|)
    && multiset(kept) + multiset(dropped) == multiset(all)
    && (forall i, j :: 0 <= i < |kept| && 0 <= j < |dropped| ==> kept[i].score >= dropped[j].score)
  }

  method RankBySimilarity(sqrt: real -> real, embedding: seq<real>, structural: seq<real>,
      candidates: seq<(Features, int)>,
                          problem: Option<int>, limit: int)
    returns (ranked: seq<Scored>)
    requires IsSqrt(sqrt) && -0x8000_0000_0000_0000 <= limit < 0x8000_0000_0000_0000
    ensures exists dropped ::
        TopOf(ScoreAll(sqrt, embedding, structural, candidates, problem), ranked, dropped, AsUsize(limit))
    ensures var n := |ScoreAll(sqrt, embedding, structural, candidates, problem)|;
            && (0 <= limit ==> |ranked| == if limit < n then limit else n)
            && (limit < 0 && |candidates| < 0x8000_0000_0000_0000 ==> |ranked| == n)
    ensures forall v :: WithScore(ranked, v) <= WithScore(ScoreAll(sqrt, embedding, structural, candidates, problem), v)
  {
    hide ScoreAll, SortByScore;
    var scored := ScoreAll(sqrt, embedding, structural, candidates, problem);
    ghost var all := scored;
    scored := SortByScore(scored);
    ghost var sorted := scored;
    scored := Truncate(scored, AsUsize(limit));
    ranked := scored;
    ghost var dropped := sorted[|ranked|..];
    assert sorted == ranked + dropped;
    SortFacts(all, 0.0);
    assert |sorted| == |multiset(sorted)| == |multiset(all)| == |all|;
    assert TopOf(all, ranked, dropped, AsUsize(limit));
    ScoredAtMost(sqrt, embedding, structural, candidates, problem);
    forall v ensures WithScore(ranked, v) <= WithScore(all, v) {
      SortFacts(all, v);
      WithScoreConcat(ranked, dropped, v);
    }
  }

  lemma {:induction false} ScoredAtMost(sqrt: real -> real, embedding: seq<real>, structural: seq<real>,
      candidates: seq<(Features, int)>, problem: Option<int>)
    requires IsSqrt(sqrt)
    ensures |ScoreAll(sqrt, embedding, structural, candidates, problem)| <= |candidates|
  {
    hide ScoreCandidate, IsSqrt;
    if candidates != [] {
      ScoredAtMost(sqrt, embedding, structural, candidates[1..], problem);
    }
  }

  /** Scores of candidates with comparable vectors stay within fixed bounds. */
  lemma ScoreRange(sqrt: real -> real, embedding: seq<real>, structural: seq<real>, f: Features, problem: int)
    requires IsSqrt(sqrt) && structural != [] && |f.structural| == |structural|
    ensures var s := ScoreCandidate(sqrt, embedding, structural, f, problem);
            s.Some? ==> -0.6 + 0.4 / 3.0 <= s.value.score <= 1.0
  {
    hide CosineSimilarity, StructuralSimilarity, IsSqrt;
    if f.embedding.Some? {
      ClampIsIdle(sqrt, embedding, f.embedding.value);
      StructuralBounds(sqrt, structural, f.structural);
    }
  }
}
