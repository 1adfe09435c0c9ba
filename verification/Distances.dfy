/** What the cosine distance means, and with it which points DBSCAN takes for
    neighbours (domain-analysis `batch.rs`). */
module Distances {
  import opened Common
  import opened Vectors
  import opened Similarity
  import opened Dbscan

  // ------------------------------------------------------------- linear algebra

  function Scale(k: real, a: seq<real>): (r: seq<real>)
    ensures |r| == |a|
  {
    if a == [] then [] else [k * a[0]] + Scale(k, a[1..])
  }

  lemma {:induction false} DotScale(k: real, a: seq<real>, b: seq<real>)
    requires |a| == |b|
    ensures Dot(a, Scale(k, b)) == k * Dot(a, b)
  {
    if a != [] {
      DotScale(k, a[1..], b[1..]);
      assert Scale(k, b)[0] == k * b[0] && Scale(k, b)[1..] == Scale(k, b[1..]);
      Distribute(k, a[0], b[0], Dot(a[1..], b[1..]));
    }
  }

  lemma Distribute(k: real, x: real, y: real, rest: real)
    ensures x * (k * y) + k * rest == k * (x * y + rest)
  {
  }

  ghost predicate IsZero(a: seq<real>) { forall i :: 0 <= i < |a| ==> a[i] == 0.0 }

  lemma {:induction false} DotSelfZero(a: seq<real>)
    ensures Dot(a, a) >= 0.0 && (Dot(a, a) == 0.0 <==> IsZero(a))
  {
    if a != [] {
      DotSelfZero(a[1..]);
      SquareSign(a[0]);
      assert Dot(a, a) == Square(a[0]) + Dot(a[1..], a[1..]);
      hide Dot, Square;
      assert IsZero(a) <==> a[0] == 0.0 && IsZero(a[1..]) by {
        assert forall i :: 0 <= i < |a[1..]| ==> a[1..][i] == a[i + 1];
        if a[0] == 0.0 && IsZero(a[1..]) {
          forall i | 0 <= i < |a| ensures a[i] == 0.0 {
            if i > 0 { assert a[1..][i - 1] == a[i]; }
          }
        }
      }
    }
  }

  /** The magnitude of a vector: positive exactly if it is not zero. */
  function Magnitude(sqrt: real -> real, a: seq<real>): real { sqrt(Dot(a, a)) }

  lemma MagnitudeSign(sqrt: real -> real, a: seq<real>)
    requires IsSqrt(sqrt)
    ensures Magnitude(sqrt, a) >= 0.0 && Square(Magnitude(sqrt, a)) == Dot(a, a)
    ensures Magnitude(sqrt, a) == 0.0 <==> IsZero(a)
  {
    DotSelfZero(a);
    var m := sqrt(Dot(a, a));
    SquareSign(m);
    hide Square, Dot;
  }

  // ------------------------------------------------------------------ distances

  /** Comparing a cosine with `t` is comparing products. */
  lemma QuotientReaches(dot: real, ma: real, mb: real, t: real)
    requires ma > 0.0 && mb > 0.0
    ensures Quotient(dot, ma, mb) >= t <==> dot >= t * (ma * mb)
    ensures Quotient(dot, ma, mb) == 1.0 ==> dot == ma * mb
  {
    var m := ma * mb;
    PositiveProduct(ma, mb, m);
    var q := dot / m;
    assert q * m == dot;
    if q >= t {
      ProductMonotone(m, t, q);
    } else {
      PositiveProduct(t - q, m, t * m - q * m);
    }
  }

  /** Between vectors of one length that are not zero, the cosine is the dot product
      over the product of the magnitudes. */
  lemma CosineOfComparable(sqrt: real -> real, a: seq<real>, b: seq<real>)
    requires IsSqrt(sqrt) && |a| == |b| && !IsZero(a) && !IsZero(b)
    ensures var ma, mb := Magnitude(sqrt, a), Magnitude(sqrt, b);
            ma > 0.0 && mb > 0.0 && CosineSimilarity(sqrt, a, b) == Quotient(Dot(a, b), ma, mb)
  {
    MagnitudeSign(sqrt, a);
    MagnitudeSign(sqrt, b);
    ClampIsIdle(sqrt, a, b);
    hide Dot, Square, CosineSimilarity, Quotient;
  }

  /** The distance always lies between 0 and 2; it is 1 if a vector is zero or empty or
      the lengths differ. */
  lemma DistanceRange(sqrt: real -> real, a: seq<real>, b: seq<real>)
    requires IsSqrt(sqrt)
    ensures 0.0 <= CosineDistance(sqrt, a, b) <= 2.0
    ensures IsZero(a) || IsZero(b) || |a| != |b| ==> CosineDistance(sqrt, a, b) == 1.0
  {
    ClampIsIdle(sqrt, a, b);
    MagnitudeSign(sqrt, a);
    MagnitudeSign(sqrt, b);
    hide Dot, Square;
  }

  lemma RootUnique(x: real, y: real)
    requires x >= 0.0 && y >= 0.0 && Square(x) == Square(y)
    ensures x == y
  {
    if x < y { SquareLess(y, x); }
    if y < x { SquareLess(x, y); }
  }

  lemma MagnitudeOfMultiple(sqrt: real -> real, k: real, a: seq<real>)
    requires IsSqrt(sqrt)
    ensures Magnitude(sqrt, Scale(k, a)) == (if k < 0.0 then -k else k) * Magnitude(sqrt, a)
  {
    hide Dot, Square, Magnitude, Scale, IsSqrt;
    var b, m, j := Scale(k, a), Magnitude(sqrt, a), if k < 0.0 then -k else k;
    MagnitudeSign(sqrt, a);
    MagnitudeSign(sqrt, b);
    DotScale(k, b, a);
    DotSymmetric(b, a);
    DotScale(k, a, a);
    assert Dot(b, b) == k * (k * Square(m));
    SquareProduct(j, m, k);
    ProductSign(j, m);
    RootUnique(Magnitude(sqrt, b), j * m);
  }

  lemma SquareProduct(j: real, m: real, k: real)
    requires j == k || j == -k
    ensures Square(j * m) == k * (k * Square(m))
  {
  }

  lemma ProductSign(x: real, y: real)
    requires x >= 0.0 && y >= 0.0
    ensures x * y >= 0.0
  {
  }

  /** A vector is at distance 0 from its positive multiples and 2 from its negative ones. */
  lemma DistanceOfMultiple(sqrt: real -> real, k: real, a: seq<real>)
    requires IsSqrt(sqrt) && !IsZero(a) && k != 0.0
    ensures CosineDistance(sqrt, a, Scale(k, a)) == if k > 0.0 then 0.0 else 2.0
  {
    hide Dot, CosineSimilarity, Magnitude, Square, IsSqrt, Scale, Quotient;
    var b := Scale(k, a);
    var ma, mb := Magnitude(sqrt, a), Magnitude(sqrt, b);
    MagnitudeSign(sqrt, a);
    MagnitudeSign(sqrt, b);
    MagnitudeOfMultiple(sqrt, k, a);
    DotScale(k, a, a);
    MultipleQuotient(k, ma, mb, Dot(a, a), Dot(a, b));
    CosineOfComparable(sqrt, a, b);
  }

  lemma MultipleQuotient(k: real, ma: real, mb: real, A: real, d: real)
    requires k != 0.0 && ma > 0.0 && mb == (if k < 0.0 then -k else k) * ma && A == Square(ma) && d == k * A
    ensures mb > 0.0 && Quotient(d, ma, mb) == if k > 0.0 then 1.0 else -1.0
  {
    var j := if k < 0.0 then -k else k;
    PositiveProduct(j, ma, mb);
    PositiveProduct(ma, mb, ma * mb);
    assert j * A == ma * mb;
    assert d == if k > 0.0 then ma * mb else -(ma * mb);
    UnitQuotient(d, ma, mb);
  }

  lemma UnitQuotient(d: real, ma: real, mb: real)
    requires ma > 0.0 && mb > 0.0 && (d == ma * mb || d == -(ma * mb))
    ensures Quotient(d, ma, mb) == if d == ma * mb then 1.0 else -1.0
  {
    var m := ma * mb;
    PositiveProduct(ma, mb, m);
    assert m / m == 1.0 && -m / m == -1.0;
  }

  /** `x` times one vector minus `y` times the other. */
  function Blend(x: real, a: seq<real>, y: real, b: seq<real>): (r: seq<real>)
    requires |a| == |b|
    ensures |r| == |a| && forall i :: 0 <= i < |a| ==> r[i] == x * a[i] - y * b[i]
  {
    if a == [] then [] else [x * a[0] - y * b[0]] + Blend(x, a[1..], y, b[1..])
  }

  /** The square of a blend, from the dot products of what is blended. */
  function BlendForm(x: real, y: real, A: real, D: real, B: real): real {
    Square(x) * A - 2.0 * (x * y * D) + Square(y) * B
  }

  lemma {:induction false} BlendSquare(x: real, a: seq<real>, y: real, b: seq<real>)
    requires |a| == |b|
    ensures Dot(Blend(x, a, y, b), Blend(x, a, y, b)) == BlendForm(x, y, Dot(a, a), Dot(a, b), Dot(b, b))
  {
    if a == [] {
      BlendNothing(x, y);
    } else {
      hide BlendForm, Square, Dot, Blend;
      var r := Blend(x, a, y, b);
      BlendSquare(x, a[1..], y, b[1..]);
      BlendRest(x, a, y, b);
      DotFirst(r, r);
      DotFirst(a, a);
      DotFirst(a, b);
      DotFirst(b, b);
      BlendTotal(x, a[0], y, b[0], r[0], Dot(a[1..], a[1..]), Dot(a[1..], b[1..]), Dot(b[1..], b[1..]),
                 Dot(a, a), Dot(a, b), Dot(b, b), Dot(r[1..], r[1..]), Dot(r, r));
    }
  }

  lemma BlendTotal(x: real, p: real, y: real, q: real, r: real, A: real, D: real, B: real,
      A': real, D': real, B': real, R: real, R': real)
    requires r == x * p - y * q && A' == p * p + A && D' == p * q + D && B' == q * q + B
    requires R == BlendForm(x, y, A, D, B) && R' == r * r + R
    ensures R' == BlendForm(x, y, A', D', B')
  {
    BlendStep(x, p, y, q, r, A, D, B);
    hide BlendForm;
  }

  lemma BlendRest(x: real, a: seq<real>, y: real, b: seq<real>)
    requires |a| == |b| && a != []
    ensures Blend(x, a, y, b)[1..] == Blend(x, a[1..], y, b[1..])
  {
  }

  lemma DotFirst(a: seq<real>, b: seq<real>)
    requires |a| == |b| && a != []
    ensures Dot(a, b) == a[0] * b[0] + Dot(a[1..], b[1..])
  {
  }

  lemma BlendNothing(x: real, y: real)
    ensures BlendForm(x, y, 0.0, 0.0, 0.0) == 0.0
  {
  }

  lemma BlendStep(x: real, p: real, y: real, q: real, r: real, A: real, D: real, B: real)
    requires r == x * p - y * q
    ensures r * r + BlendForm(x, y, A, D, B) == BlendForm(x, y, p * p + A, p * q + D, q * q + B)
  {
    SquareOfDifference(x * p, y * q);
    ProductsOfProducts(x, p, y, q);
    Spread(Square(x), p * p, A);
    Spread(x * y, p * q, D);
    Spread(Square(y), q * q, B);
    hide Square;
  }

  lemma SquareOfDifference(u: real, v: real)
    ensures (u - v) * (u - v) == u * u - 2.0 * (u * v) + v * v
  {
  }

  lemma ProductsOfProducts(x: real, p: real, y: real, q: real)
    ensures (x * p) * (x * p) == Square(x) * (p * p) && (y * q) * (y * q) == Square(y) * (q * q)
    ensures (x * p) * (y * q) == x * y * (p * q)
  {
  }

  lemma Spread(k: real, u: real, v: real)
    ensures k * (u + v) == k * u + k * v
  {
  }

  /** Only vectors of the same direction are at distance 0. */
  lemma DistanceZeroIsDirection(sqrt: real -> real, a: seq<real>, b: seq<real>) returns (k: real)
    requires IsSqrt(sqrt) && |a| == |b| && !IsZero(a) && !IsZero(b) && CosineDistance(sqrt, a, b) == 0.0
    ensures k > 0.0 && b == Scale(k, a)
  {
    var ma, mb := Magnitude(sqrt, a), Magnitude(sqrt, b);
    MagnitudeSign(sqrt, a);
    MagnitudeSign(sqrt, b);
    CosineOfComparable(sqrt, a, b);
    hide *;
    assert Quotient(Dot(a, b), ma, mb) == 1.0 by { DistanceIsOneLess(sqrt, a, b); }
    QuotientReaches(Dot(a, b), ma, mb, 1.0);
    BlendVanishes(ma, mb, Dot(a, a), Dot(a, b), Dot(b, b));
    BlendSquare(mb, a, ma, b);
    k := PositiveRatio(ma, mb);
    BlendIsZero(k, ma, mb, a, b);
  }

  lemma DistanceIsOneLess(sqrt: real -> real, a: seq<real>, b: seq<real>)
    ensures CosineDistance(sqrt, a, b) == 1.0 - CosineSimilarity(sqrt, a, b)
  {
  }

  lemma BlendIsZero(k: real, ma: real, mb: real, a: seq<real>, b: seq<real>)
    requires |a| == |b| && ma > 0.0 && k * ma == mb && Dot(Blend(mb, a, ma, b), Blend(mb, a, ma, b)) == 0.0
    ensures b == Scale(k, a)
  {
    var r := Blend(mb, a, ma, b);
    DotSelfZero(r);
    hide Dot;
    assert forall i :: 0 <= i < |a| ==> r[i] == 0.0;
    ScaledBack(k, ma, mb, a, b);
  }

  lemma BlendVanishes(ma: real, mb: real, A: real, D: real, B: real)
    requires A == Square(ma) && B == Square(mb) && D == ma * mb
    ensures BlendForm(mb, ma, A, D, B) == 0.0
  {
    assert mb * ma * D == Square(ma) * Square(mb);
  }

  lemma PositiveRatio(ma: real, mb: real) returns (k: real)
    requires ma > 0.0 && mb > 0.0
    ensures k > 0.0 && k * ma == mb
  {
    k := mb / ma;
    assert k * ma == mb;
    if k <= 0.0 { ProductMonotone(ma, k, 0.0); }
  }

  lemma {:induction false} ScaledBack(k: real, ma: real, mb: real, a: seq<real>, b: seq<real>)
    requires |a| == |b| && ma > 0.0 && k * ma == mb && forall i :: 0 <= i < |a| ==> mb * a[i] - ma * b[i] == 0.0
    ensures b == Scale(k, a)
  {
    if a != [] {
      ScaledBack(k, ma, mb, a[1..], b[1..]);
      assert mb * a[0] - ma * b[0] == 0.0;
      CancelFactor(k, ma, mb, a[0], b[0]);
      ScaleSplits(k, a, b);
    }
  }

  lemma ScaleSplits(k: real, a: seq<real>, b: seq<real>)
    requires |a| == |b| && a != [] && b[0] == k * a[0] && b[1..] == Scale(k, a[1..])
    ensures b == Scale(k, a)
  {
    var s := Scale(k, a);
    assert s[0] == b[0] && s[1..] == b[1..];
    assert s == [s[0]] + s[1..] && b == [b[0]] + b[1..];
  }

  lemma CancelFactor(k: real, ma: real, mb: real, x: real, y: real)
    requires ma > 0.0 && k * ma == mb && mb * x - ma * y == 0.0
    ensures y == k * x
  {
    var d := k * x - y;
    assert ma * d == mb * x - ma * y;
    if d > 0.0 { PositiveProduct(ma, d, ma * d); }
    if d < 0.0 { PositiveProduct(ma, -d, -(ma * d)); }
  }

  // ------------------------------------------------------------------ neighbours

  /** Two points are near exactly if their dot product reaches that share of the
      product of their magnitudes; a zero vector is near others only from eps 1 on. */
  lemma NearExactly(sqrt: real -> real, vectors: seq<seq<real>>, eps: real, i: nat, j: nat)
    requires IsSqrt(sqrt) && i < |vectors| && j < |vectors|
    ensures var a, b := vectors[i], vectors[j];
            Near(sqrt, vectors, eps, i, j) <==>
              if |a| == |b| && !IsZero(a) && !IsZero(b)
              then Dot(a, b) >= (1.0 - eps) * (Magnitude(sqrt, a) * Magnitude(sqrt, b))
              else eps >= 1.0
  {
    var a, b := vectors[i], vectors[j];
    DistanceRange(sqrt, a, b);
    if |a| == |b| && !IsZero(a) && !IsZero(b) {
      CosineOfComparable(sqrt, a, b);
      QuotientReaches(Dot(a, b), Magnitude(sqrt, a), Magnitude(sqrt, b), 1.0 - eps);
      hide Magnitude, Dot, CosineSimilarity, Quotient;
    }
  }

  /** Points in the same direction are neighbours whatever the radius. */
  lemma SameDirectionIsNear(sqrt: real -> real, vectors: seq<seq<real>>, eps: real, i: nat, j: nat, k: real)
    requires IsSqrt(sqrt) && i < |vectors| && j < |vectors| && eps >= 0.0 && k > 0.0
    requires vectors[j] == Scale(k, vectors[i]) && !IsZero(vectors[i])
    ensures j in Neighbors(sqrt, vectors, eps)[i] && i in Neighbors(sqrt, vectors, eps)[j]
  {
    DistanceOfMultiple(sqrt, k, vectors[i]);
    assert Near(sqrt, vectors, eps, i, j);
    NeighborsUndirected(sqrt, vectors, eps);
  }

  lemma {:induction false} ScaleOne(a: seq<real>)
    ensures Scale(1.0, a) == a
  {
    if a != [] {
      ScaleOne(a[1..]);
      assert a == [a[0]] + a[1..];
    }
  }

  /** Equal points are neighbours, and a point its own, exactly if the radius is not
      negative; for zero vectors, exactly if it is at least 1. */
  lemma EqualPointsAreNear(sqrt: real -> real, vectors: seq<seq<real>>, eps: real, i: nat, j: nat)
    requires IsSqrt(sqrt) && i < |vectors| && j < |vectors| && vectors[i] == vectors[j]
    ensures j in Neighbors(sqrt, vectors, eps)[i] <==> eps >= if IsZero(vectors[i]) then 1.0 else 0.0
  {
    var a := vectors[i];
    if IsZero(a) {
      NearExactly(sqrt, vectors, eps, i, j);
    } else {
      DistanceOfMultiple(sqrt, 1.0, a);
      ScaleOne(a);
    }
    assert j in Neighbors(sqrt, vectors, eps)[i] <==> Near(sqrt, vectors, eps, i, j);
  }

  /** A point is core exactly if enough points, itself among them, are near it. */
  lemma CoreExactly(sqrt: real -> real, vectors: seq<seq<real>>, eps: real, minSamples: nat, i: nat)
    requires i < |vectors|
    ensures Core(Neighbors(sqrt, vectors, eps), minSamples, i) <==>
            |set j: nat | j < |vectors| && Near(sqrt, vectors, eps, i, j)| >= minSamples
  {
    var nb := NeighborsBelow(sqrt, vectors, eps, i, |vectors|);
    IncreasingSize(nb);
    assert (set j: nat | j < |vectors| && Near(sqrt, vectors, eps, i, j)) == Elements(nb);
  }

  lemma {:induction false} IncreasingSize(s: seq<nat>)
    requires Increasing(s)
    ensures |Elements(s)| == |s|
  {
    if s != [] {
      var front, last := s[..|s| - 1], s[|s| - 1];
      IncreasingSize(front);
      assert s == front + [last] && last !in front;
      assert Elements(s) == Elements(front) + {last};
    }
  }

  function Elements(s: seq<nat>): set<nat> { set x | x in s }

  /** A candidate with the same features scores 1 if its embedding has the same
      direction, and -1/5 if it has the opposite one. */
  lemma TwinScores(sqrt: real -> real, embedding: seq<real>, structural: seq<real>, f: Features, k: real, problem: int)
    requires IsSqrt(sqrt) && k != 0.0 && !IsZero(embedding) && structural != [] && f.structural == structural
    requires f.embedding.Some? && f.embedding.value == Scale(k, embedding)
    ensures var s := ScoreCandidate(sqrt, embedding, structural, f, problem);
            s.Some? && 5.0 * s.value.score == if k > 0.0 then 5.0 else -1.0
  {
    hide Dot, CosineSimilarity, StructuralSimilarity, IsSqrt, ScoreCandidate;
    DistanceOfMultiple(sqrt, k, embedding);
    StructuralBounds(sqrt, structural, f.structural);
    ScoreExactly(sqrt, embedding, structural, f, problem);
  }
}
