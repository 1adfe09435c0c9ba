/** Exact real arithmetic behind the two copies of the cosine similarity
    (domain-analysis `batch.rs` and `service.rs` hold the same code). The square
    root is a parameter `sqrt`; `IsSqrt` says what is expected of it. */
module Vectors {

  function Square(x: real): real { x * x }

  ghost predicate IsSqrt(sqrt: real -> real) {
    forall x: real :: x >= 0.0 ==> sqrt(x) >= 0.0 && Square(sqrt(x)) == x
  }

  function Dot(a: seq<real>, b: seq<real>): real
    requires |a| == |b|
  {
    if a == [] then 0.0 else a[0] * b[0] + Dot(a[1..], b[1..])
  }

  function Clamp(x: real, low: real, high: real): real
    requires low <= high
  {
    if x < low then low else if x > high then high else x
  }

  function Quotient(dot: real, magA: real, magB: real): real
    requires magA != 0.0 && magB != 0.0
  {
    dot / (magA * magB)
  }

  /** The cosine for given dot product and magnitudes; 0 if a magnitude is. */
  function CosineOf(dot: real, magA: real, magB: real): real {
    if magA == 0.0 || magB == 0.0 then 0.0 else Clamp(Quotient(dot, magA, magB), -1.0, 1.0)
  }

  function CosineSimilarity(sqrt: real -> real, a: seq<real>, b: seq<real>): real {
    if a == [] || b == [] || |a| != |b| then 0.0
    else CosineOf(Dot(a, b), sqrt(Dot(a, a)), sqrt(Dot(b, b)))
  }

  function CosineDistance(sqrt: real -> real, a: seq<real>, b: seq<real>): real {
    1.0 - CosineSimilarity(sqrt, a, b)
  }

  lemma {:induction false} DotSymmetric(a: seq<real>, b: seq<real>)
    requires |a| == |b|
    ensures Dot(a, b) == Dot(b, a)
  {
    if a != [] {
      DotSymmetric(a[1..], b[1..]);
    }
  }

  lemma {:induction false} CosineSymmetric(sqrt: real -> real, a: seq<real>, b: seq<real>)
    ensures CosineSimilarity(sqrt, a, b) == CosineSimilarity(sqrt, b, a)
    ensures CosineDistance(sqrt, a, b) == CosineDistance(sqrt, b, a)
  {
    if |a| == |b| {
      DotSymmetric(a, b);
    }
  }

}
