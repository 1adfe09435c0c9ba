/** Nesting depth of brace languages (domain-analysis `extractor.rs`,
    `compute_max_nesting`). The counter never goes below zero, on any text. */
module BraceNesting {

  function Weight(c: char): int { if c == '{' then 1 else if c == '}' then -1 else 0 }

  /** Opening minus closing braces in `s[i..j]`. */
  function Balance(s: string, i: nat, j: nat): int
    requires i <= j <= |s|
  {
    if i == j then 0 else Balance(s, i, j - 1) + Weight(s[j - 1])
  }

  /** `m` is the largest balance of any substring of the first `n` characters. */
  ghost predicate IsMaxBalance(s: string, n: nat, m: int)
    requires n <= |s|
  {
    && (exists i, j :: 0 <= i <= j <= n && Balance(s, i, j) == m)
    && (forall i, j :: 0 <= i <= j <= n ==> Balance(s, i, j) <= m)
  }

  /** `d` is the largest balance of any substring ending at `n`. */
  ghost predicate IsMaxEnding(s: string, n: nat, d: int)
    requires n <= |s|
  {
    && (exists i :: 0 <= i <= n && Balance(s, i, n) == d)
    && (forall i :: 0 <= i <= n ==> Balance(s, i, n) <= d)
  }

  lemma ExtendEnding(s: string, n: nat, d: int)
    requires n < |s| && IsMaxEnding(s, n, d)
    ensures IsMaxEnding(s, n + 1, if d + Weight(s[n]) > 0 then d + Weight(s[n]) else 0)
  {
    var i :| 0 <= i <= n && Balance(s, i, n) == d;
    assert Balance(s, i, n + 1) == d + Weight(s[n]);
    assert Balance(s, n + 1, n + 1) == 0;
    var n' := n + 1;
    forall k | 0 <= k <= n ensures Balance(s, k, n') <= d + Weight(s[n]) {
      assert Balance(s, k, n') == Balance(s, k, n) + Weight(s[n]);
    }
  }

  /** Whether or not the braces match, the result is the largest surplus of opening
      over closing braces in any part of the text. */
  method ComputeMaxNesting(source: string) returns (maxDepth: int)
    ensures IsMaxBalance(source, |source|, maxDepth)
  {
    var depth := 0;
    maxDepth := 0;
    assert Balance(source, 0, 0) == 0;
    for k := 0 to |source|
      invariant IsMaxEnding(source, k, depth) && IsMaxBalance(source, k, maxDepth) && 0 <= depth <= maxDepth
    {
      ghost var depth0, max0 := depth, maxDepth;
      ExtendEnding(source, k, depth);
      if source[k] == '{' {
        depth := depth + 1;
        maxDepth := if maxDepth > depth then maxDepth else depth;
      } else if source[k] == '}' {
        depth := if depth - 1 > 0 then depth - 1 else 0;
      }
    }
  }

  lemma {:induction false} BalanceSplits(s: string, i: nat, j: nat)
    requires i <= j <= |s|
    ensures Balance(s, 0, j) == Balance(s, 0, i) + Balance(s, i, j)
  {
    if i < j {
      BalanceSplits(s, i, j - 1);
    }
  }

  /** If no brace closes too early this is the deepest prefix balance: the nesting
      depth in the usual sense. */
  lemma BalancedTextDepth(s: string, m: int)
    requires IsMaxBalance(s, |s|, m)
    requires forall j :: 0 <= j <= |s| ==> Balance(s, 0, j) >= 0
    ensures exists j :: 0 <= j <= |s| && Balance(s, 0, j) == m
    ensures forall j :: 0 <= j <= |s| ==> Balance(s, 0, j) <= m
  {
    var i, j :| 0 <= i <= j <= |s| && Balance(s, i, j) == m;
    BalanceSplits(s, i, j);
  }
}
