/** DBSCAN over embedding vectors (domain-analysis `batch.rs`). The scan labels
    points in an array and grows one cluster at a time from a work queue. */
module Dbscan {
  import opened Common
  import opened Vectors

  type Graph = seq<seq<nat>>
  type Labels = seq<Option<nat>>

  // ---------------------------------------------------------------- neighbours

  predicate Near(sqrt: real -> real, vectors: seq<seq<real>>, eps: real, i: nat, j: nat)
    requires i < |vectors| && j < |vectors|
  {
    CosineDistance(sqrt, vectors[i], vectors[j]) <= eps
  }

  ghost predicate Increasing(s: seq<nat>) {
    forall a, b :: 0 <= a < b < |s| ==> s[a] < s[b]
  }

  /** The indices below `n` that are near point `i`, in order. */
  function NeighborsBelow(sqrt: real -> real, vectors: seq<seq<real>>, eps: real, i: nat, n: nat): (r: seq<nat>)
    requires i < |vectors| && n <= |vectors|
    ensures Increasing(r)
    ensures forall j: nat :: j in r <==> j < n && Near(sqrt, vectors, eps, i, j)
  {
    if n == 0 then []
    else
      var r := NeighborsBelow(sqrt, vectors, eps, i, n - 1);
      assert forall a :: 0 <= a < |r| ==> r[a] in r;
      if Near(sqrt, vectors, eps, i, n - 1) then r + [n - 1] else r
  }

  function Neighbors(sqrt: real -> real, vectors: seq<seq<real>>, eps: real): (nb: Graph)
    ensures |nb| == |vectors|
    ensures forall i :: 0 <= i < |nb| ==> nb[i] == NeighborsBelow(sqrt, vectors, eps, i, |vectors|)
  {
    seq(|vectors|, i requires 0 <= i < |vectors| => NeighborsBelow(sqrt, vectors, eps, i, |vectors|))
  }

  /** Every entry is a point, and being a neighbour is mutual. */
  ghost predicate Undirected(nb: Graph) {
    && (forall i, j :: 0 <= i < |nb| && j in nb[i] ==> j < |nb|)
    && (forall i, j :: 0 <= i < |nb| && j in nb[i] && j < |nb| ==> i in nb[j])
  }

  lemma NeighborsUndirected(sqrt: real -> real, vectors: seq<seq<real>>, eps: real)
    ensures Undirected(Neighbors(sqrt, vectors, eps))
  {
    var nb := Neighbors(sqrt, vectors, eps);
    forall i, j | 0 <= i < |nb| && j in nb[i] && j < |nb| ensures i in nb[j] {
      CosineSymmetric(sqrt, vectors[i], vectors[j]);
      assert Near(sqrt, vectors, eps, j, i);
    }
  }

  // ------------------------------------------------------- core points, chains

  predicate Core(nb: Graph, minSamples: nat, i: nat) {
    i < |nb| && |nb[i]| >= minSamples
  }

  /** A path of core points, each a neighbour of the one before. */
  ghost predicate Chain(nb: Graph, minSamples: nat, p: seq<nat>) {
    && |p| > 0
    && (forall k :: 0 <= k < |p| ==> Core(nb, minSamples, p[k]))
    && (forall k :: 0 < k < |p| ==> p[k] in nb[p[k - 1]])
  }

  ghost predicate Connected(nb: Graph, minSamples: nat, i: nat, j: nat) {
    exists p: seq<nat> :: Chain(nb, minSamples, p) && p[0] == i && p[|p| - 1] == j
  }

  lemma ConnectedSelf(nb: Graph, minSamples: nat, i: nat)
    requires Core(nb, minSamples, i)
    ensures Connected(nb, minSamples, i, i)
  {
    assert Chain(nb, minSamples, [i]);
  }

  lemma ConnectedStep(nb: Graph, minSamples: nat, i: nat, j: nat, k: nat)
    requires Connected(nb, minSamples, i, j)
    requires Core(nb, minSamples, j) && Core(nb, minSamples, k) && k in nb[j]
    ensures Connected(nb, minSamples, i, k)
  {
    var p :| Chain(nb, minSamples, p) && p[0] == i && p[|p| - 1] == j;
    var q := p + [k];
    assert Chain(nb, minSamples, q);
    assert q[0] == i && q[|q| - 1] == k;
  }

  lemma {:induction false} ChainJoins(nb: Graph, minSamples: nat, i: nat, p: seq<nat>)
    requires Chain(nb, minSamples, p) && Connected(nb, minSamples, i, p[0])
    ensures Connected(nb, minSamples, i, p[|p| - 1])
    decreases |p|
  {
    if |p| > 1 {
      ConnectedStep(nb, minSamples, i, p[0], p[1]);
      assert Chain(nb, minSamples, p[1..]) by {
        forall k | 0 < k < |p[1..]| ensures p[1..][k] in nb[p[1..][k - 1]] {
          assert p[1..][k] == p[k + 1] && p[1..][k - 1] == p[k];
        }
      }
      ChainJoins(nb, minSamples, i, p[1..]);
    }
  }

  lemma ConnectedTransitive(nb: Graph, minSamples: nat, i: nat, j: nat, k: nat)
    requires Connected(nb, minSamples, i, j) && Connected(nb, minSamples, j, k)
    ensures Connected(nb, minSamples, i, k)
  {
    var p :| Chain(nb, minSamples, p) && p[0] == j && p[|p| - 1] == k;
    ChainJoins(nb, minSamples, i, p);
  }

  lemma ConnectedSymmetric(nb: Graph, minSamples: nat, i: nat, j: nat)
    requires Undirected(nb) && Connected(nb, minSamples, i, j)
    ensures Connected(nb, minSamples, j, i)
  {
    var p :| Chain(nb, minSamples, p) && p[0] == i && p[|p| - 1] == j;
    var n := |p|;
    var q := seq(n, k requires 0 <= k < n => p[n - 1 - k]);
    assert Chain(nb, minSamples, q) by {
      forall k | 0 < k < |q| ensures q[k] in nb[q[k - 1]] {
        assert p[n - k] in nb[p[n - k - 1]];
      }
    }
    assert q[0] == j && q[n - 1] == i;
  }

  // -------------------------------------------------------------- what it means

  ghost predicate InSome(clusters: seq<seq<nat>>, x: nat) {
    exists c :: 0 <= c < |clusters| && x in clusters[c]
  }

  /** `x` is a core point or a neighbour of one. */
  ghost predicate Reached(nb: Graph, minSamples: nat, x: nat) {
    x < |nb| && (Core(nb, minSamples, x) || exists r :: r in nb[x] && Core(nb, minSamples, r))
  }

  ghost predicate HasCore(nb: Graph, minSamples: nat, cluster: seq<nat>) {
    exists x :: x in cluster && Core(nb, minSamples, x)
  }

  ghost predicate WellFormedLists(nb: Graph, minSamples: nat, clusters: seq<seq<nat>>) {
    && (forall c :: 0 <= c < |clusters| ==> Increasing(clusters[c]))
    && (forall c :: 0 <= c < |clusters| ==> HasCore(nb, minSamples, clusters[c]))
    && (forall c, d, x :: 0 <= c < |clusters| && 0 <= d < |clusters| && x in clusters[c] && x in clusters[d] ==> c == d)
    && (forall x: nat :: InSome(clusters, x) <==> Reached(nb, minSamples, x))
  }

  /** Two core points share a cluster exactly when a chain of core points joins them. */
  ghost predicate CoreComponents(nb: Graph, minSamples: nat, clusters: seq<seq<nat>>) {
    forall c, d, x, y ::
      0 <= c < |clusters| && 0 <= d < |clusters| && x in clusters[c] && y in clusters[d]
      && Core(nb, minSamples, x) && Core(nb, minSamples, y)
      ==> (c == d <==> Connected(nb, minSamples, x, y))
  }

  /** A border point takes the lowest cluster among the core points next to it. */
  ghost predicate LowestBorder(nb: Graph, minSamples: nat, clusters: seq<seq<nat>>) {
    forall c, x :: 0 <= c < |clusters| && x in clusters[c] && x < |nb| && !Core(nb, minSamples, x) ==>
      && (exists r :: r in nb[x] && Core(nb, minSamples, r) && r in clusters[c])
      && (forall d, r :: 0 <= d < |clusters| && r in clusters[d] && r in nb[x] && Core(nb, minSamples, r) ==> c <= d)
  }

  /** Cluster ids follow the order in which core points appear in the input. */
  ghost predicate OrderedByFirstCore(nb: Graph, minSamples: nat, clusters: seq<seq<nat>>) {
    forall c, d, x :: 0 <= d < c < |clusters| && x in clusters[c] && Core(nb, minSamples, x) ==>
      exists y :: y in clusters[d] && y < x && Core(nb, minSamples, y)
  }

  ghost predicate IsClustering(nb: Graph, minSamples: nat, clusters: seq<seq<nat>>) {
    && WellFormedLists(nb, minSamples, clusters)
    && CoreComponents(nb, minSamples, clusters)
    && LowestBorder(nb, minSamples, clusters)
    && OrderedByFirstCore(nb, minSamples, clusters)
  }

  // ---------------------------------------------------- the four laws fix a result

  lemma SharedIffConnected(nb: Graph, minSamples: nat, A: seq<seq<nat>>, c: nat, d: nat, x: nat, y: nat)
    requires CoreComponents(nb, minSamples, A) && c < |A| && d < |A| && x in A[c] && y in A[d]
    requires Core(nb, minSamples, x) && Core(nb, minSamples, y)
    ensures c == d <==> Connected(nb, minSamples, x, y)
  {
  }

  lemma {:induction false} CoreClusterAgrees(nb: Graph, minSamples: nat, A: seq<seq<nat>>, B: seq<seq<nat>>, x: nat,
      c: nat)
    requires IsClustering(nb, minSamples, A) && IsClustering(nb, minSamples, B)
    requires Core(nb, minSamples, x) && c < |A| && x in A[c]
    ensures c < |B| && x in B[c]
    decreases x
  {
    assert InSome(B, x) by { assert Reached(nb, minSamples, x); }
    var d :| 0 <= d < |B| && x in B[d];
    if c < d {
      var y :| y in B[c] && y < x && Core(nb, minSamples, y);
      assert InSome(A, y) by { assert Reached(nb, minSamples, y); }
      var e :| 0 <= e < |A| && y in A[e];
      CoreClusterAgrees(nb, minSamples, A, B, y, e);
      SharedIffConnected(nb, minSamples, A, c, c, x, y);
    } else if d < c {
      var y :| y in A[d] && y < x && Core(nb, minSamples, y);
      CoreClusterAgrees(nb, minSamples, A, B, y, d);
      SharedIffConnected(nb, minSamples, B, d, d, x, y);
    }
  }

  lemma MemberAgrees(nb: Graph, minSamples: nat, A: seq<seq<nat>>, B: seq<seq<nat>>, x: nat, c: nat)
    requires IsClustering(nb, minSamples, A) && IsClustering(nb, minSamples, B)
    requires c < |A| && x in A[c]
    ensures c < |B| && x in B[c]
  {
    assert InSome(A, x);
    if Core(nb, minSamples, x) {
      CoreClusterAgrees(nb, minSamples, A, B, x, c);
    } else {
      assert InSome(B, x);
      var d :| 0 <= d < |B| && x in B[d];
      var r :| r in nb[x] && Core(nb, minSamples, r) && r in A[c];
      CoreClusterAgrees(nb, minSamples, A, B, r, c);
      var s :| s in nb[x] && Core(nb, minSamples, s) && s in B[d];
      CoreClusterAgrees(nb, minSamples, B, A, s, d);
    }
  }

  lemma NoMembers(t: seq<nat>)
    ensures (forall x :: x !in t) ==> t == []
  {
    if t != [] { assert t[0] in t; }
  }

  lemma {:induction false} IncreasingExtensional(s: seq<nat>, t: seq<nat>)
    requires Increasing(s) && Increasing(t)
    requires forall x :: x in s <==> x in t
    ensures s == t
    decreases |s|
  {
    if s == [] {
      NoMembers(t);
    } else {
      assert s[0] in t && t[0] in s;
      assert s[0] == t[0];
      forall x ensures x in s[1..] <==> x in t[1..] {
        assert x in s[1..] <==> x in s && x != s[0];
        assert x in t[1..] <==> x in t && x != t[0];
      }
      IncreasingExtensional(s[1..], t[1..]);
      assert s == [s[0]] + s[1..] && t == [t[0]] + t[1..];
    }
  }

  /** At most one cluster list satisfies the specification. */
  lemma ClusteringUnique(nb: Graph, minSamples: nat, A: seq<seq<nat>>, B: seq<seq<nat>>)
    requires IsClustering(nb, minSamples, A) && IsClustering(nb, minSamples, B)
    ensures A == B
  {
    ClusterCount(nb, minSamples, A, B);
    ClusterCount(nb, minSamples, B, A);
    forall c | 0 <= c < |A| ensures A[c] == B[c] {
      forall x: nat ensures x in A[c] <==> x in B[c] {
        if x in A[c] { MemberAgrees(nb, minSamples, A, B, x, c); }
        if x in B[c] { MemberAgrees(nb, minSamples, B, A, x, c); }
      }
      IncreasingExtensional(A[c], B[c]);
    }
  }

  lemma ClusterCount(nb: Graph, minSamples: nat, A: seq<seq<nat>>, B: seq<seq<nat>>)
    requires IsClustering(nb, minSamples, A) && IsClustering(nb, minSamples, B)
    ensures |A| <= |B|
  {
    if |A| > 0 {
      var c := |A| - 1;
      assert HasCore(nb, minSamples, A[c]);
      var x :| x in A[c] && Core(nb, minSamples, x);
      MemberAgrees(nb, minSamples, A, B, x, c);
    }
  }

  // -------------------------------------------------------- invariants of the scan

  /** What holds of the labels between any two assignments: cluster `c` was grown
      from `seeds[c]`, and every core point below `scanned` has a label. */
  ghost predicate Grown(nb: Graph, minSamples: nat, L: Labels, seeds: seq<nat>, scanned: nat) {
    && |L| == |nb|
    && Increasing(seeds)
    && (forall c :: 0 <= c < |seeds| ==> Core(nb, minSamples, seeds[c]) && L[seeds[c]] == Some(c))
    && (forall p :: 0 <= p < |L| && L[p].Some? ==> L[p].value < |seeds|)
    && (forall p :: 0 <= p < |L| && L[p].Some? && Core(nb, minSamples, p) ==>
          seeds[L[p].value] <= p && Connected(nb, minSamples, seeds[L[p].value], p))
    && (forall p :: 0 <= p < |L| && L[p].Some? && !Core(nb, minSamples, p) ==>
          exists r :: r in nb[p] && Core(nb, minSamples, r) && L[r] == L[p])
    && (forall p :: 0 <= p < scanned && Core(nb, minSamples, p) ==> L[p].Some?)
  }

  /** `q`, a neighbour of the labelled core point `p`, has been given a label no
      higher than that of `p`, or it still waits in the queue of cluster `c`. */
  ghost predicate Handled(L: Labels, p: nat, q: nat, c: nat, queue: seq<nat>)
    requires p < |L| && q < |L| && L[p].Some?
  {
    if L[q].Some? then L[q].value <= L[p].value else L[p].value == c && q in queue
  }

  ghost predicate ClosedExcept(nb: Graph, minSamples: nat, L: Labels, c: nat, queue: seq<nat>)
    requires Undirected(nb) && |L| == |nb|
  {
    forall p, q :: 0 <= p < |L| && L[p].Some? && Core(nb, minSamples, p) && q in nb[p] ==> Handled(L, p, q, c, queue)
  }

  /** `q` is next to a core point of cluster `c`. */
  ghost predicate Touches(nb: Graph, minSamples: nat, L: Labels, c: nat, q: nat)
    requires Undirected(nb) && |L| == |nb|
  {
    q < |L| && exists r :: r in nb[q] && Core(nb, minSamples, r) && L[r] == Some(c)
  }

  /** Between clusters nothing waits. */
  ghost predicate Settled(nb: Graph, minSamples: nat, L: Labels, seeds: seq<nat>, scanned: nat)
    requires Undirected(nb)
  {
    && Grown(nb, minSamples, L, seeds, scanned)
    && (forall c :: 0 <= c < |seeds| ==> seeds[c] < scanned)
    && ClosedExcept(nb, minSamples, L, 0, [])
  }

  /** While the last cluster grows from its seed, all waiting points touch it. */
  ghost predicate Growing(nb: Graph, minSamples: nat, L: Labels, seeds: seq<nat>, queue: seq<nat>)
    requires Undirected(nb)
  {
    && |seeds| > 0
    && Grown(nb, minSamples, L, seeds, seeds[|seeds| - 1])
    && ClosedExcept(nb, minSamples, L, |seeds| - 1, queue)
    && (forall q :: q in queue ==> Touches(nb, minSamples, L, |seeds| - 1, q))
  }

  /** The points of `xs` without a label, in order. */
  function Unlabelled(L: Labels, xs: seq<nat>): (r: seq<nat>)
    requires forall x :: x in xs ==> x < |L|
    ensures forall x :: x in r <==> x in xs && L[x].None?
  {
    if xs == [] then []
    else
      var front, x := xs[..|xs| - 1], xs[|xs| - 1];
      assert xs == front + [x] && x in xs;
      assert forall y :: y in front ==> y in xs;
      var rest := Unlabelled(L, front);
      if L[x].None? then rest + [x] else rest
  }

  lemma StartGrown(nb: Graph, minSamples: nat, L: Labels, seeds: seq<nat>, i: nat, L': Labels)
    requires Undirected(nb) && Settled(nb, minSamples, L, seeds, i)
    requires Core(nb, minSamples, i) && L[i].None? && L' == L[i := Some(|seeds|)]
    ensures Grown(nb, minSamples, L', seeds + [i], i)
  {
    hide Connected, ClosedExcept;
    ConnectedSelf(nb, minSamples, i);
  }

  lemma StartCluster(nb: Graph, minSamples: nat, L: Labels, seeds: seq<nat>, i: nat, L': Labels)
    requires Undirected(nb) && Settled(nb, minSamples, L, seeds, i)
    requires Core(nb, minSamples, i) && L[i].None? && L' == L[i := Some(|seeds|)]
    ensures Growing(nb, minSamples, L', seeds + [i], Unlabelled(L', nb[i]))
  {
    hide Connected;
    var seeds', queue := seeds + [i], Unlabelled(L', nb[i]);
    StartGrown(nb, minSamples, L, seeds, i, L');
    forall q | q in queue ensures Touches(nb, minSamples, L', |seeds|, q) {
      assert i in nb[q];
    }
  }

  lemma PopLabelled(nb: Graph, minSamples: nat, L: Labels, seeds: seq<nat>, queue: seq<nat>)
    requires Undirected(nb) && Growing(nb, minSamples, L, seeds, queue)
    requires |queue| > 0 && queue[0] < |L| && L[queue[0]].Some?
    ensures Growing(nb, minSamples, L, seeds, queue[1..])
  {
    assert queue == [queue[0]] + queue[1..];
    assert forall q :: q in queue[1..] ==> q in queue;
    forall p, q | 0 <= p < |L| && L[p].Some? && Core(nb, minSamples, p) && q in nb[p]
      ensures Handled(L, p, q, |seeds| - 1, queue[1..])
    {
      assert Handled(L, p, q, |seeds| - 1, queue);
    }
  }

  /** The parts of `Grown` that speak of one labelled point. */
  ghost predicate PointGrown(nb: Graph, minSamples: nat, L: Labels, seeds: seq<nat>, p: nat)
    requires |L| == |nb| && p < |L| && L[p].Some?
  {
    && L[p].value < |seeds|
    && (Core(nb, minSamples, p) ==> seeds[L[p].value] <= p && Connected(nb, minSamples, seeds[L[p].value], p))
    && (!Core(nb, minSamples, p) ==> exists r :: r in nb[p] && Core(nb, minSamples, r) && L[r] == L[p])
  }

  lemma NewLabelGrown(nb: Graph, minSamples: nat, L: Labels, seeds: seq<nat>, q: nat, L': Labels)
    requires Undirected(nb) && |seeds| > 0 && Grown(nb, minSamples, L, seeds, seeds[|seeds| - 1])
    requires Touches(nb, minSamples, L, |seeds| - 1, q) && L[q].None? && L' == L[q := Some(|seeds| - 1)]
    ensures PointGrown(nb, minSamples, L', seeds, q)
  {
    hide Connected;
    var c := |seeds| - 1;
    var r :| r in nb[q] && Core(nb, minSamples, r) && L[r] == Some(c);
    assert q in nb[r] && L'[r] == Some(c);
    if Core(nb, minSamples, q) {
      ConnectedStep(nb, minSamples, seeds[c], r, q);
    }
  }

  lemma LabelKeepsGrown(nb: Graph, minSamples: nat, L: Labels, seeds: seq<nat>, q: nat, L': Labels)
    requires Undirected(nb) && |seeds| > 0 && Grown(nb, minSamples, L, seeds, seeds[|seeds| - 1])
    requires Touches(nb, minSamples, L, |seeds| - 1, q) && L[q].None? && L' == L[q := Some(|seeds| - 1)]
    ensures Grown(nb, minSamples, L', seeds, seeds[|seeds| - 1])
  {
    assert q < |L|;
    hide Connected, Touches, Undirected;
    forall p: nat | p < |L'| && L'[p].Some? ensures PointGrown(nb, minSamples, L', seeds, p) {
      if p == q {
        NewLabelGrown(nb, minSamples, L, seeds, q, L');
      } else {
      }
    }
  }

  lemma LabelKeepsClosed(nb: Graph, minSamples: nat, L: Labels, c: nat, queue: seq<nat>, L': Labels, queue': seq<nat>)
    requires Undirected(nb) && |L| == |nb| && ClosedExcept(nb, minSamples, L, c, queue)
    requires |queue| > 0 && queue[0] < |L| && L[queue[0]].None? && L' == L[queue[0] := Some(c)]
    requires forall p :: 0 <= p < |L| && L[p].Some? ==> L[p].value <= c
    requires forall q :: q in queue[1..] ==> q in queue'
    requires Core(nb, minSamples, queue[0]) ==> forall q :: q in nb[queue[0]] && L'[q].None? ==> q in queue'
    ensures ClosedExcept(nb, minSamples, L', c, queue')
  {
  }

  lemma PopUnlabelled(nb: Graph, minSamples: nat, L: Labels, seeds: seq<nat>, queue: seq<nat>, L': Labels,
      queue': seq<nat>)
    requires Undirected(nb) && Growing(nb, minSamples, L, seeds, queue)
    requires |queue| > 0 && queue[0] < |L| && L[queue[0]].None?
    requires L' == L[queue[0] := Some(|seeds| - 1)]
    requires queue' == queue[1..] + if Core(nb, minSamples, queue[0]) then Unlabelled(L', nb[queue[0]]) else []
    ensures Growing(nb, minSamples, L', seeds, queue')
  {
    var x, c := queue[0], |seeds| - 1;
    assert x in queue;
    LabelKeepsGrown(nb, minSamples, L, seeds, x, L');
    LabelKeepsClosed(nb, minSamples, L, c, queue, L', queue');
    forall q | q in queue' ensures Touches(nb, minSamples, L', c, q) {
      assert q in queue[1..] ==> q in queue;
    }
  }

  lemma ClusterFinished(nb: Graph, minSamples: nat, L: Labels, seeds: seq<nat>)
    requires Undirected(nb) && Growing(nb, minSamples, L, seeds, [])
    ensures Settled(nb, minSamples, L, seeds, seeds[|seeds| - 1] + 1)
  {
  }

  // ------------------------------------------------------------------ grouping

  /** The points below `n` labelled `c`, in order. */
  function Members(L: Labels, c: nat, n: nat): (r: seq<nat>)
    requires n <= |L|
    ensures Increasing(r)
    ensures forall x: nat :: x in r <==> x < n && L[x] == Some(c)
  {
    if n == 0 then []
    else
      var r := Members(L, c, n - 1);
      assert forall a :: 0 <= a < |r| ==> r[a] in r;
      if L[n - 1] == Some(c) then r + [n - 1] else r
  }

  function Grouped(L: Labels, count: nat): (clusters: seq<seq<nat>>)
    ensures |clusters| == count
    ensures forall c :: 0 <= c < count ==> clusters[c] == Members(L, c, |L|)
  {
    seq(count, c requires 0 <= c < count => Members(L, c, |L|))
  }

  lemma {:induction false} ChainSharesLabel(nb: Graph, minSamples: nat, L: Labels, seeds: seq<nat>, p: seq<nat>)
    requires Undirected(nb) && Settled(nb, minSamples, L, seeds, |nb|) && Chain(nb, minSamples, p)
    ensures L[p[0]] == L[p[|p| - 1]]
    decreases |p|
  {
    if |p| > 1 {
      var front := p[..|p| - 1];
      assert Chain(nb, minSamples, front);
      ChainSharesLabel(nb, minSamples, L, seeds, front);
    }
  }

  lemma SameLabelIffConnected(nb: Graph, minSamples: nat, L: Labels, seeds: seq<nat>, x: nat, y: nat)
    requires Undirected(nb) && Settled(nb, minSamples, L, seeds, |nb|)
    requires Core(nb, minSamples, x) && Core(nb, minSamples, y)
    ensures L[x] == L[y] <==> Connected(nb, minSamples, x, y)
  {
    if L[x] == L[y] {
      var s := seeds[L[x].value];
      ConnectedSymmetric(nb, minSamples, s, x);
      ConnectedTransitive(nb, minSamples, x, s, y);
    }
    if Connected(nb, minSamples, x, y) {
      var p :| Chain(nb, minSamples, p) && p[0] == x && p[|p| - 1] == y;
      ChainSharesLabel(nb, minSamples, L, seeds, p);
    }
  }

  lemma SettledWellFormed(nb: Graph, minSamples: nat, L: Labels, seeds: seq<nat>)
    requires Undirected(nb) && Settled(nb, minSamples, L, seeds, |nb|)
    ensures WellFormedLists(nb, minSamples, Grouped(L, |seeds|))
  {
    var clusters := Grouped(L, |seeds|);
    forall c | 0 <= c < |clusters| ensures HasCore(nb, minSamples, clusters[c]) {
      assert seeds[c] in clusters[c];
    }
    forall x: nat ensures InSome(clusters, x) <==> Reached(nb, minSamples, x) {
      if x < |nb| {
        if L[x].Some? { assert x in clusters[L[x].value]; }
      }
    }
  }

  lemma SettledBorder(nb: Graph, minSamples: nat, L: Labels, seeds: seq<nat>)
    requires Undirected(nb) && Settled(nb, minSamples, L, seeds, |nb|)
    ensures LowestBorder(nb, minSamples, Grouped(L, |seeds|))
  {
  }

  lemma SettledOrdered(nb: Graph, minSamples: nat, L: Labels, seeds: seq<nat>)
    requires Undirected(nb) && Settled(nb, minSamples, L, seeds, |nb|)
    ensures OrderedByFirstCore(nb, minSamples, Grouped(L, |seeds|))
  {
  }

  lemma SettledIsClustering(nb: Graph, minSamples: nat, L: Labels, seeds: seq<nat>)
    requires Undirected(nb) && Settled(nb, minSamples, L, seeds, |nb|)
    ensures IsClustering(nb, minSamples, Grouped(L, |seeds|))
  {
    var clusters := Grouped(L, |seeds|);
    SettledWellFormed(nb, minSamples, L, seeds);
    SettledBorder(nb, minSamples, L, seeds);
    SettledOrdered(nb, minSamples, L, seeds);
    forall c, d, x, y | 0 <= c < |clusters| && 0 <= d < |clusters| && x in clusters[c] && y in clusters[d]
                        && Core(nb, minSamples, x) && Core(nb, minSamples, y)
      ensures c == d <==> Connected(nb, minSamples, x, y)
    {
      SameLabelIffConnected(nb, minSamples, L, seeds, x, y);
    }
  }

  // ----------------------------------------------------------------- the scan

  ghost function Pending(L: Labels): set<nat> {
    set p: nat | p < |L| && L[p].None?
  }

  lemma NothingLabelled(nb: Graph, minSamples: nat, L: Labels)
    requires Undirected(nb) && |L| == |nb| && forall p :: 0 <= p < |L| ==> L[p].None?
    ensures Settled(nb, minSamples, L, [], 0)
  {
  }

  lemma SkipPoint(nb: Graph, minSamples: nat, L: Labels, seeds: seq<nat>, i: nat)
    requires Undirected(nb) && i < |nb| && Settled(nb, minSamples, L, seeds, i)
    requires L[i].Some? || !Core(nb, minSamples, i)
    ensures Settled(nb, minSamples, L, seeds, i + 1)
  {
  }

  lemma QueueInRange(nb: Graph, minSamples: nat, L: Labels, seeds: seq<nat>, queue: seq<nat>)
    requires Undirected(nb) && Growing(nb, minSamples, L, seeds, queue) && queue != []
    ensures queue[0] < |L|
  {
    assert queue[0] in queue;
  }

  lemma LabelsInRange(nb: Graph, minSamples: nat, L: Labels, seeds: seq<nat>, scanned: nat)
    requires Undirected(nb) && Settled(nb, minSamples, L, seeds, scanned)
    ensures forall p :: 0 <= p < |L| && L[p].Some? ==> L[p].value < |seeds|
  {
  }

  /** Appends the points of `xs` that have no label. */
  method EnqueueUnlabelled(labels: array<Option<nat>>, xs: seq<nat>, queue: seq<nat>) returns (queue': seq<nat>)
    requires forall x :: x in xs ==> x < labels.Length
    ensures queue' == queue + Unlabelled(labels[..], xs)
  {
    queue' := queue;
    for k := 0 to |xs|
      invariant forall x :: x in xs[..k] ==> x < labels.Length
      invariant queue' == queue + Unlabelled(labels[..], xs[..k])
    {
      assert xs[..k + 1][..k] == xs[..k];
      assert xs[..k + 1] == xs[..k] + [xs[k]] && xs[k] in xs;
      if labels[xs[k]].None? {
        queue' := queue' + [xs[k]];
      }
    }
    assert xs[..|xs|] == xs;
  }

  /** Grows the cluster seeded at `i`; the queue shrinks or a point gains a label. */
  method ExpandCluster(nb: Graph, minSamples: nat, labels: array<Option<nat>>, ghost seeds: seq<nat>, i: nat,
      current: nat)
    requires Undirected(nb) && labels.Length == |nb| && Core(nb, minSamples, i) && current == |seeds|
    requires labels[i].None? && Settled(nb, minSamples, labels[..], seeds, i)
    modifies labels
    ensures Settled(nb, minSamples, labels[..], seeds + [i], i + 1)
  {
    hide Grown, ClosedExcept, Touches, Settled;
    ghost var before := labels[..];
    labels[i] := Some(current);
    assert labels[..] == before[i := Some(current)];
    StartCluster(nb, minSamples, before, seeds, i, labels[..]);
    var queue := Unlabelled(labels[..], nb[i]);
    ghost var seeds' := seeds + [i];
    while queue != []
      invariant Growing(nb, minSamples, labels[..], seeds', queue)
      decreases Pending(labels[..]), |queue|
    {
      var q := queue[0];
      QueueInRange(nb, minSamples, labels[..], seeds', queue);
      ghost var L, waiting := labels[..], queue;
      queue := queue[1..];
      if labels[q].Some? {
        PopLabelled(nb, minSamples, L, seeds', waiting);
        continue;
      }
      labels[q] := Some(current);
      ghost var L' := labels[..];
      assert L' == L[q := Some(current)];
      if |nb[q]| >= minSamples {
        queue := EnqueueUnlabelled(labels, nb[q], queue);
      }
      PopUnlabelled(nb, minSamples, L, seeds', waiting, L', queue);
      assert q in Pending(L) && Pending(L') < Pending(L);
    }
    ClusterFinished(nb, minSamples, labels[..], seeds');
  }

  method GroupByLabel(labels: array<Option<nat>>, count: nat) returns (clusters: seq<seq<nat>>)
    requires forall i :: 0 <= i < labels.Length && labels[i].Some? ==> labels[i].value < count
    ensures clusters == Grouped(labels[..], count)
  {
    clusters := seq(count, _ => []);
    for i := 0 to labels.Length
      invariant |clusters| == count
      invariant forall c :: 0 <= c < count ==> clusters[c] == Members(labels[..], c, i)
    {
      if labels[i].Some? {
        var c := labels[i].value;
        clusters := clusters[c := clusters[c] + [i]];
      }
    }
  }

  lemma NothingClustered(sqrt: real -> real, vectors: seq<seq<real>>, eps: real, minSamples: nat)
    requires vectors == []
    ensures IsClustering(Neighbors(sqrt, vectors, eps), minSamples, [])
  {
  }

  method DbscanCluster(sqrt: real -> real, vectors: seq<seq<real>>, eps: real, minSamples: nat)
    returns (clusters: seq<seq<nat>>)
    ensures IsClustering(Neighbors(sqrt, vectors, eps), minSamples, clusters)
  {
    hide Grown, ClosedExcept, Settled, IsClustering, Undirected;
    var n := |vectors|;
    if n == 0 {
      NothingClustered(sqrt, vectors, eps, minSamples);
      return [];
    }
    var nb := Neighbors(sqrt, vectors, eps);
    NeighborsUndirected(sqrt, vectors, eps);
    var labels := new Option<nat>[n](_ => None);
    var clusterId := 0;
    ghost var seeds: seq<nat> := [];
    NothingLabelled(nb, minSamples, labels[..]);
    for i := 0 to n
      invariant clusterId == |seeds| && Settled(nb, minSamples, labels[..], seeds, i)
    {
      if labels[i].Some? || |nb[i]| < minSamples {
        SkipPoint(nb, minSamples, labels[..], seeds, i);
        continue;
      }
      ExpandCluster(nb, minSamples, labels, seeds, i, clusterId);
      seeds := seeds + [i];
      clusterId := clusterId + 1;
    }
    LabelsInRange(nb, minSamples, labels[..], seeds, n);
    assert forall i :: 0 <= i < labels.Length ==> labels[i] == labels[..][i];
    clusters := GroupByLabel(labels, clusterId);
    SettledIsClustering(nb, minSamples, labels[..], seeds);
  }
}
