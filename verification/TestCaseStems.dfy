/** Ordering of test-case files found in an archive whose config lists none
    (domain-imex `problem_import.rs`, `compare_testcase_stems`). */
module TestCaseStems {
  import opened Common
  import opened Text

  function ParseI32(s: string): Option<int> { ParseInt(s, 0x8000_0000) }

  /** Strict lexicographic order on code points. */
  predicate LexLess(a: string, b: string) {
    b != "" && (a == "" || a[0] < b[0] || (a[0] == b[0] && LexLess(a[1..], b[1..])))
  }

  /** `compare_testcase_stems(a, b) == Less`; it is `Equal` only when `a == b`. */
  predicate Before(a: string, b: string) {
    var l, r := ParseI32(a), ParseI32(b);
    if l.Some? && r.Some? then l.value < r.value || (l.value == r.value && LexLess(a, b))
    else LexLess(a, b)
  }

  lemma {:induction false} LexTransitive(a: string, b: string, c: string)
    requires LexLess(a, b) && LexLess(b, c)
    ensures LexLess(a, c)
  {
    if a != "" && a[0] == b[0] == c[0] {
      LexTransitive(a[1..], b[1..], c[1..]);
    }
  }

  lemma {:induction false} LexTotal(a: string, b: string)
    ensures !(LexLess(a, b) && LexLess(b, a))
    ensures a != b <==> LexLess(a, b) || LexLess(b, a)
  {
    if a != "" && b != "" && a[0] == b[0] {
      LexTotal(a[1..], b[1..]);
      assert a == [a[0]] + a[1..] && b == [b[0]] + b[1..];
    }
  }

  lemma BeforeTotal(a: string, b: string)
    ensures !(Before(a, b) && Before(b, a))
    ensures a != b <==> Before(a, b) || Before(b, a)
  {
    LexTotal(a, b);
  }

  /** The order has a cycle on mixed stems. */
  lemma BeforeIsCyclic()
    ensures Before("9", "10") && Before("10", "1x") && Before("1x", "9")
  {
    assert "10"[..1] == "1" && "1"[..0] == "" && "9"[..0] == "";
    assert ValueOf("1") == 1 && ValueOf("9") == 9 && ValueOf("10") == 10;
    assert ParseI32("9") == Some(9) && ParseI32("10") == Some(10);
    assert ParseI32("1x") == None by { assert 'x' in "1x" && !IsDigit('x'); }
    assert "10"[1..] == "0" && "1x"[1..] == "x" && LexLess("0", "x");
  }

  ghost predicate Transitive(S: set<string>) {
    forall a, b, c :: a in S && b in S && c in S && Before(a, b) && Before(b, c) ==> Before(a, c)
  }

  /** `c` is no number and sorts as text between two numbers whose text order
      contradicts their numeric order. */
  predicate Straddles(a: string, b: string, c: string) {
    ParseI32(a).Some? && ParseI32(b).Some? && ParseI32(c).None? && Before(a, b) && LexLess(b, c) && LexLess(c, a)
  }

  ghost predicate Unmixed(S: set<string>) {
    forall a, b, c :: a in S && b in S && c in S ==> !Straddles(a, b, c)
  }

  lemma NumericTransitive(a: string, b: string, c: string)
    requires Before(a, b) && Before(b, c)
    requires ParseI32(a).Some? && ParseI32(b).Some? && ParseI32(c).Some?
    ensures Before(a, c)
  {
    if LexLess(a, b) && LexLess(b, c) {
      LexTransitive(a, b, c);
    }
  }

  /** Every cycle of three is a straddled pair. */
  lemma CycleStraddles(a: string, b: string, c: string)
    requires Before(a, b) && Before(b, c) && Before(c, a)
    ensures Straddles(a, b, c) || Straddles(b, c, a) || Straddles(c, a, b)
  {
    if ParseI32(a).Some? && ParseI32(b).Some? && ParseI32(c).Some? {
      NumericTransitive(a, b, c);
      BeforeTotal(a, c);
    } else if LexLess(a, b) && LexLess(b, c) && LexLess(c, a) {
      LexTransitive(a, b, c);
      LexTotal(a, c);
    }
  }

  /** The comparison is a total order on a set of stems exactly when none straddles. */
  lemma TransitiveIffUnmixed(S: set<string>)
    ensures Transitive(S) <==> Unmixed(S)
  {
    if Transitive(S) {
      forall a, b, c | a in S && b in S && c in S ensures !Straddles(a, b, c) {
        BeforeTotal(a, c);
      }
    }
    if Unmixed(S) {
      forall a, b, c | a in S && b in S && c in S && Before(a, b) && Before(b, c) ensures Before(a, c) {
        BeforeTotal(a, c);
        BeforeTotal(a, b);
        if Before(c, a) { CycleStraddles(a, b, c); }
      }
    }
  }

  // ------------------------------------------------------------------ sorting

  ghost predicate Distinct(xs: seq<string>) {
    forall i, j :: 0 <= i < j < |xs| ==> xs[i] != xs[j]
  }

  ghost predicate Enumerates(xs: seq<string>, S: set<string>) {
    Distinct(xs) && forall x :: x in xs <==> x in S
  }

  ghost predicate Sorted(xs: seq<string>) {
    forall i, j :: 0 <= i < j < |xs| ==> Before(xs[i], xs[j])
  }

  /** Puts `x` after every leading element that does not come after it. */
  function InsertStem(x: string, xs: seq<string>): (r: seq<string>)
    ensures forall y :: y in r <==> y == x || y in xs
    ensures |r| == |xs| + 1
  {
    if xs == [] || Before(x, xs[0]) then [x] + xs
    else
      assert xs == [xs[0]] + xs[1..];
      [xs[0]] + InsertStem(x, xs[1..])
  }

  /** `sort_by(compare_testcase_stems)` as a stable insertion sort. */
  function SortStems(xs: seq<string>): (r: seq<string>)
    ensures forall y :: y in r <==> y in xs
    ensures |r| == |xs|
  {
    if xs == [] then []
    else
      assert xs == xs[..|xs| - 1] + [xs[|xs| - 1]];
      InsertStem(xs[|xs| - 1], SortStems(xs[..|xs| - 1]))
  }

  lemma {:induction false} InsertSorted(x: string, xs: seq<string>, S: set<string>)
    requires Transitive(S) && x in S && x !in xs && Sorted(xs) && forall y :: y in xs ==> y in S
    ensures Sorted(InsertStem(x, xs))
  {
    if xs != [] {
      assert xs == [xs[0]] + xs[1..] && xs[0] in xs;
      if Before(x, xs[0]) {
        forall k | 0 <= k < |xs| ensures Before(x, xs[k]) { assert xs[k] in xs; }
      } else {
        BeforeTotal(x, xs[0]);
        InsertSorted(x, xs[1..], S);
        var r := InsertStem(x, xs[1..]);
        forall k | 0 <= k < |r| ensures Before(xs[0], r[k]) {
          if r[k] != x {
            assert r[k] in r && r[k] in xs[1..];
            var m :| 0 <= m < |xs[1..]| && xs[1..][m] == r[k];
            assert xs[m + 1] == r[k];
          }
        }
      }
    }
  }

  lemma {:induction false} SortSorted(xs: seq<string>, S: set<string>)
    requires Transitive(S) && (forall y :: y in xs ==> y in S)
    requires Distinct(xs)
    ensures Sorted(SortStems(xs))
  {
    if xs != [] {
      var front := xs[..|xs| - 1];
      assert forall y :: y in front ==> y in xs;
      SortSorted(front, S);
      assert xs[|xs| - 1] in xs && xs[|xs| - 1] !in front;
      InsertSorted(xs[|xs| - 1], SortStems(front), S);
    }
  }

  lemma SortedDistinct(xs: seq<string>)
    requires Sorted(xs)
    ensures Distinct(xs)
  {
    forall i, j | 0 <= i < j < |xs| ensures xs[i] != xs[j] {
      BeforeTotal(xs[i], xs[j]);
    }
  }

  lemma {:induction false} SortedUnique(xs: seq<string>, ys: seq<string>)
    requires Sorted(xs) && Sorted(ys) && |xs| == |ys| && forall x :: x in xs <==> x in ys
    ensures xs == ys
  {
    if xs != [] {
      assert xs[0] in ys && ys[0] in xs;
      BeforeTotal(xs[0], ys[0]);
      SortedDistinct(xs);
      SortedDistinct(ys);
      assert xs[0] == ys[0];
      forall x ensures x in xs[1..] <==> x in ys[1..] {
        assert x in xs[1..] <==> x in xs && x != xs[0];
        assert x in ys[1..] <==> x in ys && x != ys[0];
      }
      SortedUnique(xs[1..], ys[1..]);
      assert xs == [xs[0]] + xs[1..] && ys == [ys[0]] + ys[1..];
    }
  }

  lemma {:induction false} EnumerationSize(xs: seq<string>, S: set<string>)
    requires Enumerates(xs, S)
    ensures |xs| == |S|
  {
    if xs != [] {
      var front, last := xs[..|xs| - 1], xs[|xs| - 1];
      assert xs == front + [last] && last in xs && last !in front;
      EnumerationSize(front, S - {last});
    }
  }

  /** Two listings of the same stems are sorted into the same order, as long as no
      stem straddles. */
  lemma SortDeterministic(xs: seq<string>, ys: seq<string>, S: set<string>)
    requires Enumerates(xs, S) && Enumerates(ys, S) && Unmixed(S)
    ensures SortStems(xs) == SortStems(ys) && Sorted(SortStems(xs)) && Enumerates(SortStems(xs), S)
  {
    EnumerationSize(xs, S);
    EnumerationSize(ys, S);
    TransitiveIffUnmixed(S);
    SortSorted(xs, S);
    SortSorted(ys, S);
    SortedUnique(SortStems(xs), SortStems(ys));
    SortedDistinct(SortStems(xs));
  }

  /** The comparison is a total order on stems that are all numbers, or none of them. */
  lemma UniformIsTransitive(S: set<string>)
    requires (forall x :: x in S ==> ParseI32(x).Some?) || (forall x :: x in S ==> ParseI32(x).None?)
    ensures Transitive(S) && Unmixed(S)
  {
    TransitiveIffUnmixed(S);
  }

  /** With a straddling stem no listing of the set is in order. */
  lemma NoOrderWhenMixed(xs: seq<string>, S: set<string>)
    requires Enumerates(xs, S) && !Unmixed(S)
    ensures !Sorted(xs)
  {
    var a, b, c :| a in S && b in S && c in S && Straddles(a, b, c);
    BeforeTotal(a, b);
    BeforeTotal(b, c);
    BeforeTotal(a, c);
    var i :| 0 <= i < |xs| && xs[i] == a;
    var j :| 0 <= j < |xs| && xs[j] == b;
    var k :| 0 <= k < |xs| && xs[k] == c;
  }
}
