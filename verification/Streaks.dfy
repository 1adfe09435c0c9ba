/** Current and longest streak of days with an accepted submission
    (domain-leaderboard `service.rs`, `calculate_streaks`). Days are integers. */
module Streaks {

  ghost predicate Descending(dates: seq<int>) {
    forall i, j :: 0 <= i < j < |dates| ==> dates[i] > dates[j]
  }

  /** The `len` days ending with `last` are all in the list. */
  ghost predicate IsRun(dates: seq<int>, last: int, len: nat) {
    forall d :: last - len < d <= last ==> d in dates
  }

  /** `n` is the length of the longest run of consecutive days. */
  ghost predicate IsLongest(dates: seq<int>, n: nat) {
    && (exists last :: IsRun(dates, last, n))
    && (forall last, len: nat :: IsRun(dates, last, len) ==> len <= n)
  }

  /** `n` is the length of the longest run ending on the given day. */
  ghost predicate IsLongestEnding(dates: seq<int>, last: int, n: nat) {
    IsRun(dates, last, n) && !IsRun(dates, last, n + 1)
  }

  /** From index `a` to `b` the dates go back one day at a time. */
  ghost predicate Consecutive(dates: seq<int>, a: nat, b: nat)
    requires b < |dates|
  {
    a <= b && forall k :: a <= k <= b ==> dates[k] == dates[a] - (k - a)
  }

  lemma ConsecutiveIsRun(dates: seq<int>, a: nat, b: nat)
    requires b < |dates| && Consecutive(dates, a, b)
    ensures IsRun(dates, dates[a], b - a + 1)
  {
    forall d | dates[a] - (b - a + 1) < d <= dates[a] ensures d in dates {
      assert dates[a + (dates[a] - d)] == d;
    }
  }

  /** In a descending list the days of a run stand side by side. */
  lemma {:induction false} RunIsConsecutive(dates: seq<int>, last: int, len: nat) returns (a: nat)
    requires Descending(dates) && len > 0 && IsRun(dates, last, len)
    ensures a + len <= |dates| && dates[a] == last && Consecutive(dates, a, a + len - 1)
  {
    if len == 1 {
      assert last in dates;
      a :| 0 <= a < |dates| && dates[a] == last;
    } else {
      a := RunIsConsecutive(dates, last, len - 1);
      assert last - len + 1 in dates;
      var b :| 0 <= b < |dates| && dates[b] == last - len + 1;
      var c := a + len - 1;
      assert dates[c - 1] == dates[b] + 1;
      assert b >= c && dates[c - 1] > dates[c] >= dates[b];
    }
  }

  lemma RunStops(dates: seq<int>, i: nat)
    requires Descending(dates) && 0 < i <= |dates| && Consecutive(dates, 0, i - 1)
    requires i < |dates| ==> dates[i] != dates[i - 1] - 1
    ensures !IsRun(dates, dates[0], i + 1)
  {
    if IsRun(dates, dates[0], i + 1) {
      var a := RunIsConsecutive(dates, dates[0], i + 1);
    }
  }

  lemma ShorterRun(dates: seq<int>, last: int, len: nat, shorter: nat)
    ensures IsRun(dates, last, len) && shorter <= len ==> IsRun(dates, last, shorter)
    ensures IsRun(dates, last, len) && len > 0 ==> last in dates
  {
  }

  /** No run crosses a gap, so the longest seen so far stays the longest. */
  ghost predicate LongestUpTo(dates: seq<int>, i: nat, n: nat)
    requires i < |dates|
  {
    && (exists a: nat, b :: 0 <= b <= i && Consecutive(dates, a, b) && b - a + 1 == n)
    && (forall a: nat, b :: 0 <= b <= i && Consecutive(dates, a, b) ==> b - a + 1 <= n)
  }

  /** `n` is the length of the stretch of consecutive days ending at index `i`. */
  ghost predicate StretchAt(dates: seq<int>, i: nat, n: nat)
    requires i < |dates|
  {
    1 <= n <= i + 1 && Consecutive(dates, i + 1 - n, i) && forall a: nat :: Consecutive(dates, a, i) ==> i - a + 1 <= n
  }

  method CurrentStreak(dates: seq<int>, today: int) returns (current: nat)
    requires Descending(dates)
    ensures dates != [] && (dates[0] == today || dates[0] == today - 1) ==> IsLongestEnding(dates, dates[0], current)
    ensures !(dates != [] && (dates[0] == today || dates[0] == today - 1)) ==> current == 0
  {
    current := 0;
    if dates != [] && (dates[0] == today || dates[0] == today - 1) {
      current := 1;
      var expected := dates[0];
      var i := 1;
      while i < |dates|
        invariant 1 <= i <= |dates| && current == i && expected == dates[i - 1]
        invariant Consecutive(dates, 0, i - 1)
      {
        if expected - 1 != dates[i] {
          break;
        }
        current := current + 1;
        expected := dates[i];
        i := i + 1;
      }
      ConsecutiveIsRun(dates, 0, i - 1);
      RunStops(dates, i);
    }
  }

  lemma StretchGrows(dates: seq<int>, i: nat, n: nat)
    requires i + 1 < |dates| && StretchAt(dates, i, n) && dates[i] - dates[i + 1] == 1
    ensures StretchAt(dates, i + 1, n + 1)
  {
    var j := i + 1;
    forall a: nat | Consecutive(dates, a, j) ensures j - a + 1 <= n + 1 {
      if a <= i { assert Consecutive(dates, a, i); }
    }
  }

  lemma StretchBreaks(dates: seq<int>, i: nat)
    requires i + 1 < |dates| && dates[i] - dates[i + 1] != 1
    ensures StretchAt(dates, i + 1, 1)
  {
  }

  ghost function Larger(a: nat, b: nat): nat { if a > b then a else b }

  method MaxStreak(dates: seq<int>) returns (max: nat)
    requires dates != [] && Descending(dates)
    ensures IsLongest(dates, max)
  {
    hide Consecutive;
    max := 1;
    var temp := 1;
    FirstStretch(dates);
    for i := 1 to |dates|
      invariant StretchAt(dates, i - 1, temp)
      invariant LongestUpTo(dates, i - 1, Larger(max, temp))
    {
      ghost var max0, temp0 := max, temp;
      if dates[i - 1] - dates[i] == 1 {
        StretchGrows(dates, i - 1, temp);
        temp := temp + 1;
      } else {
        StretchBreaks(dates, i - 1);
        max := if max > temp then max else temp;
        temp := 1;
      }
    }
    max := if max > temp then max else temp;
    LongestIsLongest(dates, max);
  }

  lemma FirstStretch(dates: seq<int>)
    requires dates != []
    ensures StretchAt(dates, 0, 1) && LongestUpTo(dates, 0, 1)
  {
  }

  lemma LongestIsLongest(dates: seq<int>, n: nat)
    requires dates != [] && Descending(dates) && LongestUpTo(dates, |dates| - 1, n)
    ensures IsLongest(dates, n)
  {
    var a: nat, b :| 0 <= b < |dates| && Consecutive(dates, a, b) && b - a + 1 == n;
    ConsecutiveIsRun(dates, a, b);
    forall last, len: nat | IsRun(dates, last, len) ensures len <= n {
      if len > 0 {
        var c := RunIsConsecutive(dates, last, len);
      }
    }
  }

  /** Distinct accepted days, latest first; no rows at all gives two zeros. */
  method CalculateStreaks(dates: seq<int>, today: int) returns (current: nat, max: nat)
    requires Descending(dates)
    ensures IsLongest(dates, max)
    ensures dates != [] && (dates[0] == today || dates[0] == today - 1) ==> IsLongestEnding(dates, dates[0], current)
    ensures !(dates != [] && (dates[0] == today || dates[0] == today - 1)) ==> current == 0
    ensures current <= max
  {
    if dates == [] {
      EmptyLongest();
      return 0, 0;
    }
    current := CurrentStreak(dates, today);
    max := MaxStreak(dates);
    assert IsRun(dates, dates[0], current);
  }

  lemma EmptyLongest()
    ensures IsLongest([], 0)
  {
    assert IsRun([], 0, 0);
    forall last, len: nat | IsRun([], last, len) ensures len == 0 {
      ShorterRun([], last, len, 0);
    }
  }

}
