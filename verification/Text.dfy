/** String operations of the Rust standard library that the models use, and the
    unique-parse facts the cache key and the archive paths rest on. */
module Text {
  import opened Common

  predicate IsDigit(c: char) { '0' <= c <= '9' }

  function DigitChar(d: nat): char
    requires d < 10
  {
    "0123456789"[d]
  }

  function Digits(n: nat): (s: string)
    ensures |s| > 0 && forall c :: c in s ==> IsDigit(c)
  {
    if n < 10 then [DigitChar(n)] else Digits(n / 10) + [DigitChar(n % 10)]
  }

  function ValueOf(s: string): nat
    requires forall c :: c in s ==> IsDigit(c)
  {
    if s == "" then 0
    else
      assert s[|s| - 1] in s && IsDigit(s[|s| - 1]);
      ValueOf(s[..|s| - 1]) * 10 + (s[|s| - 1] as int - 48)
  }

  predicate AllDigits(s: string) { forall c :: c in s ==> IsDigit(c) }

  /** `str::parse` for a signed integer type with values in [-bound, bound): an
      optional sign, then digits, within range. */
  function ParseInt(s: string, bound: nat): Option<int> {
    var signed := s != "" && (s[0] == '-' || s[0] == '+');
    var body := if signed then s[1..] else s;
    if body == "" || !AllDigits(body) then None
    else
      var v := if signed && s[0] == '-' then 0 - ValueOf(body) else ValueOf(body);
      if 0 - bound <= v < bound then Some(v) else None
  }

  /** How an integer is formatted with `{}`. */
  function Decimal(n: int): string {
    if n < 0 then "-" + Digits(-n) else Digits(n)
  }

  lemma {:induction false} DigitsRead(n: nat)
    ensures ValueOf(Digits(n)) == n
  {
    if n < 10 {
      assert Digits(n)[..0] == "";
    } else {
      DigitsRead(n / 10);
      assert Digits(n)[..|Digits(n)| - 1] == Digits(n / 10);
    }
  }

  lemma DecimalChars(n: int)
    ensures |Decimal(n)| > 0 && forall c :: c in Decimal(n) ==> IsDigit(c) || c == '-'
    ensures Decimal(n)[0] == '-' <==> n < 0
  {
    if n >= 0 { assert Digits(n)[0] in Digits(n); }
  }

  lemma DecimalInjective(a: int, b: int)
    requires Decimal(a) == Decimal(b)
    ensures a == b
  {
    hide Digits, ValueOf;
    DecimalChars(a);
    DecimalChars(b);
    if a < 0 {
      assert Decimal(a)[1..] == Digits(-a) && Decimal(b)[1..] == Digits(-b);
      DigitsRead(-a);
      DigitsRead(-b);
    } else {
      DigitsRead(a);
      DigitsRead(b);
    }
  }

  /** Two ways of cutting one text around the same character. */
  lemma TwoCuts(a: string, x: string, b: string, y: string, c: char)
    requires a + [c] + x == b + [c] + y
    ensures |a| < |b| ==> c in b && c in x
    ensures |b| < |a| ==> c in a && c in y
    ensures |a| == |b| ==> a == b && x == y
  {
    var s, t := a + [c] + x, b + [c] + y;
    assert s[|a|] == c && s[|b|] == t[|b|] == c;
    if |a| < |b| {
      assert t[|a|] == b[|a|] && s[|b|] == x[|b| - |a| - 1];
    } else if |b| < |a| {
      assert s[|b|] == a[|b|] && t[|a|] == y[|a| - |b| - 1];
    } else {
      assert a == s[..|a|] && b == t[..|b|];
      assert x == s[|a| + 1..] && y == t[|b| + 1..];
    }
  }

  /** A text splits in one way at the first occurrence of a character. */
  lemma SplitFirst(a: string, x: string, b: string, y: string, c: char)
    requires c !in a && c !in b && a + [c] + x == b + [c] + y
    ensures a == b && x == y
  {
    TwoCuts(a, x, b, y, c);
  }

  /** A text splits in one way at the last occurrence of a character. */
  lemma SplitLast(a: string, x: string, b: string, y: string, c: char)
    requires c !in x && c !in y && a + [c] + x == b + [c] + y
    ensures a == b && x == y
  {
    TwoCuts(a, x, b, y, c);
  }

  predicate EndsWith(s: string, t: string) {
    |s| >= |t| && s[|s| - |t|..] == t
  }

  function TrimStartMatches(s: string, p: string): string
    requires p != ""
  {
    if p <= s then TrimStartMatches(s[|p|..], p) else s
  }

  function TrimEndMatches(s: string, t: string): string
    requires t != ""
  {
    if EndsWith(s, t) then TrimEndMatches(s[..|s| - |t|], t) else s
  }

  function CountChar(s: string, c: char): nat {
    if s == "" then 0 else (if s[0] == c then 1 else 0) + CountChar(s[1..], c)
  }

  lemma {:induction false} CountCharConcat(s: string, t: string, c: char)
    ensures CountChar(s + t, c) == CountChar(s, c) + CountChar(t, c)
  {
    if s == "" {
      assert s + t == t;
    } else {
      CountCharConcat(s[1..], t, c);
      assert (s + t)[1..] == s[1..] + t;
    }
  }

  lemma {:induction false} CountCharAbsent(s: string, c: char)
    requires c !in s
    ensures CountChar(s, c) == 0
  {
    if s != "" {
      CountCharAbsent(s[1..], c);
    }
  }

  /** The first position of a text, if any. */
  function Find(s: string, t: string): Option<nat> {
    if t <= s then Some(0)
    else if s == "" then None
    else
      var r := Find(s[1..], t);
      if r.Some? then Some(r.value + 1) else None
  }

  lemma {:induction false} FindInRange(s: string, t: string)
    ensures Find(s, t).Some? ==> Find(s, t).value <= |s|
  {
    if !(t <= s) && s != "" {
      FindInRange(s[1..], t);
    }
  }

  function TrimEnd(ws: char -> bool, s: string): string {
    if s != "" && ws(s[|s| - 1]) then TrimEnd(ws, s[..|s| - 1]) else s
  }

  function TrimStart(ws: char -> bool, s: string): string {
    if s != "" && ws(s[0]) then TrimStart(ws, s[1..]) else s
  }

  function ByteLen(width: char -> nat, s: string): nat {
    if s == "" then 0 else width(s[0]) + ByteLen(width, s[1..])
  }

  /** A text is its leading whitespace, what is left of trimming, and its trailing
      whitespace. */
  lemma {:induction false} TrimEndExactly(ws: char -> bool, s: string) returns (trail: string)
    ensures s == TrimEnd(ws, s) + trail && forall c :: c in trail ==> ws(c)
    ensures TrimEnd(ws, s) == "" || !ws(TrimEnd(ws, s)[|TrimEnd(ws, s)| - 1])
  {
    trail := "";
    if s != "" && ws(s[|s| - 1]) {
      var t := TrimEndExactly(ws, s[..|s| - 1]);
      trail := t + [s[|s| - 1]];
    }
  }

  lemma {:induction false} TrimStartExactly(ws: char -> bool, s: string) returns (lead: string)
    ensures s == lead + TrimStart(ws, s) && forall c :: c in lead ==> ws(c)
    ensures TrimStart(ws, s) == "" || !ws(TrimStart(ws, s)[0])
  {
    lead := "";
    if s != "" && ws(s[0]) {
      var t := TrimStartExactly(ws, s[1..]);
      lead := [s[0]] + t;
    }
  }

  lemma {:induction false} ByteLenConcat(width: char -> nat, s: string, t: string)
    ensures ByteLen(width, s + t) == ByteLen(width, s) + ByteLen(width, t)
  {
    if s == "" {
      assert s + t == t;
    } else {
      assert (s + t)[1..] == s[1..] + t;
      ByteLenConcat(width, s[1..], t);
    }
  }

  /** What `{}` prints, `parse` reads. */
  lemma DecimalParses(n: int, bound: nat)
    requires 0 - bound <= n < bound
    ensures ParseInt(Decimal(n), bound) == Some(n)
  {
    DigitsRead(if n < 0 then -n else n);
    DecimalChars(n);
    var s := Decimal(n);
    if n < 0 {
      assert s[1..] == Digits(-n);
    } else {
      assert s[0] in s && IsDigit(s[0]);
    }
  }

  /** The first place at which a text occurs in another, if there is one. */
  lemma {:induction false} FindExactly(s: string, t: string)
    ensures Find(s, t).Some? ==> Find(s, t).value <= |s| && t <= s[Find(s, t).value..]
    ensures Find(s, t).Some? ==> forall i :: 0 <= i < Find(s, t).value ==> !(t <= s[i..])
    ensures Find(s, t).None? ==> forall i :: 0 <= i <= |s| ==> !(t <= s[i..])
  {
    if t <= s {
      assert s[0..] == s;
    } else if s != "" {
      FindExactly(s[1..], t);
      assert s[0..] == s && forall i :: 0 < i <= |s| ==> s[i..] == s[1..][i - 1..];
      var r := Find(s[1..], t);
      var bound := if r.Some? then r.value + 1 else |s| + 1;
      forall i | 0 <= i < bound ensures !(t <= s[i..]) {
        if i > 0 {
          var k := i - 1;
          assert s[i..] == s[1..][k..];
        }
      }
    }
  }
}
