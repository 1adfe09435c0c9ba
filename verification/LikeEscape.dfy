/** Escaping of search text for LIKE (domain-search `service.rs`, and the same code
    in domain-problems `routes.rs`), against the matcher of PostgreSQL documentation
    section 9.7.1. The queries use both LIKE and ILIKE: characters are compared
    after a folding `fold`, the identity for LIKE and lowercasing for ILIKE. */
module LikeEscape {

  /** `str::replace` of one character by a text. */
  function Replace(s: string, c: char, w: string): string {
    if s == "" then "" else (if s[0] == c then w else [s[0]]) + Replace(s[1..], c, w)
  }

  function Escaped(s: string): string {
    Replace(Replace(Replace(s, '\\', "\\\\"), '%', "\\%"), '_', "\\_")
  }

  function EscapeLikePattern(s: string): string {
    "%" + Escaped(s) + "%"
  }

  /** `%` stands for any text, `_` for any character, and a backslash takes the
      character after it literally; a pattern may not end in a bare backslash. */
  predicate Matches(fold: char -> char, p: string, t: string)
    decreases |p| + |t|
  {
    if p == "" then t == ""
    else if p[0] == '%' then Matches(fold, p[1..], t) || (t != "" && Matches(fold, p, t[1..]))
    else if t == "" then false
    else if p[0] == '_' then Matches(fold, p[1..], t[1..])
    else if p[0] == '\\' then |p| > 1 && fold(p[1]) == fold(t[0]) && Matches(fold, p[2..], t[1..])
    else fold(p[0]) == fold(t[0]) && Matches(fold, p[1..], t[1..])
  }

  predicate WellFormedPattern(p: string) {
    p == "" || (if p[0] == '\\' then |p| > 1 && WellFormedPattern(p[2..]) else WellFormedPattern(p[1..]))
  }

  /** `q` starts at the front of `t`, up to folding. */
  predicate StartsFolded(fold: char -> char, q: string, t: string) {
    |q| <= |t| && forall k :: 0 <= k < |q| ==> fold(q[k]) == fold(t[k])
  }

  ghost predicate ContainsFolded(fold: char -> char, q: string, t: string) {
    exists i :: 0 <= i <= |t| && StartsFolded(fold, q, t[i..])
  }

  // -------------------------------------- three replacements are one escape

  function EscapeChar(c: char): string {
    if c == '\\' || c == '%' || c == '_' then ['\\', c] else [c]
  }

  function EscapeAll(s: string): string {
    if s == "" then "" else EscapeChar(s[0]) + EscapeAll(s[1..])
  }

  lemma {:induction false} ReplaceConcat(s: string, t: string, c: char, w: string)
    ensures Replace(s + t, c, w) == Replace(s, c, w) + Replace(t, c, w)
  {
    if s == "" {
      assert s + t == t;
    } else {
      assert (s + t)[1..] == s[1..] + t;
      ReplaceConcat(s[1..], t, c, w);
    }
  }

  lemma EscapedOne(x: char)
    ensures Escaped([x]) == EscapeChar(x)
  {
    if x == '\\' || x == '%' {
      ReplaceConcat("\\", "\\", '%', "\\%");
      ReplaceConcat("\\", [x], '_', "\\_");
      assert "\\\\" == "\\" + "\\" && "\\%" == "\\" + "%";
    }
  }

  /** The order of the replacements matters and is right: escaping backslashes
      first leaves the backslashes added later alone. */
  lemma {:induction false} SequentialIsSimultaneous(s: string)
    ensures Escaped(s) == EscapeAll(s)
  {
    if s != "" {
      SequentialIsSimultaneous(s[1..]);
      EscapedOne(s[0]);
      assert s == [s[0]] + s[1..];
      ReplaceConcat([s[0]], s[1..], '\\', "\\\\");
      ReplaceConcat(Replace([s[0]], '\\', "\\\\"), Replace(s[1..], '\\', "\\\\"), '%', "\\%");
      ReplaceConcat(Replace(Replace([s[0]], '\\', "\\\\"), '%', "\\%"),
          Replace(Replace(s[1..], '\\', "\\\\"), '%', "\\%"), '_', "\\_");
    }
  }

  // ------------------------------------------------- what the pattern matches

  lemma {:induction false} PercentMatchesAll(fold: char -> char, t: string)
    ensures Matches(fold, "%", t)
  {
    if t == "" {
      assert "%"[1..] == "";
    } else {
      PercentMatchesAll(fold, t[1..]);
    }
  }

  lemma {:induction false} LiteralThenAnything(fold: char -> char, q: string, t: string)
    ensures Matches(fold, EscapeAll(q) + "%", t) <==> StartsFolded(fold, q, t)
  {
    if q == "" {
      assert EscapeAll(q) + "%" == "%";
      PercentMatchesAll(fold, t);
    } else {
      var p, rest := EscapeAll(q) + "%", EscapeAll(q[1..]) + "%";
      var e := EscapeChar(q[0]);
      assert p == e + rest && p[|e|..] == rest && p[..|e|] == e;
      if t != "" {
        LiteralThenAnything(fold, q[1..], t[1..]);
        assert StartsFolded(fold, q, t) <==> fold(q[0]) == fold(t[0]) && StartsFolded(fold, q[1..], t[1..]) by {
          assert forall k :: 0 < k < |q| && k < |t| ==> q[k] == q[1..][k - 1] && t[k] == t[1..][k - 1];
          assert forall k :: 0 <= k < |q| - 1 && k < |t| - 1 ==> q[1..][k] == q[k + 1] && t[1..][k] == t[k + 1];
        }
      }
    }
  }

  lemma {:induction false} AnywhereMatches(fold: char -> char, q: string, t: string)
    ensures Matches(fold, "%" + EscapeAll(q) + "%", t) <==> ContainsFolded(fold, q, t)
    decreases |t|
  {
    var p, rest := "%" + EscapeAll(q) + "%", EscapeAll(q) + "%";
    assert p[0] == '%' && p[1..] == rest;
    LiteralThenAnything(fold, q, t);
    assert t[0..] == t;
    if t != "" {
      var t' := t[1..];
      AnywhereMatches(fold, q, t');
      if i :| 0 <= i <= |t| && StartsFolded(fold, q, t[i..]) {
        if i > 0 { assert t'[i - 1..] == t[i..]; }
      }
      if i :| 0 <= i <= |t'| && StartsFolded(fold, q, t'[i..]) {
        assert t'[i..] == t[i + 1..];
      }
    }
  }

  /** For every query and text, the escaped pattern matches exactly the texts that
      contain the query. */
  lemma EscapedMatchesIffContains(fold: char -> char, q: string, t: string)
    ensures Matches(fold, EscapeLikePattern(q), t) <==> ContainsFolded(fold, q, t)
  {
    SequentialIsSimultaneous(q);
    AnywhereMatches(fold, q, t);
  }

  lemma {:induction false} EscapeAllWellFormed(q: string)
    ensures WellFormedPattern(EscapeAll(q) + "%")
  {
    if q == "" {
      assert EscapeAll(q) + "%" == "%" && "%"[1..] == "";
    } else {
      EscapeAllWellFormed(q[1..]);
      var e := EscapeChar(q[0]);
      assert (EscapeAll(q) + "%")[|e|..] == EscapeAll(q[1..]) + "%";
    }
  }

  /** The pattern never ends in a bare backslash, which the database would refuse. */
  lemma EscapedPatternWellFormed(q: string)
    ensures WellFormedPattern(EscapeLikePattern(q))
  {
    SequentialIsSimultaneous(q);
    EscapeAllWellFormed(q);
    assert EscapeLikePattern(q)[1..] == EscapeAll(q) + "%";
  }
}
