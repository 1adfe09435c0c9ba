/** Directory names of exported problems (domain-imex `problem_export.rs`). Full
    Unicode lowercasing is the parameter `lower`. */
module Slug {

  predicate IsLowerOrDigit(c: char) { 'a' <= c <= 'z' || '0' <= c <= '9' }

  predicate IsAsciiAlphanumeric(c: char) { IsLowerOrDigit(c) || 'A' <= c <= 'Z' }

  /** What is used of `to_lowercase`: it leaves no ASCII capital behind and does
      not touch text made of lowercase ASCII letters, digits and hyphens. */
  ghost predicate Lowercases(lower: string -> string) {
    && (forall s, c :: c in lower(s) ==> !('A' <= c <= 'Z'))
    && (forall s :: (forall c :: c in s ==> IsLowerOrDigit(c) || c == '-') ==> lower(s) == s)
  }

  function Hyphenate(s: string): (r: string)
    ensures |r| == |s|
    ensures forall k :: 0 <= k < |s| ==> r[k] == if IsAsciiAlphanumeric(s[k]) then s[k] else '-'
  {
    seq(|s|, k requires 0 <= k < |s| => if IsAsciiAlphanumeric(s[k]) then s[k] else '-')
  }

  function Split(s: string): (parts: seq<string>)
    ensures |parts| > 0
  {
    if s == "" then [""]
    else
      var rest := Split(s[1..]);
      if s[0] == '-' then [""] + rest else [[s[0]] + rest[0]] + rest[1..]
  }

  function NonEmpty(parts: seq<string>): seq<string> {
    if parts == [] then []
    else if parts[0] == "" then NonEmpty(parts[1..])
    else [parts[0]] + NonEmpty(parts[1..])
  }

  function Join(parts: seq<string>): string {
    if parts == [] then ""
    else if |parts| == 1 then parts[0]
    else parts[0] + "-" + Join(parts[1..])
  }

  function Slugify(lower: string -> string, title: string): string {
    var slug := Join(NonEmpty(Split(Hyphenate(lower(title)))));
    if slug == "" then "problem" else slug
  }

  /** Hyphen normal form: words of `[a-z0-9]` separated by single hyphens. */
  ghost predicate IsSlug(s: string) {
    && s != ""
    && (forall c :: c in s ==> IsLowerOrDigit(c) || c == '-')
    && s[0] != '-' && s[|s| - 1] != '-'
    && (forall k :: 0 < k < |s| ==> !(s[k - 1] == '-' && s[k] == '-'))
  }

  ghost predicate IsWord(w: string) {
    w != "" && forall c :: c in w ==> IsLowerOrDigit(c)
  }

  lemma {:induction false} SplitParts(s: string)
    requires forall c :: c in s ==> IsLowerOrDigit(c) || c == '-'
    ensures forall k, c :: 0 <= k < |Split(s)| && c in Split(s)[k] ==> IsLowerOrDigit(c)
  {
    if s != "" {
      assert s[0] in s;
      SplitParts(s[1..]);
    }
  }

  lemma {:induction false} NonEmptyWords(parts: seq<string>)
    requires forall k, c :: 0 <= k < |parts| && c in parts[k] ==> IsLowerOrDigit(c)
    ensures forall k :: 0 <= k < |NonEmpty(parts)| ==> IsWord(NonEmpty(parts)[k])
  {
    if parts != [] {
      NonEmptyWords(parts[1..]);
    }
  }

  lemma {:induction false} JoinIsSlug(words: seq<string>)
    requires words != [] && forall k :: 0 <= k < |words| ==> IsWord(words[k])
    ensures IsSlug(Join(words))
  {
    var w := words[0];
    assert IsWord(w) && w[0] in w && w[|w| - 1] in w;
    if |words| > 1 {
      JoinIsSlug(words[1..]);
      var tail := Join(words[1..]);
      var s := w + "-" + tail;
      assert s[|w|] == '-' && forall k :: |w| < k < |s| ==> s[k] == tail[k - |w| - 1];
      forall k | 0 < k < |s| ensures !(s[k - 1] == '-' && s[k] == '-') {
        if k < |w| { assert s[k] in w; }
        else if k == |w| { assert s[k - 1] in w; }
      }
    } else {
      forall k | 0 < k < |w| ensures w[k] != '-' { assert w[k] in w; }
    }
  }

  lemma {:induction false} JoinSplit(s: string)
    ensures Join(Split(s)) == s
  {
    if s != "" {
      JoinSplit(s[1..]);
      var rest := Split(s[1..]);
      if s[0] != '-' && |rest| > 1 {
        assert Split(s)[1..] == rest[1..];
      }
    }
  }

  lemma {:induction false} NonEmptyKeepsAll(parts: seq<string>)
    requires forall k :: 0 <= k < |parts| ==> parts[k] != ""
    ensures NonEmpty(parts) == parts
  {
    if parts != [] {
      NonEmptyKeepsAll(parts[1..]);
    }
  }

  /** Only a leading, trailing or doubled hyphen makes an empty part. */
  lemma {:induction false} SplitOfSlug(s: string)
    requires s != "" ==> s[|s| - 1] != '-'
    requires forall k :: 0 < k < |s| ==> !(s[k - 1] == '-' && s[k] == '-')
    ensures forall k :: 0 < k < |Split(s)| ==> Split(s)[k] != ""
    ensures s != "" && s[0] != '-' ==> Split(s)[0] != ""
  {
    if s != "" {
      var t := s[1..];
      assert forall k :: 0 <= k < |t| ==> t[k] == s[k + 1];
      SplitOfSlug(t);
      if s[0] == '-' {
        assert t != "" && t[0] != '-';
      }
    }
  }

  lemma SlugifyNormal(lower: string -> string, title: string)
    requires Lowercases(lower)
    ensures IsSlug(Slugify(lower, title))
  {
    var h := Hyphenate(lower(title));
    forall c | c in h ensures IsLowerOrDigit(c) || c == '-' {
      var k :| 0 <= k < |h| && h[k] == c;
      assert lower(title)[k] in lower(title);
    }
    SplitParts(h);
    NonEmptyWords(Split(h));
    if NonEmpty(Split(h)) != [] {
      JoinIsSlug(NonEmpty(Split(h)));
    }
  }

  /** A text is its own slug exactly when it is in hyphen normal form. */
  lemma SlugifyFixpoint(lower: string -> string, s: string)
    requires Lowercases(lower)
    ensures Slugify(lower, s) == s <==> IsSlug(s)
  {
    SlugifyNormal(lower, s);
    if IsSlug(s) {
      assert forall k :: 0 <= k < |s| ==> s[k] in s;
      assert Hyphenate(s) == s;
      SplitOfSlug(s);
      NonEmptyKeepsAll(Split(s));
      JoinSplit(s);
    }
  }

  lemma SlugifyIdempotent(lower: string -> string, title: string)
    requires Lowercases(lower)
    ensures Slugify(lower, Slugify(lower, title)) == Slugify(lower, title)
  {
    SlugifyNormal(lower, title);
    SlugifyFixpoint(lower, Slugify(lower, title));
  }

  // ------------------------------------------------------------ which slug it is

  /** The slug of text that has been lowercased, or nothing. */
  function SlugText(s: string): string { Join(NonEmpty(Split(Hyphenate(s)))) }

  lemma SplitHead(s: string)
    requires s != ""
    ensures var rest := Split(s[1..]);
            Split(s) == if s[0] == '-' then [""] + rest else [[s[0]] + rest[0]] + rest[1..]
  {
  }

  /** One character more before two lists of parts goes into the first of them. */
  lemma PrependPart(x: char, p: seq<string>, q: seq<string>)
    requires p != []
    ensures [[x] + (p + q)[0]] + (p + q)[1..] == [[x] + p[0]] + p[1..] + q
    ensures [""] + (p + q) == [""] + p + q
  {
    assert (p + q)[0] == p[0] && (p + q)[1..] == p[1..] + q;
  }

  lemma {:induction false} SplitAt(a: string, b: string)
    ensures Split(a + "-" + b) == Split(a) + Split(b)
  {
    var s := a + "-" + b;
    assert s != "";
    SplitHead(s);
    if a == "" {
      assert s[1..] == b && s[0] == '-' && Split(a) == [""];
    } else {
      SplitHead(a);
      hide Split;
      assert s[1..] == a[1..] + "-" + b && s[0] == a[0];
      SplitAt(a[1..], b);
      PrependPart(a[0], Split(a[1..]), Split(b));
    }
  }

  lemma {:induction false} NonEmptyConcat(p: seq<string>, q: seq<string>)
    ensures NonEmpty(p + q) == NonEmpty(p) + NonEmpty(q)
  {
    if p == [] {
      assert p + q == q;
    } else {
      assert (p + q)[1..] == p[1..] + q;
      NonEmptyConcat(p[1..], q);
    }
  }

  lemma {:induction false} JoinConcat(p: seq<string>, q: seq<string>)
    requires p != [] && q != []
    ensures Join(p + q) == Join(p) + "-" + Join(q)
  {
    assert (p + q)[1..] == p[1..] + q;
    if |p| == 1 {
      assert p[1..] == [];
      assert [] + q == q;
    } else {
      JoinConcat(p[1..], q);
      assert p[0] + "-" + (Join(p[1..]) + "-" + Join(q)) == Join(p) + "-" + Join(q);
    }
  }

  lemma {:induction false} NoWordsNoText(parts: seq<string>)
    ensures Join(NonEmpty(parts)) == "" <==> NonEmpty(parts) == []
  {
    if parts != [] && parts[0] == "" {
      NoWordsNoText(parts[1..]);
    }
  }

  /** Any character but a letter or digit separates: the slugs of what is before and
      after it are joined by one hyphen, or one of them is all there is. */
  lemma SeparatorSplits(x: string, c: char, y: string)
    requires !IsAsciiAlphanumeric(c)
    ensures SlugText(x + [c] + y) ==
            if SlugText(x) == "" then SlugText(y)
            else if SlugText(y) == "" then SlugText(x)
            else SlugText(x) + "-" + SlugText(y)
  {
    assert Hyphenate(x + [c] + y) == Hyphenate(x) + "-" + Hyphenate(y);
    SplitAt(Hyphenate(x), Hyphenate(y));
    var p, q := Split(Hyphenate(x)), Split(Hyphenate(y));
    NonEmptyConcat(p, q);
    NoWordsNoText(p);
    NoWordsNoText(q);
    if NonEmpty(p) != [] && NonEmpty(q) != [] {
      JoinConcat(NonEmpty(p), NonEmpty(q));
    } else {
      assert NonEmpty(p) + [] == NonEmpty(p) && [] + NonEmpty(q) == NonEmpty(q);
    }
  }

  lemma {:induction false} SplitOfWord(s: string)
    requires '-' !in s
    ensures Split(s) == [s]
  {
    if s != "" {
      SplitOfWord(s[1..]);
      assert s == [s[0]] + s[1..];
    }
  }

  /** A text of letters and digits is its own slug; with `SeparatorSplits` this says
      what the slug of any text is. */
  lemma WordIsSlugText(s: string)
    requires forall c :: c in s ==> IsAsciiAlphanumeric(c)
    ensures SlugText(s) == s
  {
    assert forall k :: 0 <= k < |s| ==> s[k] in s;
    assert Hyphenate(s) == s;
    SplitOfWord(s);
    hide Split;
    assert [s][1..] == [];
    assert NonEmpty([]) == [] && NonEmpty([s]) == if s == "" then [] else [s];
  }

  /** The slug is that of the lowercase title, or `problem` if nothing is left of it. */
  lemma SlugifyExactly(lower: string -> string, title: string)
    ensures Slugify(lower, title) == if SlugText(lower(title)) == "" then "problem" else SlugText(lower(title))
    ensures SlugText(lower(title)) == "" <==> forall c :: c in lower(title) ==> !IsAsciiAlphanumeric(c)
  {
    SlugTextEmpty(lower(title));
  }

  lemma {:induction false} SlugTextEmpty(s: string)
    ensures SlugText(s) == "" <==> forall c :: c in s ==> !IsAsciiAlphanumeric(c)
  {
    if exists k :: 0 <= k < |s| && !IsAsciiAlphanumeric(s[k]) {
      var k :| 0 <= k < |s| && !IsAsciiAlphanumeric(s[k]);
      assert s == s[..k] + [s[k]] + s[k + 1..];
      SeparatorSplits(s[..k], s[k], s[k + 1..]);
      SlugTextEmpty(s[..k]);
      SlugTextEmpty(s[k + 1..]);
      assert forall c :: c in s <==> c in s[..k] || c == s[k] || c in s[k + 1..];
    } else {
      forall c | c in s ensures IsAsciiAlphanumeric(c) {
        var k :| 0 <= k < |s| && s[k] == c;
      }
      WordIsSlugText(s);
      if s != "" { assert s[0] in s; }
    }
  }
}
