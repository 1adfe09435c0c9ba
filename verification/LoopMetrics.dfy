/** Loop count and loop nesting for brace languages (domain-analysis `extractor.rs`,
    `compute_loop_metrics`). The Unicode whitespace test is a parameter. */
module LoopMetrics {
  import opened Text

  predicate IsIdentifierStart(c: char) { c == '_' || 'a' <= c <= 'z' || 'A' <= c <= 'Z' }

  predicate IsIdentifierContinue(c: char) { IsIdentifierStart(c) || '0' <= c <= '9' }

  predicate IsLoopKeyword(token: string, language: string) {
    if language in ["c", "cpp", "c++", "cc", "java", "javascript", "js", "typescript", "ts"]
    then token == "for" || token == "while" || token == "do"
    else token == "for" || token == "while" || token == "loop"
  }

  function StripComment(line: string): string {
    FindInRange(line, "//");
    var a := Find(line, "//");
    if a.Some? then line[..a.value] else line
  }

  /** `code.trim_end().ends_with(';')`. */
  predicate EndsStatement(ws: char -> bool, code: string) {
    EndsWith(TrimEnd(ws, code), ";")
  }

  /** Which words are loop keywords, in which language. */
  lemma LoopKeywordExactly(token: string, language: string)
    ensures var likeC := language in {"c", "cpp", "c++", "cc", "java", "javascript", "js", "typescript", "ts"};
            IsLoopKeyword(token, language) <==> token in {"for", "while", if likeC then "do" else "loop"}
  {
  }

  /** A comment starts at the first `//`; what is before it is kept. */
  lemma StripExactly(line: string)
    ensures var code := StripComment(line);
            && code <= line && (forall i :: 0 <= i < |code| ==> !("//" <= line[i..]))
            && (code == line || "//" <= line[|code|..])
  {
    FindExactly(line, "//");
    hide Find;
  }

  /** A line ends a statement if its last character but whitespace is a semicolon. */
  lemma EndsStatementExactly(ws: char -> bool, code: string) returns (front: string, trail: string)
    ensures code == front + trail && (forall c :: c in trail ==> ws(c)) && (front == "" || !ws(front[|front| - 1]))
    ensures EndsStatement(ws, code) <==> front != "" && front[|front| - 1] == ';'
  {
    front := TrimEnd(ws, code);
    trail := TrimEndExactly(ws, code);
    assert front != "" ==> front[|front| - 1..] == [front[|front| - 1]];
    hide TrimEnd;
  }

  // ------------------------------------------------------------------- tokens

  /** Braces, loop keywords, and line ends right after a semicolon. */
  datatype Token = Open | Close | Loop | Stop

  function IdentifierEnd(code: string, i: nat): (end: nat)
    requires i <= |code|
    ensures i <= end <= |code|
    decreases |code| - i
  {
    if i < |code| && IsIdentifierContinue(code[i]) then IdentifierEnd(code, i + 1) else i
  }

  function Tokens(language: string, code: string, i: nat): seq<Token>
    requires i <= |code|
    decreases |code| - i
  {
    if i == |code| then []
    else if code[i] == '{' then [Open] + Tokens(language, code, i + 1)
    else if code[i] == '}' then [Close] + Tokens(language, code, i + 1)
    else if IsIdentifierStart(code[i]) then
      var end := IdentifierEnd(code, i + 1);
      (if IsLoopKeyword(code[i..end], language) then [Loop] else []) + Tokens(language, code, end)
    else Tokens(language, code, i + 1)
  }

  // ------------------------------------------------------------------ machine

  /** `blocks` says for each open brace whether a loop owns it. */
  datatype Machine = Machine(blocks: seq<bool>, loopDepth: int, pending: int, count: int, total: int)

  const Start: Machine := Machine([], 0, 0, 0, 0)

  function Max(a: int, b: int): int { if a > b then a else b }

  function Nesting(m: Machine): int { m.loopDepth + m.pending + 1 }

  function Feed(m: Machine, t: Token): Machine {
    match t
    case Open =>
      if m.pending > 0 then m.(pending := m.pending - 1, blocks := m.blocks + [true], loopDepth := m.loopDepth + 1)
      else m.(blocks := m.blocks + [false])
    case Close =>
      if m.blocks == [] then m
      else
        var m' := m.(blocks := m.blocks[..|m.blocks| - 1]);
        if m.blocks[|m.blocks| - 1] then m'.(loopDepth := Max(m.loopDepth - 1, 0)) else m'
    case Loop => m.(count := m.count + 1, total := m.total + Nesting(m), pending := m.pending + 1)
    case Stop => m.(pending := 0)
  }

  function FeedAll(m: Machine, ts: seq<Token>): Machine
    decreases |ts|
  {
    if ts == [] then m else FeedAll(Feed(m, ts[0]), ts[1..])
  }

  lemma FeedFirst(m: Machine, t: Token, ts: seq<Token>)
    ensures FeedAll(m, [t] + ts) == FeedAll(Feed(m, t), ts)
  {
  }

  function FeedLine(ws: char -> bool, language: string, m: Machine, line: string): Machine {
    var code := StripComment(line);
    var m' := FeedAll(m, Tokens(language, code, 0));
    if EndsStatement(ws, code) then m'.(pending := 0) else m'
  }

  function FeedLines(ws: char -> bool, language: string, lines: seq<string>): Machine {
    if lines == [] then Start
    else FeedLine(ws, language, FeedLines(ws, language, lines[..|lines| - 1]), lines[|lines| - 1])
  }

  /** Scans past the identifier that starts at `i`. */
  method ScanIdentifier(code: string, i: nat) returns (end: nat)
    requires i < |code|
    ensures end == IdentifierEnd(code, i + 1)
  {
    end := i + 1;
    while end < |code| && IsIdentifierContinue(code[end])
      invariant i < end <= |code| && IdentifierEnd(code, end) == IdentifierEnd(code, i + 1)
    {
      end := end + 1;
    }
  }

  /** The tokens met at position `i`, and where scanning goes on. */
  lemma TokensAt(language: string, code: string, i: nat)
    requires i < |code|
    ensures code[i] == '{' ==> Tokens(language, code, i) == [Open] + Tokens(language, code, i + 1)
    ensures code[i] == '}' ==> Tokens(language, code, i) == [Close] + Tokens(language, code, i + 1)
    ensures code[i] != '{' && code[i] != '}' && IsIdentifierStart(code[i]) ==>
              var end := IdentifierEnd(code, i + 1);
              && (IsLoopKeyword(code[i..end], language) ==>
                    Tokens(language, code, i) == [Loop] + Tokens(language, code, end))
              && (!IsLoopKeyword(code[i..end], language) ==> Tokens(language, code, i) == Tokens(language, code, end))
    ensures code[i] != '{' && code[i] != '}' && !IsIdentifierStart(code[i]) ==>
              Tokens(language, code, i) == Tokens(language, code, i + 1)
  {
  }

  method ScanLine(language: string, code: string, m: Machine) returns (m': Machine)
    ensures m' == FeedAll(m, Tokens(language, code, 0))
  {
    hide IsLoopKeyword, IsIdentifierStart, Tokens, IdentifierEnd;
    var blocks, loopDepth, pending, count, total := m.blocks, m.loopDepth, m.pending, m.count, m.total;
    ghost var all := FeedAll(m, Tokens(language, code, 0));
    var i := 0;
    while i < |code|
      invariant 0 <= i <= |code|
      invariant FeedAll(Machine(blocks, loopDepth, pending, count, total), Tokens(language, code, i)) == all
      decreases |code| - i
    {
      ghost var now := Machine(blocks, loopDepth, pending, count, total);
      TokensAt(language, code, i);
      if code[i] == '{' {
        FeedFirst(now, Open, Tokens(language, code, i + 1));
        if pending > 0 {
          pending := pending - 1;
          blocks := blocks + [true];
          loopDepth := loopDepth + 1;
        } else {
          blocks := blocks + [false];
        }
        i := i + 1;
      } else if code[i] == '}' {
        FeedFirst(now, Close, Tokens(language, code, i + 1));
        if blocks != [] {
          var owned := blocks[|blocks| - 1];
          blocks := blocks[..|blocks| - 1];
          if owned {
            loopDepth := Max(loopDepth - 1, 0);
          }
        }
        i := i + 1;
      } else if IsIdentifierStart(code[i]) {
        var end := ScanIdentifier(code, i);
        FeedFirst(now, Loop, Tokens(language, code, end));
        if IsLoopKeyword(code[i..end], language) {
          var nesting := loopDepth + pending + 1;
          count := count + 1;
          total := total + nesting;
          pending := pending + 1;
        }
        i := end;
      } else {
        i := i + 1;
      }
    }
    assert Tokens(language, code, |code|) == [] by { TokensEnd(language, code); }
    m' := Machine(blocks, loopDepth, pending, count, total);
  }

  lemma TokensEnd(language: string, code: string)
    ensures Tokens(language, code, |code|) == []
  {
  }

  method ComputeLoopMetrics(ws: char -> bool, language: string, lines: seq<string>) returns (count: int,
      avgNesting: real)
    ensures count == FeedLines(ws, language, lines).count
    ensures avgNesting == if count == 0 then 0.0 else FeedLines(ws, language, lines).total as real / count as real
  {
    hide StripComment, EndsStatement, Tokens;
    var m := Start;
    for l := 0 to |lines|
      invariant m == FeedLines(ws, language, lines[..l])
    {
      assert lines[..l + 1][..l] == lines[..l];
      var code := StripComment(lines[l]);
      m := ScanLine(language, code, m);
      if EndsStatement(ws, code) {
        m := m.(pending := 0);
      }
    }
    assert lines[..|lines|] == lines;
    count := m.count;
    avgNesting := if m.count == 0 then 0.0 else m.total as real / m.count as real;
  }

  // --------------------------------------------------------------- invariants

  function OwnedBlocks(blocks: seq<bool>): nat {
    if blocks == [] then 0 else OwnedBlocks(blocks[..|blocks| - 1]) + if blocks[|blocks| - 1] then 1 else 0
  }

  /** The depth is the number of open loop blocks, so the next loop's nesting lies
      between 1 and its number, and the total stays below the triangular number. */
  ghost predicate Consistent(m: Machine) {
    && m.loopDepth == OwnedBlocks(m.blocks)
    && 0 <= m.pending && m.loopDepth + m.pending <= m.count
    && m.count <= m.total && WithinTriangle(m.total, m.count)
  }

  /** `total` is at most 1 + 2 + ... + `count`. */
  predicate WithinTriangle(total: int, count: int) { 2 * total <= count * (count + 1) }

  lemma TriangleStep(total: int, count: int, nesting: int)
    requires WithinTriangle(total, count) && nesting <= count + 1
    ensures WithinTriangle(total + nesting, count + 1)
  {
    assert (count + 1) * (count + 2) == count * (count + 1) + 2 * (count + 1);
  }

  lemma OwnedAppend(blocks: seq<bool>, b: bool)
    ensures OwnedBlocks(blocks + [b]) == OwnedBlocks(blocks) + if b then 1 else 0
  {
  }

  lemma FeedConsistent(m: Machine, t: Token)
    requires Consistent(m)
    ensures Consistent(Feed(m, t))
    ensures 1 <= Nesting(m) <= m.count + 1
    ensures t == Close && m.blocks != [] && m.blocks[|m.blocks| - 1] ==> m.loopDepth - 1 >= 0
  {
    hide WithinTriangle;
    OwnedAppend(m.blocks, true);
    OwnedAppend(m.blocks, false);
    TriangleStep(m.total, m.count, Nesting(m));
  }

  lemma {:induction false} FeedAllConsistent(m: Machine, ts: seq<Token>)
    requires Consistent(m)
    ensures Consistent(FeedAll(m, ts))
    decreases |ts|
  {
    hide Consistent, Feed;
    if ts != [] {
      FeedConsistent(m, ts[0]);
      FeedAllConsistent(Feed(m, ts[0]), ts[1..]);
    }
  }

  /** On every source: the depth counter equals the number of open loop blocks. */
  lemma {:induction false} MetricsConsistent(ws: char -> bool, language: string, lines: seq<string>)
    ensures Consistent(FeedLines(ws, language, lines))
  {
    hide Tokens, StripComment, EndsStatement;
    if lines != [] {
      MetricsConsistent(ws, language, lines[..|lines| - 1]);
      FeedAllConsistent(FeedLines(ws, language, lines[..|lines| - 1]),
          Tokens(language, StripComment(lines[|lines| - 1]), 0));
    }
  }

  /** Wherever a run of tokens stands, the clamp on the depth has nothing to do and
      the next loop, were it the (count + 1)-th, nests between 1 and count + 1 deep. */
  lemma ClampNeverFires(ws: char -> bool, language: string, lines: seq<string>, ts: seq<Token>)
    ensures var m := FeedAll(FeedLines(ws, language, lines), ts);
            && 1 <= Nesting(m) <= m.count + 1
            && (m.blocks != [] && m.blocks[|m.blocks| - 1] ==> m.loopDepth >= 1)
  {
    MetricsConsistent(ws, language, lines);
    FeedAllConsistent(FeedLines(ws, language, lines), ts);
    FeedConsistent(FeedAll(FeedLines(ws, language, lines), ts), Close);
  }

  // -------------------------------------------------------- one stream of tokens

  lemma {:induction false} FeedConcat(m: Machine, s: seq<Token>, t: seq<Token>)
    ensures FeedAll(m, s + t) == FeedAll(FeedAll(m, s), t)
    decreases |s|
  {
    if s == [] {
      assert s + t == t;
    } else {
      assert (s + t)[1..] == s[1..] + t;
      FeedConcat(Feed(m, s[0]), s[1..], t);
    }
  }

  lemma FeedOne(m: Machine, t: Token)
    ensures FeedAll(m, [t]) == Feed(m, t)
  {
    assert [t][1..] == [];
  }

  lemma FeedNothing(m: Machine)
    ensures FeedAll(m, []) == m
  {
  }

  function LineTokens(ws: char -> bool, language: string, line: string): seq<Token> {
    var code := StripComment(line);
    Tokens(language, code, 0) + if EndsStatement(ws, code) then [Stop] else []
  }

  function SourceTokens(ws: char -> bool, language: string, lines: seq<string>): seq<Token> {
    if lines == [] then []
    else SourceTokens(ws, language, lines[..|lines| - 1]) + LineTokens(ws, language, lines[|lines| - 1])
  }

  lemma LineIsStream(ws: char -> bool, language: string, m: Machine, line: string)
    ensures FeedLine(ws, language, m, line) == FeedAll(m, LineTokens(ws, language, line))
  {
    hide Tokens, StripComment, EndsStatement, FeedAll;
    var ts := Tokens(language, StripComment(line), 0);
    FeedConcat(m, ts, [Stop]);
    FeedOne(FeedAll(m, ts), Stop);
    assert ts + [] == ts;
  }

  /** Every source is one stream: a line that ends a statement is a token like others. */
  lemma {:induction false} SourceIsStream(ws: char -> bool, language: string, lines: seq<string>)
    ensures FeedLines(ws, language, lines) == FeedAll(Start, SourceTokens(ws, language, lines))
  {
    hide FeedLine, LineTokens, FeedAll;
    if lines == [] {
      FeedNothing(Start);
    } else {
      var front, last := lines[..|lines| - 1], lines[|lines| - 1];
      SourceIsStream(ws, language, front);
      LineIsStream(ws, language, FeedLines(ws, language, front), last);
      FeedConcat(Start, SourceTokens(ws, language, front), LineTokens(ws, language, last));
    }
  }

  // ------------------------------------------------------------- waiting headers

  /** Loop keywords minus opening braces in `ts[i..j]`. */
  function Excess(ts: seq<Token>, i: nat, j: nat): int
    requires i <= j <= |ts|
  {
    if i == j then 0
    else Excess(ts, i, j - 1) + if ts[j - 1] == Loop then 1 else if ts[j - 1] == Open then -1 else 0
  }

  /** No statement ends a line in `ts[i..j]`. */
  ghost predicate Unstopped(ts: seq<Token>, i: nat, j: nat)
    requires i <= j <= |ts|
  {
    forall k :: i <= k < j ==> ts[k] != Stop
  }

  /** `x` is the largest excess of any stretch that ends at `n` without a statement end. */
  ghost predicate IsSurplus(ts: seq<Token>, n: nat, x: int)
    requires n <= |ts|
  {
    && (exists i :: 0 <= i <= n && Unstopped(ts, i, n) && Excess(ts, i, n) == x)
    && (forall i :: 0 <= i <= n && Unstopped(ts, i, n) ==> Excess(ts, i, n) <= x)
  }

  lemma SurplusStep(ts: seq<Token>, n: nat, x: int)
    requires n < |ts| && IsSurplus(ts, n, x) && x >= 0
    ensures ts[n] == Loop ==> IsSurplus(ts, n + 1, x + 1)
    ensures ts[n] == Open ==> IsSurplus(ts, n + 1, Max(x - 1, 0))
    ensures ts[n] == Close ==> IsSurplus(ts, n + 1, x)
    ensures ts[n] == Stop ==> IsSurplus(ts, n + 1, 0)
  {
    var n' := n + 1;
    assert Unstopped(ts, n', n') && Excess(ts, n', n') == 0;
    forall i | 0 <= i <= n
      ensures Unstopped(ts, i, n') <==> Unstopped(ts, i, n) && ts[n] != Stop
      ensures Excess(ts, i, n') == Excess(ts, i, n) + if ts[n] == Loop then 1 else if ts[n] == Open then -1 else 0
    {
      assert Unstopped(ts, i, n') ==> ts[n] != Stop;
    }
    var i :| 0 <= i <= n && Unstopped(ts, i, n) && Excess(ts, i, n) == x;
    assert Excess(ts, i, n') == x + if ts[n] == Loop then 1 else if ts[n] == Open then -1 else 0;
  }

  /** On every stream, balanced or not: the headers waiting at a point are the largest
      excess of loop keywords over opening braces in any stretch up to there in which
      no line ends a statement. */
  lemma {:induction false} WaitingIsSurplus(ts: seq<Token>, n: nat)
    requires n <= |ts|
    ensures FeedAll(Start, ts[..n]).pending >= 0 && IsSurplus(ts, n, FeedAll(Start, ts[..n]).pending)
  {
    hide FeedAll, IsSurplus;
    if n == 0 {
      FeedNothing(Start);
      NoSurplus(ts);
    } else {
      WaitingIsSurplus(ts, n - 1);
      var before := FeedAll(Start, ts[..n - 1]);
      assert ts[..n] == ts[..n - 1] + [ts[n - 1]];
      FeedConcat(Start, ts[..n - 1], [ts[n - 1]]);
      FeedOne(before, ts[n - 1]);
      SurplusStep(ts, n - 1, before.pending);
    }
  }

  lemma NoSurplus(ts: seq<Token>)
    ensures IsSurplus(ts, 0, 0)
  {
    assert Unstopped(ts, 0, 0) && Excess(ts, 0, 0) == 0;
  }

  // ------------------------------------------------------------- what the code is

  /** Code as its loops and braces really lie. `LoopOver` is a loop whose body is the
      code given, which may be a block of its own, or no block at all; `Stray` is a
      loop keyword that heads no loop, such as the `while` at the end of a `do` loop;
      `End` is a line end after a semicolon, wherever it stands. */
  datatype Code =
    | Empty
    | End(next: Code)
    | Plain(body: Code, next: Code)
    | LoopOver(body: Code, next: Code)
    | Stray(next: Code)

  function CodeTokens(c: Code): seq<Token> {
    match c
    case Empty => []
    case End(n) => [Stop] + CodeTokens(n)
    case Plain(b, n) => [Open] + CodeTokens(b) + [Close] + CodeTokens(n)
    case LoopOver(b, n) => [Loop] + CodeTokens(b) + CodeTokens(n)
    case Stray(n) => [Loop] + CodeTokens(n)
  }

  function LoopsIn(c: Code): nat {
    match c
    case Empty => 0
    case End(n) => LoopsIn(n)
    case Plain(b, n) => LoopsIn(b) + LoopsIn(n)
    case LoopOver(b, n) => 1 + LoopsIn(b) + LoopsIn(n)
    case Stray(n) => LoopsIn(n)
  }

  function StraysIn(c: Code): nat {
    match c
    case Empty => 0
    case End(n) => StraysIn(n)
    case Plain(b, n) => StraysIn(b) + StraysIn(n)
    case LoopOver(b, n) => StraysIn(b) + StraysIn(n)
    case Stray(n) => 1 + StraysIn(n)
  }

  /** The sum over all loops of how many loops they are in, themselves included,
      when the code itself stands inside `d` loops. */
  function DepthSum(c: Code, d: int): int {
    match c
    case Empty => 0
    case End(n) => DepthSum(n, d)
    case Plain(b, n) => DepthSum(b, d) + DepthSum(n, d)
    case LoopOver(b, n) => d + 1 + DepthSum(b, d + 1) + DepthSum(n, d)
    case Stray(n) => DepthSum(n, d)
  }

  // --------------------------------------------------- where the machine goes wrong

  /** What an opening brace leaves of `p` waiting headers. */
  function Taken(p: nat): nat { if p > 0 then p - 1 else 0 }

  /** The headers waiting after the code when `p` waited before it. */
  function Left(c: Code, p: nat): nat {
    match c
    case Empty => p
    case End(n) => Left(n, 0)
    case Plain(b, n) => Left(n, Left(b, Taken(p)))
    case LoopOver(b, n) => Left(n, Left(b, p + 1))
    case Stray(n) => Left(n, p + 1)
  }

  /** The sum over all loops of the headers waiting there. */
  function Waiting(c: Code, p: nat): int {
    match c
    case Empty => 0
    case End(n) => Waiting(n, 0)
    case Plain(b, n) => Waiting(b, Taken(p)) + Waiting(n, Left(b, Taken(p)))
    case LoopOver(b, n) => p + Waiting(b, p + 1) + Waiting(n, Left(b, p + 1))
    case Stray(n) => Waiting(n, p + 1)
  }

  /** The sum over all loops of the loops around them that no brace was taken for,
      when there are `u` of them around the code (`u` falls below zero where braces
      were taken for loops that had ended). */
  function Unhoused(c: Code, p: nat, u: int): int {
    match c
    case Empty => 0
    case End(n) => Unhoused(n, 0, u)
    case Plain(b, n) => Unhoused(b, Taken(p), if p > 0 then u - 1 else u) + Unhoused(n, Left(b, Taken(p)), u)
    case LoopOver(b, n) => u + Unhoused(b, p + 1, u + 1) + Unhoused(n, Left(b, p + 1), u)
    case Stray(n) => Unhoused(n, p + 1, u)
  }

  /** What the loop keywords that head no loop add, where `l` braces taken for loops
      are open around the code. */
  function StraySum(c: Code, p: nat, l: int): int {
    match c
    case Empty => 0
    case End(n) => StraySum(n, 0, l)
    case Plain(b, n) => StraySum(b, Taken(p), if p > 0 then l + 1 else l) + StraySum(n, Left(b, Taken(p)), l)
    case LoopOver(b, n) => StraySum(b, p + 1, l) + StraySum(n, Left(b, p + 1), l)
    case Stray(n) => l + p + 1 + StraySum(n, p + 1, l)
  }

  /** The machine after the code, when it really stands inside `d` loops. */
  function Measured(m: Machine, c: Code, d: int): Machine
    requires m.pending >= 0
  {
    var p, l := m.pending, m.loopDepth;
    m.(count := m.count + LoopsIn(c) + StraysIn(c),
       total := m.total + DepthSum(c, d) + Waiting(c, p) - Unhoused(c, p, d - l) + StraySum(c, p, l),
       pending := Left(c, p))
  }

  lemma MeasuredBlock(m: Machine, b: Code, n: Code, d: int)
    requires m.pending >= 0 && m.loopDepth >= 0
    ensures var m1 := Feed(m, Open); m1.pending >= 0 && m1.loopDepth >= 0
    ensures var m2 := Feed(Measured(Feed(m, Open), b, d), Close);
            && m2.pending >= 0 && m2.loopDepth >= 0
            && Measured(m2, n, d) == Measured(m, Plain(b, n), d)
  {
    var m1 := Feed(m, Open);
    assert m1.blocks[..|m.blocks|] == m.blocks;
  }

  lemma MeasuredLoop(m: Machine, b: Code, n: Code, d: int)
    requires m.pending >= 0
    ensures var m2 := Measured(Feed(m, Loop), b, d + 1);
            m2.pending >= 0 && m2.loopDepth == m.loopDepth && Measured(m2, n, d) == Measured(m, LoopOver(b, n), d)
  {
    assert d - m.loopDepth + 1 == d + 1 - m.loopDepth;
  }

  /** On any code the machine restores its stack, counts every loop keyword, and adds
      up the true depths, plus the headers waiting at each loop, minus the loops
      around each loop that no brace was taken for. */
  lemma {:induction false} MachineMeasuresCode(m: Machine, c: Code, d: int)
    requires m.pending >= 0 && m.loopDepth >= 0
    ensures FeedAll(m, CodeTokens(c)) == Measured(m, c, d)
    decreases c
  {
    hide FeedAll;
    match c
    case Empty =>
      FeedNothing(m);
    case End(n) =>
      MachineMeasuresCode(Feed(m, Stop), n, d);
      FeedConcat(m, [Stop], CodeTokens(n));
      FeedOne(m, Stop);
    case Plain(b, n) =>
      MeasuredBlock(m, b, n, d);
      hide Measured, Feed;
      var m1 := Feed(m, Open);
      MachineMeasuresCode(m1, b, d);
      var m2 := Feed(Measured(m1, b, d), Close);
      MachineMeasuresCode(m2, n, d);
      FeedBlock(m, m1, CodeTokens(b), m2, CodeTokens(n));
    case LoopOver(b, n) =>
      MeasuredLoop(m, b, n, d);
      var m1 := Feed(m, Loop);
      MachineMeasuresCode(m1, b, d + 1);
      hide Measured, Feed;
      var m2 := Measured(m1, b, d + 1);
      MachineMeasuresCode(m2, n, d);
      FeedConcat(m, [Loop] + CodeTokens(b), CodeTokens(n));
      FeedConcat(m, [Loop], CodeTokens(b));
      FeedOne(m, Loop);
    case Stray(n) =>
      MachineMeasuresCode(Feed(m, Loop), n, d);
      FeedConcat(m, [Loop], CodeTokens(n));
      FeedOne(m, Loop);
  }

  lemma FeedBlock(m: Machine, m1: Machine, body: seq<Token>, m2: Machine, next: seq<Token>)
    requires m1 == Feed(m, Open) && m2 == Feed(FeedAll(m1, body), Close)
    ensures FeedAll(m, [Open] + body + [Close] + next) == FeedAll(m2, next)
  {
    hide FeedAll;
    FeedOne(m, Open);
    FeedOne(FeedAll(m1, body), Close);
    FeedConcat(m, [Open], body);
    FeedConcat(m, [Open] + body, [Close]);
    FeedConcat(m, [Open] + body + [Close], next);
  }

  /** For source lines that are the code `c`: the count is the number of loops exactly
      when every loop keyword heads one, and the total is the sum of their depths
      exactly when what strays add and the headers waiting at loops make up for the
      loops around them that no brace was taken for. */
  lemma {:induction false} SourceMeasured(ws: char -> bool, language: string, lines: seq<string>, c: Code)
    requires SourceTokens(ws, language, lines) == CodeTokens(c)
    ensures FeedLines(ws, language, lines).count == LoopsIn(c) + StraysIn(c)
    ensures FeedLines(ws, language, lines).count == LoopsIn(c) <==> StraysIn(c) == 0
    ensures FeedLines(ws, language, lines).total ==
            DepthSum(c, 0) + Waiting(c, 0) - Unhoused(c, 0, 0) + StraySum(c, 0, 0)
    ensures FeedLines(ws, language, lines).total == DepthSum(c, 0) <==>
              Waiting(c, 0) + StraySum(c, 0, 0) == Unhoused(c, 0, 0)
  {
    hide FeedAll, SourceTokens, FeedLines, CodeTokens, LoopsIn, StraysIn, DepthSum, Waiting, StraySum, Unhoused, Left;
    SourceIsStream(ws, language, lines);
    MachineMeasuresCode(Start, c, 0);
  }

  // ----------------------------------------------------------------- tidy code

  /** A statement without braces that ends its line, under any number of loops. */
  ghost predicate BareBody(c: Code) {
    match c
    case End(n) => n == Empty
    case LoopOver(b, n) => BareBody(b) && n == Empty
    case _ => false
  }

  /** Every loop has a block of its own, or a statement without braces that ends its
      line; no loop keyword strays. Plain blocks and line ends may stand anywhere else. */
  ghost predicate Tidy(c: Code) {
    match c
    case Empty => true
    case End(n) => Tidy(n)
    case Plain(b, n) => Tidy(b) && Tidy(n)
    case LoopOver(b, n) => Tidy(n) && (BareBody(b) || (b.Plain? && Tidy(b.body) && b.next == Empty))
    case Stray(_) => false
  }

  lemma {:induction false} BareIsRight(c: Code, p: nat)
    requires BareBody(c)
    ensures Left(c, p) == 0 && StraysIn(c) == 0
    ensures Waiting(c, p) == Unhoused(c, p, p) && forall l :: StraySum(c, p, l) == 0
  {
    if c.LoopOver? {
      BareIsRight(c.body, p + 1);
    }
  }

  lemma {:induction false} TidyIsRight(c: Code)
    requires Tidy(c)
    ensures Left(c, 0) == 0 && StraysIn(c) == 0
    ensures Waiting(c, 0) == Unhoused(c, 0, 0) && forall l :: StraySum(c, 0, l) == 0
    decreases c
  {
    match c
    case Empty =>
    case End(n) => TidyIsRight(n);
    case Plain(b, n) =>
      TidyIsRight(b);
      TidyIsRight(n);
    case LoopOver(b, n) =>
      TidyIsRight(n);
      if b.Plain? {
        TidyIsRight(b.body);
        OwnBlock(b);
      } else {
        BareIsRight(b, 1);
      }
  }

  /** A block of its own takes the one header that waits for it. */
  lemma OwnBlock(b: Code)
    requires b.Plain? && b.next == Empty
    ensures Left(b, 1) == Left(b.body, 0) && StraysIn(b) == StraysIn(b.body)
    ensures Waiting(b, 1) == Waiting(b.body, 0) && Unhoused(b, 1, 1) == Unhoused(b.body, 0, 0)
    ensures forall l :: StraySum(b, 1, l) == StraySum(b.body, 0, l + 1)
  {
    assert Waiting(Empty, Left(b.body, 0)) == 0;
  }

  /** Tidy code is measured truly: count and total are those of its loops. */
  lemma {:induction false} TidyCodeMeasured(ws: char -> bool, language: string, lines: seq<string>, c: Code)
    requires SourceTokens(ws, language, lines) == CodeTokens(c) && Tidy(c)
    ensures FeedLines(ws, language, lines).count == LoopsIn(c)
    ensures FeedLines(ws, language, lines).total == DepthSum(c, 0)
  {
    hide SourceTokens, FeedLines, CodeTokens, Waiting, Unhoused, StraySum, StraysIn, LoopsIn, DepthSum, Tidy;
    TidyIsRight(c);
    SourceMeasured(ws, language, lines, c);
  }

  // ------------------------------------------------------------ sources that go wrong

  const Blank: char -> bool := (c: char) => c == ' '

  lemma {:induction false} NoComment(line: string)
    requires '/' !in line
    ensures StripComment(line) == line
  {
    NotFound(line);
  }

  lemma {:induction false} NotFound(line: string)
    requires '/' !in line
    ensures Find(line, "//").None?
  {
    if line != "" {
      assert line[0] in line && "//"[0] == '/';
      NotFound(line[1..]);
    }
  }

  lemma PairTokens()
    ensures Tokens("c", "for(a)for(b){", 0) == [Loop, Loop, Open]
  {
    var code := "for(a)for(b){";
    assert code[0..3] == "for" && code[6..9] == "for";
    assert Tokens("c", code, 9) == [Open];
    assert Tokens("c", code, 6) == [Loop, Open];
  }

  lemma LoopLineTokens()
    ensures Tokens("c", "for(c){", 0) == [Loop, Open] && Tokens("c", "do{", 0) == [Loop, Open]
  {
    LoopKeywordExactly("for", "c");
    LoopKeywordExactly("do", "c");
    assert "for(c){"[0..3] == "for" && "do{"[0..2] == "do";
  }

  lemma WhileLineTokens()
    ensures Tokens("c", "}while(a);", 0) == [Close, Loop]
    ensures Tokens("c", "x;", 0) == [] && Tokens("c", "}", 0) == [Close]
  {
    assert "}while(a);"[1..6] == "while" && "x;"[0..1] == "x";
  }

  lemma SampleEnds()
    ensures EndsStatement(Blank, "x;") && EndsStatement(Blank, "}while(a);")
    ensures !EndsStatement(Blank, "}") && !EndsStatement(Blank, "for(c){") && !EndsStatement(Blank, "do{")
    ensures !EndsStatement(Blank, "for(a)for(b){")
  {
  }

  lemma SampleLines()
    ensures LineTokens(Blank, "c", "for(a)for(b){") == [Loop, Loop, Open]
    ensures LineTokens(Blank, "c", "for(c){") == [Loop, Open]
    ensures LineTokens(Blank, "c", "x;") == [Stop]
    ensures LineTokens(Blank, "c", "}") == [Close]
    ensures LineTokens(Blank, "c", "do{") == [Loop, Open]
    ensures LineTokens(Blank, "c", "}while(a);") == [Close, Loop, Stop]
  {
    hide *;
    PairTokens();
    LoopLineTokens();
    WhileLineTokens();
    SampleEnds();
    LineIs("for(a)for(b){");
    LineIs("for(c){");
    LineIs("x;");
    LineIs("}");
    LineIs("do{");
    LineIs("}while(a);");
  }

  lemma LineIs(line: string)
    requires '/' !in line
    ensures LineTokens(Blank, "c", line) == Tokens("c", line, 0) + if EndsStatement(Blank, line) then [Stop] else []
  {
    NoComment(line);
  }

  lemma SourceAppend(lines: seq<string>, line: string)
    ensures SourceTokens(Blank, "c", lines + [line]) ==
            SourceTokens(Blank, "c", lines) + LineTokens(Blank, "c", line)
  {
    assert (lines + [line])[..|lines|] == lines;
  }

  lemma NoLines()
    ensures SourceTokens(Blank, "c", []) == []
  {
  }

  /** What the machine makes of code that it meets with `p` headers waiting and `l`
      braces taken for loops around it, where it really stands inside `l + u` loops. */
  ghost predicate Makes(c: Code, p: nat, u: int, l: int, ts: seq<Token>, left: nat, total: int, depths: int) {
    && CodeTokens(c) == ts && Left(c, p) == left && DepthSum(c, l + u) == depths
    && total == depths + Waiting(c, p) - Unhoused(c, p, u) + StraySum(c, p, l)
  }

  lemma MakesNothing(p: nat, u: int, l: int)
    ensures Makes(Empty, p, u, l, [], p, 0, 0)
  {
  }

  lemma MakesEnd(n: Code, p: nat, u: int, l: int, ts: seq<Token>, left: nat, total: int, depths: int)
    requires Makes(n, 0, u, l, ts, left, total, depths)
    ensures Makes(End(n), p, u, l, [Stop] + ts, left, total, depths)
  {
  }

  lemma MakesBlock(b: Code, p: nat, u: int, l: int, ts: seq<Token>, left: nat, total: int, depths: int)
    requires p > 0 ==> Makes(b, p - 1, u - 1, l + 1, ts, left, total, depths)
    requires p == 0 ==> Makes(b, 0, u, l, ts, left, total, depths)
    ensures Makes(Plain(b, Empty), p, u, l, [Open] + ts + [Close], left, total, depths)
  {
    var n := Empty;
    assert CodeTokens(n) == [] && CodeTokens(Plain(b, n)) == [Open] + ts + [Close] + [];
    assert Waiting(n, left) == 0 && Unhoused(n, left, u) == 0 && StraySum(n, left, l) == 0 && Left(n, left) == left;
    assert DepthSum(n, l + u) == 0 && l + 1 + (u - 1) == l + u;
  }

  lemma MakesLoop(b: Code, n: Code, p: nat, u: int, l: int, ts: seq<Token>, left: nat, total: int, depths: int,
      ts': seq<Token>, left': nat, total': int, depths': int)
    requires Makes(b, p + 1, u + 1, l, ts, left, total, depths) && Makes(n, left, u, l, ts', left', total', depths')
    ensures Makes(LoopOver(b, n), p, u, l, [Loop] + ts + ts', left', l + p + 1 + total + total',
                  l + u + 1 + depths + depths')
  {
    assert l + (u + 1) == l + u + 1;
  }

  /** Two loops over one block, then a loop beside them: one header keeps waiting. */
  lemma SharedBlockOvercounts() returns (lines: seq<string>, c: Code)
    ensures lines == ["for(a)for(b){", "}", "for(c){", "}"]
    ensures c == LoopOver(LoopOver(Plain(Empty, Empty), Empty), LoopOver(Plain(Empty, Empty), Empty))
    ensures SourceTokens(Blank, "c", lines) == CodeTokens(c)
    ensures FeedLines(Blank, "c", lines).total == 5 && DepthSum(c, 0) == 4
  {
    hide *;
    lines := ["for(a)for(b){", "}", "for(c){", "}"];
    SampleLines();
    NoLines();
    SourceAppend([], lines[0]);
    SourceAppend(lines[..1], lines[1]);
    SourceAppend(lines[..2], lines[2]);
    SourceAppend(lines[..3], lines[3]);
    assert lines[..1] == [] + [lines[0]] && lines[..2] == lines[..1] + [lines[1]];
    assert lines[..3] == lines[..2] + [lines[2]] && lines == lines[..3] + [lines[3]];
    var block := Plain(Empty, Empty);
    var one := LoopOver(block, Empty);
    MakesNothing(1, 1, 1);
    MakesBlock(Empty, 2, 2, 0, [], 1, 0, 0);
    MakesNothing(1, 1, 0);
    MakesLoop(block, Empty, 1, 1, 0, [Open, Close], 1, 0, 0, [], 1, 0, 0);
    MakesNothing(1, 0, 1);
    MakesBlock(Empty, 2, 1, 0, [], 1, 0, 0);
    MakesNothing(1, 0, 0);
    MakesLoop(block, Empty, 1, 0, 0, [Open, Close], 1, 0, 0, [], 1, 0, 0);
    c := LoopOver(one, one);
    MakesLoop(one, one, 0, 0, 0, [Loop, Open, Close], 1, 2, 2, [Loop, Open, Close], 1, 2, 1);
    var ts := [Loop, Loop, Open, Close, Loop, Open, Close];
    assert ts == [Loop] + [Loop, Open, Close] + [Loop, Open, Close];
    MadeSource(lines, c, ts, 1, 5, 4);
  }

  lemma MadeSource(lines: seq<string>, c: Code, ts: seq<Token>, left: nat, total: int, depths: int)
    requires SourceTokens(Blank, "c", lines) == ts && Makes(c, 0, 0, 0, ts, left, total, depths)
    ensures SourceTokens(Blank, "c", lines) == CodeTokens(c)
    ensures FeedLines(Blank, "c", lines).total == total && DepthSum(c, 0) == depths
  {
    hide SourceTokens, CodeTokens, FeedLines, DepthSum, Waiting, Unhoused, StraySum, Left;
    SourceMeasured(Blank, "c", lines, c);
  }

  /** A statement that ends its line inside a block shared by two loops: the header
      that waits for the second loop is lost, and a loop after it counts too little. */
  lemma StatementEndUndercounts() returns (lines: seq<string>, c: Code)
    ensures lines == ["for(a)for(b){", "x;", "for(c){", "}", "}"]
    ensures c == LoopOver(LoopOver(Plain(End(LoopOver(Plain(Empty, Empty), Empty)), Empty), Empty), Empty)
    ensures SourceTokens(Blank, "c", lines) == CodeTokens(c)
    ensures FeedLines(Blank, "c", lines).total == 5 && DepthSum(c, 0) == 6
  {
    hide *;
    lines := ["for(a)for(b){", "x;", "for(c){", "}", "}"];
    SampleLines();
    NoLines();
    SourceAppend([], lines[0]);
    SourceAppend(lines[..1], lines[1]);
    SourceAppend(lines[..2], lines[2]);
    SourceAppend(lines[..3], lines[3]);
    SourceAppend(lines[..4], lines[4]);
    assert lines[..1] == [] + [lines[0]] && lines[..2] == lines[..1] + [lines[1]];
    assert lines[..3] == lines[..2] + [lines[2]] && lines[..4] == lines[..3] + [lines[3]];
    assert lines == lines[..4] + [lines[4]];
    MakesNothing(0, 1, 2);
    MakesBlock(Empty, 1, 2, 1, [], 0, 0, 0);
    MakesNothing(0, 1, 1);
    var one := LoopOver(Plain(Empty, Empty), Empty);
    MakesLoop(one.body, Empty, 0, 1, 1, [Open, Close], 0, 0, 0, [], 0, 0, 0);
    MakesEnd(one, 1, 1, 1, [Loop, Open, Close], 0, 2, 3);
    var block := Plain(End(one), Empty);
    MakesBlock(End(one), 2, 2, 0, [Stop, Loop, Open, Close], 0, 2, 3);
    MakesNothing(0, 1, 0);
    MakesLoop(block, Empty, 1, 1, 0, [Open, Stop, Loop, Open, Close, Close], 0, 2, 3, [], 0, 0, 0);
    MakesNothing(0, 0, 0);
    var inner := LoopOver(block, Empty);
    c := LoopOver(inner, Empty);
    MakesLoop(inner, Empty, 0, 0, 0, [Loop, Open, Stop, Loop, Open, Close, Close], 0, 4, 5, [], 0, 0, 0);
    var ts := [Loop, Loop, Open, Stop, Loop, Open, Close, Close];
    assert ts == [Loop] + [Loop, Open, Stop, Loop, Open, Close, Close] + [];
    MadeSource(lines, c, ts, 0, 5, 6);
  }

  /** A `do` loop is counted twice. */
  lemma DoLoopCountsTwice() returns (lines: seq<string>, c: Code)
    ensures lines == ["do{", "x;", "}while(a);"] && c == LoopOver(Plain(End(Empty), Empty), Stray(End(Empty)))
    ensures SourceTokens(Blank, "c", lines) == CodeTokens(c)
    ensures FeedLines(Blank, "c", lines).count == 2 && LoopsIn(c) == 1
  {
    hide *;
    lines, c := ["do{", "x;", "}while(a);"], LoopOver(Plain(End(Empty), Empty), Stray(End(Empty)));
    SampleLines();
    NoLines();
    SourceAppend([], lines[0]);
    SourceAppend(lines[..1], lines[1]);
    SourceAppend(lines[..2], lines[2]);
    assert lines[..1] == [] + [lines[0]] && lines[..2] == lines[..1] + [lines[1]] && lines == lines[..2] + [lines[2]];
    DoLoop(c);
    SourceMeasured(Blank, "c", lines, c);
  }

  lemma DoLoop(c: Code)
    requires c == LoopOver(Plain(End(Empty), Empty), Stray(End(Empty)))
    ensures CodeTokens(c) == [Loop, Open, Stop, Close, Loop, Stop] && LoopsIn(c) == 1 && StraysIn(c) == 1
  {
    assert CodeTokens(c.body) == [Open, Stop, Close] && LoopsIn(c.body) == 0 && StraysIn(c.body) == 0;
  }

  // ----------------------------------------------------------------- overflow

  function LoopTokens(ts: seq<Token>): nat {
    if ts == [] then 0 else (if ts[0] == Loop then 1 else 0) + LoopTokens(ts[1..])
  }

  lemma {:induction false} FewLoops(language: string, code: string, i: nat)
    requires i <= |code|
    ensures 2 * LoopTokens(Tokens(language, code, i)) <= |code| - i
    decreases |code| - i
  {
    if i < |code| {
      if code[i] == '{' || code[i] == '}' {
        FewLoops(language, code, i + 1);
        assert Tokens(language, code, i)[1..] == Tokens(language, code, i + 1);
      } else if IsIdentifierStart(code[i]) {
        var end := IdentifierEnd(code, i + 1);
        FewLoops(language, code, end);
        if IsLoopKeyword(code[i..end], language) {
          assert |code[i..end]| >= 2;
          assert Tokens(language, code, i)[1..] == Tokens(language, code, end);
        } else {
          assert Tokens(language, code, i) == Tokens(language, code, end);
        }
      } else {
        FewLoops(language, code, i + 1);
      }
    }
  }

  lemma {:induction false} CountGrows(m: Machine, ts: seq<Token>)
    ensures FeedAll(m, ts).count == m.count + LoopTokens(ts)
    decreases |ts|
  {
    if ts != [] {
      CountGrows(Feed(m, ts[0]), ts[1..]);
    }
  }

  function Characters(lines: seq<string>): nat {
    if lines == [] then 0 else Characters(lines[..|lines| - 1]) + |lines[|lines| - 1]|
  }

  lemma StripShortens(line: string)
    ensures |StripComment(line)| <= |line|
  {
    FindInRange(line, "//");
  }

  lemma {:induction false} AtMostHalfLoops(ws: char -> bool, language: string, lines: seq<string>)
    ensures 0 <= 2 * FeedLines(ws, language, lines).count <= Characters(lines)
  {
    hide Tokens, StripComment, EndsStatement, FeedAll;
    if lines != [] {
      var code := StripComment(lines[|lines| - 1]);
      AtMostHalfLoops(ws, language, lines[..|lines| - 1]);
      FewLoops(language, code, 0);
      CountGrows(FeedLines(ws, language, lines[..|lines| - 1]), Tokens(language, code, 0));
      StripShortens(lines[|lines| - 1]);
    }
  }

  const MAX_CODE_SIZE: nat := 64 * 1024

  lemma MultiplyBound(a: int, b: int, c: int)
    requires a <= b && c >= 0
    ensures a * c <= b * c
  {
  }

  lemma TriangleBound(n: int, total: int)
    requires 0 <= n <= 32768 && WithinTriangle(total, n)
    ensures total <= 0x7fff_ffff
  {
    MultiplyBound(n, 32768, n + 1);
  }

  /** The i32 counters cannot overflow on any source the submission route accepts;
      an average, when there are loops, is at least 1. */
  lemma NoOverflow(ws: char -> bool, language: string, lines: seq<string>)
    requires Characters(lines) <= MAX_CODE_SIZE
    ensures var m := FeedLines(ws, language, lines);
            0 <= m.count <= m.total <= 0x7fff_ffff && Nesting(m) <= 0x7fff_ffff
  {
    hide FeedLines;
    AtMostHalfLoops(ws, language, lines);
    MetricsConsistent(ws, language, lines);
    var m := FeedLines(ws, language, lines);
    TriangleBound(m.count, m.total);
  }
}
