/** Indentation stacks for Python sources (domain-analysis `extractor.rs`,
    `compute_python_nesting` and `compute_python_loop_metrics`). The Unicode
    whitespace test and the byte length of a character are parameters. */
module PythonNesting {
  import opened Common
  import opened Text

  /** A line that is neither blank nor a comment: its indentation, whether it is
      counted, and whether it opens a block on the stack. */
  datatype Line = Line(indent: nat, counted: bool, opens: bool)

  /** `strip_inline_comment(line, "python")`. */
  function StripPythonComment(line: string): string {
    FindInRange(line, "//");
    FindInRange(line, "#");
    var a, b := Find(line, "//"), Find(line, "#");
    var end := if a.Some? then a.value else |line|;
    if b.Some? && b.value < end then line[..b.value] else line[..end]
  }

  predicate StartsLoop(content: string) { "for " <= content || "while " <= content }

  function SaturatingSub(a: nat, b: nat): nat { if a > b then a - b else 0 }

  function ReadLine(ws: char -> bool, width: char -> nat, code: string, loops: bool): Option<Line> {
    var trimmed := TrimEnd(ws, code);
    var content := TrimStart(ws, trimmed);
    if content == "" || content[0] == '#' then None
    else
      var colon := EndsWith(content, ":");
      var counted := if loops then StartsLoop(content) else colon;
      Some(Line(SaturatingSub(ByteLen(width, trimmed), ByteLen(width, content)), counted, counted && colon))
  }

  /** The lines both scans look at. For loop metrics comments are cut off first. */
  function ReadLines(ws: char -> bool, width: char -> nat, lines: seq<string>, loops: bool): seq<Line> {
    if lines == [] then []
    else
      var front, text := ReadLines(ws, width, lines[..|lines| - 1], loops), lines[|lines| - 1];
      var l := ReadLine(ws, width, if loops then StripPythonComment(text) else text, loops);
      if l.Some? then front + [l.value] else front
  }

  /** A line is its indentation, its content and trailing whitespace. It is looked at
      unless the content is empty or a comment; its depth is the size of the
      indentation; a header ends in a colon, and a loop begins with its keyword. */
  lemma ReadLineExactly(ws: char -> bool, width: char -> nat, code: string, loops: bool)
    returns (lead: string, content: string, trail: string)
    ensures code == lead + content + trail && (forall c :: c in lead || c in trail ==> ws(c))
    ensures content != "" ==> !ws(content[0]) && !ws(content[|content| - 1])
    ensures var r := ReadLine(ws, width, code, loops);
            && (r.None? <==> content == "" || content[0] == '#')
            && (r.Some? ==>
                  && r.value.indent == ByteLen(width, lead)
                  && (r.value.counted <==> if loops then "for " <= content || "while " <= content
                                           else content[|content| - 1] == ':')
                  && (r.value.opens <==> r.value.counted && content[|content| - 1] == ':'))
  {
    hide ByteLen, TrimEnd, TrimStart, EndsWith, StartsLoop;
    var trimmed := TrimEnd(ws, code);
    content := TrimStart(ws, trimmed);
    trail := TrimEndExactly(ws, code);
    lead := TrimStartExactly(ws, trimmed);
    ByteLenConcat(width, lead, content);
    assert content != "" ==> trimmed[|trimmed| - 1] == content[|content| - 1];
    HeaderExactly(content);
  }

  lemma HeaderExactly(content: string)
    ensures content != "" ==> (EndsWith(content, ":") <==> content[|content| - 1] == ':')
    ensures StartsLoop(content) <==> "for " <= content || "while " <= content
  {
    assert content != "" ==> content[|content| - 1..] == [content[|content| - 1]];
  }

  /** A comment starts at the first `#` or `//`; what is before it is kept. */
  lemma StripExactly(line: string)
    ensures var code := StripPythonComment(line);
            && code <= line && '#' !in code
            && (forall i :: 0 <= i < |code| ==> !("//" <= line[i..]))
            && (code == line || line[|code|] == '#' || "//" <= line[|code|..])
  {
    FindExactly(line, "//");
    FindExactly(line, "#");
    var code := StripPythonComment(line);
    forall i | 0 <= i < |code| ensures code[i] != '#' {
      assert line[i..][..1] == [line[i]] && "#" == ['#'];
    }
    hide Find;
  }

  // -------------------------------------------------------------- what is open

  /** Block header `j` is still open before line `n`: all lines since are deeper. */
  ghost predicate StaysOpen(ls: seq<Line>, j: nat, n: nat)
    requires n <= |ls|
  {
    j < n && ls[j].opens && forall m :: j < m < n ==> ls[m].indent > ls[j].indent
  }

  ghost function OpenBefore(ls: seq<Line>, n: nat): set<nat>
    requires n <= |ls|
  {
    set j | 0 <= j < n && StaysOpen(ls, j, n)
  }

  /** The open headers that line `k` is nested in. */
  ghost function Enclosing(ls: seq<Line>, k: nat): set<nat>
    requires k < |ls|
  {
    set j | 0 <= j < k && StaysOpen(ls, j, k) && ls[k].indent > ls[j].indent
  }

  /** How deep a counted line is: itself and what encloses it. */
  ghost function Depth(ls: seq<Line>, k: nat): nat
    requires k < |ls|
  {
    |Enclosing(ls, k)| + 1
  }

  lemma OpenAfter(ls: seq<Line>, k: nat)
    requires k < |ls|
    ensures OpenBefore(ls, k + 1) == Enclosing(ls, k) + if ls[k].opens then {k} else {}
  {
  }

  // ------------------------------------------------------------------ the stack

  ghost predicate Ascending(s: seq<nat>) {
    forall i, j :: 0 <= i < j < |s| ==> s[i] < s[j]
  }

  lemma AscendingAppend(s: seq<nat>, x: nat)
    requires Ascending(s) && forall i :: 0 <= i < |s| ==> s[i] < x
    ensures Ascending(s + [x])
  {
  }

  /** The stack holds the indentation of exactly the open headers, outermost first. */
  ghost predicate Represents(ls: seq<Line>, stack: seq<nat>, owners: seq<nat>, open: set<nat>) {
    && |owners| == |stack| == |open|
    && (forall i :: 0 <= i < |owners| ==> owners[i] < |ls| && stack[i] == ls[owners[i]].indent)
    && Ascending(owners) && Ascending(stack)
    && (forall x :: x in open <==> x in owners)
  }

  /** The open headers shallower than `indent`. */
  ghost function Shallower(ls: seq<Line>, open: set<nat>, indent: nat): set<nat>
    requires forall x :: x in open ==> x < |ls|
  {
    set x | x in open && ls[x].indent < indent
  }

  lemma PushOne(ls: seq<Line>, stack: seq<nat>, owners: seq<nat>, open: set<nat>, k: nat)
    requires Represents(ls, stack, owners, open) && k < |ls|
    requires forall x :: x in open ==> x < k && ls[x].indent < ls[k].indent
    ensures Represents(ls, stack + [ls[k].indent], owners + [k], open + {k})
  {
    hide Ascending;
    assert forall i :: 0 <= i < |owners| ==> owners[i] in open;
    AscendingAppend(stack, ls[k].indent);
    AscendingAppend(owners, k);
    assert k !in open;
  }

  /** Popping while the top is at least as deep leaves exactly the shallower ones. */
  method PopDeeper(ghost ls: seq<Line>, stack: seq<nat>, ghost owners: seq<nat>, ghost open: set<nat>, indent: nat)
    returns (stack': seq<nat>, ghost owners': seq<nat>)
    requires Represents(ls, stack, owners, open)
    requires forall x :: x in open ==> x < |ls|
    ensures Represents(ls, stack', owners', Shallower(ls, open, indent))
  {
    stack', owners' := stack, owners;
    ghost var left := open;
    while stack' != [] && indent <= stack'[|stack'| - 1]
      invariant Represents(ls, stack', owners', left) && left <= open
      invariant Shallower(ls, left, indent) == Shallower(ls, open, indent)
    {
      left := left - {owners'[|stack'| - 1]};
      stack', owners' := stack'[..|stack'| - 1], owners'[..|stack'| - 1];
    }
    assert left == Shallower(ls, left, indent) by {
      forall x | x in left ensures ls[x].indent < indent {
        var i :| 0 <= i < |owners'| && owners'[i] == x;
      }
    }
  }

  /** Largest depth of a counted line among the first `n`, and at least `low`. */
  ghost predicate IsMaxDepth(ls: seq<Line>, n: nat, low: nat, d: nat)
    requires n <= |ls|
  {
    && d >= low
    && (forall k :: 0 <= k < n && ls[k].counted ==> Depth(ls, k) <= d)
    && (d == low || exists k :: 0 <= k < n && ls[k].counted && Depth(ls, k) == d)
  }

  ghost function TotalDepth(ls: seq<Line>, n: nat): nat
    requires n <= |ls|
  {
    if n == 0 then 0 else TotalDepth(ls, n - 1) + if ls[n - 1].counted then Depth(ls, n - 1) else 0
  }

  ghost function CountedLines(ls: seq<Line>, n: nat): nat
    requires n <= |ls|
  {
    if n == 0 then 0 else CountedLines(ls, n - 1) + if ls[n - 1].counted then 1 else 0
  }

  lemma MaxDepthStep(ls: seq<Line>, k: nat, d: nat)
    requires k < |ls| && IsMaxDepth(ls, k, 0, d)
    ensures IsMaxDepth(ls, k + 1, 0, if ls[k].counted && Depth(ls, k) > d then Depth(ls, k) else d)
  {
  }

  lemma EnclosingIsShallower(ls: seq<Line>, k: nat)
    requires k < |ls|
    ensures Shallower(ls, OpenBefore(ls, k), ls[k].indent) == Enclosing(ls, k)
    ensures forall x :: x in Enclosing(ls, k) ==> x < k && ls[x].indent < ls[k].indent
  {
  }

  /** One pass over the lines: the stack before each line represents what is open,
      so each counted line's depth can be read off it. */
  method Scan(ls: seq<Line>) returns (count: nat, total: nat, maxDepth: nat)
    ensures count == CountedLines(ls, |ls|) && total == TotalDepth(ls, |ls|) && IsMaxDepth(ls, |ls|, 0, maxDepth)
  {
    hide Represents, Enclosing, OpenBefore, IsMaxDepth, Shallower, Depth, StaysOpen;
    var stack: seq<nat> := [];
    ghost var owners: seq<nat> := [];
    count, total, maxDepth := 0, 0, 0;
    EmptyStack(ls);
    for k := 0 to |ls|
      invariant Represents(ls, stack, owners, OpenBefore(ls, k))
      invariant count == CountedLines(ls, k) && total == TotalDepth(ls, k) && IsMaxDepth(ls, k, 0, maxDepth)
    {
      OpenInRange(ls, k);
      stack, owners := PopDeeper(ls, stack, owners, OpenBefore(ls, k), ls[k].indent);
      EnclosingIsShallower(ls, k);
      OpenAfter(ls, k);
      DepthFromStack(ls, stack, owners, k);
      MaxDepthStep(ls, k, maxDepth);
      if ls[k].counted {
        count := count + 1;
        total := total + |stack| + 1;
        maxDepth := if |stack| + 1 > maxDepth then |stack| + 1 else maxDepth;
      }
      if ls[k].opens {
        PushOne(ls, stack, owners, Enclosing(ls, k), k);
        stack, owners := stack + [ls[k].indent], owners + [k];
      }
    }
  }

  lemma OpenInRange(ls: seq<Line>, k: nat)
    requires k <= |ls|
    ensures forall x :: x in OpenBefore(ls, k) ==> x < |ls|
  {
  }

  lemma EmptyStack(ls: seq<Line>)
    ensures Represents(ls, [], [], OpenBefore(ls, 0)) && IsMaxDepth(ls, 0, 0, 0)
  {
  }

  lemma DepthFromStack(ls: seq<Line>, stack: seq<nat>, owners: seq<nat>, k: nat)
    requires k < |ls| && Represents(ls, stack, owners, Enclosing(ls, k))
    ensures Depth(ls, k) == |stack| + 1
  {
  }

  /** `compute_python_nesting`: the deepest header, and 1 for a source without any. */
  method ComputePythonNesting(ws: char -> bool, width: char -> nat, lines: seq<string>) returns (depth: nat)
    ensures IsMaxDepth(ReadLines(ws, width, lines, false), |ReadLines(ws, width, lines, false)|, 1, depth)
  {
    var ls := ReadLines(ws, width, lines, false);
    var _, _, m := Scan(ls);
    depth := if m > 1 then m else 1;
  }

  /** `compute_python_loop_metrics`: the loops, and the average of their nesting depths. */
  method ComputePythonLoopMetrics(ws: char -> bool, width: char -> nat, lines: seq<string>)
    returns (count: nat, avgNesting: real)
    ensures var ls := ReadLines(ws, width, lines, true);
            && count == CountedLines(ls, |ls|)
            && avgNesting == if count == 0 then 0.0 else TotalDepth(ls, |ls|) as real / count as real
  {
    var total, maxDepth;
    count, total, maxDepth := Scan(ReadLines(ws, width, lines, true));
    avgNesting := if count == 0 then 0.0 else total as real / count as real;
  }
}
