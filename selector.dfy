/** The selector AST as postcss-selector-parser hands it to the engine, the
    helper `getLastNonCombinatorNodes`, and `attachSourceIfNecessary`, which
    recovers the source text of pseudo-class and attribute clauses so that
    they can be replayed against the native `element.matches`. */
module Selector {
  import opened Seqs

  /** A position as the parser reports it: 1-based line, and a column that
      is 1-based for the first character of a clause and inclusive at its end. */
  datatype Position = Position(line: int, column: int)

  datatype Span = Span(start: Position, end: Position)

  /** One node of a parsed selector. `CombinatorToken` carries the
      combinator's value (" ", ">", "+", "~"); `OtherToken` stands for the
      node types the matcher has no branch for (universal `*`, nesting `&`,
      comments, strings). `sourceCode` is the text `attachSourceIfNecessary`
      writes into pseudo-class and attribute nodes. */
  datatype Token =
    | IdToken(value: string)
    | ClassToken(value: string)
    | TagToken(value: string)
    | PseudoToken(value: string, source: Span, sourceCode: string)
    | AttributeToken(attribute: string, source: Span, sourceCode: string)
    | CombinatorToken(value: string)
    | OtherToken(kind: string)

  /** One comma-separated alternative (a parser `Selector` node) and the list
      of them (the parser's `Root`). */
  type Alternative = seq<Token>
  type Group = seq<Alternative>

  predicate NoCombinator(toks: seq<Token>) {
    forall k :: 0 <= k < |toks| ==> !toks[k].CombinatorToken?
  }

  /** The trailing compound of `toks`: the longest run of non-combinator
      tokens at its end, in their original order (`LastCompoundSpec`). */
  function LastCompound(toks: seq<Token>): (r: seq<Token>)
    ensures |r| <= |toks|
  {
    if toks == [] || toks[|toks| - 1].CombinatorToken? then []
    else LastCompound(toks[..|toks| - 1]) + [toks[|toks| - 1]]
  }

  /** The trailing compound is a suffix without combinators that cannot be
      extended to the left. */
  lemma {:induction false} LastCompoundSpec(toks: seq<Token>)
    ensures LastCompound(toks) == toks[|toks| - |LastCompound(toks)|..]
    ensures NoCombinator(LastCompound(toks))
    ensures |LastCompound(toks)| < |toks| ==> toks[|toks| - |LastCompound(toks)| - 1].CombinatorToken?
  {
    if toks != [] && !toks[|toks| - 1].CombinatorToken? {
      var init := toks[..|toks| - 1];
      var t := toks[|toks| - 1];
      LastCompoundSpec(init);
      var r := LastCompound(init) + [t];
      assert r == LastCompound(toks);
      assert toks == init + [t];
      assert r == toks[|toks| - |r|..];
      assert forall k :: 0 <= k < |r| ==> r[k] == if k < |r| - 1 then LastCompound(init)[k] else t;
    }
  }

  /** A suffix without combinators that starts right after a combinator (or
      at the very start) is the trailing compound. */
  lemma LastCompoundAt(toks: seq<Token>, j: nat)
    requires j <= |toks| && NoCombinator(toks[j..])
    requires j == 0 || toks[j - 1].CombinatorToken?
    ensures LastCompound(toks) == toks[j..]
  {
    LastCompoundSpec(toks);
  }

  /** `getLastNonCombinatorNodes`: walks back from the end, collecting tokens
      until the first combinator, then reverses what it collected. */
  method GetLastNonCombinatorNodes(nodes: seq<Token>) returns (r: seq<Token>)
    ensures r == LastCompound(nodes)
  {
    var results: seq<Token> := [];
    var i := |nodes| - 1;
    while i >= 0
      invariant -1 <= i < |nodes|
      invariant Reversed(results) == nodes[i + 1..]
      invariant NoCombinator(nodes[i + 1..])
    {
      if nodes[i].CombinatorToken? {
        break;
      }
      ReversedPush(results, nodes[i]);
      assert nodes[i..] == [nodes[i]] + nodes[i + 1..];
      results := results + [nodes[i]];
      i := i - 1;
    }
    LastCompoundAt(nodes, i + 1);
    r := Reversed(results);
  }

  /** ASCII `toLowerCase`. */
  function LowerChar(c: char): char {
    if 'A' <= c <= 'Z' then (c as int + 32) as char else c
  }

  /** `a` and `b` are the same character up to ASCII case. */
  predicate SameUpToCase(a: char, b: char) {
    a == b || ('A' <= a <= 'Z' && b as int == a as int + 32) || ('A' <= b <= 'Z' && a as int == b as int + 32)
  }

  /** `String.prototype.toLowerCase`, on ASCII letters. */
  function Lower(s: string): string {
    seq(|s|, k requires 0 <= k < |s| => LowerChar(s[k]))
  }

  /** Lower-casing keeps the length, leaves no ASCII capital and changes
      each character only in its case. */
  lemma LowerSpec(s: string)
    ensures |Lower(s)| == |s|
    ensures forall k :: 0 <= k < |s| ==> !('A' <= Lower(s)[k] <= 'Z') && SameUpToCase(s[k], Lower(s)[k])
  {
  }

  /** Lower-casing a lower-cased string changes nothing. */
  lemma LowerIdempotent(s: string)
    ensures Lower(Lower(s)) == Lower(s)
  {
  }

  /** The tag test compares lower-cased names, so two names pass it exactly
      when they have the same length and agree character by character up to
      ASCII case. */
  lemma LowerEqualIff(s: string, t: string)
    ensures Lower(s) == Lower(t) <==> |s| == |t| && forall k :: 0 <= k < |s| ==> SameUpToCase(s[k], t[k])
  {
    if Lower(s) == Lower(t) {
      forall k | 0 <= k < |s|
        ensures SameUpToCase(s[k], t[k])
      {
        assert Lower(s)[k] == Lower(t)[k];
      }
    }
    if |s| == |t| && forall k :: 0 <= k < |s| ==> SameUpToCase(s[k], t[k]) {
      forall k | 0 <= k < |s|
        ensures Lower(s)[k] == Lower(t)[k]
      {
        assert SameUpToCase(s[k], t[k]);
      }
    }
  }

  /** `String.prototype.split('\n')`. */
  function SplitLines(s: string): (r: seq<string>)
    ensures |r| >= 1
    ensures forall i :: 0 <= i < |r| ==> '\n' !in r[i]
    decreases |s|
  {
    var k := IndexOf(s, '\n');
    if k == -1 then [s] else [s[..k]] + SplitLines(s[k + 1..])
  }

  /** `Array.prototype.join('\n')`. */
  function JoinLines(lines: seq<string>): string
    decreases |lines|
  {
    if |lines| == 0 then ""
    else if |lines| == 1 then lines[0]
    else lines[0] + "\n" + JoinLines(lines[1..])
  }

  /** Joining a line in front of at least one more puts a newline between them. */
  lemma JoinLinesCons(x: string, ls: seq<string>)
    requires |ls| >= 1
    ensures JoinLines([x] + ls) == x + "\n" + JoinLines(ls)
  {
    assert ([x] + ls)[1..] == ls;
  }

  /** A string with a newline at `k` is its part before `k`, the newline, and its rest. */
  lemma SplitAround(s: string, k: nat)
    requires k < |s| && s[k] == '\n'
    ensures s[..k] + "\n" + s[k + 1..] == s
  {
  }

  /** Splitting at newlines loses nothing: joining the lines gives the string back. */
  lemma {:induction false} JoinSplitLines(s: string)
    ensures JoinLines(SplitLines(s)) == s
    decreases |s|
  {
    var k := IndexOf(s, '\n');
    if k != -1 {
      var rest := s[k + 1..];
      JoinSplitLines(rest);
      JoinLinesCons(s[..k], SplitLines(rest));
      SplitAround(s, k);
    }
  }

  /** And splitting the join of newline-free lines gives the lines back. */
  lemma {:induction false} SplitJoinLines(lines: seq<string>)
    requires |lines| >= 1
    requires forall i :: 0 <= i < |lines| ==> '\n' !in lines[i]
    ensures SplitLines(JoinLines(lines)) == lines
    decreases |lines|
  {
    if |lines| > 1 {
      var s := JoinLines(lines);
      var tail := JoinLines(lines[1..]);
      assert s == lines[0] + "\n" + tail;
      assert s[..|lines[0]|] == lines[0];
      assert s[|lines[0]|] == '\n';
      assert IndexOf(s, '\n') == |lines[0]| by {
        forall k | 0 <= k < |lines[0]| ensures s[k] != '\n' {
          assert s[k] == lines[0][k];
        }
      }
      assert s[|lines[0]| + 1..] == tail;
      SplitJoinLines(lines[1..]);
    } else {
      assert IndexOf(lines[0], '\n') == -1;
    }
  }

  function Clamp(x: int, len: nat): (r: nat)
    ensures r <= len
  {
    if x < 0 then 0 else if x > len then len else x
  }

  /** `String.prototype.substring`: both indices clamped to the string, and
      swapped when the first exceeds the second. */
  function Substring(s: string, a: int, b: int): (r: string)
    ensures forall k :: 0 <= k < |r| ==> r[k] in s
    ensures 0 <= a <= b <= |s| ==> r == s[a..b]
  {
    var lo, hi := Clamp(a, |s|), Clamp(b, |s|);
    if lo <= hi then s[lo..hi] else s[hi..lo]
  }

  /** The loop of `attachSourceIfNecessary` reads the lines from
      `start.line - 1` up to `end.line`; each of them must exist (or the loop
      must not run at all). */
  predicate SpanReadable(lines: seq<string>, span: Span) {
    span.start.line - 1 >= span.end.line || (1 <= span.start.line && span.end.line <= |lines|)
  }

  /** The part of line `i` that belongs to the clause: from the start column
      on its first line, up to the end column on its last line. */
  function LineSlice(lines: seq<string>, span: Span, i: nat): string
    requires i < |lines|
  {
    var line := lines[i];
    var from := if i == span.start.line - 1 then span.start.column else 0;
    var to := if i == span.end.line - 1 then span.end.column else |line|;
    Substring(line, from, to)
  }

  /** The slices of lines `lo` (inclusive) to `hi` (exclusive), concatenated. */
  function LineSlices(lines: seq<string>, span: Span, lo: int, hi: int): string
    requires lo >= hi || (0 <= lo && hi <= |lines|)
    decreases hi - lo
  {
    if hi <= lo then "" else LineSlices(lines, span, lo, hi - 1) + LineSlice(lines, span, hi - 1)
  }

  /** The text of a clause, with the newlines between its lines dropped. */
  function SourceText(lines: seq<string>, span: Span): string
    requires SpanReadable(lines, span)
  {
    LineSlices(lines, span, span.start.line - 1, span.end.line)
  }

  /** The `:` or `[` that the parser's column convention leaves out. */
  function Prefix(t: Token): string {
    if t.PseudoToken? then ":" else "["
  }

  /** The inner loop of `attachSourceIfNecessary` for one clause. */
  method SourceCodeOf(splitSelector: seq<string>, t: Token) returns (code: string)
    requires t.PseudoToken? || t.AttributeToken?
    requires SpanReadable(splitSelector, t.source)
    ensures code == Prefix(t) + SourceText(splitSelector, t.source)
  {
    var start, end := t.source.start, t.source.end;
    var sourceCode := "";
    var i := start.line - 1;
    while i < end.line
      invariant start.line - 1 <= i
      invariant start.line - 1 < end.line ==> 1 <= start.line && i <= end.line <= |splitSelector|
      invariant start.line - 1 >= end.line ==> i == start.line - 1
      invariant sourceCode == LineSlices(splitSelector, t.source, start.line - 1, i)
      decreases end.line - i
    {
      var line := splitSelector[i];
      var stringStart := if i == start.line - 1 then start.column else 0;
      var stringEnd := if i == end.line - 1 then end.column else |line|;
      sourceCode := sourceCode + Substring(line, stringStart, stringEnd);
      i := i + 1;
    }
    assert sourceCode == LineSlices(splitSelector, t.source, start.line - 1, end.line);
    code := Prefix(t) + sourceCode;
  }

  lemma {:induction false} LineSlicesNoNewline(lines: seq<string>, span: Span, lo: int, hi: int)
    requires lo >= hi || (0 <= lo && hi <= |lines|)
    requires forall i :: 0 <= i < |lines| ==> '\n' !in lines[i]
    ensures '\n' !in LineSlices(lines, span, lo, hi)
    decreases hi - lo
  {
    if lo < hi {
      LineSlicesNoNewline(lines, span, lo, hi - 1);
      var s := LineSlice(lines, span, hi - 1);
      assert forall k :: 0 <= k < |s| ==> s[k] in lines[hi - 1];
    }
  }

  /** The reconstructed text never contains a newline, whichever lines the
      clause spans. */
  lemma SourceTextHasNoNewline(selector: string, span: Span)
    requires SpanReadable(SplitLines(selector), span)
    ensures '\n' !in SourceText(SplitLines(selector), span)
  {
    LineSlicesNoNewline(SplitLines(selector), span, span.start.line - 1, span.end.line);
  }

  /** A clause on a single line is that line's substring between its columns. */
  lemma SingleLineSourceText(lines: seq<string>, span: Span)
    requires 1 <= span.start.line == span.end.line <= |lines|
    ensures SourceText(lines, span) == Substring(lines[span.start.line - 1], span.start.column, span.end.column)
  {
    var i := span.start.line - 1;
    assert LineSlices(lines, span, i, i) == "";
  }

  /** For a selector without newlines, a clause whose delimiter (`:` or `[`)
      is at index `p` and whose last character is at index `q` is replayed as
      exactly the characters `p` to `q` of the selector. */
  lemma ClauseSourceIsSelectorText(selector: string, t: Token, p: nat, q: nat)
    requires t.PseudoToken? || t.AttributeToken?
    requires '\n' !in selector
    requires p <= q < |selector| && selector[p] == (if t.PseudoToken? then ':' else '[')
    requires t.source == Span(Position(1, p + 1), Position(1, q + 1))
    ensures SpanReadable(SplitLines(selector), t.source)
    ensures Prefix(t) + SourceText(SplitLines(selector), t.source) == selector[p..q + 1]
  {
    SplitSingleLine(selector);
    SingleLineClause(selector, t, p, q);
  }

  lemma SingleLineClause(selector: string, t: Token, p: nat, q: nat)
    requires t.PseudoToken? || t.AttributeToken?
    requires p <= q < |selector| && selector[p] == (if t.PseudoToken? then ':' else '[')
    requires t.source == Span(Position(1, p + 1), Position(1, q + 1))
    ensures Prefix(t) + SourceText([selector], t.source) == selector[p..q + 1]
  {
    SingleLineSourceText([selector], t.source);
    PrefixIsDelimiter(t, selector[p]);
    assert selector[p..q + 1] == [selector[p]] + selector[p + 1..q + 1];
  }

  /** A string without newlines splits into itself alone. */
  lemma SplitSingleLine(s: string)
    requires '\n' !in s
    ensures SplitLines(s) == [s]
  {
    assert IndexOf(s, '\n') == -1;
  }

  lemma PrefixIsDelimiter(t: Token, c: char)
    requires c == (if t.PseudoToken? then ':' else '[')
    ensures Prefix(t) == [c]
  {
  }

  predicate IsClause(t: Token) {
    t.PseudoToken? || t.AttributeToken?
  }

  /** Every pseudo-class and attribute clause of `group` has a readable span. */
  predicate SpansReadable(selector: string, group: Group) {
    forall i, k :: 0 <= i < |group| && 0 <= k < |group[i]| && IsClause(group[i][k]) ==>
      SpanReadable(SplitLines(selector), group[i][k].source)
  }

  /** One token after `attachSourceIfNecessary`. */
  function WithSource(selector: string, t: Token): Token
    requires IsClause(t) ==> SpanReadable(SplitLines(selector), t.source)
  {
    if IsClause(t) then t.(sourceCode := Prefix(t) + SourceText(SplitLines(selector), t.source)) else t
  }

  /** The AST after `attachSourceIfNecessary`: the same shape, every clause
      carrying its prefixed source text, every other token untouched. */
  function AttachSource(selector: string, group: Group): (r: Group)
    requires SpansReadable(selector, group)
    ensures |r| == |group|
    ensures forall i :: 0 <= i < |r| ==> |r[i]| == |group[i]|
    ensures forall i, k :: 0 <= i < |r| && 0 <= k < |r[i]| && !IsClause(group[i][k]) ==> r[i][k] == group[i][k]
    ensures forall i, k :: 0 <= i < |r| && 0 <= k < |r[i]| && IsClause(group[i][k]) ==>
      IsClause(r[i][k]) && r[i][k].source == group[i][k].source && Prefix(r[i][k]) == Prefix(group[i][k])
      && r[i][k].sourceCode == Prefix(group[i][k]) + SourceText(SplitLines(selector), group[i][k].source)
  {
    seq(|group|, i requires 0 <= i < |group| =>
      seq(|group[i]|, k requires 0 <= k < |group[i]| => WithSource(selector, group[i][k])))
  }

  /** `attachSourceIfNecessary` over the root and each of its selectors. The
      source writes into the parser's nodes in place; here the updated
      alternatives are rebuilt one token at a time. */
  method AttachSourceIfNecessary(group: Group, selector: string) returns (r: Group)
    requires SpansReadable(selector, group)
    ensures r == AttachSource(selector, group)
  {
    r := [];
    var i := 0;
    while i < |group|
      invariant 0 <= i <= |group|
      invariant r == AttachSource(selector, group)[..i]
    {
      var nodes := group[i];
      var alt: Alternative := [];
      var k := 0;
      while k < |nodes|
        invariant 0 <= k <= |nodes|
        invariant alt == AttachSource(selector, group)[i][..k]
      {
        var node := nodes[k];
        if IsClause(node) {
          var splitSelector := SplitLines(selector);
          var sourceCode := SourceCodeOf(splitSelector, node);
          node := node.(sourceCode := sourceCode);
        }
        assert node == WithSource(selector, group[i][k]);
        alt := alt + [node];
        k := k + 1;
      }
      assert alt == AttachSource(selector, group)[i];
      r := r + [alt];
      i := i + 1;
    }
  }
}
