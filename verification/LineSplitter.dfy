/** The file view's line splitter: cutting a highlighted blob into one row per line,
    closing the elements that span a newline and reopening them on the next row.
    Child lists are updated in place; the nodes in them are values. */
module LineSplitter {
  import opened Seqs
  import opened Strings

  const NL: char := '\n'

  /** `tag` stands for everything a shallow clone copies. `Other` nodes hold no text. */
  datatype Node = Text(data: string) | Element(tag: string, children: seq<Node>) | Other

  /** A character together with the elements around it, outermost first. */
  type Glyph = (char, seq<string>)

  function Spell(data: string, chain: seq<string>): (r: seq<Glyph>)
    ensures |r| == |data| && forall i :: 0 <= i < |data| ==> r[i] == (data[i], chain)
  {
    seq(|data|, i requires 0 <= i < |data| => (data[i], chain))
  }

  function NodeGlyphs(n: Node, chain: seq<string>): seq<Glyph>
    decreases n
  {
    match n
    case Text(data) => Spell(data, chain)
    case Element(tag, children) => Glyphs(children, chain + [tag])
    case Other => []
  }

  function Glyphs(nodes: seq<Node>, chain: seq<string>): seq<Glyph>
    decreases nodes
  {
    if nodes == [] then [] else NodeGlyphs(nodes[0], chain) + Glyphs(nodes[1..], chain)
  }

  lemma {:induction false} GlyphsAppend(a: seq<Node>, b: seq<Node>, chain: seq<string>)
    ensures Glyphs(a + b, chain) == Glyphs(a, chain) + Glyphs(b, chain)
    decreases |a|
  {
    if a == [] {
      assert a + b == b;
    } else {
      GlyphsAppend(a[1..], b, chain);
      assert (a + b)[1..] == a[1..] + b;
    }
  }

  lemma GlyphsOne(n: Node, chain: seq<string>)
    ensures Glyphs([n], chain) == NodeGlyphs(n, chain)
  {
    assert [n][1..] == [];
  }

  lemma GlyphsSnoc(nodes: seq<Node>, n: Node, chain: seq<string>)
    ensures Glyphs(nodes + [n], chain) == Glyphs(nodes, chain) + NodeGlyphs(n, chain)
  {
    GlyphsAppend(nodes, [n], chain);
    GlyphsOne(n, chain);
  }

  lemma GlyphsCons(n: Node, nodes: seq<Node>, chain: seq<string>)
    ensures Glyphs([n] + nodes, chain) == NodeGlyphs(n, chain) + Glyphs(nodes, chain)
  {
    GlyphsAppend([n], nodes, chain);
    GlyphsOne(n, chain);
  }

  ghost predicate NewlineFree(gs: seq<Glyph>) { forall i :: 0 <= i < |gs| ==> gs[i].0 != NL }

  /** The last child is itself a text node, and ends in a newline. */
  predicate EndsInTopNewline(nodes: seq<Node>) {
    && nodes != [] && nodes[|nodes| - 1].Text?
    && nodes[|nodes| - 1].data != [] && nodes[|nodes| - 1].data[|nodes[|nodes| - 1].data| - 1] == NL
  }

  /** A DOM node as the splitter sees it: a child list it moves nodes out of or into. */
  class Parent {
    var children: seq<Node>

    constructor (children: seq<Node>)
      ensures this.children == children
    {
      this.children := children;
    }
  }

  /** What taking a line means. `taken` is newline-free and is appended to the destination; on a hit
      one newline and the new source make up the rest of the old source, without one the source
      ends up empty. Every character keeps its chain of elements. */
  ghost predicate Takes(src: seq<Node>, dst: seq<Node>, src': seq<Node>, dst': seq<Node>, chain: seq<string>, hit: bool,
                        taken: seq<Glyph>, newline: seq<Glyph>)
  {
    && NewlineFree(taken)
    && Glyphs(dst', chain) == Glyphs(dst, chain) + taken
    && Glyphs(src, chain) == taken + newline + Glyphs(src', chain)
    && (if hit then |newline| == 1 && newline[0].0 == NL else newline == [] && src' == [])
    && (hit && src' == [] ==> EndsInTopNewline(src))
    && (hit && src' != [] ==> (EndsInTopNewline(src') <==> EndsInTopNewline(src)))
  }

  /** The first `k` nodes have been moved over whole. */
  ghost predicate Moved(nodes: seq<Node>, k: nat, dst: seq<Node>, dst': seq<Node>, chain: seq<string>,
                        moved: seq<Glyph>)
    requires k <= |nodes|
  {
    && NewlineFree(moved)
    && Glyphs(dst', chain) == Glyphs(dst, chain) + moved
    && Glyphs(nodes, chain) == moved + Glyphs(nodes[k..], chain)
  }

  /** One more node moved, itself or a copy with the same characters. */
  lemma MovedOneMore(nodes: seq<Node>, k: nat, dst: seq<Node>, dst': seq<Node>, chain: seq<string>, moved: seq<Glyph>,
                     copy: Node)
    requires k < |nodes| && Moved(nodes, k, dst, dst', chain, moved)
    requires NodeGlyphs(copy, chain) == NodeGlyphs(nodes[k], chain) && NewlineFree(NodeGlyphs(copy, chain))
    ensures Moved(nodes, k + 1, dst, dst' + [copy], chain, moved + NodeGlyphs(copy, chain))
  {
    assert nodes[k..] == [nodes[k]] + nodes[k + 1..];
    GlyphsCons(nodes[k], nodes[k + 1..], chain);
    GlyphsSnoc(dst', copy, chain);
    Associate(moved, NodeGlyphs(copy, chain), Glyphs(nodes[k + 1..], chain));
    Associate(Glyphs(dst, chain), moved, NodeGlyphs(copy, chain));
  }

  /** A line taken from what is left is a line taken from the whole. */
  lemma TakesAfterMoved(nodes: seq<Node>, k: nat, dst: seq<Node>, dst': seq<Node>, chain: seq<string>,
                        moved: seq<Glyph>, src'': seq<Node>, dst'': seq<Node>, taken: seq<Glyph>, newline: seq<Glyph>)
    requires k < |nodes| && Moved(nodes, k, dst, dst', chain, moved)
    requires Takes(nodes[k..], dst', src'', dst'', chain, true, taken, newline)
    ensures Takes(nodes, dst, src'', dst'', chain, true, moved + taken, newline)
  {
    hide Glyphs, EndsInTopNewline;
    SameEnd(nodes, k);
    Associate(Glyphs(dst, chain), moved, taken);
    Associate(moved, taken + newline, Glyphs(src'', chain));
    Associate(moved, taken, newline);
  }

  lemma SpellAround(data: string, idx: nat, chain: seq<string>)
    requires idx < |data|
    ensures Spell(data, chain) == Spell(data[..idx], chain) + [(data[idx], chain)] + Spell(data[idx + 1..], chain)
  {
  }

  lemma NodeGlyphsOf(tag: string, children: seq<Node>, data: string, chain: seq<string>)
    ensures NodeGlyphs(Element(tag, children), chain) == Glyphs(children, chain + [tag])
    ensures NodeGlyphs(Text(data), chain) == Spell(data, chain)
    ensures Glyphs([], chain) == []
  {
  }

  /** The source once its first text node is cut after a newline at `idx`. */
  function AfterNewline(data: string, idx: nat, rest: seq<Node>): seq<Node>
    requires idx < |data|
  {
    (if data[idx + 1..] == [] then [] else [Text(data[idx + 1..])]) + rest
  }

  lemma AfterNewlineGlyphs(data: string, idx: nat, rest: seq<Node>, chain: seq<string>)
    requires idx < |data|
    ensures Glyphs(AfterNewline(data, idx, rest), chain) == Spell(data[idx + 1..], chain) + Glyphs(rest, chain)
  {
    var tail := data[idx + 1..];
    if tail == [] {
      assert [] + rest == rest;
    } else {
      GlyphsCons(Text(tail), rest, chain);
      NodeGlyphsOf("", [], tail, chain);
    }
  }

  lemma AfterNewlineEnd(data: string, idx: nat, rest: seq<Node>)
    requires idx < |data| && data[idx] == NL
    ensures var src' := AfterNewline(data, idx, rest);
            && (src' == [] ==> EndsInTopNewline([Text(data)] + rest))
            && (src' != [] ==> (EndsInTopNewline(src') <==> EndsInTopNewline([Text(data)] + rest)))
  {
  }

  /** A text node at the front, cut at its first newline. */
  lemma TakesText(data: string, idx: nat, rest: seq<Node>, dst: seq<Node>, chain: seq<string>)
    requires idx < |data| && data[idx] == NL && forall k :: 0 <= k < idx ==> data[k] != NL
    ensures var dst' := if idx > 0 then dst + [Text(data[..idx])] else dst;
            Takes([Text(data)] + rest, dst, AfterNewline(data, idx, rest), dst', chain, true,
                  Spell(data[..idx], chain), [(NL, chain)])
  {
    hide Glyphs, NodeGlyphs, EndsInTopNewline, AfterNewline;
    GlyphsCons(Text(data), rest, chain);
    GlyphsSnoc(dst, Text(data[..idx]), chain);
    NodeGlyphsOf("", [], data, chain);
    NodeGlyphsOf("", [], data[..idx], chain);
    SpellAround(data, idx, chain);
    AfterNewlineGlyphs(data, idx, rest, chain);
    Associate(Spell(data[..idx], chain) + [(NL, chain)], Spell(data[idx + 1..], chain), Glyphs(rest, chain));
    AfterNewlineEnd(data, idx, rest);
  }

  lemma ElementEnd(tag: string, children: seq<Node>, inner: seq<Node>, rest: seq<Node>)
    ensures EndsInTopNewline([Element(tag, inner)] + rest) <==> EndsInTopNewline([Element(tag, children)] + rest)
  {
  }

  /** An element at the front, whose children gave up a line. */
  lemma TakesElement(tag: string, children: seq<Node>, inner: seq<Node>, clone: seq<Node>, rest: seq<Node>,
                     dst: seq<Node>, chain: seq<string>, taken: seq<Glyph>, newline: seq<Glyph>)
    requires Takes(children, [], inner, clone, chain + [tag], true, taken, newline)
    ensures Takes([Element(tag, children)] + rest, dst, [Element(tag, inner)] + rest, dst + [Element(tag, clone)],
                  chain, true, taken, newline)
  {
    hide Glyphs, NodeGlyphs, EndsInTopNewline;
    GlyphsCons(Element(tag, children), rest, chain);
    GlyphsCons(Element(tag, inner), rest, chain);
    GlyphsSnoc(dst, Element(tag, clone), chain);
    NodeGlyphsOf(tag, children, "", chain);
    NodeGlyphsOf(tag, inner, "", chain);
    NodeGlyphsOf(tag, clone, "", chain);
    NodeGlyphsOf(tag, [], "", chain + [tag]);
    Associate(taken + newline, Glyphs(inner, chain + [tag]), Glyphs(rest, chain));
    ElementEnd(tag, children, inner, rest);
  }

  /** Move nodes from `src` to `dst` up to the first newline, which is consumed. */
  method TakeLine(src: Parent, dst: Parent, ghost chain: seq<string>)
    returns (hit: bool, ghost taken: seq<Glyph>, ghost newline: seq<Glyph>)
    requires src != dst
    modifies src, dst
    ensures Takes(old(src.children), old(dst.children), src.children, dst.children, chain, hit, taken, newline)
    decreases src.children
  {
    hide Takes, Moved, Glyphs, NodeGlyphs;
    ghost var nodes, dst0 := src.children, dst.children;
    ghost var k, moved := 0, [];
    NothingMoved(nodes, dst0, chain);
    while src.children != []
      invariant 0 <= k <= |nodes| && src.children == nodes[k..]
      invariant Moved(nodes, k, dst0, dst.children, chain, moved)
      decreases |nodes| - k
    {
      var node := src.children[0];
      assert node == nodes[k];
      ghost var rest, dst1 := nodes[k + 1..], dst.children;
      assert src.children == [node] + rest && src.children[1..] == rest;
      match node {
        case Text(data) =>
          var idx := IndexOf(data, NL);
          if idx < |data| {
            if idx > 0 { dst.children := dst.children + [Text(data[..idx])]; }
            src.children := (if data[idx + 1..] == [] then [] else [Text(data[idx + 1..])]) + src.children[1..];
            assert src.children == AfterNewline(data, idx, rest);
            TakesText(data, idx, rest, dst1, chain);
            taken, newline := Spell(data[..idx], chain), [(NL, chain)];
            TakesAfterMoved(nodes, k, dst0, dst1, chain, moved, src.children, dst.children, taken, newline);
            return true, moved + taken, newline;
          }
          WholeText(data, chain);
          MovedOneMore(nodes, k, dst0, dst1, chain, moved, node);
          dst.children := dst.children + [node];
          src.children := src.children[1..];
        case Other =>
          WholeOther(chain);
          MovedOneMore(nodes, k, dst0, dst1, chain, moved, node);
          dst.children := dst.children + [node];
          src.children := src.children[1..];
        case Element(tag, children) =>
          var inner := new Parent(children);
          var clone := new Parent([]);
          var innerHit;
          innerHit, taken, newline := TakeLine(inner, clone, chain + [tag]);
          dst.children := dst.children + [Element(tag, clone.children)];
          if innerHit {
            src.children := [Element(tag, inner.children)] + src.children[1..];
            TakesElement(tag, children, inner.children, clone.children, rest, dst1, chain, taken, newline);
            TakesAfterMoved(nodes, k, dst0, dst1, chain, moved, src.children, dst.children, taken, newline);
            return true, moved + taken, newline;
          }
          WholeElement(tag, children, inner.children, clone.children, chain, taken, newline);
          MovedOneMore(nodes, k, dst0, dst1, chain, moved, Element(tag, clone.children));
          src.children := src.children[1..];
      }
      moved := moved + NodeGlyphs(node, chain);
      k := k + 1;
    }
    AllMoved(nodes, dst0, dst.children, chain, moved);
    return false, moved, [];
  }

  lemma NothingMoved(nodes: seq<Node>, dst: seq<Node>, chain: seq<string>)
    ensures Moved(nodes, 0, dst, dst, chain, [])
  {
    assert nodes[0..] == nodes;
  }

  lemma AllMoved(nodes: seq<Node>, dst: seq<Node>, dst': seq<Node>, chain: seq<string>, moved: seq<Glyph>)
    requires Moved(nodes, |nodes|, dst, dst', chain, moved)
    ensures Takes(nodes, dst, [], dst', chain, false, moved, [])
  {
    assert nodes[|nodes|..] == [];
  }

  lemma WholeText(data: string, chain: seq<string>)
    requires NL !in data
    ensures NewlineFree(NodeGlyphs(Text(data), chain))
  {
    forall i | 0 <= i < |data| ensures data[i] != NL { assert data[i] in data; }
  }

  lemma WholeOther(chain: seq<string>)
    ensures NewlineFree(NodeGlyphs(Other, chain))
  {
  }

  lemma WholeElement(tag: string, children: seq<Node>, inner: seq<Node>, clone: seq<Node>, chain: seq<string>,
                     taken: seq<Glyph>, newline: seq<Glyph>)
    requires Takes(children, [], inner, clone, chain + [tag], false, taken, newline)
    ensures NodeGlyphs(Element(tag, clone), chain) == NodeGlyphs(Element(tag, children), chain) == taken
    ensures NewlineFree(NodeGlyphs(Element(tag, clone), chain))
  {
  }

  lemma SameEnd(nodes: seq<Node>, k: nat)
    requires k < |nodes|
    ensures EndsInTopNewline(nodes[k..]) <==> EndsInTopNewline(nodes)
  {
    assert nodes[k..][|nodes[k..]| - 1] == nodes[|nodes| - 1];
  }

  // ---------------------------------------------------------------- rows

  /** Position of the first newline, or the length. */
  function FirstNewline(gs: seq<Glyph>): (i: nat)
    ensures i <= |gs| && (i < |gs| ==> gs[i].0 == NL) && forall k :: 0 <= k < i ==> gs[k].0 != NL
  {
    if gs == [] then 0 else if gs[0].0 == NL then 0 else 1 + FirstNewline(gs[1..])
  }

  /** The lines of a text, newlines removed, every other character and its elements kept. */
  function SplitLines(gs: seq<Glyph>): (lines: seq<seq<Glyph>>)
    ensures lines != []
    decreases |gs|
  {
    var i := FirstNewline(gs);
    if i == |gs| then [gs] else [gs[..i]] + SplitLines(gs[i + 1..])
  }

  datatype Row = Row(number: nat, content: seq<Node>)

  function RowGlyphs(rows: seq<Row>): (r: seq<seq<Glyph>>)
    ensures |r| == |rows|
  {
    if rows == [] then [] else RowGlyphs(rows[..|rows| - 1]) + [Glyphs(rows[|rows| - 1].content, [])]
  }

  lemma SplitLinesStep(taken: seq<Glyph>, newline: seq<Glyph>, rest: seq<Glyph>)
    requires NewlineFree(taken) && |newline| == 1 && newline[0].0 == NL
    ensures SplitLines(taken + newline + rest) == [taken] + SplitLines(rest)
  {
    var gs := taken + newline + rest;
    assert gs[|taken|] == newline[0];
    assert forall k :: 0 <= k < |taken| ==> gs[k] == taken[k];
    assert FirstNewline(gs) == |taken|;
    assert gs[..|taken|] == taken && gs[|taken| + 1..] == rest;
  }

  lemma SplitLinesLast(taken: seq<Glyph>)
    requires NewlineFree(taken)
    ensures SplitLines(taken) == [taken]
  {
    assert FirstNewline(taken) == |taken|;
  }

  lemma DroppedLast(done: seq<seq<Glyph>>)
    ensures var lines := done + SplitLines(Glyphs([], []));
            lines != [] && lines[..|lines| - 1] == done
  {
    SplitLinesLast(Glyphs([], []));
  }

  lemma NewRow(rows: seq<Row>, row: Row, taken: seq<Glyph>)
    requires Glyphs(row.content, []) == Glyphs([], []) + taken
    ensures RowGlyphs(rows + [row]) == RowGlyphs(rows) + [taken]
  {
    assert (rows + [row])[..|rows|] == rows;
    assert Glyphs(row.content, []) == taken;
  }

  /** Split a blob into numbered rows. They are exactly its lines, every character under the same
      elements as before, except that a final empty line is dropped when the blob's last child is
      a text node ending in a newline. A blob without text is left alone. */
  method Split(code: seq<Node>) returns (rows: seq<Row>)
    ensures forall i :: 0 <= i < |rows| ==> rows[i].number == i + 1
    ensures Glyphs(code, []) == [] ==> rows == []
    ensures Glyphs(code, []) != [] ==>
              var lines := SplitLines(Glyphs(code, []));
              RowGlyphs(rows) == if EndsInTopNewline(code) then lines[..|lines| - 1] else lines
  {
    hide SplitLines, EndsInTopNewline, Glyphs;
    rows := [];
    if Glyphs(code, []) == [] { return; }
    var src := new Parent(code);
    var n := 1;
    ghost var done: seq<seq<Glyph>> := [];
    while true
      invariant fresh(src) && n == |rows| + 1
      invariant forall i :: 0 <= i < |rows| ==> rows[i].number == i + 1
      invariant RowGlyphs(rows) == done
      invariant SplitLines(Glyphs(code, [])) == done + SplitLines(Glyphs(src.children, []))
      invariant EndsInTopNewline(src.children) <==> EndsInTopNewline(code)
      decreases |Glyphs(src.children, [])|
    {
      var current := new Parent([]);
      ghost var before := src.children;
      var hit, taken, newline := TakeLine(src, current, []);
      NewRow(rows, Row(n, current.children), taken);
      rows := rows + [Row(n, current.children)];
      if !hit {
        LastRow(before, taken);
        return;
      }
      SplitLinesStep(taken, newline, Glyphs(src.children, []));
      Associate(done, [taken], SplitLines(Glyphs(src.children, [])));
      done := done + [taken];
      if src.children == [] {
        DroppedLast(done);
        return;
      }
      n := n + 1;
    }
  }

  /** Without another newline the rest is one line, and it does not end in one. */
  lemma LastRow(nodes: seq<Node>, taken: seq<Glyph>)
    requires NewlineFree(taken) && Glyphs(nodes, []) == taken + [] + Glyphs([], [])
    ensures SplitLines(Glyphs(nodes, [])) == [taken] && !EndsInTopNewline(nodes)
  {
    assert Glyphs(nodes, []) == taken;
    EndHasNewline(nodes);
    SplitLinesLast(taken);
  }

  lemma EndHasNewline(nodes: seq<Node>)
    ensures EndsInTopNewline(nodes) ==> !NewlineFree(Glyphs(nodes, []))
  {
    if EndsInTopNewline(nodes) {
      var init, last := nodes[..|nodes| - 1], nodes[|nodes| - 1];
      assert nodes == init + [last];
      GlyphsSnoc(init, last, []);
      var gs := Glyphs(nodes, []);
      assert gs[|gs| - 1].0 == NL;
    }
  }

  // ---------------------------------------------------------------- text

  function TextOf(gs: seq<Glyph>): (s: string)
    ensures |s| == |gs| && forall i :: 0 <= i < |gs| ==> s[i] == gs[i].0
  {
    seq(|gs|, i requires 0 <= i < |gs| => gs[i].0)
  }

  /** Row texts joined by newlines. */
  function Join(lines: seq<seq<Glyph>>): string {
    if lines == [] then []
    else if |lines| == 1 then TextOf(lines[0])
    else TextOf(lines[0]) + [NL] + Join(lines[1..])
  }

  lemma JoinCons(line: seq<Glyph>, lines: seq<seq<Glyph>>)
    requires lines != []
    ensures Join([line] + lines) == TextOf(line) + [NL] + Join(lines)
  {
    assert ([line] + lines)[1..] == lines;
  }

  lemma {:induction false} JoinUndoesSplit(gs: seq<Glyph>)
    ensures Join(SplitLines(gs)) == TextOf(gs)
    decreases |gs|
  {
    hide TextOf;
    var i := FirstNewline(gs);
    if i < |gs| {
      hide Join;
      JoinCons(gs[..i], SplitLines(gs[i + 1..]));
      JoinUndoesSplit(gs[i + 1..]);
      TextAround(gs, i);
    }
  }

  lemma TextAround(gs: seq<Glyph>, i: nat)
    requires i < |gs|
    ensures TextOf(gs) == TextOf(gs[..i]) + [gs[i].0] + TextOf(gs[i + 1..])
  {
  }

  lemma {:induction false} JoinWithoutLast(lines: seq<seq<Glyph>>)
    requires |lines| > 1 && lines[|lines| - 1] == []
    ensures Join(lines) == Join(lines[..|lines| - 1]) + [NL]
  {
    var init := lines[..|lines| - 1];
    if |lines| > 2 {
      JoinWithoutLast(lines[1..]);
      assert lines[1..][..|lines| - 2] == init[1..];
      assert Join(init) == TextOf(lines[0]) + [NL] + Join(init[1..]);
    } else {
      assert lines[1..] == [lines[1]];
      assert TextOf([]) == [];
    }
  }

  /** A text ending in a newline has an empty last line. */
  lemma {:induction false} LastLineEmpty(gs: seq<Glyph>)
    requires gs != [] && gs[|gs| - 1].0 == NL
    ensures |SplitLines(gs)| > 1 && SplitLines(gs)[|SplitLines(gs)| - 1] == []
    decreases |gs|
  {
    var i := FirstNewline(gs);
    if i + 1 < |gs| { LastLineEmpty(gs[i + 1..]); }
  }

  lemma EndsInNewline(code: seq<Node>)
    requires EndsInTopNewline(code)
    ensures var gs := Glyphs(code, []);
            gs != [] && gs[|gs| - 1].0 == NL
  {
    var init, last := code[..|code| - 1], code[|code| - 1];
    assert code == init + [last];
    GlyphsSnoc(init, last, []);
  }

  /** Rows joined by newlines give back the blob's text, short of one final newline exactly when
      the blob's last child is a text node that ends in one. */
  lemma RowsJoinToText(code: seq<Node>, rows: seq<seq<Glyph>>)
    requires Glyphs(code, []) != []
    requires var lines := SplitLines(Glyphs(code, []));
             rows == if EndsInTopNewline(code) then lines[..|lines| - 1] else lines
    ensures TextOf(Glyphs(code, [])) == Join(rows) + if EndsInTopNewline(code) then [NL] else []
  {
    var gs := Glyphs(code, []);
    JoinUndoesSplit(gs);
    if EndsInTopNewline(code) {
      EndsInNewline(code);
      LastLineEmpty(gs);
      JoinWithoutLast(SplitLines(gs));
    }
  }

  /** The comment in the source promises no trailing row for a blob ending in a newline. When the
      newline is inside an element the row is there: this blob has two rows, the last one empty. */
  lemma TrailingRowAppears() returns (code: seq<Node>)
    ensures TextOf(Glyphs(code, [])) == "a\n" && !EndsInTopNewline(code)
    ensures |SplitLines(Glyphs(code, []))| == 2 && SplitLines(Glyphs(code, []))[1] == []
  {
    code := [Element("span", [Text("a\n")])];
    GlyphsOne(code[0], []);
    GlyphsOne(Text("a\n"), ["span"]);
    var gs := Glyphs(code, []);
    assert [] + ["span"] == ["span"];
    assert gs == Spell("a\n", ["span"]);
    SplitLinesStep([gs[0]], [gs[1]], []);
    assert gs == [gs[0]] + [gs[1]] + [];
    SplitLinesLast([]);
  }
}
