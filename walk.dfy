/**
 * The walk over the element tree of a markdown cell (ipnb2tex.py:1024-1253): `processHTMLTree`
 * dispatches on the tag of each top-level element, `processParagraph` on the inline elements of
 * a paragraph, and `processList` on the items of a list; links add citations to the bibliography.
 *
 * The functions state what each call writes and how it leaves the bibliography accumulators
 * (`Bibs`); the methods do the same work on a `BibState` object, as the source does on its module
 * globals, and are proved to agree with the functions.
 */
module Walk {
  import opened Wrappers
  import opened Text
  import Escape
  import opened Metadata
  import opened Bib
  import opened Tree
  import TableLatex
  import Underscore

  /** What a call has written so far, and the accumulators after it. */
  datatype Step = Step(text: string, bibs: Bibs)

  /** `'\\textit{' + None` raises this. */
  const ConcatNone: string := "can only concatenate str (not \"NoneType\") to str"

  /** `None + childtail` raises this. */
  const AddNone: string := "unsupported operand type(s) for +: 'NoneType' and 'str'"

  /** An image centred at 0.9 of the text width, inside the protect markers. */
  function Image(src: string): string {
    "\\begin{center}\n" + Underscore.ProtectStart + "\\includegraphics[width=0.9\\textwidth]{" + src + "}\n"
    + Underscore.ProtectEnd + "\\end{center}"
  }

  /** `tmp + cmd{text}tail`, or `TypeError` when the element has no text. */
  function Styled(cmd: string, c: Node, tmp: string): (r: Result<string>)
    ensures r.Ok? <==> c.text.Some?
    ensures r.Ok? ==> r.value == tmp + cmd + "{" + c.text.value + "}" + OrEmpty(c.tail)
  {
    if c.text.None? then Err(TypeError(ConcatNone)) else Ok(tmp + cmd + "{" + c.text.value + "}" + OrEmpty(c.tail))
  }

  /** The inline tags `processParagraph` knows. */
  predicate InlineTag(tag: string) {
    tag in {"em", "i", "b", "p", "br", "code", "strong", "font", "a", "ul", "ol", "pre", "img"}
  }

  // ---------------------------------------------------------------- paragraphs and lists

  /**
   * One child `c` of a paragraph, written after `tmp`.  A nested `p` is given the text so far as
   * its own start, as the source passes `tmp` on.
   */
  function ParagraphChild(c: Node, tmp: string, b: Bibs, addUrl: bool): (r: Result<Step>)
    ensures !InlineTag(c.tag) ==> r == Err(ValueError("need to learn to process this:"))
    decreases c, 3
  {
    var tail := OrEmpty(c.tail);
    if c.tag == "em" || c.tag == "i" then
      var t :- Styled("\\textit", c, tmp); Ok(Step(t, b))
    else if c.tag == "b" then
      var t :- Styled("\\textbf", c, tmp); Ok(Step(t, b))
    else if c.tag == "p" then
      var inner :- Paragraph(c, tmp, b, addUrl);
      Ok(Step(tmp + Strip(inner.text) + "\n\n" + tail, inner.bibs))
    else if c.tag == "br" then
      Ok(Step(tmp + "\n\n" + tail, b))
    else if c.tag == "code" then
      var v :- Escape.ProcessVerbatim(c.text, c.tail); Ok(Step(tmp + v, b))
    else if c.tag == "strong" then
      var t :- Styled("\\textbf", c, tmp); Ok(Step(t, b))
    else if c.tag == "font" then
      if c.text.None? then Err(TypeError(AddNone)) else Ok(Step(tmp + c.text.value + tail, b))
    else if c.tag == "a" then
      if "href" in c.attrs then
        var cite := Cite(b, c.attrs["href"], c.text, tail, addUrl);
        Ok(Step(tmp + cite.0, cite.1))
      else Ok(Step(tmp, b))
    else if c.tag == "ul" || c.tag == "ol" then
      var l :- List(c, b, addUrl);
      Ok(Step(tmp + l.text + tail, l.bibs))
    else if c.tag == "pre" then
      var inner :- Paragraph(c, "", b, addUrl);
      Ok(Step(tmp + "\n\\begin{verbatim}\n" + Strip(inner.text) + "\\end{verbatim}\n\n", inner.bibs))
    else if c.tag == "img" then
      if "src" in c.attrs then Ok(Step(tmp + Image(c.attrs["src"]), b)) else Err(KeyError("src"))
    else Err(ValueError("need to learn to process this:"))
  }

  /** The children of `n` from the `i`-th on, written after `tmp`. */
  function ParagraphFrom(n: Node, i: nat, tmp: string, b: Bibs, addUrl: bool): Result<Step>
    requires i <= |n.children|
    decreases n, 1, |n.children| - i
  {
    if i == |n.children| then Ok(Step(tmp, b))
    else
      var s :- ParagraphChild(n.children[i], tmp, b, addUrl);
      ParagraphFrom(n, i + 1, s.text, s.bibs, addUrl)
  }

  /**
   * `processParagraph(pnode, tmp)` (ipnb2tex.py:1153-1253): the element's text, its children and
   * its tail after `tmp`, stripped and ended by a blank line.
   */
  function Paragraph(n: Node, tmp: string, b: Bibs, addUrl: bool): Result<Step>
    decreases n, 2
  {
    var start := if n.text.Some? && n.text.value != "" then tmp + n.text.value else tmp;
    var s :- ParagraphFrom(n, 0, start, b, addUrl);
    var all := if n.tail.Some? && n.tail.value != "" then s.text + n.tail.value else s.text;
    Ok(Step(Strip(all) + "\n\n", s.bibs))
  }

  /** One child of a list: an item, a nested list, or something ignored. */
  function ListChild(c: Node, tmp: string, b: Bibs, addUrl: bool): Result<Step>
    decreases c, 3
  {
    if c.tag == "li" then
      var p :- Paragraph(c, "", b, addUrl);
      Ok(Step(tmp + "\\item " + Strip(p.text) + "\n", p.bibs))
    else if c.tag == "ul" || c.tag == "ol" then
      var l :- List(c, b, addUrl);
      Ok(Step(tmp + Strip(l.text) + "\n", l.bibs))
    else Ok(Step(tmp, b))
  }

  function ListFrom(n: Node, i: nat, tmp: string, b: Bibs, addUrl: bool): Result<Step>
    requires i <= |n.children|
    decreases n, 1, |n.children| - i
  {
    if i == |n.children| then Ok(Step(tmp, b))
    else
      var s :- ListChild(n.children[i], tmp, b, addUrl);
      ListFrom(n, i + 1, s.text, s.bibs, addUrl)
  }

  /** The environment of a list element. */
  function ListEnv(tag: string): string {
    if tag == "ul" then "itemize" else "enumerate"
  }

  /**
   * `processList(lnode)` (ipnb2tex.py:1130-1149): the items inside an `itemize` (for `ul`) or
   * `enumerate` (for `ol`) environment, stripped and ended by a newline.
   */
  function List(n: Node, b: Bibs, addUrl: bool): Result<Step>
    decreases n, 2
  {
    var isList := n.tag == "ul" || n.tag == "ol";
    var s :- ListFrom(n, 0, ListHead(n), b, addUrl);
    var all := if isList then s.text + "\\end{" + ListEnv(n.tag) + "}\n" else s.text;
    Ok(Step(Strip(all) + "\n", s.bibs))
  }

  // ---------------------------------------------------------------- the top level

  /** The state of the top-level loop: the text so far, the accumulators and `table_index`. */
  datatype Walked = Walked(text: string, bibs: Bibs, tableIndex: nat)

  /**
   * The heading level a top-level element is written at, 0 for none: `h1` to `h6`, or every
   * element of a heading cell of that level, the lowest level tested first.
   */
  function HeadingLevel(tag: string, heading: Option<int>): (r: nat)
    ensures r <= 6
    ensures r == 0 <==> tag !in {"h1", "h2", "h3", "h4", "h5", "h6"}
                        && (heading.None? || heading.value < 1 || heading.value > 6)
  {
    if tag == "h1" || heading == Some(1) then 1
    else if tag == "h2" || heading == Some(2) then 2
    else if tag == "h3" || heading == Some(3) then 3
    else if tag == "h4" || heading == Some(4) then 4
    else if tag == "h5" || heading == Some(5) then 5
    else if tag == "h6" || heading == Some(6) then 6
    else 0
  }

  /** The tags the top-level loop knows. */
  predicate BlockTag(tag: string) {
    tag in {"p", "pre", "ul", "ol", "blockquote", "table", "div", "iframe", "br", "img"}
  }

  /** The top-level tags whose content is walked by `processParagraph` or `processList`. */
  predicate IsNested(tag: string) {
    tag in {"p", "pre", "ul", "ol", "blockquote"}
  }

  /** What a paragraph, list or quotation adds at the top level (ipnb2tex.py:1052-1061). */
  function Nested(c: Node, b: Bibs, addUrl: bool): Result<Step> {
    if c.tag == "ul" || c.tag == "ol" then
      var l :- List(c, b, addUrl);
      Ok(Step(l.text + "\n", l.bibs))
    else
      var p :- Paragraph(c, "", b, addUrl);
      if c.tag == "blockquote" then Ok(Step("\n\\begin{quote}\n" + Strip(p.text) + "\\end{quote}\n\n", p.bibs))
      else Ok(Step(p.text + "\n", p.bibs))
  }

  /** A `table` element read and rendered as the `table_index`-th table of the cell (ipnb2tex.py:1063-1065). */
  function TableBlock(c: Node, meta: CellMetadata, tableIndex: nat, evalList: string -> seq<string>): Result<string> {
    var t :- TableOf(c);
    TableLatex.TablesFrom([t], 0, meta, tableIndex, evalList, "")
  }

  /**
   * The top-level elements that leave the bibliography alone (ipnb2tex.py:1063-1086): the text
   * after them, and `table_index`, which a table advances whether or not it is written out.
   */
  function Leaf(c: Node, text: string, tableIndex: nat, meta: CellMetadata, evalList: string -> seq<string>)
    : Result<(string, nat)>
  {
    if c.tag == "table" then
      var s :- TableBlock(c, meta, tableIndex, evalList);
      Ok((text + s, tableIndex + 1))
    else if c.tag == "div" || c.tag == "iframe" then Ok((text, tableIndex))
    else if c.tag == "br" then Ok((text + "\\newline", tableIndex))
    else if c.tag == "img" then
      if "src" in c.attrs then Ok((text + Image(c.attrs["src"]), tableIndex)) else Err(KeyError("src"))
    else Err(ValueError("Unable to process tag of type "))
  }

  /** One top-level element (ipnb2tex.py:1032-1086). */
  function Block(c: Node, w: Walked, heading: Option<int>, meta: CellMetadata, evalList: string -> seq<string>,
                 addUrl: bool): (r: Result<Walked>)
    ensures HeadingLevel(c.tag, heading) == 0 && !BlockTag(c.tag) ==> r == Err(ValueError("Unable to process tag of type "))
    ensures r.Ok? && !IsNested(c.tag) ==> r.value.bibs == w.bibs
  {
    var level := HeadingLevel(c.tag, heading);
    if level > 0 then
      Ok(w.(text := w.text + Escape.ProcessHeading(Escape.HeadingCommand(level), TextContent(c))))
    else if IsNested(c.tag) then
      var s :- Nested(c, w.bibs, addUrl);
      Ok(w.(text := w.text + s.text, bibs := s.bibs))
    else
      var l :- Leaf(c, w.text, w.tableIndex, meta, evalList);
      Ok(w.(text := l.0, tableIndex := l.1))
  }

  /** One pass of the top-level loop, with the cell's settings fixed. */
  type BlockStep = (Node, Walked) -> Result<Walked>

  function Blocks(heading: Option<int>, meta: CellMetadata, evalList: string -> seq<string>, addUrl: bool): BlockStep {
    (c: Node, w: Walked) => Block(c, w, heading, meta, evalList, addUrl)
  }

  /** The top-level loop from element `i` on: each element in turn, stopping at the first error. */
  function TreeFrom(cs: seq<Node>, i: nat, w: Walked, step: BlockStep): Result<Walked>
    requires i <= |cs|
    decreases |cs| - i
  {
    if i == |cs| then Ok(w)
    else
      var next :- step(cs[i], w);
      TreeFrom(cs, i + 1, next, step)
  }

  /**
   * `processHTMLTree` (ipnb2tex.py:1024-1117) on the top-level elements `cs`: every element in
   * turn, then the percent step and the underscore step over the whole text.
   */
  function HtmlTree(cs: seq<Node>, b: Bibs, heading: Option<int>, meta: CellMetadata,
                    evalList: string -> seq<string>, addUrl: bool): Result<Step>
  {
    var w :- TreeFrom(cs, 0, Walked("", b, 0), Blocks(heading, meta, evalList, addUrl));
    Ok(Step(Underscore.UnderscoreEscaped(Escape.EscapePercent(w.text)), w.bibs))
  }

  // ---------------------------------------------------------------- the walk on the bibliography object

  /** A method's outcome agrees with its function: the same error, or the same text and accumulators. */
  predicate Agrees(r: Result<string>, after: Bibs, spec: Result<Step>) {
    if spec.Err? then r == Err(spec.error) else r == Ok(spec.value.text) && after == spec.value.bibs
  }

  method ParagraphChildInto(bib: BibState, c: Node, tmp: string, addUrl: bool) returns (r: Result<string>)
    modifies bib
    decreases c, 3
    ensures Agrees(r, bib.Snapshot(), ParagraphChild(c, tmp, old(bib.Snapshot()), addUrl))
  {
    var tail := OrEmpty(c.tail);
    if c.tag == "em" || c.tag == "i" {
      r := Styled("\\textit", c, tmp);
    } else if c.tag == "b" {
      r := Styled("\\textbf", c, tmp);
    } else if c.tag == "p" {
      var inner := ProcessParagraph(bib, c, tmp, addUrl);
      if inner.Err? {
        return Err(inner.error);
      }
      r := Ok(tmp + Strip(inner.value) + "\n\n" + tail);
    } else if c.tag == "br" {
      r := Ok(tmp + "\n\n" + tail);
    } else if c.tag == "code" {
      var v := Escape.ProcessVerbatim(c.text, c.tail);
      if v.Err? {
        return Err(v.error);
      }
      r := Ok(tmp + v.value);
    } else if c.tag == "strong" {
      r := Styled("\\textbf", c, tmp);
    } else if c.tag == "font" {
      if c.text.None? {
        return Err(TypeError(AddNone));
      }
      r := Ok(tmp + c.text.value + tail);
    } else if c.tag == "a" {
      if "href" in c.attrs {
        var out := bib.CiteLink(c.attrs["href"], c.text, tail, addUrl);
        r := Ok(tmp + out);
      } else {
        r := Ok(tmp);
      }
    } else if c.tag == "ul" || c.tag == "ol" {
      var l := ProcessList(bib, c, addUrl);
      if l.Err? {
        return Err(l.error);
      }
      r := Ok(tmp + l.value + tail);
    } else if c.tag == "pre" {
      var inner := ProcessParagraph(bib, c, "", addUrl);
      if inner.Err? {
        return Err(inner.error);
      }
      r := Ok(tmp + "\n\\begin{verbatim}\n" + Strip(inner.value) + "\\end{verbatim}\n\n");
    } else if c.tag == "img" {
      if "src" !in c.attrs {
        return Err(KeyError("src"));
      }
      r := Ok(tmp + Image(c.attrs["src"]));
    } else {
      r := Err(ValueError("need to learn to process this:"));
    }
  }

  /** `processParagraph` (ipnb2tex.py:1153-1253) on the bibliography object. */
  method ProcessParagraph(bib: BibState, n: Node, tmp: string, addUrl: bool) returns (r: Result<string>)
    modifies bib
    decreases n, 2
    ensures Agrees(r, bib.Snapshot(), Paragraph(n, tmp, old(bib.Snapshot()), addUrl))
  {
    var out := tmp;
    if n.text.Some? && n.text.value != "" {
      out := out + n.text.value;
    }
    ghost var start := out;
    ghost var b0 := bib.Snapshot();
    for i := 0 to |n.children|
      invariant ParagraphFrom(n, 0, start, b0, addUrl) == ParagraphFrom(n, i, out, bib.Snapshot(), addUrl)
    {
      var s := ParagraphChildInto(bib, n.children[i], out, addUrl);
      if s.Err? {
        return Err(s.error);
      }
      out := s.value;
    }
    if n.tail.Some? && n.tail.value != "" {
      out := out + n.tail.value;
    }
    return Ok(Strip(out) + "\n\n");
  }

  method ListChildInto(bib: BibState, c: Node, tmp: string, addUrl: bool) returns (r: Result<string>)
    modifies bib
    decreases c, 3
    ensures Agrees(r, bib.Snapshot(), ListChild(c, tmp, old(bib.Snapshot()), addUrl))
  {
    if c.tag == "li" {
      var p := ProcessParagraph(bib, c, "", addUrl);
      if p.Err? {
        return Err(p.error);
      }
      r := Ok(tmp + "\\item " + Strip(p.value) + "\n");
    } else if c.tag == "ul" || c.tag == "ol" {
      var l := ProcessList(bib, c, addUrl);
      if l.Err? {
        return Err(l.error);
      }
      r := Ok(tmp + Strip(l.value) + "\n");
    } else {
      r := Ok(tmp);
    }
  }

  /** `processList` (ipnb2tex.py:1130-1149) on the bibliography object. */
  method ProcessList(bib: BibState, n: Node, addUrl: bool) returns (r: Result<string>)
    modifies bib
    decreases n, 2
    ensures Agrees(r, bib.Snapshot(), List(n, old(bib.Snapshot()), addUrl))
  {
    var isList := n.tag == "ul" || n.tag == "ol";
    var out := ListHead(n);
    ghost var b0 := bib.Snapshot();
    for i := 0 to |n.children|
      invariant ListFrom(n, 0, ListHead(n), b0, addUrl) == ListFrom(n, i, out, bib.Snapshot(), addUrl)
    {
      var s := ListChildInto(bib, n.children[i], out, addUrl);
      if s.Err? {
        ListFails(n, b0, addUrl);
        return Err(s.error);
      }
      out := s.value;
    }
    ListCloses(n, b0, addUrl, out, bib.Snapshot());
    if isList {
      out := out + "\\end{" + ListEnv(n.tag) + "}\n";
    }
    return Ok(Strip(out) + "\n");
  }

  /** The text a list starts with: the opening of its environment, or nothing for a bare container. */
  function ListHead(n: Node): (r: string)
    ensures r != "" <==> n.tag == "ul" || n.tag == "ol"
  {
    if n.tag == "ul" || n.tag == "ol" then "\n\\begin{" + ListEnv(n.tag) + "}\n" else ""
  }

  /** A list fails with the first error among its items. */
  lemma ListFails(n: Node, b: Bibs, addUrl: bool)
    requires ListFrom(n, 0, ListHead(n), b, addUrl).Err?
    ensures List(n, b, addUrl) == Err(ListFrom(n, 0, ListHead(n), b, addUrl).error)
  {
  }

  /** A list whose items all convert is their text, closed, stripped and ended by a newline. */
  lemma ListCloses(n: Node, b: Bibs, addUrl: bool, out: string, after: Bibs)
    requires ListFrom(n, 0, ListHead(n), b, addUrl) == Ok(Step(out, after))
    ensures var all := if n.tag == "ul" || n.tag == "ol" then out + "\\end{" + ListEnv(n.tag) + "}\n" else out;
            List(n, b, addUrl) == Ok(Step(Strip(all) + "\n", after))
  {
  }

  method NestedInto(bib: BibState, c: Node, addUrl: bool) returns (r: Result<string>)
    modifies bib
    ensures Agrees(r, bib.Snapshot(), Nested(c, old(bib.Snapshot()), addUrl))
  {
    if c.tag == "ul" || c.tag == "ol" {
      var l := ProcessList(bib, c, addUrl);
      if l.Err? {
        return Err(l.error);
      }
      return Ok(l.value + "\n");
    }
    var p := ProcessParagraph(bib, c, "", addUrl);
    if p.Err? {
      return Err(p.error);
    }
    if c.tag == "blockquote" {
      return Ok("\n\\begin{quote}\n" + Strip(p.value) + "\\end{quote}\n\n");
    }
    return Ok(p.value + "\n");
  }

  method TableBlockOf(c: Node, meta: CellMetadata, tableIndex: nat, evalList: string -> seq<string>)
    returns (r: Result<string>)
    ensures r == TableBlock(c, meta, tableIndex, evalList)
  {
    var t := TableOf(c);
    if t.Err? {
      return Err(t.error);
    }
    r := TableLatex.ConvertHtmlTable([t.value], meta, tableIndex, evalList);
  }

  method LeafOf(c: Node, text: string, tableIndex: nat, meta: CellMetadata, evalList: string -> seq<string>)
    returns (r: Result<(string, nat)>)
    ensures r == Leaf(c, text, tableIndex, meta, evalList)
  {
    if c.tag == "table" {
      var s := TableBlockOf(c, meta, tableIndex, evalList);
      if s.Err? {
        return Err(s.error);
      }
      return Ok((text + s.value, tableIndex + 1));
    } else if c.tag == "div" || c.tag == "iframe" {
      return Ok((text, tableIndex));
    } else if c.tag == "br" {
      return Ok((text + "\\newline", tableIndex));
    } else if c.tag == "img" {
      if "src" !in c.attrs {
        return Err(KeyError("src"));
      }
      return Ok((text + Image(c.attrs["src"]), tableIndex));
    } else {
      return Err(ValueError("Unable to process tag of type "));
    }
  }

  /** One pass of the top-level loop of `processHTMLTree`: the text and the next `table_index`. */
  method BlockInto(bib: BibState, c: Node, text: string, tableIndex: nat, heading: Option<int>, meta: CellMetadata,
                   evalList: string -> seq<string>, addUrl: bool)
    returns (r: Result<(string, nat)>)
    modifies bib
    ensures var spec := Block(c, Walked(text, old(bib.Snapshot()), tableIndex), heading, meta, evalList, addUrl);
            if spec.Err? then r == Err(spec.error)
            else r == Ok((spec.value.text, spec.value.tableIndex)) && bib.Snapshot() == spec.value.bibs
  {
    var level := HeadingLevel(c.tag, heading);
    if level > 0 {
      return Ok((text + Escape.ProcessHeading(Escape.HeadingCommand(level), TextContent(c)), tableIndex));
    } else if IsNested(c.tag) {
      var s := NestedInto(bib, c, addUrl);
      if s.Err? {
        return Err(s.error);
      }
      return Ok((text + s.value, tableIndex));
    } else {
      r := LeafOf(c, text, tableIndex, meta, evalList);
    }
  }

  /** `processHTMLTree` (ipnb2tex.py:1024-1117) on the bibliography object. */
  method ProcessHTMLTree(bib: BibState, cs: seq<Node>, heading: Option<int>, meta: CellMetadata,
                         evalList: string -> seq<string>, addUrl: bool)
    returns (r: Result<string>)
    modifies bib
    ensures Agrees(r, bib.Snapshot(), HtmlTree(cs, old(bib.Snapshot()), heading, meta, evalList, addUrl))
  {
    var tmp := "";
    var tableIndex := 0;
    ghost var w0 := Walked("", bib.Snapshot(), 0);
    ghost var step := Blocks(heading, meta, evalList, addUrl);
    for i := 0 to |cs|
      invariant TreeFrom(cs, 0, w0, step) == TreeFrom(cs, i, Walked(tmp, bib.Snapshot(), tableIndex), step)
    {
      var next := BlockInto(bib, cs[i], tmp, tableIndex, heading, meta, evalList, addUrl);
      if next.Err? {
        return Err(next.error);
      }
      tmp, tableIndex := next.value.0, next.value.1;
    }
    tmp := Escape.EscapePercent(tmp);
    tmp := Underscore.EscapeUnderscores(tmp);
    return Ok(tmp);
  }

  // ---------------------------------------------------------------- properties of the walk

  /**
   * The bibliography accumulators only grow: entries are appended after the existing ones, the
   * counter of shortened labels never goes back, and a URL seen before keeps its label.
   */
  predicate Grows(b: Bibs, after: Bibs) {
    && b.list <= after.list
    && b.index <= after.index
    && (forall k :: k in b.xref ==> k in after.xref && after.xref[k] == b.xref[k])
  }

  lemma GrowsTrans(b1: Bibs, b2: Bibs, b3: Bibs)
    requires Grows(b1, b2) && Grows(b2, b3)
    ensures Grows(b1, b3)
  {
  }

  lemma {:induction false} ParagraphChildGrows(c: Node, tmp: string, b: Bibs, addUrl: bool)
    requires ParagraphChild(c, tmp, b, addUrl).Ok?
    ensures Grows(b, ParagraphChild(c, tmp, b, addUrl).value.bibs)
    decreases c, 3
  {
    if c.tag == "p" {
      ParagraphGrows(c, tmp, b, addUrl);
    } else if c.tag == "ul" || c.tag == "ol" {
      ListGrows(c, b, addUrl);
    } else if c.tag == "pre" {
      ParagraphGrows(c, "", b, addUrl);
    }
  }

  lemma {:induction false} ParagraphFromGrows(n: Node, i: nat, tmp: string, b: Bibs, addUrl: bool)
    requires i <= |n.children| && ParagraphFrom(n, i, tmp, b, addUrl).Ok?
    ensures Grows(b, ParagraphFrom(n, i, tmp, b, addUrl).value.bibs)
    decreases n, 1, |n.children| - i
  {
    if i < |n.children| {
      var s := ParagraphChild(n.children[i], tmp, b, addUrl).value;
      ParagraphChildGrows(n.children[i], tmp, b, addUrl);
      ParagraphFromGrows(n, i + 1, s.text, s.bibs, addUrl);
      GrowsTrans(b, s.bibs, ParagraphFrom(n, i, tmp, b, addUrl).value.bibs);
    }
  }

  /** A paragraph only appends to the bibliography and keeps every label already given out. */
  lemma {:induction false} ParagraphGrows(n: Node, tmp: string, b: Bibs, addUrl: bool)
    requires Paragraph(n, tmp, b, addUrl).Ok?
    ensures Grows(b, Paragraph(n, tmp, b, addUrl).value.bibs)
    decreases n, 2
  {
    var start := if n.text.Some? && n.text.value != "" then tmp + n.text.value else tmp;
    ParagraphFromGrows(n, 0, start, b, addUrl);
  }

  lemma {:induction false} ListChildGrows(c: Node, tmp: string, b: Bibs, addUrl: bool)
    requires ListChild(c, tmp, b, addUrl).Ok?
    ensures Grows(b, ListChild(c, tmp, b, addUrl).value.bibs)
    decreases c, 3
  {
    if c.tag == "li" {
      ParagraphGrows(c, "", b, addUrl);
    } else if c.tag == "ul" || c.tag == "ol" {
      ListGrows(c, b, addUrl);
    }
  }

  lemma {:induction false} ListFromGrows(n: Node, i: nat, tmp: string, b: Bibs, addUrl: bool)
    requires i <= |n.children| && ListFrom(n, i, tmp, b, addUrl).Ok?
    ensures Grows(b, ListFrom(n, i, tmp, b, addUrl).value.bibs)
    decreases n, 1, |n.children| - i
  {
    if i < |n.children| {
      var s := ListChild(n.children[i], tmp, b, addUrl).value;
      ListChildGrows(n.children[i], tmp, b, addUrl);
      ListFromGrows(n, i + 1, s.text, s.bibs, addUrl);
      GrowsTrans(b, s.bibs, ListFrom(n, i, tmp, b, addUrl).value.bibs);
    }
  }

  /** A list only appends to the bibliography and keeps every label already given out. */
  lemma {:induction false} ListGrows(n: Node, b: Bibs, addUrl: bool)
    requires List(n, b, addUrl).Ok?
    ensures Grows(b, List(n, b, addUrl).value.bibs)
    decreases n, 2
  {
    var isList := n.tag == "ul" || n.tag == "ol";
    var head := if isList then "\n\\begin{" + ListEnv(n.tag) + "}\n" else "";
    ListFromGrows(n, 0, head, b, addUrl);
  }

  /** A step that only appends to the bibliography. */
  ghost predicate StepGrows(step: BlockStep) {
    forall c: Node, w: Walked :: step(c, w).Ok? ==> Grows(w.bibs, step(c, w).value.bibs)
  }

  /** One top-level element only appends to the bibliography and keeps every label given out. */
  lemma BlocksGrow(heading: Option<int>, meta: CellMetadata, evalList: string -> seq<string>, addUrl: bool)
    ensures StepGrows(Blocks(heading, meta, evalList, addUrl))
  {
    forall c: Node, w: Walked | Block(c, w, heading, meta, evalList, addUrl).Ok?
      ensures Grows(w.bibs, Block(c, w, heading, meta, evalList, addUrl).value.bibs)
    {
      if HeadingLevel(c.tag, heading) == 0 && IsNested(c.tag) {
        if c.tag == "ul" || c.tag == "ol" {
          ListGrows(c, w.bibs, addUrl);
        } else {
          ParagraphGrows(c, "", w.bibs, addUrl);
        }
      }
    }
  }

  lemma {:induction false} TreeFromGrows(cs: seq<Node>, i: nat, w: Walked, step: BlockStep)
    requires i <= |cs| && StepGrows(step) && TreeFrom(cs, i, w, step).Ok?
    ensures Grows(w.bibs, TreeFrom(cs, i, w, step).value.bibs)
    decreases |cs| - i
  {
    if i < |cs| {
      var next := step(cs[i], w).value;
      TreeFromGrows(cs, i + 1, next, step);
      GrowsTrans(w.bibs, next.bibs, TreeFrom(cs, i, w, step).value.bibs);
    }
  }

  /** Converting a cell's markup only appends to the bibliography and keeps every label already given out. */
  lemma HtmlTreeGrows(cs: seq<Node>, b: Bibs, heading: Option<int>, meta: CellMetadata,
                      evalList: string -> seq<string>, addUrl: bool)
    requires HtmlTree(cs, b, heading, meta, evalList, addUrl).Ok?
    ensures Grows(b, HtmlTree(cs, b, heading, meta, evalList, addUrl).value.bibs)
  {
    BlocksGrow(heading, meta, evalList, addUrl);
    TreeFromGrows(cs, 0, Walked("", b, 0), Blocks(heading, meta, evalList, addUrl));
  }

  /** The number of top-level `table` elements that are not written as headings. */
  function TableCount(cs: seq<Node>, heading: Option<int>): nat {
    if cs == [] then 0 else IsTable(cs[0], heading) + TableCount(cs[1..], heading)
  }

  /** Whether an element counts as a table: a `table` element not written as a heading. */
  function IsTable(c: Node, heading: Option<int>): nat {
    if c.tag == "table" && HeadingLevel(c.tag, heading) == 0 then 1 else 0
  }

  /** A step that moves `table_index` on by one for a table and leaves it alone otherwise. */
  ghost predicate StepCountsTables(step: BlockStep, heading: Option<int>) {
    forall c: Node, w: Walked :: step(c, w).Ok? ==> step(c, w).value.tableIndex == w.tableIndex + IsTable(c, heading)
  }

  /** Every table moves `table_index` on, even one that is skipped for having no columns. */
  lemma BlocksCountTables(heading: Option<int>, meta: CellMetadata, evalList: string -> seq<string>, addUrl: bool)
    ensures StepCountsTables(Blocks(heading, meta, evalList, addUrl), heading)
  {
  }

  /** `table_index` counts the tables: after the loop it is the number of tables among the elements walked. */
  lemma {:induction false} TreeFromTables(cs: seq<Node>, i: nat, w: Walked, step: BlockStep, heading: Option<int>)
    requires i <= |cs| && StepCountsTables(step, heading) && TreeFrom(cs, i, w, step).Ok?
    ensures TreeFrom(cs, i, w, step).value.tableIndex == w.tableIndex + TableCount(cs[i..], heading)
    decreases |cs| - i
  {
    if i < |cs| {
      var next := step(cs[i], w).value;
      TreeFromTables(cs, i + 1, next, step, heading);
      assert cs[i..][1..] == cs[i + 1..];
    }
  }

  /** After the cell's top-level loop, `table_index` is the number of its tables. */
  lemma HtmlTreeTables(cs: seq<Node>, b: Bibs, heading: Option<int>, meta: CellMetadata,
                       evalList: string -> seq<string>, addUrl: bool)
    requires TreeFrom(cs, 0, Walked("", b, 0), Blocks(heading, meta, evalList, addUrl)).Ok?
    ensures TreeFrom(cs, 0, Walked("", b, 0), Blocks(heading, meta, evalList, addUrl)).value.tableIndex
            == TableCount(cs, heading)
  {
    BlocksCountTables(heading, meta, evalList, addUrl);
    TreeFromTables(cs, 0, Walked("", b, 0), Blocks(heading, meta, evalList, addUrl), heading);
    assert cs[0..] == cs;
  }

  /** A paragraph that converts has only inline elements the converter knows as children. */
  lemma {:induction false} ParagraphFromTags(n: Node, i: nat, tmp: string, b: Bibs, addUrl: bool)
    requires i <= |n.children| && ParagraphFrom(n, i, tmp, b, addUrl).Ok?
    ensures forall k :: i <= k < |n.children| ==> InlineTag(n.children[k].tag)
    decreases |n.children| - i
  {
    if i < |n.children| {
      var s := ParagraphChild(n.children[i], tmp, b, addUrl).value;
      ParagraphFromTags(n, i + 1, s.text, s.bibs, addUrl);
    }
  }

  lemma ParagraphTags(n: Node, tmp: string, b: Bibs, addUrl: bool)
    requires Paragraph(n, tmp, b, addUrl).Ok?
    ensures forall k :: 0 <= k < |n.children| ==> InlineTag(n.children[k].tag)
  {
    var start := if n.text.Some? && n.text.value != "" then tmp + n.text.value else tmp;
    ParagraphFromTags(n, 0, start, b, addUrl);
  }

  /** A step that fails on every element that is neither a heading nor a known top-level element. */
  ghost predicate StepKnown(step: BlockStep, heading: Option<int>) {
    forall c: Node, w: Walked :: step(c, w).Ok? ==> HeadingLevel(c.tag, heading) > 0 || BlockTag(c.tag)
  }

  /** An unknown top-level element stops the cell with a ValueError. */
  lemma BlocksKnown(heading: Option<int>, meta: CellMetadata, evalList: string -> seq<string>, addUrl: bool)
    ensures StepKnown(Blocks(heading, meta, evalList, addUrl), heading)
  {
  }

  /** A walk that succeeds has met only headings and top-level elements its step knows. */
  lemma {:induction false} TreeFromTags(cs: seq<Node>, i: nat, w: Walked, step: BlockStep, heading: Option<int>)
    requires i <= |cs| && StepKnown(step, heading) && TreeFrom(cs, i, w, step).Ok?
    ensures forall k :: i <= k < |cs| ==> HeadingLevel(cs[k].tag, heading) > 0 || BlockTag(cs[k].tag)
    decreases |cs| - i
  {
    if i < |cs| {
      var next := step(cs[i], w).value;
      TreeFromTags(cs, i + 1, next, step, heading);
    }
  }

  /** A cell's markup that converts has only headings and top-level elements the converter knows. */
  lemma HtmlTreeTags(cs: seq<Node>, b: Bibs, heading: Option<int>, meta: CellMetadata,
                     evalList: string -> seq<string>, addUrl: bool)
    requires TreeFrom(cs, 0, Walked("", b, 0), Blocks(heading, meta, evalList, addUrl)).Ok?
    ensures forall k :: 0 <= k < |cs| ==> HeadingLevel(cs[k].tag, heading) > 0 || BlockTag(cs[k].tag)
  {
    BlocksKnown(heading, meta, evalList, addUrl);
    TreeFromTags(cs, 0, Walked("", b, 0), Blocks(heading, meta, evalList, addUrl), heading);
  }

  /** The text a nested `p` is handed is the paragraph's text so far, so that text is written twice. */
  lemma NestedParagraphRepeats(c: Node, tmp: string, b: Bibs, addUrl: bool)
    requires c.tag == "p" && c.children == [] && c.tail.None? && c.text.Some?
    ensures ParagraphChild(c, tmp, b, addUrl) == Ok(Step(tmp + Strip(tmp + c.text.value) + "\n\n", b))
  {
    var blank := "\n\n";
    assert IsSpace(blank[0]) && IsSpace(blank[1]);
    LeafParagraphChild(c, tmp, b, addUrl, blank);
  }

  /** A nested `p` without children or tail, written after `tmp`. */
  lemma LeafParagraphChild(c: Node, tmp: string, b: Bibs, addUrl: bool, blank: string)
    requires c.tag == "p" && c.children == [] && c.tail.None? && c.text.Some?
    requires blank == "\n\n" && forall i :: 0 <= i < |blank| ==> IsSpace(blank[i])
    ensures ParagraphChild(c, tmp, b, addUrl) == Ok(Step(tmp + Strip(tmp + c.text.value) + blank, b))
  {
    var u := tmp + c.text.value;
    LeafParagraph(c, tmp, b, addUrl);
    ParagraphChildP(c, tmp, b, addUrl);
    assert OrEmpty(c.tail) == "";
    AppendNothing(tmp + Strip(Strip(u) + blank) + blank);
    StripBlankLine(tmp, u, blank);
  }

  lemma AppendNothing(s: string)
    ensures s + "" == s
  {
  }

  /** Stripping again after white space is added gives the stripped text back. */
  lemma StripBlankLine(tmp: string, u: string, w: string)
    requires forall i :: 0 <= i < |w| ==> IsSpace(w[i])
    ensures tmp + Strip(Strip(u) + w) + w == tmp + Strip(u) + w
  {
    StripAppendSpace(u, w);
  }

  /** A nested `p` is its own paragraph, stripped and followed by a blank line and its tail. */
  lemma ParagraphChildP(c: Node, tmp: string, b: Bibs, addUrl: bool)
    requires c.tag == "p" && Paragraph(c, tmp, b, addUrl).Ok?
    ensures var inner := Paragraph(c, tmp, b, addUrl).value;
            ParagraphChild(c, tmp, b, addUrl) == Ok(Step(tmp + Strip(inner.text) + "\n\n" + OrEmpty(c.tail), inner.bibs))
  {
  }

  /** A paragraph without children or tail holds the text it is handed and its own text, stripped. */
  lemma LeafParagraph(c: Node, tmp: string, b: Bibs, addUrl: bool)
    requires c.children == [] && c.tail.None? && c.text.Some?
    ensures Paragraph(c, tmp, b, addUrl) == Ok(Step(Strip(tmp + c.text.value) + "\n\n", b))
  {
    var start := if c.text.value != "" then tmp + c.text.value else tmp;
    assert start == tmp + c.text.value;
    assert ParagraphFrom(c, 0, start, b, addUrl) == Ok(Step(start, b));
  }
}
