/**
 * The cell loop of `processOneIPynbFile` (ipnb2tex.py:1301-1358) and the converters it dispatches
 * to (ipnb2tex.py:908-928, 1258-1278): every cell is converted in turn, the default header goes
 * in front of the first cell unless that cell is raw, the protect markers are stripped from each
 * cell's text, and the chapter of floated listings and the bibliography directive close the
 * document.
 */
module Document {
  import opened Wrappers
  import opened Text
  import opened Metadata
  import opened Bib
  import opened Tree
  import opened Listing
  import Walk
  import Markdown
  import Underscore

  /**
   * What the handler of one output writes: a text of its own (a listing of a stream or an error,
   * an image, LaTeX), or an HTML fragment, already parsed, that goes through `processHTMLTree`
   * with the cell (ipnb2tex.py:549-551, 665-666, 781-782) and so can add to the bibliography.
   */
  datatype Body = Rendered(text: string) | Html(nodes: seq<Node>)

  /** One output of a code cell: its `output_type`, and what its handler writes. */
  datatype Output = Output(outputType: string, body: Body)

  /**
   * A notebook cell: its `cell_type`, its `source` (absent when the cell has none), its metadata,
   * the `level` of a heading cell, and the outputs of a code cell.
   */
  datatype Cell = Cell(cellType: string, source: Option<string>, meta: CellMetadata, level: Option<int>,
                       outputs: seq<Output>)

  /**
   * The run's settings: the header text put in front of the document, inline or floated
   * listings, `\url` around cited links, the BibTeX style, and the name of the `.tex` file.
   */
  datatype Options = Options(header: string, inline: bool, addUrl: bool, bibStyle: string, outfile: string)

  /** What converting a cell gives: its text, its listing, and the bibliography after it. */
  datatype Converted = Converted(text: string, listing: string, bibs: Bibs)

  /** The cell types the dispatch table knows. */
  predicate KnownCell(cellType: string) {
    cellType == "code" || cellType == "markdown" || cellType == "heading" || cellType == "raw"
  }

  /** The output types the dispatch table of a code cell knows (ipnb2tex.py:1266-1278). */
  predicate KnownOutput(outputType: string) {
    Handled(outputType) || NotYet(outputType)
  }

  /** The output types whose handler writes something. */
  predicate Handled(outputType: string) {
    outputType == "stream" || outputType == "pyout" || outputType == "execute_result"
    || outputType == "display_data" || outputType == "pyerr" || outputType == "error"
  }

  /** The output types sent to `prepNotYet`, which always raises. */
  predicate NotYet(outputType: string) {
    outputType == "svg" || outputType == "png" || outputType == "text"
  }

  /**
   * What `prepNotYet` (ipnb2tex.py:708-711) raises: it loops over the cell's outputs and raises
   * on the first, so the message names the type of the cell's first output.
   */
  function NotYetError(outs: seq<Output>): Error
    requires |outs| > 0
  {
    NotImplementedError("Unable to process cell type " + outs[0].outputType)
  }

  // ---------------------------------------------------------------- code cells

  /**
   * The output loop of `convertCodeCell` (ipnb2tex.py:920-925) from the `i`-th output on, after
   * the text `w.text` and with the bibliography `w.bibs`.
   */
  function OutputsFrom(outs: seq<Output>, i: nat, w: Walk.Step, heading: Option<int>, meta: CellMetadata,
                       evalList: string -> seq<string>, addUrl: bool): Result<Walk.Step>
    requires i <= |outs|
    decreases |outs| - i
  {
    if i == |outs| then Ok(w)
    else if !KnownOutput(outs[i].outputType) then
      Err(NotImplementedError("Unknown output type " + outs[i].outputType + "."))
    else if NotYet(outs[i].outputType) then Err(NotYetError(outs))
    else
      var next :- OutputStep(outs[i], w, heading, meta, evalList, addUrl);
      OutputsFrom(outs, i + 1, next, heading, meta, evalList, addUrl)
  }

  /**
   * The handler call of one output (ipnb2tex.py:925) after the text `w.text`: its own text is
   * appended, or its HTML fragment is walked with the cell and the bibliography `w.bibs`.
   */
  function OutputStep(o: Output, w: Walk.Step, heading: Option<int>, meta: CellMetadata,
                      evalList: string -> seq<string>, addUrl: bool): (r: Result<Walk.Step>)
    ensures o.body.Rendered? ==> r == Ok(Walk.Step(w.text + o.body.text, w.bibs))
    ensures r.Ok? ==> w.text <= r.value.text
  {
    match o.body
    case Rendered(t) => Ok(Walk.Step(w.text + t, w.bibs))
    case Html(cs) =>
      var step :- Walk.HtmlTree(cs, w.bibs, heading, meta, evalList, addUrl);
      Ok(Walk.Step(w.text + step.text, step.bibs))
  }

  /** No output is an HTML fragment. */
  predicate AllRendered(outs: seq<Output>) {
    forall k :: 0 <= k < |outs| ==> outs[k].body.Rendered?
  }

  /** The texts of outputs that are not HTML fragments, one after the other. */
  function Joined(outs: seq<Output>): string
    requires AllRendered(outs)
  {
    if outs == [] then "" else outs[0].body.text + Joined(outs[1..])
  }

  /**
   * The outputs are written in order after the text so far, and each HTML fragment only adds to
   * the bibliography. An output of an unknown type, or of a type sent to `prepNotYet`, fails the
   * loop, the next one to be met with its own error; otherwise only an HTML fragment can. Without
   * HTML fragments, the text is the outputs' texts in order and the bibliography is left as it was.
   */
  lemma OutputsFromSpec(outs: seq<Output>, i: nat, w: Walk.Step, heading: Option<int>,
                        meta: CellMetadata, evalList: string -> seq<string>, addUrl: bool)
    requires i <= |outs|
    ensures var r := OutputsFrom(outs, i, w, heading, meta, evalList, addUrl);
      && ((exists k :: i <= k < |outs| && !Handled(outs[k].outputType)) ==> r.Err?)
      && (r.Err? ==> exists k :: i <= k < |outs| && (!Handled(outs[k].outputType) || outs[k].body.Html?))
      && (i < |outs| && !KnownOutput(outs[i].outputType) ==>
            r == Err(NotImplementedError("Unknown output type " + outs[i].outputType + ".")))
      && (i < |outs| && NotYet(outs[i].outputType) ==> r == Err(NotYetError(outs)))
      && (r.Ok? ==> w.text <= r.value.text && Walk.Grows(w.bibs, r.value.bibs))
      && (AllRendered(outs[i..]) && r.Ok? ==> r.value == Walk.Step(w.text + Joined(outs[i..]), w.bibs))
  {
    OutputsFromFails(outs, i, w, heading, meta, evalList, addUrl);
    OutputsFromGrows(outs, i, w, heading, meta, evalList, addUrl);
    OutputsFromJoined(outs, i, w, heading, meta, evalList, addUrl);
  }

  /** One output's handler only adds to the bibliography. */
  lemma OutputStepGrows(o: Output, w: Walk.Step, heading: Option<int>, meta: CellMetadata,
                        evalList: string -> seq<string>, addUrl: bool)
    requires OutputStep(o, w, heading, meta, evalList, addUrl).Ok?
    ensures Walk.Grows(w.bibs, OutputStep(o, w, heading, meta, evalList, addUrl).value.bibs)
  {
    if o.body.Html? {
      Walk.HtmlTreeGrows(o.body.nodes, w.bibs, heading, meta, evalList, addUrl);
    }
  }

  /** Which outputs can fail the loop. */
  lemma {:induction false} OutputsFromFails(outs: seq<Output>, i: nat, w: Walk.Step, heading: Option<int>,
                                            meta: CellMetadata, evalList: string -> seq<string>, addUrl: bool)
    requires i <= |outs|
    ensures var r := OutputsFrom(outs, i, w, heading, meta, evalList, addUrl);
      && ((exists k :: i <= k < |outs| && !Handled(outs[k].outputType)) ==> r.Err?)
      && (r.Err? ==> exists k :: i <= k < |outs| && (!Handled(outs[k].outputType) || outs[k].body.Html?))
    decreases |outs| - i
  {
    if i < |outs| && Handled(outs[i].outputType) {
      var next := OutputStep(outs[i], w, heading, meta, evalList, addUrl);
      if next.Ok? {
        OutputsFromFails(outs, i + 1, next.value, heading, meta, evalList, addUrl);
      }
    }
  }

  /** The text and the bibliography only grow along the loop. */
  lemma {:induction false} OutputsFromGrows(outs: seq<Output>, i: nat, w: Walk.Step, heading: Option<int>,
                                            meta: CellMetadata, evalList: string -> seq<string>, addUrl: bool)
    requires i <= |outs|
    ensures var r := OutputsFrom(outs, i, w, heading, meta, evalList, addUrl);
      r.Ok? ==> w.text <= r.value.text && Walk.Grows(w.bibs, r.value.bibs)
    decreases |outs| - i
  {
    var r := OutputsFrom(outs, i, w, heading, meta, evalList, addUrl);
    if i < |outs| && Handled(outs[i].outputType) {
      var next := OutputStep(outs[i], w, heading, meta, evalList, addUrl);
      if next.Ok? {
        OutputStepGrows(outs[i], w, heading, meta, evalList, addUrl);
        OutputsFromGrows(outs, i + 1, next.value, heading, meta, evalList, addUrl);
        if r.Ok? {
          Walk.GrowsTrans(w.bibs, next.value.bibs, r.value.bibs);
          PrefixTrans(w.text, next.value.text, r.value.text);
        }
      }
    }
  }

  /** Without HTML fragments, the loop appends the outputs' texts and leaves the bibliography alone. */
  lemma {:induction false} OutputsFromJoined(outs: seq<Output>, i: nat, w: Walk.Step, heading: Option<int>,
                                             meta: CellMetadata, evalList: string -> seq<string>, addUrl: bool)
    requires i <= |outs|
    ensures var r := OutputsFrom(outs, i, w, heading, meta, evalList, addUrl);
      AllRendered(outs[i..]) && r.Ok? ==> r.value == Walk.Step(w.text + Joined(outs[i..]), w.bibs)
    decreases |outs| - i
  {
    var r := OutputsFrom(outs, i, w, heading, meta, evalList, addUrl);
    if i < |outs| && Handled(outs[i].outputType) && AllRendered(outs[i..]) && r.Ok? {
      var rest := outs[i + 1..];
      assert outs[i..][1..] == rest;
      assert outs[i..][0] == outs[i];
      var t := outs[i].body.text;
      OutputsFromJoined(outs, i + 1, Walk.Step(w.text + t, w.bibs), heading, meta, evalList, addUrl);
      assert AllRendered(rest) by {
        forall k | 0 <= k < |rest| ensures rest[k].body.Rendered? {
          assert rest[k] == outs[i..][k + 1];
        }
      }
      Assoc(w.text, t, Joined(rest));
    }
  }

  /** The output loop on the text of the cell and the bibliography object. */
  method OutputsOf(bib: BibState, outs: seq<Output>, text: string, heading: Option<int>, meta: CellMetadata,
                   evalList: string -> seq<string>, addUrl: bool)
    returns (r: Result<string>)
    modifies bib
    ensures Walk.Agrees(r, bib.Snapshot(), OutputsFrom(outs, 0, Walk.Step(text, old(bib.Snapshot())), heading, meta,
                                                       evalList, addUrl))
  {
    ghost var spec := OutputsFrom(outs, 0, Walk.Step(text, bib.Snapshot()), heading, meta, evalList, addUrl);
    var acc := text;
    for i := 0 to |outs|
      invariant spec == OutputsFrom(outs, i, Walk.Step(acc, bib.Snapshot()), heading, meta, evalList, addUrl)
    {
      if !KnownOutput(outs[i].outputType) {
        return Err(NotImplementedError("Unknown output type " + outs[i].outputType + "."));
      }
      if NotYet(outs[i].outputType) {
        return Err(NotYetError(outs));
      }
      var s := OutputInto(bib, outs[i], acc, heading, meta, evalList, addUrl);
      if s.Err? {
        return Err(s.error);
      }
      acc := s.value;
    }
    return Ok(acc);
  }

  /** The handler call of one output on the bibliography object. */
  method OutputInto(bib: BibState, o: Output, acc: string, heading: Option<int>, meta: CellMetadata,
                    evalList: string -> seq<string>, addUrl: bool)
    returns (r: Result<string>)
    modifies bib
    ensures Walk.Agrees(r, bib.Snapshot(), OutputStep(o, Walk.Step(acc, old(bib.Snapshot())), heading, meta,
                                                      evalList, addUrl))
  {
    match o.body
    case Rendered(t) =>
      r := Ok(acc + t);
    case Html(cs) =>
      var s := Walk.ProcessHTMLTree(bib, cs, heading, meta, evalList, addUrl);
      if s.Err? {
        return Err(s.error);
      }
      r := Ok(acc + s.value);
  }

  // ---------------------------------------------------------------- one cell

  /** A heading cell's level reaches the walk; other cells have none. */
  function HeadingOf(cell: Cell): Option<int> {
    if cell.cellType == "heading" then cell.level else None
  }

  /** `convertCodeCell` (ipnb2tex.py:915-928): the listing, then the outputs after its text. */
  function CodeCell(b: Bibs, cell: Cell, index: nat, inline: bool, addUrl: bool,
                    evalList: string -> seq<string>): Result<Converted>
  {
    var pieces :- PrepInput(cell.source, cell.meta, index, inline, evalList);
    var out :- OutputsFrom(cell.outputs, 0, Walk.Step(pieces.text, Extract(b, cell.meta)), HeadingOf(cell), cell.meta,
                           evalList, addUrl);
    Ok(Converted(out.text, pieces.listing, out.bibs))
  }

  /** `convertMarkdownCell` (ipnb2tex.py:930-1020): the two passes, the translator, then the walk. */
  function MarkdownCell(b: Bibs, cell: Cell, addUrl: bool, markdown: string -> seq<Node>,
                        evalList: string -> seq<string>): Result<Converted>
  {
    if cell.source.None? then Err(KeyError("source"))
    else
      var step :- Walk.HtmlTree(markdown(Markdown.PrePass(cell.source.value)), Extract(b, cell.meta), HeadingOf(cell),
                                cell.meta, evalList, addUrl);
      Ok(Converted(step.text, "", step.bibs))
  }

  /**
   * `fnTableCell[cell.cell_type](cell, ...)`: `convertCodeCell`, `convertMarkdownCell` (also for
   * heading cells) or `convertRawCell`; each first merges the cell's bibliography metadata.
   */
  function ConvertCell(b: Bibs, cell: Cell, index: nat, opts: Options, markdown: string -> seq<Node>,
                       evalList: string -> seq<string>): (r: Result<Converted>)
    ensures !KnownCell(cell.cellType) ==> r == Err(NotImplementedError("Unknown cell type: >" + cell.cellType + "<."))
    ensures r.Ok? ==> KnownCell(cell.cellType)
    ensures r.Ok? && cell.cellType != "code" ==> r.value.listing == ""
    ensures r.Ok? && cell.cellType == "raw" ==> cell.source.Some? && r.value == Converted(cell.source.value, "", Extract(b, cell.meta))
  {
    if !KnownCell(cell.cellType) then Err(NotImplementedError("Unknown cell type: >" + cell.cellType + "<."))
    else if cell.cellType == "code" then CodeCell(b, cell, index, opts.inline, opts.addUrl, evalList)
    else if cell.cellType == "raw" then
      if cell.source.None? then Err(KeyError("source"))
      else Ok(Converted(cell.source.value, "", Extract(b, cell.meta)))
    else MarkdownCell(b, cell, opts.addUrl, markdown, evalList)
  }

  /** A method's outcome on one cell agrees with `ConvertCell`. */
  predicate CellAgrees(r: Result<Pieces>, after: Bibs, spec: Result<Converted>) {
    if spec.Err? then r == Err(spec.error)
    else r == Ok(Pieces(spec.value.text, spec.value.listing)) && after == spec.value.bibs
  }

  /** `convertCodeCell` on the bibliography object. */
  method ConvertCodeCell(bib: BibState, cell: Cell, index: nat, inline: bool, addUrl: bool,
                         evalList: string -> seq<string>)
    returns (r: Result<Pieces>)
    modifies bib
    ensures CellAgrees(r, bib.Snapshot(), CodeCell(old(bib.Snapshot()), cell, index, inline, addUrl, evalList))
  {
    bib.ExtractBibtexXref(cell.meta);
    var pieces := PrepInput(cell.source, cell.meta, index, inline, evalList);
    if pieces.Err? {
      return Err(pieces.error);
    }
    var text := OutputsOf(bib, cell.outputs, pieces.value.text, HeadingOf(cell), cell.meta, evalList, addUrl);
    if text.Err? {
      return Err(text.error);
    }
    return Ok(Pieces(text.value, pieces.value.listing));
  }

  /** `convertMarkdownCell` on the bibliography object. */
  method MarkdownCellInto(bib: BibState, cell: Cell, addUrl: bool, markdown: string -> seq<Node>,
                          evalList: string -> seq<string>)
    returns (r: Result<Pieces>)
    modifies bib
    ensures CellAgrees(r, bib.Snapshot(), MarkdownCell(old(bib.Snapshot()), cell, addUrl, markdown, evalList))
  {
    if cell.source.None? {
      bib.ExtractBibtexXref(cell.meta);
      return Err(KeyError("source"));
    }
    var text := Markdown.ConvertMarkdownCell(bib, cell.source.value, cell.meta, HeadingOf(cell), markdown,
                                             evalList, addUrl);
    if text.Err? {
      return Err(text.error);
    }
    r := Ok(Pieces(text.value, ""));
  }

  /** The dispatch on the cell type, on the bibliography object. */
  method ConvertCellInto(bib: BibState, cell: Cell, index: nat, opts: Options, markdown: string -> seq<Node>,
                         evalList: string -> seq<string>)
    returns (r: Result<Pieces>)
    modifies bib
    ensures CellAgrees(r, bib.Snapshot(), ConvertCell(old(bib.Snapshot()), cell, index, opts, markdown, evalList))
  {
    if !KnownCell(cell.cellType) {
      r := Err(NotImplementedError("Unknown cell type: >" + cell.cellType + "<."));
    } else if cell.cellType == "code" {
      r := ConvertCodeCell(bib, cell, index, opts.inline, opts.addUrl, evalList);
    } else if cell.cellType == "raw" {
      bib.ExtractBibtexXref(cell.meta);
      if cell.source.None? {
        return Err(KeyError("source"));
      }
      r := Ok(Pieces(cell.source.value, ""));
    } else {
      r := MarkdownCellInto(bib, cell, opts.addUrl, markdown, evalList);
    }
  }

  // ---------------------------------------------------------------- the document

  /** The heading of the chapter that collects floated listings. */
  const ListingsChapter: string := "\n\n\\chapter{Listings}\n\n"

  /** The closing line of the document. */
  const EndDocument: string := "\\end{document}\n\n"

  /** `re.sub` of both protect markers by nothing (the markers hold no pattern characters). */
  function StripMarkers(s: string): string {
    ReplaceAll(ReplaceAll(s, Underscore.ProtectStart, ""), Underscore.ProtectEnd, "")
  }

  /** The text, the chapter of listings, and the bibliography as the loop builds them. */
  datatype Acc = Acc(output: string, listings: string, bibs: Bibs)

  /** The header in front of cell `i`: only the first cell, and only when its type does not hold `raw`. */
  function HeaderAt(cells: seq<Cell>, i: nat, header: string): string
    requires i < |cells|
  {
    if i == 0 && !Contains(cells[0].cellType, "raw") then header else ""
  }

  /** A cell converter: the bibliography so far, the cell and its index to the cell's outcome. */
  type Converter = (Bibs, Cell, nat) -> Result<Converted>

  /** The dispatch of `processOneIPynbFile` with the run's settings fixed. */
  function Dispatch(opts: Options, markdown: string -> seq<Node>, evalList: string -> seq<string>): Converter {
    (b: Bibs, cell: Cell, index: nat) => ConvertCell(b, cell, index, opts, markdown, evalList)
  }

  /** The cell loop (ipnb2tex.py:1333-1348) from the `i`-th cell on. */
  function CellsFrom(cells: seq<Cell>, i: nat, acc: Acc, header: string, convert: Converter): Result<Acc>
    requires i <= |cells|
    decreases |cells| - i
  {
    if i == |cells| then Ok(acc)
    else
      var head := HeaderAt(cells, i, header);
      var c :- convert(acc.bibs, cells[i], i);
      CellsFrom(cells, i + 1, Acc(acc.output + head + StripMarkers(c.text), acc.listings + c.listing, c.bibs),
                header, convert)
  }

  /** `\bibliographystyle` and `\bibliography`, written only when there is an entry. */
  function BibDirective(b: Bibs, opts: Options): (r: string)
    ensures r == "" <==> b.list == []
  {
    if |b.list| > 0 then
      "\n\n\\bibliographystyle{" + opts.bibStyle + "}\n"
      + "\\bibliography{" + ReplaceAll(ReplaceAll(opts.outfile, ".tex", ".bib"), ".bib", "") + "}\n\n"
    else ""
  }

  /** The listings, the bibliography directive and the closing line after the cells (ipnb2tex.py:1350-1358). */
  function Closing(acc: Acc, opts: Options): string {
    acc.output + (if |acc.listings| > 0 then acc.listings else "") + BibDirective(acc.bibs, opts) + EndDocument
  }

  /** The loop's starting point: a newline, and the chapter heading when listings are floated. */
  function Start(b: Bibs, opts: Options): Acc {
    Acc("\n", if opts.inline then "" else ListingsChapter, b)
  }

  /** The document text of a notebook, and the bibliography it leaves for the `.bib` file. */
  function Notebook(cells: seq<Cell>, b: Bibs, opts: Options, convert: Converter): Result<Walk.Step> {
    var acc :- CellsFrom(cells, 0, Start(b, opts), opts.header, convert);
    Ok(Walk.Step(Closing(acc, opts), acc.bibs))
  }

  /** The cell loop unfolded once. */
  lemma CellsUnfold(cells: seq<Cell>, i: nat, acc: Acc, header: string, convert: Converter)
    requires i < |cells|
    ensures var c := convert(acc.bibs, cells[i], i);
            CellsFrom(cells, i, acc, header, convert)
            == if c.Err? then Err(c.error)
               else CellsFrom(cells, i + 1, Acc(acc.output + HeaderAt(cells, i, header) + StripMarkers(c.value.text),
                                                acc.listings + c.value.listing, c.value.bibs), header, convert)
  {
  }

  /** One pass of the cell loop: the header when due, the cell's text without markers, its listing. */
  method CellStep(bib: BibState, cells: seq<Cell>, i: nat, output: string, listings: string, opts: Options,
                  markdown: string -> seq<Node>, evalList: string -> seq<string>)
    returns (r: Result<Pieces>)
    requires i < |cells|
    modifies bib
    ensures var before := CellsFrom(cells, i, Acc(output, listings, old(bib.Snapshot())), opts.header,
                                    Dispatch(opts, markdown, evalList));
            if r.Err? then before == Err(r.error)
            else before == CellsFrom(cells, i + 1, Acc(r.value.text, r.value.listing, bib.Snapshot()), opts.header,
                                     Dispatch(opts, markdown, evalList))
  {
    ghost var b0 := bib.Snapshot();
    var out := output;
    if i == 0 && !Contains(cells[i].cellType, "raw") {
      out := out + opts.header;
    }
    assert out == output + HeaderAt(cells, i, opts.header);
    var pieces := ConvertCellInto(bib, cells[i], i, opts, markdown, evalList);
    CellsUnfold(cells, i, Acc(output, listings, b0), opts.header, Dispatch(opts, markdown, evalList));
    if pieces.Err? {
      return Err(pieces.error);
    }
    var text := ReplaceAll(pieces.value.text, Underscore.ProtectStart, "");
    text := ReplaceAll(text, Underscore.ProtectEnd, "");
    return Ok(Pieces(out + text, listings + pieces.value.listing));
  }

  /** The loop has run past the last cell. */
  lemma CellsDone(cells: seq<Cell>, acc: Acc, header: string, convert: Converter)
    ensures CellsFrom(cells, |cells|, acc, header, convert) == Ok(acc)
  {
  }

  /** The end of the document after the cells (ipnb2tex.py:1350-1358). */
  method Finish(bib: BibState, output: string, listings: string, opts: Options) returns (text: string)
    ensures text == Closing(Acc(output, listings, bib.Snapshot()), opts)
  {
    text := output;
    if |listings| > 0 {
      text := text + listings;
    }
    if |bib.bibtexlist| > 0 {
      text := text + "\n\n\\bibliographystyle{" + opts.bibStyle + "}\n";
      var bibfile := ReplaceAll(opts.outfile, ".tex", ".bib");
      text := text + "\\bibliography{" + ReplaceAll(bibfile, ".bib", "") + "}\n\n";
    }
    text := text + EndDocument;
  }

  /** `processOneIPynbFile` from the parsed notebook to the document text, on the bibliography object. */
  method ProcessNotebook(bib: BibState, cells: seq<Cell>, opts: Options, markdown: string -> seq<Node>,
                         evalList: string -> seq<string>)
    returns (r: Result<string>)
    modifies bib
    ensures Walk.Agrees(r, bib.Snapshot(), Notebook(cells, old(bib.Snapshot()), opts, Dispatch(opts, markdown, evalList)))
  {
    var listings := if opts.inline then "" else ListingsChapter;
    var output := "\n";
    ghost var convert := Dispatch(opts, markdown, evalList);
    ghost var start := Start(bib.Snapshot(), opts);
    for i := 0 to |cells|
      invariant CellsFrom(cells, 0, start, opts.header, convert)
                == CellsFrom(cells, i, Acc(output, listings, bib.Snapshot()), opts.header, convert)
    {
      var next := CellStep(bib, cells, i, output, listings, opts, markdown, evalList);
      if next.Err? {
        return Err(next.error);
      }
      output, listings := next.value.text, next.value.listing;
    }
    CellsDone(cells, Acc(output, listings, bib.Snapshot()), opts.header, convert);
    var text := Finish(bib, output, listings, opts);
    return Ok(text);
  }

  // ---------------------------------------------------------------- properties of the document

  /**
   * Converting a code cell only adds bibliography entries after those already there: those of its
   * metadata, then those the links in its HTML outputs cite; without HTML outputs, only the former.
   */
  lemma CodeCellKeepsEntries(b: Bibs, cell: Cell, index: nat, inline: bool, addUrl: bool,
                              evalList: string -> seq<string>)
    requires CodeCell(b, cell, index, inline, addUrl, evalList).Ok?
    ensures b.list <= CodeCell(b, cell, index, inline, addUrl, evalList).value.bibs.list
    ensures Walk.Grows(Extract(b, cell.meta), CodeCell(b, cell, index, inline, addUrl, evalList).value.bibs)
    ensures AllRendered(cell.outputs) ==> CodeCell(b, cell, index, inline, addUrl, evalList).value.bibs == Extract(b, cell.meta)
  {
    var pieces := PrepInput(cell.source, cell.meta, index, inline, evalList).value;
    assert cell.outputs[0..] == cell.outputs;
    OutputsFromSpec(cell.outputs, 0, Walk.Step(pieces.text, Extract(b, cell.meta)), HeadingOf(cell), cell.meta,
                    evalList, addUrl);
  }

  /** Converting a markdown cell only adds bibliography entries after those already there. */
  lemma MarkdownCellKeepsEntries(b: Bibs, cell: Cell, addUrl: bool, markdown: string -> seq<Node>,
                                 evalList: string -> seq<string>)
    requires MarkdownCell(b, cell, addUrl, markdown, evalList).Ok?
    ensures b.list <= MarkdownCell(b, cell, addUrl, markdown, evalList).value.bibs.list
  {
    var cs := markdown(Markdown.PrePass(cell.source.value));
    Walk.HtmlTreeGrows(cs, Extract(b, cell.meta), HeadingOf(cell), cell.meta, evalList, addUrl);
  }

  /** Converting any cell only adds bibliography entries after those already there. */
  lemma ConvertCellKeepsEntries(b: Bibs, cell: Cell, index: nat, opts: Options, markdown: string -> seq<Node>,
                                evalList: string -> seq<string>)
    requires ConvertCell(b, cell, index, opts, markdown, evalList).Ok?
    ensures b.list <= ConvertCell(b, cell, index, opts, markdown, evalList).value.bibs.list
  {
    if cell.cellType == "code" {
      CodeCellKeepsEntries(b, cell, index, opts.inline, opts.addUrl, evalList);
    } else if cell.cellType != "raw" {
      MarkdownCellKeepsEntries(b, cell, opts.addUrl, markdown, evalList);
    }
  }

  /** A converter that keeps the entries found so far and accepts only the known cell types. */
  ghost predicate Appends(convert: Converter) {
    forall b, cell, index :: convert(b, cell, index).Ok? ==>
      b.list <= convert(b, cell, index).value.bibs.list && KnownCell(cell.cellType)
  }

  /** A converter that sets a raw cell's source as it is. */
  ghost predicate KeepsRaw(convert: Converter) {
    forall b, cell: Cell, index :: cell.cellType == "raw" && convert(b, cell, index).Ok? ==>
      cell.source.Some? && convert(b, cell, index).value.text == cell.source.value
  }

  /** The dispatch of `processOneIPynbFile` keeps the entries, refuses unknown cells and sets raw cells as they are. */
  lemma DispatchConverts(opts: Options, markdown: string -> seq<Node>, evalList: string -> seq<string>)
    ensures Appends(Dispatch(opts, markdown, evalList))
    ensures KeepsRaw(Dispatch(opts, markdown, evalList))
  {
    var convert := Dispatch(opts, markdown, evalList);
    forall b, cell, index | convert(b, cell, index).Ok?
      ensures b.list <= convert(b, cell, index).value.bibs.list && KnownCell(cell.cellType)
    {
      ConvertCellKeepsEntries(b, cell, index, opts, markdown, evalList);
    }
  }

  /**
   * The loop only appends: the text and the listings written so far stay in front, the
   * bibliography entries met so far stay in front, and every remaining cell has a known type.
   */
  lemma {:induction false} CellsGrow(cells: seq<Cell>, i: nat, acc: Acc, header: string, convert: Converter)
    requires i <= |cells| && Appends(convert)
    requires CellsFrom(cells, i, acc, header, convert).Ok?
    ensures var after := CellsFrom(cells, i, acc, header, convert).value;
            acc.output <= after.output && acc.listings <= after.listings && acc.bibs.list <= after.bibs.list
            && forall k :: i <= k < |cells| ==> KnownCell(cells[k].cellType)
    decreases |cells| - i
  {
    if i < |cells| {
      CellsUnfold(cells, i, acc, header, convert);
      var c := convert(acc.bibs, cells[i], i).value;
      var next := Acc(acc.output + HeaderAt(cells, i, header) + StripMarkers(c.text), acc.listings + c.listing, c.bibs);
      CellsGrow(cells, i + 1, next, header, convert);
      var after := CellsFrom(cells, i + 1, next, header, convert).value;
      PrefixTrans(acc.output, next.output, after.output);
      PrefixTrans(acc.listings, next.listings, after.listings);
      PrefixTrans(acc.bibs.list, next.bibs.list, after.bibs.list);
    }
  }

  lemma PrefixTrans<T>(a: seq<T>, b: seq<T>, c: seq<T>)
    requires a <= b && b <= c
    ensures a <= c
  {
    assert c[..|a|] == b[..|a|];
  }

  /**
   * A converted notebook opens with a newline and closes with the bibliography directive, which
   * is there exactly when an entry was collected, and `\end{document}`; the entries found before
   * are kept; and every cell was of a known type.
   */
  lemma DocumentFrame(cells: seq<Cell>, b: Bibs, opts: Options, convert: Converter)
    requires Appends(convert)
    requires Notebook(cells, b, opts, convert).Ok?
    ensures var doc := Notebook(cells, b, opts, convert).value;
            "\n" <= doc.text
            && (exists body :: doc.text == body + BibDirective(doc.bibs, opts) + EndDocument)
            && (BibDirective(doc.bibs, opts) == "" <==> doc.bibs.list == [])
            && b.list <= doc.bibs.list
            && forall k :: 0 <= k < |cells| ==> KnownCell(cells[k].cellType)
  {
    var start := Start(b, opts);
    var acc := CellsFrom(cells, 0, start, opts.header, convert).value;
    CellsGrow(cells, 0, start, opts.header, convert);
    var body := acc.output + (if |acc.listings| > 0 then acc.listings else "");
    assert Closing(acc, opts) == body + BibDirective(acc.bibs, opts) + EndDocument;
    PrefixTrans("\n", acc.output, Closing(acc, opts));
  }

  /** When the first cell's type does not hold `raw`, the document opens with the header. */
  lemma HeaderFirst(cells: seq<Cell>, b: Bibs, opts: Options, convert: Converter)
    requires Appends(convert)
    requires Notebook(cells, b, opts, convert).Ok?
    requires |cells| > 0 && !Contains(cells[0].cellType, "raw")
    ensures "\n" + opts.header <= Notebook(cells, b, opts, convert).value.text
  {
    var start := Start(b, opts);
    CellsUnfold(cells, 0, start, opts.header, convert);
    var c := convert(start.bibs, cells[0], 0).value;
    var next := Acc("\n" + opts.header + StripMarkers(c.text), start.listings + c.listing, c.bibs);
    CellsGrow(cells, 1, next, opts.header, convert);
    var acc := CellsFrom(cells, 1, next, opts.header, convert).value;
    PrefixTrans("\n" + opts.header, next.output, acc.output);
    PrefixTrans("\n" + opts.header, acc.output, Closing(acc, opts));
  }

  /** A raw first cell gets no header: the document opens with the cell's own text. */
  lemma RawFirstNoHeader(cells: seq<Cell>, b: Bibs, opts: Options, convert: Converter)
    requires Appends(convert) && KeepsRaw(convert)
    requires Notebook(cells, b, opts, convert).Ok?
    requires |cells| > 0 && cells[0].cellType == "raw"
    ensures cells[0].source.Some?
    ensures "\n" + StripMarkers(cells[0].source.value) <= Notebook(cells, b, opts, convert).value.text
  {
    var start := Start(b, opts);
    assert Contains(cells[0].cellType, "raw") by {
      assert MatchAt(cells[0].cellType, "raw", 0);
    }
    CellsUnfold(cells, 0, start, opts.header, convert);
    var c := convert(start.bibs, cells[0], 0).value;
    var next := Acc("\n" + "" + StripMarkers(c.text), start.listings + c.listing, c.bibs);
    assert "\n" + "" == "\n";
    CellsGrow(cells, 1, next, opts.header, convert);
    var acc := CellsFrom(cells, 1, next, opts.header, convert).value;
    PrefixTrans(next.output, acc.output, Closing(acc, opts));
  }

  // ---------------------------------------------------------------- the cells one by one

  /** The outcome of each cell from the `i`-th on, each converted with the bibliography the ones before it left. */
  function Outcomes(cells: seq<Cell>, i: nat, b: Bibs, convert: Converter): (r: Result<seq<Converted>>)
    requires i <= |cells|
    ensures r.Ok? ==> |r.value| == |cells| - i
    decreases |cells| - i
  {
    if i == |cells| then Ok([])
    else
      var c :- convert(b, cells[i], i);
      var rest :- Outcomes(cells, i + 1, c.bibs, convert);
      Ok([c] + rest)
  }

  /** The text the cells from the `i`-th on add: the header when due, then each cell's text without markers. */
  function TextsOf(cells: seq<Cell>, i: nat, outs: seq<Converted>, header: string): string
    requires i + |outs| == |cells|
    decreases |outs|
  {
    if outs == [] then ""
    else HeaderAt(cells, i, header) + StripMarkers(outs[0].text) + TextsOf(cells, i + 1, outs[1..], header)
  }

  /** The cells' listings, in cell order. */
  function ListingsOf(outs: seq<Converted>): string {
    if outs == [] then "" else outs[0].listing + ListingsOf(outs[1..])
  }

  /** The bibliography after the last cell, or `b` when there is none. */
  function LastBibs(b: Bibs, outs: seq<Converted>): Bibs {
    if outs == [] then b else outs[|outs| - 1].bibs
  }

  /**
   * The cell loop appends the cells' texts to the text and the cells' listings to the listings,
   * in cell order, and ends with the bibliography of the last cell; it fails with the first
   * cell that fails.
   */
  lemma {:induction false} CellsFromParts(cells: seq<Cell>, i: nat, acc: Acc, header: string, convert: Converter)
    requires i <= |cells|
    ensures var o := Outcomes(cells, i, acc.bibs, convert);
            CellsFrom(cells, i, acc, header, convert)
            == if o.Err? then Err(o.error)
               else Ok(Acc(acc.output + TextsOf(cells, i, o.value, header), acc.listings + ListingsOf(o.value),
                           LastBibs(acc.bibs, o.value)))
    decreases |cells| - i
  {
    if i < |cells| {
      CellsUnfold(cells, i, acc, header, convert);
      var c := convert(acc.bibs, cells[i], i);
      if c.Ok? {
        var cv := c.value;
        var next := Acc(acc.output + HeaderAt(cells, i, header) + StripMarkers(cv.text), acc.listings + cv.listing, cv.bibs);
        CellsFromParts(cells, i + 1, next, header, convert);
        OutcomesCons(cells, i, acc.bibs, convert, cv);
        var o := Outcomes(cells, i + 1, cv.bibs, convert);
        if o.Ok? {
          PartsCons(cells, i, acc, header, cv, o.value, next);
        }
      }
    } else {
      assert TextsOf(cells, i, [], header) == "" && ListingsOf([]) == "";
      assert acc.output + "" == acc.output && acc.listings + "" == acc.listings;
    }
  }

  /** `Outcomes` unfolded once, for a first cell that converts. */
  lemma OutcomesCons(cells: seq<Cell>, i: nat, b: Bibs, convert: Converter, cv: Converted)
    requires i < |cells| && convert(b, cells[i], i) == Ok(cv)
    ensures var o := Outcomes(cells, i + 1, cv.bibs, convert);
            Outcomes(cells, i, b, convert) == if o.Err? then Err(o.error) else Ok([cv] + o.value)
  {
  }

  /** One cell more in front: its text and its listing come first, and the last bibliography is unchanged. */
  lemma PartsCons(cells: seq<Cell>, i: nat, acc: Acc, header: string, cv: Converted, rest: seq<Converted>, next: Acc)
    requires i + 1 + |rest| == |cells|
    requires next == Acc(acc.output + HeaderAt(cells, i, header) + StripMarkers(cv.text), acc.listings + cv.listing, cv.bibs)
    ensures Acc(next.output + TextsOf(cells, i + 1, rest, header), next.listings + ListingsOf(rest), LastBibs(cv.bibs, rest))
            == Acc(acc.output + TextsOf(cells, i, [cv] + rest, header), acc.listings + ListingsOf([cv] + rest),
                   LastBibs(acc.bibs, [cv] + rest))
  {
    var outs := [cv] + rest;
    assert outs[1..] == rest;
    var head, own, texts := HeaderAt(cells, i, header), StripMarkers(cv.text), TextsOf(cells, i + 1, rest, header);
    assert TextsOf(cells, i, outs, header) == head + own + texts;
    Assoc(acc.output, head, own);
    Assoc(acc.output, head + own, texts);
    assert ListingsOf(outs) == cv.listing + ListingsOf(rest);
    Assoc(acc.listings, cv.listing, ListingsOf(rest));
    assert LastBibs(acc.bibs, outs) == LastBibs(cv.bibs, rest);
  }

  lemma Assoc(a: string, b: string, c: string)
    ensures (a + b) + c == a + (b + c)
  {
  }

  /**
   * With floated listings, the document is a newline, the cells' texts in order, the chapter of
   * listings holding the cells' listings in order, the bibliography directive and the closing
   * line; the bibliography is the one the last cell left.
   */
  lemma FloatedListingsAtEnd(cells: seq<Cell>, b: Bibs, opts: Options, convert: Converter)
    requires Notebook(cells, b, opts, convert).Ok?
    requires !opts.inline
    ensures Outcomes(cells, 0, b, convert).Ok?
    ensures var outs := Outcomes(cells, 0, b, convert).value;
            var doc := Notebook(cells, b, opts, convert).value;
            doc.text == "\n" + TextsOf(cells, 0, outs, opts.header) + ListingsChapter + ListingsOf(outs)
                        + BibDirective(doc.bibs, opts) + EndDocument
            && doc.bibs == LastBibs(b, outs)
  {
    var start := Start(b, opts);
    CellsFromParts(cells, 0, start, opts.header, convert);
    var outs := Outcomes(cells, 0, b, convert).value;
    var acc := CellsFrom(cells, 0, start, opts.header, convert).value;
    assert |acc.listings| > 0 by {
      assert acc.listings == ListingsChapter + ListingsOf(outs);
    }
  }

  /** Text without either protect marker is kept as it is. */
  lemma StripMarkersAbsent(s: string)
    requires !Contains(s, Underscore.ProtectStart) && !Contains(s, Underscore.ProtectEnd)
    ensures StripMarkers(s) == s
  {
    ReplaceAllAbsent(s, Underscore.ProtectStart, "");
    ReplaceAllAbsent(s, Underscore.ProtectEnd, "");
  }
}
