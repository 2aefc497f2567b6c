/**
 * `prepInput` (ipnb2tex.py:585-643): the source of a code cell set as an `lstlisting` block, either
 * in place (inline listings) or floated to the chapter of listings at the end of the document,
 * with a sentence in the text that points to it.
 */
module Listing {
  import opened Wrappers
  import opened Text
  import opened Metadata
  import Tree

  /** What a cell gives the document: its text, and its part of the chapter of listings. */
  datatype Pieces = Pieces(text: string, listing: string)

  /** The first line that marks a cell whose code is not to be listed. */
  const SuppressMark: string := "#-- suppress"

  /** The code a cell lists: its whole source, or for a suppressed cell only the comment on its second line. */
  datatype Listed =
    | Body(code: string)
    | Skipped   // a suppressed cell whose second line is not a comment
    | Unbound   // a suppressed cell of one line: nothing was ever assigned to the listing

  /** The choice of what to list (ipnb2tex.py:592-600). */
  function ListedCode(source: string): (r: Listed)
    ensures !(SuppressMark <= Split(source, '\n')[0]) ==> r == Body(source)
    ensures r == Unbound <==> SuppressMark <= source && '\n' !in source
  {
    var lines := Split(source, '\n');
    SplitOneLine(source);
    if SuppressMark <= lines[0] then
      if |lines| > 1 then
        if "#" <= lines[1] then Body(lines[1]) else Skipped
      else Unbound
    else Body(source)
  }

  /** A text splits into one line exactly when it holds no newline, and that line is the text. */
  lemma {:induction false} SplitOneLine(s: string)
    ensures |Split(s, '\n')| == 1 <==> '\n' !in s
    ensures '\n' !in s ==> Split(s, '\n') == [s]
  {
    if s != [] {
      SplitOneLine(s[1..]);
      if s[0] != '\n' {
        assert s == [s[0]] + s[1..];
        assert '\n' in s <==> '\n' in s[1..];
        if '\n' !in s[1..] {
          assert Split(s, '\n') == [[s[0]] + s[1..]];
        }
      } else {
        assert '\n' in s;
      }
    }
  }

  /**
   * The purpose a floated listing is given in the text (ipnb2tex.py:610-618): a first line
   * `#text`, longer than two characters and not `##...`, gives ` text`; a first line that is
   * not a comment gives nothing; an empty first line or any other comment gives no sentence.
   */
  function Purpose(code: string): (r: Option<string>)
    ensures r.Some? && r.value != "" ==> |code| > 2 && code[0] == '#' && code[1] != '#'
    ensures r == Some("") <==> |code| > 0 && code[0] != '#' && code[0] != '\n'
    ensures |code| == 0 ==> r.None?
    ensures |code| > 0 ==>
              var first := Split(code, '\n')[0];
              && (|first| > 2 && first[0] == '#' && first[1] != '#' ==> r == Some(" " + first[1..]))
              && (|first| > 0 && first[0] != '#' ==> r == Some(""))
              && (|first| == 0 || (first[0] == '#' && (|first| <= 2 || first[1] == '#')) ==> r.None?)
  {
    if |code| == 0 then None
    else
      var first := Split(code, '\n')[0];
      FirstLineStart(code);
      if |first| == 0 then None
      else if first[0] == '#' then
        if |first| > 2 && first[1] != '#' then Some(" " + first[1..]) else None
      else Some("")
  }

  /** The first line is a prefix of the text, and empty exactly when the text starts with a newline. */
  lemma {:induction false} FirstLineStart(s: string)
    ensures Split(s, '\n')[0] <= s
    ensures |s| > 0 ==> (|Split(s, '\n')[0]| == 0 <==> s[0] == '\n')
  {
    if s != [] && s[0] != '\n' {
      FirstLineStart(s[1..]);
    }
  }

  /** The label a floated listing gets when the cell names none. */
  function AutoLabel(index: nat): string {
    "lst:autolistingcell" + NatToString(index)
  }

  /** Different cells get different automatic labels. */
  lemma AutoLabelsDistinct(i: nat, j: nat)
    requires i != j
    ensures AutoLabel(i) != AutoLabel(j)
  {
    var prefix := "lst:autolistingcell";
    if AutoLabel(i) == AutoLabel(j) {
      assert NatToString(i) == AutoLabel(i)[|prefix|..];
      assert NatToString(j) == AutoLabel(j)[|prefix|..];
      Tree.ParseIntRoundTrip(i);
      Tree.ParseIntRoundTrip(j);
      assert false;
    }
  }

  /** The caption option with its label, `{caption \label{label}}`, or nothing without a caption. */
  function CaptionOption(caption: string, tag: string): (r: string)
    ensures r == "" <==> caption == ""
  {
    if caption == "" then "" else "{" + caption + " \\label{" + tag + "}" + "}"
  }

  /** The `lstlisting` block around the code (ipnb2tex.py:623-629). */
  function ListingBlock(caption: string, code: string): string {
    "\n\\begin{lstlisting}"
    + (if caption != "" then "[style=incellstyle,caption=" + caption + "]\n" else "[style=incellstyle]\n")
    + code + "\n" + "\\end{lstlisting}\n\n"
  }

  /** The sentence that points the text to a floated listing. */
  function Reference(tag: string, purpose: string): string {
    "\n\nSee Listing~\\ref{" + tag + "} for the code" + purpose + ".\n\n"
  }

  /**
   * `prepInput(cell, cell_index, inlinelistings)`.  `source` is absent when the cell has no
   * `source` key.  A suppressed cell whose second line is not a comment returns the string
   * `"\n\n"`, which the caller unpacks into two newlines.
   */
  function PrepInput(source: Option<string>, meta: CellMetadata, index: nat, inline: bool,
                     evalList: string -> seq<string>): (r: Result<Pieces>)
    ensures source.None? ==> r == Ok(Pieces("", ""))
    ensures r.Err? <==> source.Some? && ListedCode(source.value) == Unbound
    ensures r.Err? ==> r.error.NameError?
    ensures r.Ok? && source.Some? && ListedCode(source.value).Skipped? ==> r.value == Pieces("\n", "\n")
    ensures r.Ok? && inline && source.Some? && ListedCode(source.value).Body? ==> r.value.listing == ""
    ensures r.Ok? && !inline && source.Some? && ListedCode(source.value).Body? ==>
              r.value.listing != "" && (r.value.text == "" <==> Purpose(ListedCode(source.value).code).None?)
  {
    if source.None? then Ok(Pieces("", ""))
    else match ListedCode(source.value)
      case Skipped => Ok(Pieces("\n", "\n"))
      case Unbound => Err(NameError("local variable 'lsting' referenced before assignment"))
      case Body(code) =>
        var caption := GetMetaDataString(meta, 0, "listingCaption", "caption", "", evalList);
        var tag := GetMetaDataString(meta, 0, "listingCaption", "label", "", evalList);
        var tag := if !inline && |tag| == 0 then AutoLabel(index) else tag;
        var purpose := if inline then None else Purpose(code);
        var caption := if inline then caption else "Code Listing in cell " + NatToString(index);
        var block := ListingBlock(CaptionOption(caption, tag), code);
        if inline then Ok(Pieces(block, ""))
        else Ok(Pieces(if purpose.Some? then Reference(tag, purpose.value) else "", block))
  }

  /** The label a floated listing carries: the cell's own, or the automatic one. */
  function FloatLabel(meta: CellMetadata, index: nat, evalList: string -> seq<string>): string {
    var tag := GetMetaDataString(meta, 0, "listingCaption", "label", "", evalList);
    if |tag| == 0 then AutoLabel(index) else tag
  }

  /**
   * A floated listing: the block carries the caption `Code Listing in cell N` and the label,
   * whatever caption the metadata gives, holds the code unchanged, and the sentence in the
   * text refers to that same label with the purpose the first line gives, or is absent when it
   * gives none.
   */
  lemma FloatedListing(source: string, meta: CellMetadata, index: nat, evalList: string -> seq<string>)
    requires ListedCode(source).Body?
    ensures var code := ListedCode(source).code;
            var tag := FloatLabel(meta, index, evalList);
            var r := PrepInput(Some(source), meta, index, false, evalList);
            r.Ok?
            && r.value.listing == ListingBlock(CaptionOption("Code Listing in cell " + NatToString(index), tag), code)
            && r.value.text == (if Purpose(code).Some? then Reference(tag, Purpose(code).value) else "")
  {
  }

  /** An inline listing: the block stands in the text with the metadata's caption, and nothing is floated. */
  lemma InlineListing(source: string, meta: CellMetadata, index: nat, evalList: string -> seq<string>)
    requires ListedCode(source).Body?
    ensures var code := ListedCode(source).code;
            var caption := GetMetaDataString(meta, 0, "listingCaption", "caption", "", evalList);
            var tag := GetMetaDataString(meta, 0, "listingCaption", "label", "", evalList);
            PrepInput(Some(source), meta, index, true, evalList)
            == Ok(Pieces(ListingBlock(CaptionOption(caption, tag), code), ""))
  {
  }

  /** A suppressed cell whose second line is a comment lists only that comment. */
  lemma SuppressedListsComment(source: string)
    requires var lines := Split(source, '\n');
             SuppressMark <= lines[0] && |lines| > 1 && "#" <= lines[1]
    ensures ListedCode(source) == Body(Split(source, '\n')[1])
  {
  }

  /** A cell that does not start with the mark lists its whole source. */
  lemma UnmarkedListsSource(source: string)
    requires !(SuppressMark <= source)
    ensures ListedCode(source) == Body(source)
  {
    FirstLineStart(source);
  }
}
