/**
 * The element tree the converter walks, in place of an lxml element: a tag, the text before the
 * first child and the tail after the element (each absent, as lxml's `None`, or a string), the
 * attributes and the children.  A `table` element is read into the `Table` of `HtmlTable`
 * (ipnb2tex.py:251-256, 267-272).
 */
module Tree {
  import opened Wrappers
  import opened Text
  import opened HtmlTable

  datatype Node = Node(tag: string, text: Option<string>, tail: Option<string>,
                       attrs: map<string, string>, children: seq<Node>)

  /** A missing text reads as the empty string. */
  function OrEmpty(s: Option<string>): string {
    if s.Some? then s.value else ""
  }

  /** `text_content()`: the element's text, then each child's text content followed by its tail. */
  function TextContent(n: Node): string
    decreases n, 1
  {
    OrEmpty(n.text) + ContentFrom(n, 0)
  }

  function ContentFrom(n: Node, i: nat): string
    requires i <= |n.children|
    decreases n, 0, |n.children| - i
  {
    if i == |n.children| then ""
    else TextContent(n.children[i]) + OrEmpty(n.children[i].tail) + ContentFrom(n, i + 1)
  }

  /** An element without children holds only its own text. */
  lemma LeafContent(n: Node)
    requires n.children == []
    ensures TextContent(n) == OrEmpty(n.text)
  {
  }

  // ---------------------------------------------------------------- int()

  predicate AllDigits(s: string) {
    forall i :: 0 <= i < |s| ==> '0' <= s[i] <= '9'
  }

  /**
   * `int(s)` on an attribute value: surrounding white space is ignored, then an optional sign and
   * at least one decimal digit; anything else raises `ValueError`.
   */
  function ParseInt(s: string): (r: Result<int>)
    ensures r.Err? ==> r.error.ValueError?
  {
    var t := Strip(s);
    if |t| > 0 && t[0] == '-' then
      var v :- ParseDigits(t[1..]);
      Ok(-(v as int))
    else if |t| > 0 && t[0] == '+' then
      var v :- ParseDigits(t[1..]);
      Ok(v)
    else
      var v :- ParseDigits(t);
      Ok(v)
  }

  function ParseDigits(d: string): (r: Result<nat>)
    ensures r.Err? ==> r.error.ValueError?
  {
    if |d| == 0 || !AllDigits(d) then Err(ValueError("invalid literal for int() with base 10"))
    else Ok(DigitsValue(d))
  }

  /** `int(str(n)) == n`: a number written out reads back as itself. */
  lemma ParseIntRoundTrip(n: int)
    ensures ParseInt(IntToString(n)) == Ok(n)
  {
    var m: nat := if n < 0 then -n else n;
    NatToStringDigits(m);
    var d := NatToString(m);
    assert AllDigits(d);
    if n < 0 {
      ParseSigned(d, m);
    } else {
      ParseUnsigned(d, m);
    }
  }

  lemma ParseSigned(d: string, m: nat)
    requires |d| > 0 && AllDigits(d) && DigitsValue(d) == m
    ensures ParseInt("-" + d) == Ok(-(m as int))
  {
    var s := "-" + d;
    StripDigits(s, d);
    assert s[0] == '-' && s[1..] == d;
    assert ParseDigits(d) == Ok(m);
  }

  lemma ParseUnsigned(d: string, m: nat)
    requires |d| > 0 && AllDigits(d) && DigitsValue(d) == m
    ensures ParseInt(d) == Ok(m)
  {
    StripDigits(d, d);
    assert d[0] != '-' && d[0] != '+';
    assert ParseDigits(d) == Ok(m);
  }

  /** A sign and digits have no white space to strip. */
  lemma StripDigits(s: string, d: string)
    requires |d| > 0 && AllDigits(d) && (s == d || s == "-" + d)
    ensures Strip(s) == s
  {
    assert s[|s| - 1] == d[|d| - 1];
    NotSpace(s[0]);
    NotSpace(s[|s| - 1]);
  }

  lemma NotSpace(c: char)
    requires '0' <= c <= '9' || c == '-'
    ensures !IsSpace(c)
  {
  }

  // ---------------------------------------------------------------- tables

  /** The `tr` elements among `cs`, in order: what `findall('tr')` returns for the children `cs`. */
  function Trs(cs: seq<Node>): (r: seq<Node>)
    ensures forall k :: 0 <= k < |r| ==> r[k].tag == "tr"
    ensures forall n :: n in r <==> n in cs && n.tag == "tr"
  {
    if cs == [] then []
    else (if cs[0].tag == "tr" then [cs[0]] else []) + Trs(cs[1..])
  }

  /**
   * A `thead` or `tbody` whose opening tag is the bare `<thead>` or `<tbody>`: the markup edit of
   * `convertHtmlTable` deletes exactly those tags, so its children become children of its parent.
   */
  predicate Dissolved(n: Node) {
    (n.tag == "thead" || n.tag == "tbody") && n.attrs == map[]
  }

  /** The children `cs` once every dissolved `thead` and `tbody` among them has given way to its children. */
  function Unwrapped(cs: seq<Node>): (r: seq<Node>)
    ensures forall n :: n in cs && !Dissolved(n) ==> n in r
    decreases cs
  {
    if cs == [] then []
    else (if Dissolved(cs[0]) then Unwrapped(cs[0].children) else [cs[0]]) + Unwrapped(cs[1..])
  }

  /**
   * The rows `findall('tr')` sees once `<thead>` and `<tbody>` are deleted from the markup: the
   * table's own `tr` children and those of each dissolved `thead` and `tbody`, in document order.
   * A `thead` or `tbody` with attributes keeps its tags, and its rows are not the table's.
   */
  function RowNodes(cs: seq<Node>): (r: seq<Node>)
    ensures forall k :: 0 <= k < |r| ==> r[k].tag == "tr"
    ensures forall n :: n in cs && n.tag == "tr" ==> n in r
    decreases cs
  {
    if cs == [] then []
    else
      var here := if cs[0].tag == "tr" then [cs[0]]
                  else if Dissolved(cs[0]) then RowNodes(cs[0].children)
                  else [];
      here + RowNodes(cs[1..])
  }

  /** The rows are the `tr` elements of the children after the markup edit, in order. */
  lemma {:induction false} RowNodesSpec(cs: seq<Node>)
    ensures RowNodes(cs) == Trs(Unwrapped(cs))
    decreases cs
  {
    if cs != [] {
      RowNodesSpec(cs[1..]);
      var first := if Dissolved(cs[0]) then Unwrapped(cs[0].children) else [cs[0]];
      TrsAppend(first, Unwrapped(cs[1..]));
      if Dissolved(cs[0]) {
        RowNodesSpec(cs[0].children);
      } else {
        assert Trs(first) == (if cs[0].tag == "tr" then [cs[0]] else []) + Trs([]);
      }
    }
  }

  lemma {:induction false} TrsAppend(a: seq<Node>, b: seq<Node>)
    ensures Trs(a + b) == Trs(a) + Trs(b)
  {
    if a != [] {
      assert (a + b)[1..] == a[1..] + b;
      TrsAppend(a[1..], b);
    } else {
      assert a + b == b;
    }
  }

  /** A table with no dissolved `thead` or `tbody` has as rows exactly its `tr` children. */
  lemma {:induction false} RowNodesKept(cs: seq<Node>)
    requires forall k :: 0 <= k < |cs| ==> !Dissolved(cs[k])
    ensures RowNodes(cs) == Trs(cs)
  {
    if cs != [] {
      RowNodesKept(cs[1..]);
    }
  }

  /** A `colspan` or `rowspan` attribute, read with `int()` when present. */
  function Span(c: Node, name: string): Result<Option<int>> {
    if name in c.attrs then
      var v :- ParseInt(c.attrs[name]);
      Ok(Some(v))
    else Ok(None)
  }

  /** One child of a row: a data cell's spans are read, other children are kept by tag and text. */
  function CellOf(c: Node): (r: Result<TCell>)
    ensures r.Ok? ==> r.value.tag == c.tag && r.value.text == TextContent(c)
    ensures r.Ok? && !IsDataCell(r.value) ==> r.value.colspan.None? && r.value.rowspan.None?
  {
    if c.tag == "td" || c.tag == "th" then
      var colspan :- Span(c, "colspan");
      var rowspan :- Span(c, "rowspan");
      Ok(TCell(c.tag, TextContent(c), colspan, rowspan))
    else Ok(TCell(c.tag, TextContent(c), None, None))
  }

  /** The children of a row, read in order; the first child that cannot be read fails the row. */
  function CellsOf(cs: seq<Node>): (r: Result<Row>)
    ensures r.Ok? ==> |r.value| == |cs| && forall k :: 0 <= k < |cs| ==> CellOf(cs[k]).Ok? && r.value[k] == CellOf(cs[k]).value
    ensures r.Err? ==> exists k :: 0 <= k < |cs| && CellOf(cs[k]) == Err(r.error)
                                   && forall j :: 0 <= j < k ==> CellOf(cs[j]).Ok?
  {
    if cs == [] then Ok([])
    else
      var c :- CellOf(cs[0]);
      var rest :- CellsOf(cs[1..]);
      Ok([c] + rest)
  }

  /** The rows, read in order; the first row that cannot be read fails the table. */
  function RowsOf(trs: seq<Node>): (r: Result<seq<Row>>)
    ensures r.Ok? ==> |r.value| == |trs|
    ensures r.Ok? ==> forall k :: 0 <= k < |trs| ==> CellsOf(trs[k].children).Ok? && r.value[k] == CellsOf(trs[k].children).value
    ensures r.Err? <==> exists k :: 0 <= k < |trs| && CellsOf(trs[k].children).Err?
    ensures r.Err? ==> exists k :: 0 <= k < |trs| && CellsOf(trs[k].children) == Err(r.error)
                                   && forall j :: 0 <= j < k ==> CellsOf(trs[j].children).Ok?
  {
    if trs == [] then Ok([])
    else
      var row :- CellsOf(trs[0].children);
      var rest :- RowsOf(trs[1..]);
      Ok([row] + rest)
  }

  /** A `table` element as the renderer reads it: one row per `tr`, one cell per child of the row. */
  function TableOf(n: Node): (r: Result<Table>)
    ensures r.Ok? ==> |r.value.rows| == |RowNodes(n.children)|
    ensures r.Ok? ==> forall k :: 0 <= k < |RowNodes(n.children)| ==>
                        (CellsOf(RowNodes(n.children)[k].children).Ok?
                         && r.value.rows[k] == CellsOf(RowNodes(n.children)[k].children).value)
    ensures (exists k :: 0 <= k < |RowNodes(n.children)| && CellsOf(RowNodes(n.children)[k].children).Err?) ==> r.Err?
    ensures r.Err? ==> exists k :: 0 <= k < |RowNodes(n.children)| && CellsOf(RowNodes(n.children)[k].children) == Err(r.error)
                                   && forall j :: 0 <= j < k ==> CellsOf(RowNodes(n.children)[j].children).Ok?
  {
    TableOfRows(RowNodes(n.children))
  }

  /** The table whose rows are read from `trs`. */
  function TableOfRows(trs: seq<Node>): (r: Result<Table>)
    ensures r.Ok? ==> |r.value.rows| == |trs|
    ensures r.Ok? ==> forall k :: 0 <= k < |trs| ==>
                        CellsOf(trs[k].children).Ok? && r.value.rows[k] == CellsOf(trs[k].children).value
    ensures r.Err? <==> exists k :: 0 <= k < |trs| && CellsOf(trs[k].children).Err?
    ensures r.Err? ==> exists k :: 0 <= k < |trs| && CellsOf(trs[k].children) == Err(r.error)
                                   && forall j :: 0 <= j < k ==> CellsOf(trs[j].children).Ok?
  {
    var rows := RowsOf(trs);
    if rows.Err? then Err(rows.error) else Ok(Table(rows.value))
  }

  /** A table written directly as `tr` rows of `td` cells without spans reads into a table without spans. */
  lemma PlainTableRead(n: Node)
    requires forall k :: 0 <= k < |n.children| ==> n.children[k].tag == "tr"
    requires forall k, j :: 0 <= k < |n.children| && 0 <= j < |n.children[k].children| ==>
               n.children[k].children[j].tag == "td" && n.children[k].children[j].attrs == map[]
    ensures TableOf(n).Ok? && NoSpans(TableOf(n).value)
  {
    RowNodesOfRows(n.children);
    RowsOfPlain(n.children);
  }

  lemma {:induction false} RowNodesOfRows(cs: seq<Node>)
    requires forall k :: 0 <= k < |cs| ==> cs[k].tag == "tr"
    ensures RowNodes(cs) == cs
  {
    if cs != [] {
      RowNodesOfRows(cs[1..]);
    }
  }

  lemma {:induction false} RowsOfPlain(trs: seq<Node>)
    requires forall k, j :: 0 <= k < |trs| && 0 <= j < |trs[k].children| ==>
               trs[k].children[j].tag == "td" && trs[k].children[j].attrs == map[]
    ensures RowsOf(trs).Ok? && NoSpans(Table(RowsOf(trs).value))
  {
    if trs != [] {
      RowsOfPlain(trs[1..]);
      CellsPlain(trs[0].children);
      var rows := RowsOf(trs).value;
      assert rows == [CellsOf(trs[0].children).value] + RowsOf(trs[1..]).value;
    }
  }

  lemma {:induction false} CellsPlain(cs: seq<Node>)
    requires forall j :: 0 <= j < |cs| ==> cs[j].tag == "td" && cs[j].attrs == map[]
    ensures CellsOf(cs).Ok?
    ensures forall j :: 0 <= j < |cs| ==> var c := CellsOf(cs).value[j]; IsDataCell(c) && c.colspan.None? && c.rowspan.None?
  {
    if cs != [] {
      CellsPlain(cs[1..]);
    }
  }
}
