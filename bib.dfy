/**
 * The bibliography accumulated while a notebook is converted (ipnb2tex.py:46-49): the BibTeX
 * entries to write, the map from citation labels to BibTeX keys, and the counter that makes
 * long labels unique.  The source keeps them in module globals; here they are one object.
 */
module Bib {
  import opened Text
  import Escape
  import opened Metadata
  import opened Wrappers

  /** The label a link is cited under, before any shortening: the URL without label-breaking characters. */
  function UrlLabel(url: string): string {
    Escape.CleanFilename(url, Escape.LabelRemove)
  }

  /** A label longer than 20 characters keeps its first 20 and gets the counter, zero-padded to five digits. */
  function ShortLabel(key: string, index: nat): (r: string)
    requires |key| > 20
    ensures |r| >= 25 && r[..20] == key[..20]
    ensures index < 100000 ==> |r| == 25
  {
    key[..20] + ZeroPad5(index)
  }

  /** The entry written for a cited link. */
  function MiscEntry(key: string, url: string): string {
    "@MISC{" + key + ",\n" + "  url = {" + url + "}\n}\n\n"
  }

  /** `\url{...}` around text that holds `http`. */
  function LinkText(text: string): string {
    if Contains(text, "http") then "\\url{" + text + "}" else text
  }

  /** The pairs of a metadata object folded into a map, later pairs overriding earlier ones. */
  function PairsToMap(d: Dict): (m: map<string, string>)
    ensures forall k :: k in m <==> HasKey(d, k)
  {
    if d == [] then map[]
    else
      var m := PairsToMap(d[..|d| - 1]);
      assert forall i :: 0 <= i < |d| - 1 ==> d[..|d| - 1][i] == d[i];
      assert forall k :: HasKey(d, k) ==> HasKey(d[..|d| - 1], k) || d[|d| - 1].0 == k;
      m[d[|d| - 1].0 := d[|d| - 1].1]
  }

  /** The bibliography texts of a `bibtexentry` object: each value followed by a blank line. */
  function EntryTexts(d: Dict): (r: seq<string>)
    ensures |r| == |d|
    ensures forall i :: 0 <= i < |d| ==> r[i] == d[i].1 + "\n\n"
  {
    if d == [] then [] else EntryTexts(d[..|d| - 1]) + [d[|d| - 1].1 + "\n\n"]
  }

  /** The three accumulators as a value. */
  datatype Bibs = Bibs(list: seq<string>, xref: map<string, string>, index: nat)

  /** The label a link is cited under: the URL label, shortened with the counter when over 20 characters. */
  function CiteLabel(url: string, index: nat): string {
    var full := UrlLabel(url);
    if |full| > 20 then ShortLabel(full, index) else full
  }

  /**
   * The `a` case of `processParagraph` for a link with an `href` (ipnb2tex.py:1201-1227), on the
   * accumulators `b`: the text written (the link text, wrapped in `\url{}` when it holds `http`,
   * then `\cite{key}`, then the tail) and the accumulators after it.  The counter moves only when
   * the label was shortened; a label already known keeps its key, an unknown one is mapped to
   * itself and nothing else in the map changes; exactly one `@MISC` entry is appended.
   */
  function Cite(b: Bibs, url: string, text: Option<string>, tail: string, addUrl: bool): (r: (string, Bibs))
    ensures var key := CiteLabel(url, b.index);
            var after := r.1;
            && after.index == b.index + (if |UrlLabel(url)| > 20 then 1 else 0)
            && key in after.xref && after.xref.Keys == b.xref.Keys + {key}
            && (forall k :: k in b.xref ==> after.xref[k] == b.xref[k])
            && (key !in b.xref ==> after.xref[key] == key)
            && after.list == b.list + [MiscEntry(after.xref[key], if addUrl then "\\url{" + url + "}" else url)]
            && r.0 == (if text.Some? && text.value != "" then LinkText(text.value) else "")
                      + "\\cite{" + after.xref[key] + "}" + tail
  {
    var key := CiteLabel(url, b.index);
    var index := if |UrlLabel(url)| > 20 then b.index + 1 else b.index;
    var xref := if key in b.xref then b.xref else b.xref[key := key];
    var entry := MiscEntry(xref[key], if addUrl then "\\url{" + url + "}" else url);
    var pre := if text.Some? && text.value != "" then LinkText(text.value) else "";
    (pre + "\\cite{" + xref[key] + "}" + tail, Bibs(b.list + [entry], xref, index))
  }

  /** `extractBibtexXref` on the accumulators as a value. */
  function Extract(b: Bibs, meta: CellMetadata): Bibs {
    Bibs(b.list + (if "bibtexentry" in meta then EntryTexts(meta["bibtexentry"]) else []),
         b.xref + (if "bibxref" in meta then PairsToMap(meta["bibxref"]) else map[]),
         b.index)
  }

  class BibState {
    /** `bibtexlist`: the entries, in the order they were met. */
    var bibtexlist: seq<string>
    /** `bibxref`: citation label to BibTeX key. */
    var bibxref: map<string, string>
    /** `bibtexindex`: the number of labels shortened so far. */
    var bibtexindex: nat

    /** The accumulators as they stand. */
    function Snapshot(): Bibs
      reads this
    {
      Bibs(bibtexlist, bibxref, bibtexindex)
    }

    constructor ()
      ensures bibtexlist == [] && bibxref == map[] && bibtexindex == 0
    {
      bibtexlist := [];
      bibxref := map[];
      bibtexindex := 0;
    }

    /**
     * `extractBibtexXref(cell)` (ipnb2tex.py:714-724): the cell's `bibxref` pairs are copied into
     * the map, overriding earlier keys, and each `bibtexentry` value is appended to the list.
     */
    method ExtractBibtexXref(meta: CellMetadata)
      modifies this
      ensures bibxref == old(bibxref) + (if "bibxref" in meta then PairsToMap(meta["bibxref"]) else map[])
      ensures bibtexlist == old(bibtexlist) + (if "bibtexentry" in meta then EntryTexts(meta["bibtexentry"]) else [])
      ensures bibtexindex == old(bibtexindex)
    {
      if "bibxref" in meta {
        MergeXref(meta["bibxref"]);
      }
      if "bibtexentry" in meta {
        AppendEntries(meta["bibtexentry"]);
      }
    }

    /** The `bibxref` loop: each pair is written into the map in turn. */
    method MergeXref(d: Dict)
      modifies this
      ensures bibxref == old(bibxref) + PairsToMap(d)
      ensures bibtexlist == old(bibtexlist) && bibtexindex == old(bibtexindex)
    {
      var i := 0;
      MergeNothing(bibxref, d[..0]);
      while i < |d|
        invariant 0 <= i <= |d|
        invariant bibxref == old(bibxref) + PairsToMap(d[..i])
        invariant bibtexlist == old(bibtexlist) && bibtexindex == old(bibtexindex)
      {
        MergeOne(old(bibxref), d, i);
        bibxref := bibxref[d[i].0 := d[i].1];
        i := i + 1;
      }
      assert d[..|d|] == d;
    }

    /** The `bibtexentry` loop: each value is appended to the list with a blank line. */
    method AppendEntries(d: Dict)
      modifies this
      ensures bibtexlist == old(bibtexlist) + EntryTexts(d)
      ensures bibxref == old(bibxref) && bibtexindex == old(bibtexindex)
    {
      var i := 0;
      while i < |d|
        invariant 0 <= i <= |d|
        invariant bibtexlist == old(bibtexlist) + EntryTexts(d[..i])
        invariant bibxref == old(bibxref) && bibtexindex == old(bibtexindex)
      {
        assert d[..i + 1][..i] == d[..i];
        bibtexlist := bibtexlist + [d[i].1 + "\n\n"];
        i := i + 1;
      }
      assert d[..|d|] == d;
    }

    /**
     * The `a` case of `processParagraph` for a link with an `href` (ipnb2tex.py:1201-1227).  The label
     * comes from the URL (shortened with the counter when over 20 characters); an unknown label is
     * mapped to itself, a known one keeps its key; one `@MISC` entry is appended; the output is
     * the link text (wrapped in `\url{}` when it holds `http`), then `\cite{key}`, then the tail.
     */
    method CiteLink(url: string, text: Option<string>, tail: string, addUrl: bool) returns (out: string)
      modifies this
      ensures (out, Snapshot()) == Cite(old(Snapshot()), url, text, tail, addUrl)
    {
      ghost var before := Snapshot();
      var citelabel := Escape.CleanFilename(url, Escape.LabelRemove);
      if |citelabel| > 20 {
        citelabel := citelabel[..20] + ZeroPad5(bibtexindex);
        bibtexindex := bibtexindex + 1;
      }
      if citelabel !in bibxref {
        bibxref := bibxref[citelabel := citelabel];
      }
      var link := url;
      if addUrl {
        link := "\\url{" + url + "}";
      }
      bibtexlist := bibtexlist + [MiscEntry(bibxref[citelabel], link)];
      out := "";
      if text.Some? && text.value != "" {
        out := LinkText(text.value);
      }
      out := out + "\\cite{" + bibxref[citelabel] + "}" + tail;
      assert citelabel == CiteLabel(url, before.index);
    }
  }

  // ---------------------------------------------------------------- properties of the labels

  /** A citation label never holds a character that breaks a BibTeX key. */
  lemma CiteLabelClean(url: string, index: nat)
    ensures var full := UrlLabel(url);
            var key := if |full| > 20 then ShortLabel(full, index) else full;
            forall i :: 0 <= i < |key| ==> key[i] !in Escape.LabelRemove
  {
    var full := UrlLabel(url);
    if |full| > 20 {
      var key := ShortLabel(full, index);
      forall i | 0 <= i < |key| ensures key[i] !in Escape.LabelRemove {
        if i < 20 {
          assert key[i] == full[i];
        } else {
          DigitKept(key[i]);
        }
      }
    }
  }

  lemma DigitKept(c: char)
    requires '0' <= c <= '9'
    ensures c !in Escape.LabelRemove
  {
    var r := Escape.LabelRemove;
    assert forall i :: 0 <= i < |r| ==> !('0' <= r[i] <= '9');
  }

  /** While fewer than 100000 labels were shortened, a label has at most 25 characters. */
  lemma CiteLabelLength(url: string, index: nat)
    requires index < 100000
    ensures var full := UrlLabel(url);
            |if |full| > 20 then ShortLabel(full, index) else full| <= 25
  {
  }

  /** Two shortened labels made with different counter values differ, even when their URLs share 20 characters. */
  lemma ShortLabelsDistinct(a: string, b: string, i: nat, j: nat)
    requires |a| > 20 && |b| > 20 && i != j
    ensures ShortLabel(a, i) != ShortLabel(b, j)
  {
    var x := ShortLabel(a, i);
    var y := ShortLabel(b, j);
    assert x[20..] == ZeroPad5(i) && y[20..] == ZeroPad5(j);
    assert DigitsValue(x[20..]) != DigitsValue(y[20..]);
  }

  /** Merging no pairs leaves the map as it is. */
  lemma MergeNothing(m: map<string, string>, d: Dict)
    requires d == []
    ensures m + PairsToMap(d) == m
  {
    assert PairsToMap(d) == map[];
  }

  /** Merging one more pair writes that pair over the map merged so far. */
  lemma MergeOne(m: map<string, string>, d: Dict, i: nat)
    requires i < |d|
    ensures m + PairsToMap(d[..i + 1]) == (m + PairsToMap(d[..i]))[d[i].0 := d[i].1]
  {
    assert d[..i + 1][..i] == d[..i];
  }

  /** Every `bibxref` pair of the cell can be found afterwards, with its value. */
  lemma {:induction false} PairsToMapLast(d: Dict, i: nat)
    requires i < |d|
    ensures PairsToMap(d)[d[i].0] == d[i].1
  {
    if i < |d| - 1 {
      var init := d[..|d| - 1];
      assert init[i] == d[i];
      assert forall j :: i < j < |init| ==> init[j] == d[j];
      PairsToMapLast(init, i);
    }
  }
}
