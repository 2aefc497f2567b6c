/**
 * Cell metadata as the converter reads it: a JSON object whose values are themselves objects
 * of strings (`"tablecaption": {"caption": "..."}`, `"bibxref": {"key": "label"}`).  An object
 * is kept as its list of key/value pairs in file order, because the order of `bibtexentry`
 * values decides the order of the bibliography.
 */
module Metadata {
  import opened Wrappers

  /** No key appears twice. */
  predicate DistinctKeys(pairs: seq<(string, string)>) {
    forall i, j :: 0 <= i < j < |pairs| ==> pairs[i].0 != pairs[j].0
  }

  /**
   * A JSON object of strings as `json` reads it into a `dict`, in file order.  A key written
   * twice in the file is kept once, at its first place, with its last value, so the keys are
   * distinct.
   */
  type Dict = pairs: seq<(string, string)> | DistinctKeys(pairs) witness []

  /** A cell's `metadata`: each key names an object of strings. */
  type CellMetadata = map<string, Dict>

  predicate HasKey(d: Dict, key: string) {
    exists i :: 0 <= i < |d| && d[i].0 == key
  }

  /** `d[key]`: the value of the pair with that key. */
  function Lookup(d: Dict, key: string): (r: Option<string>)
    ensures r.None? <==> !HasKey(d, key)
    ensures r.Some? ==> exists i :: 0 <= i < |d| && d[i] == (key, r.value)
  {
    if d == [] then None
    else
      var last := d[|d| - 1];
      if last.0 == key then
        assert d[|d| - 1] == (key, last.1);
        Some(last.1)
      else
        var r := Lookup(d[..|d| - 1], key);
        assert forall i :: 0 <= i < |d| - 1 ==> d[..|d| - 1][i] == d[i];
        r
  }

  /**
   * `getMetaDataString(cell, output_index, captionID, metaID, defaultValue)` (ipnb2tex.py:728-749).
   * A string that starts with `[` is a Python list literal; `evalList` stands for its `eval`.
   */
  function GetMetaDataString(meta: CellMetadata, outputIndex: nat, captionID: string, metaID: string,
                             default: string, evalList: string -> seq<string>): (r: string)
    ensures captionID !in meta || !HasKey(meta[captionID], metaID) ==> r == default
    ensures captionID in meta && HasKey(meta[captionID], metaID) ==>
              var v := Lookup(meta[captionID], metaID).value;
              (v == "" ==> r == default)
              && (v != "" && v[0] != '[' ==> r == v)
              && (v != "" && v[0] == '[' ==>
                    r == if outputIndex < |evalList(v)| then evalList(v)[outputIndex] else default)
  {
    if captionID !in meta then default
    else match Lookup(meta[captionID], metaID)
      case None => default
      case Some(v) =>
        if |v| == 0 then default
        else if v[0] != '[' then v
        else
          var items := evalList(v);
          if outputIndex < |items| then items[outputIndex] else default
  }

  /** Whatever the index, the result is the default, the stored string, or one item of its list. */
  lemma MetaDataStringSource(meta: CellMetadata, outputIndex: nat, captionID: string, metaID: string,
                             default: string, evalList: string -> seq<string>)
    ensures var r := GetMetaDataString(meta, outputIndex, captionID, metaID, default, evalList);
            r == default
            || (captionID in meta && exists i :: 0 <= i < |meta[captionID]| && meta[captionID][i] == (metaID, r))
            || (captionID in meta && HasKey(meta[captionID], metaID)
                && r in evalList(Lookup(meta[captionID], metaID).value))
  {
    var r := GetMetaDataString(meta, outputIndex, captionID, metaID, default, evalList);
    if captionID in meta && HasKey(meta[captionID], metaID) {
      var v := Lookup(meta[captionID], metaID).value;
      if v != "" && v[0] == '[' && outputIndex < |evalList(v)| {
        assert r == evalList(v)[outputIndex];
      }
    }
  }

  /** A plain string is shared by every output of the cell: the index does not matter. */
  lemma ScalarIgnoresIndex(meta: CellMetadata, i: nat, j: nat, captionID: string, metaID: string,
                           default: string, evalList: string -> seq<string>)
    requires captionID in meta && HasKey(meta[captionID], metaID)
    requires var v := Lookup(meta[captionID], metaID).value; v == "" || v[0] != '['
    ensures GetMetaDataString(meta, i, captionID, metaID, default, evalList)
            == GetMetaDataString(meta, j, captionID, metaID, default, evalList)
  {
  }
}
