/**
 * The Python string operations the converter relies on, written out:
 * `str.find` in a loop (`findAllStr`), `str.replace`, `str.strip`,
 * `str.split`/`str.join`, `str.splitlines` (only its line count is used),
 * slicing, and the decimal formatting of `'{:05d}'`.
 */
module Text {

  /** `sub` occurs in `s` at index `i`; as with `str.find`, the empty string occurs at every index up to `|s|`. */
  predicate MatchAt(s: string, sub: string, i: int) {
    0 <= i <= |s| && sub <= s[i..]
  }

  /**
   * `findAllStr(s, sub)` (ipnb2tex.py:399-403): every index at or after `start` where `sub`
   * occurs, in increasing order.  Occurrences may overlap, since the search restarts at `ind+1`.
   */
  function FindFrom(s: string, sub: string, start: nat): seq<nat>
    decreases |s| + 1 - start
  {
    if start > |s| then []
    else if MatchAt(s, sub, start) then [start] + FindFrom(s, sub, start + 1)
    else FindFrom(s, sub, start + 1)
  }

  function FindAll(s: string, sub: string): seq<nat> {
    FindFrom(s, sub, 0)
  }

  /** What `FindFrom` finds: only occurrences, in increasing order, and every one of them. */
  lemma {:induction false} FindFromSpec(s: string, sub: string, start: nat)
    ensures var r := FindFrom(s, sub, start);
            (forall k :: 0 <= k < |r| ==> start <= r[k] && MatchAt(s, sub, r[k]))
            && (forall k, l :: 0 <= k < l < |r| ==> r[k] < r[l])
            && (forall i :: start <= i && MatchAt(s, sub, i) ==> i in r)
    decreases |s| + 1 - start
  {
    if start <= |s| {
      FindFromSpec(s, sub, start + 1);
    }
  }

  /** Nothing found from `q`: there is no occurrence at or after `q`. */
  lemma {:induction false} FindFromEmpty(s: string, sub: string, q: nat)
    requires FindFrom(s, sub, q) == []
    ensures forall i :: q <= i ==> !MatchAt(s, sub, i)
    decreases |s| + 1 - q
  {
    if q <= |s| {
      FindFromEmpty(s, sub, q + 1);
    }
  }

  /** The first index found from `q` is the first occurrence at or after `q`; the rest are found from just after it. */
  lemma {:induction false} FindFromHead(s: string, sub: string, q: nat)
    requires FindFrom(s, sub, q) != []
    ensures q <= FindFrom(s, sub, q)[0] && MatchAt(s, sub, FindFrom(s, sub, q)[0])
    ensures forall i :: q <= i < FindFrom(s, sub, q)[0] ==> !MatchAt(s, sub, i)
    ensures FindFrom(s, sub, q)[1..] == FindFrom(s, sub, FindFrom(s, sub, q)[0] + 1)
    decreases |s| + 1 - q
  {
    var rest := FindFrom(s, sub, q + 1);
    if MatchAt(s, sub, q) {
      assert FindFrom(s, sub, q) == [q] + rest;
      assert ([q] + rest)[1..] == rest;
    } else {
      assert FindFrom(s, sub, q) == rest;
      FindFromHead(s, sub, q + 1);
    }
  }

  /** The number of indices `i` with `a <= i < b` where `sub` occurs in `s`. */
  function Occurrences(s: string, sub: string, a: nat, b: nat): nat
    decreases b - a
  {
    if a >= b then 0
    else (if MatchAt(s, sub, a) then 1 else 0) + Occurrences(s, sub, a + 1, b)
  }

  /** How many elements of `xs` are below `p`. */
  function CountBelow(xs: seq<nat>, p: nat): nat {
    if xs == [] then 0 else (if xs[0] < p then 1 else 0) + CountBelow(xs[1..], p)
  }

  /** Counting the found indices below `p` is counting the occurrences that start before `p`. */
  lemma {:induction false} CountBelowFindFrom(s: string, sub: string, start: nat, p: nat)
    requires start <= p
    ensures CountBelow(FindFrom(s, sub, start), p) == Occurrences(s, sub, start, p)
    decreases |s| + 1 - start
  {
    if start > |s| {
      NoOccurrencesPastEnd(s, sub, start, p);
    } else if start == p {
      FindFromSpec(s, sub, start);
      BelowAllAtLeast(FindFrom(s, sub, start), p);
    } else {
      CountBelowFindFrom(s, sub, start + 1, p);
    }
  }

  lemma {:induction false} NoOccurrencesPastEnd(s: string, sub: string, a: nat, b: nat)
    requires a > |s|
    ensures Occurrences(s, sub, a, b) == 0
    decreases b - a
  {
    if a < b { NoOccurrencesPastEnd(s, sub, a + 1, b); }
  }

  lemma {:induction false} BelowAllAtLeast(xs: seq<nat>, p: nat)
    requires forall k :: 0 <= k < |xs| ==> xs[k] >= p
    ensures CountBelow(xs, p) == 0
  {
    if xs != [] { BelowAllAtLeast(xs[1..], p); }
  }

  /** Occurrences over `[a, c)` split at any `b` in between. */
  lemma {:induction false} OccurrencesSplit(s: string, sub: string, a: nat, b: nat, c: nat)
    requires a <= b <= c
    ensures Occurrences(s, sub, a, c) == Occurrences(s, sub, a, b) + Occurrences(s, sub, b, c)
    decreases b - a
  {
    if a < b { OccurrencesSplit(s, sub, a + 1, b, c); }
  }

  /** `sub in s`, computed. */
  function Contains(s: string, sub: string): (b: bool)
    ensures b <==> exists i :: MatchAt(s, sub, i)
  {
    if sub <= s then assert MatchAt(s, sub, 0); true
    else if s == [] then false
    else
      var b := Contains(s[1..], sub);
      assert forall i :: MatchAt(s[1..], sub, i) ==> MatchAt(s, sub, i + 1);
      assert forall i :: MatchAt(s, sub, i) && i > 0 ==> MatchAt(s[1..], sub, i - 1);
      b
  }

  /** `s.replace(pat, rep)`: leftmost, non-overlapping replacement of every occurrence. */
  function ReplaceAll(s: string, pat: string, rep: string): string
    requires |pat| > 0
    decreases |s|
  {
    if |s| < |pat| then s
    else if pat <= s then rep + ReplaceAll(s[|pat|..], pat, rep)
    else [s[0]] + ReplaceAll(s[1..], pat, rep)
  }

  /** `s.replace(pat, rep, 1)`: only the leftmost occurrence. */
  function ReplaceFirst(s: string, pat: string, rep: string): string
    requires |pat| > 0
    decreases |s|
  {
    if |s| < |pat| then s
    else if pat <= s then rep + s[|pat|..]
    else [s[0]] + ReplaceFirst(s[1..], pat, rep)
  }

  /** A string without an occurrence of `pat` is left alone by `ReplaceAll`. */
  lemma {:induction false} ReplaceAllAbsent(s: string, pat: string, rep: string)
    requires |pat| > 0 && !Contains(s, pat)
    ensures ReplaceAll(s, pat, rep) == s
    decreases |s|
  {
    if |s| >= |pat| {
      assert !MatchAt(s, pat, 0);
      assert !Contains(s[1..], pat) by {
        forall i | MatchAt(s[1..], pat, i) ensures MatchAt(s, pat, i + 1) { assert s[1..][i..] == s[i + 1..]; }
      }
      ReplaceAllAbsent(s[1..], pat, rep);
    }
  }

  /** The characters `str.isspace` accepts, which `str.strip` removes. */
  predicate IsSpace(c: char) {
    c == ' ' || c == '\t' || c == '\n' || c == '\r' || c == '\U{b}' || c == '\U{c}'
    || ('\U{1c}' <= c <= '\U{1f}') || c == '\U{85}' || c == '\U{a0}' || c == '\U{1680}'
    || ('\U{2000}' <= c <= '\U{200a}') || c == '\U{2028}' || c == '\U{2029}'
    || c == '\U{202f}' || c == '\U{205f}' || c == '\U{3000}'
  }

  function LStrip(s: string): (r: string)
    ensures |r| <= |s| && r == s[|s| - |r|..]
    ensures |r| > 0 ==> !IsSpace(r[0])
    ensures forall i :: 0 <= i < |s| - |r| ==> IsSpace(s[i])
  {
    if |s| > 0 && IsSpace(s[0]) then LStrip(s[1..]) else s
  }

  function RStrip(s: string): (r: string)
    ensures |r| <= |s| && r == s[..|r|]
    ensures |r| > 0 ==> !IsSpace(r[|r| - 1])
    ensures forall i :: |r| <= i < |s| ==> IsSpace(s[i])
  {
    if |s| > 0 && IsSpace(s[|s| - 1]) then RStrip(s[..|s| - 1]) else s
  }

  /** `s.strip()`. */
  function Strip(s: string): string {
    RStrip(LStrip(s))
  }

  /** Stripping again after white space is appended changes nothing: `(s.strip() + w).strip() == s.strip()`. */
  lemma StripAppendSpace(s: string, w: string)
    requires forall i :: 0 <= i < |w| ==> IsSpace(w[i])
    ensures Strip(Strip(s) + w) == Strip(s)
  {
    var t := Strip(s);
    var l := LStrip(s);
    if |t| == 0 {
      assert t + w == w;
      LStripSpaces(w);
    } else {
      assert t[0] == l[0];
      assert LStrip(t + w) == t + w;
      RStripSpaces(t, w);
    }
  }

  lemma {:induction false} LStripSpaces(w: string)
    requires forall i :: 0 <= i < |w| ==> IsSpace(w[i])
    ensures LStrip(w) == ""
  {
    if |w| > 0 {
      LStripSpaces(w[1..]);
    }
  }

  lemma {:induction false} RStripSpaces(t: string, w: string)
    requires |t| == 0 || !IsSpace(t[|t| - 1])
    requires forall i :: 0 <= i < |w| ==> IsSpace(w[i])
    ensures RStrip(t + w) == t
    decreases |w|
  {
    if |w| == 0 {
      assert t + w == t;
    } else {
      var u := t + w;
      assert u[..|u| - 1] == t + w[..|w| - 1];
      RStripSpaces(t, w[..|w| - 1]);
    }
  }

  /** `s.split(sep)` for a one-character separator: never empty, no piece holds `sep`. */
  function Split(s: string, sep: char): (r: seq<string>)
    ensures |r| > 0
    ensures forall k :: 0 <= k < |r| ==> sep !in r[k]
  {
    if s == [] then [""]
    else if s[0] == sep then [""] + Split(s[1..], sep)
    else
      var t := Split(s[1..], sep);
      [[s[0]] + t[0]] + t[1..]
  }

  /** `sep.join(pieces)`. */
  function Join(sep: char, pieces: seq<string>): string {
    if pieces == [] then ""
    else if |pieces| == 1 then pieces[0]
    else pieces[0] + [sep] + Join(sep, pieces[1..])
  }

  /** Splitting at a character and joining the pieces back with it gives the original string. */
  lemma {:induction false} JoinSplit(s: string, sep: char)
    ensures Join(sep, Split(s, sep)) == s
  {
    if s != [] {
      var t := Split(s[1..], sep);
      JoinSplit(s[1..], sep);
      if s[0] == sep {
        JoinEmptyHead(sep, t);
      } else {
        JoinLongerHead(sep, s[0], t);
      }
      assert s == [s[0]] + s[1..];
    }
  }

  /** An empty first piece contributes only its separator. */
  lemma JoinEmptyHead(sep: char, t: seq<string>)
    requires |t| > 0
    ensures Join(sep, [""] + t) == [sep] + Join(sep, t)
  {
    assert ([""] + t)[1..] == t;
  }

  /** A character put in front of the first piece comes first in the joined text. */
  lemma JoinLongerHead(sep: char, c: char, t: seq<string>)
    requires |t| > 0
    ensures Join(sep, [[c] + t[0]] + t[1..]) == [c] + Join(sep, t)
  {
    var u := [[c] + t[0]] + t[1..];
    if |t| > 1 {
      assert u[1..] == t[1..];
      assert Join(sep, u) == ([c] + t[0]) + [sep] + Join(sep, t[1..]);
    }
  }

  /** A piece free of the separator, then the separator: splitting gives that piece first. */
  lemma {:induction false} SplitPiece(a: string, sep: char, b: string)
    requires sep !in a
    ensures Split(a + [sep] + b, sep) == [a] + Split(b, sep)
    decreases |a|
  {
    var s := a + [sep] + b;
    if a == [] {
      assert s[1..] == b;
    } else {
      SplitPiece(a[1..], sep, b);
      assert s[1..] == a[1..] + [sep] + b;
      assert [a[0]] + a[1..] == a;
    }
  }

  /** A text free of the separator splits into itself alone. */
  lemma {:induction false} SplitNone(a: string, sep: char)
    requires sep !in a
    ensures Split(a, sep) == [a]
    decreases |a|
  {
    if a != [] {
      SplitNone(a[1..], sep);
      assert [a[0]] + a[1..] == a;
    }
  }

  /** The line boundaries `str.splitlines` recognises. */
  predicate IsLineBreak(c: char) {
    c == '\n' || c == '\r' || c == '\U{b}' || c == '\U{c}' || ('\U{1c}' <= c <= '\U{1e}')
    || c == '\U{85}' || c == '\U{2028}' || c == '\U{2029}'
  }

  /** The number of line boundaries in `s`, a `\r\n` pair counting once. */
  function LineBreaks(s: string): nat {
    if s == [] then 0
    else if s[0] == '\r' && |s| > 1 && s[1] == '\n' then 1 + LineBreaks(s[2..])
    else (if IsLineBreak(s[0]) then 1 else 0) + LineBreaks(s[1..])
  }

  /** `len(s.splitlines())`: one line per boundary, plus a last line not ended by one. */
  function SplitLinesCount(s: string): nat {
    LineBreaks(s) + (if |s| > 0 && !IsLineBreak(s[|s| - 1]) then 1 else 0)
  }

  /** Python's `s[a:b]` for non-negative bounds: out-of-range bounds are clamped, crossed bounds give "". */
  function Slice(s: string, a: nat, b: nat): (r: string)
    ensures a <= b <= |s| ==> r == s[a..b]
    ensures b <= a ==> r == ""
  {
    var lo := if a < |s| then a else |s|;
    var hi := if b < |s| then b else |s|;
    if lo >= hi then "" else s[lo..hi]
  }

  /** The value of a string of decimal digits. */
  function DigitsValue(d: string): nat
    requires forall i :: 0 <= i < |d| ==> '0' <= d[i] <= '9'
  {
    if d == [] then 0 else 10 * DigitsValue(d[..|d| - 1]) + (d[|d| - 1] - '0') as nat
  }

  /** `str(n)` for a natural number. */
  function NatToString(n: nat): (r: string)
    ensures |r| > 0
  {
    var last := [(('0' as int) + n % 10) as char];
    if n < 10 then last else NatToString(n / 10) + last
  }

  /** `str(n)` is a string of decimal digits whose value is `n`. */
  lemma {:induction false} NatToStringDigits(n: nat)
    ensures var r := NatToString(n);
            (forall i :: 0 <= i < |r| ==> '0' <= r[i] <= '9') && DigitsValue(r) == n
  {
    if n >= 10 {
      NatToStringDigits(n / 10);
      var r := NatToString(n);
      assert r[..|r| - 1] == NatToString(n / 10);
    }
  }

  /** `str(n)` for any integer. */
  function IntToString(n: int): string {
    if n < 0 then "-" + NatToString(-n) else NatToString(n)
  }

  /** Leading zeros do not change the value of a digit string. */
  lemma {:induction false} LeadingZeroValue(d: string)
    requires forall i :: 0 <= i < |d| ==> '0' <= d[i] <= '9'
    ensures DigitsValue("0" + d) == DigitsValue(d)
  {
    if d != [] {
      assert ("0" + d)[..|"0" + d| - 1] == "0" + d[..|d| - 1];
      LeadingZeroValue(d[..|d| - 1]);
    }
  }

  /** `'{:05d}'.format(n)`: at least five digits, padded on the left with zeros. */
  function ZeroPad5(n: nat): (r: string)
    ensures |r| >= 5 && forall i :: 0 <= i < |r| ==> '0' <= r[i] <= '9'
    ensures DigitsValue(r) == n
    ensures n < 100000 ==> |r| == 5
  {
    NatToStringDigits(n);
    if n < 100000 then
      assert Pow10(5) == 100000;
      NatToStringWidth(n, 5);
      PadTo(NatToString(n), 5)
    else PadTo(NatToString(n), 5)
  }

  function Pow10(k: nat): nat {
    if k == 0 then 1 else 10 * Pow10(k - 1)
  }

  /** A number below `10^k` has at most `k` digits. */
  lemma {:induction false} NatToStringWidth(n: nat, k: nat)
    requires k >= 1 && n < Pow10(k)
    ensures |NatToString(n)| <= k
  {
    if n >= 10 {
      NatToStringWidth(n / 10, k - 1);
    }
  }

  function PadTo(d: string, width: nat): (r: string)
    requires |d| > 0 && forall i :: 0 <= i < |d| ==> '0' <= d[i] <= '9'
    ensures |r| >= width && |r| >= |d| && forall i :: 0 <= i < |r| ==> '0' <= r[i] <= '9'
    ensures DigitsValue(r) == DigitsValue(d)
    ensures |d| <= width ==> |r| == width
    decreases width - |d|
  {
    if |d| >= width then d
    else
      LeadingZeroValue(d);
      PadTo("0" + d, width)
  }

  /** Different numbers are formatted differently, so an index suffix tells labels apart. */
  lemma ZeroPad5Injective(m: nat, n: nat)
    requires ZeroPad5(m) == ZeroPad5(n)
    ensures m == n
  {
  }
}
