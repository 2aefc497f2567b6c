/**
 * The last pass over the LaTeX made from a Markdown cell (ipnb2tex.py:1097-1117): every `_`
 * outside inline math, outside the equation and eqnarray environments and outside an
 * image block protected by the include-graphics markers is escaped as `\_`.
 *
 * Whether an underscore is "inside" is decided by parity: the number of `$` before it, and for
 * each environment the number of `\begin{...` plus `\end{...` before it, must all be even.
 */
module Underscore {
  import opened Text
  import Escape

  /** The markers that keep an image block away from the escaping (ipnb2tex.py:51-52). */
  const ProtectStart: string := "beginincludegraphics\n"
  const ProtectEnd: string := "endincludegraphics\n"

  const Dollar: string := "$"
  const BeginEquation: string := "\\begin{equation"
  const EndEquation: string := "\\end{equation"
  const BeginEquationStar: string := "\\begin{equation*"
  const EndEquationStar: string := "\\end{equation*"
  const BeginEqnarray: string := "\\begin{eqnarray"
  const EndEqnarray: string := "\\end{eqnarray"

  function Even(n: nat): bool {
    n % 2 == 0
  }

  /**
   * The test made for an underscore at index `loc` of `t`: all five counts of delimiters that
   * start before `loc` are even.  (`\begin{equation` also matches inside `\begin{equation*`.)
   */
  predicate OutsideAt(t: string, loc: nat) {
    Even(Occurrences(t, Dollar, 0, loc))
    && Even(Occurrences(t, BeginEquation, 0, loc) + Occurrences(t, EndEquation, 0, loc))
    && Even(Occurrences(t, BeginEquationStar, 0, loc) + Occurrences(t, EndEquationStar, 0, loc))
    && Even(Occurrences(t, BeginEqnarray, 0, loc) + Occurrences(t, EndEqnarray, 0, loc))
    && Even(Occurrences(t, ProtectStart, 0, loc) + Occurrences(t, ProtectEnd, 0, loc))
  }

  /** The test's answer at every index of `s`. */
  function Mask(s: string): (m: seq<bool>)
    ensures |m| == |s|
  {
    seq(|s|, p requires 0 <= p < |s| => OutsideAt(s, p))
  }

  lemma MaskAt(s: string, p: nat)
    requires p < |s|
    ensures Mask(s)[p] == OutsideAt(s, p)
  {
  }

  /** What a character becomes: an underscore the mask marks outside gets a backslash. */
  function Piece(c: char, outside: bool): string {
    if c == '_' && outside then "\\_" else [c]
  }

  /** The escaped form of the first `j` characters of `s`, with the test's answers given by `mask`. */
  function Escaped(s: string, mask: seq<bool>, j: nat): (r: string)
    requires j <= |s| && |mask| == |s|
  {
    if j == 0 then [] else Escaped(s, mask, j - 1) + Piece(s[j - 1], mask[j - 1])
  }

  /** The whole input with its outside underscores escaped; the tests are made on the input. */
  function UnderscoreEscaped(s: string): string {
    Escaped(s, Mask(s), |s|)
  }

  // ---------------------------------------------------------------- the loop as written

  /** `sum([1 for i in findAllStr(t, pat) if i < loc])`. */
  method CountBefore(t: string, pat: string, loc: nat) returns (n: nat)
    ensures n == Occurrences(t, pat, 0, loc)
  {
    var xs := FindAll(t, pat);
    n := 0;
    var i := 0;
    while i < |xs|
      invariant 0 <= i <= |xs|
      invariant n + CountBelow(xs[i..], loc) == CountBelow(xs, loc)
    {
      assert xs[i..][1..] == xs[i + 1..];
      if xs[i] < loc {
        n := n + 1;
      }
      i := i + 1;
    }
    assert xs[|xs|..] == [];
    CountBelowFindFrom(t, pat, 0, loc);
  }

  /**
   * The escaping loop (ipnb2tex.py:1097-1117).  The underscores are found once, in the input;
   * each insertion shifts the later ones by one, and the delimiters are counted afresh in the
   * current text before the shifted index.
   */
  method EscapeUnderscores(s: string) returns (r: string)
    ensures r == UnderscoreEscaped(s)
  {
    var tmp := s;
    var offset := 0;
    var locs := FindAll(s, "_");
    ghost var q: nat := 0;
    var k := 0;
    assert locs[k..] == locs;
    while k < |locs|
      invariant Looping(s, locs, k, tmp, offset, q)
      decreases |locs| - k
    {
      tmp, offset, q := EscapeNext(s, locs, k, tmp, offset, q);
      k := k + 1;
    }
    AllFound(s, Mask(s), q);
    r := tmp;
  }

  /**
   * The loop's state: the underscores at `locs[k..]` are those of the input from `q` on, and the
   * input's first `q` characters have been handled.
   */
  predicate Looping(s: string, locs: seq<nat>, k: nat, tmp: string, offset: int, q: nat) {
    k <= |locs| && q <= |s| && Progress(s, tmp, offset, q) && locs[k..] == FindFrom(s, "_", q)
  }

  /** The loop's state after the input's first `q` characters: `tmp` and the shift of the later indices. */
  predicate Progress(s: string, tmp: string, offset: int, q: nat) {
    q <= |s| && tmp == Escaped(s, Mask(s), q) + s[q..] && offset == |Escaped(s, Mask(s), q)| - q
  }

  /** The next underscore found from `q`: the characters before it are copied as they are. */
  lemma SkipToUnderscore(s: string, tmp: string, offset: int, q: nat)
    requires q <= |s| && Progress(s, tmp, offset, q) && FindFrom(s, "_", q) != []
    ensures var p := FindFrom(s, "_", q)[0];
            q <= p < |s| && s[p] == '_' && Progress(s, tmp, offset, p)
            && FindFrom(s, "_", q)[1..] == FindFrom(s, "_", p + 1)
  {
    var p := FindFrom(s, "_", q)[0];
    FindFromHead(s, "_", q);
    MatchUnderscore(s, p);
    Realign(s, Mask(s), q, p);
  }

  lemma DropFirst(xs: seq<nat>, k: nat, rest: seq<nat>)
    requires k < |xs| && xs[k..] == rest
    ensures rest != [] && xs[k] == rest[0] && xs[k + 1..] == rest[1..]
  {
    assert xs[k + 1..] == xs[k..][1..];
  }

  /** The body of the loop for the underscore `locs[k]`. */
  method EscapeNext(s: string, locs: seq<nat>, k: nat, tmp: string, offset: int, ghost q: nat)
    returns (tmp': string, offset': int, ghost q': nat)
    requires k < |locs| && Looping(s, locs, k, tmp, offset, q)
    ensures Looping(s, locs, k + 1, tmp', offset', q')
  {
    DropFirst(locs, k, FindFrom(s, "_", q));
    var p := locs[k];
    SkipToUnderscore(s, tmp, offset, q);
    tmp', offset' := EscapeOne(s, tmp, offset, p);
    q' := p + 1;
  }

  /** When no underscore is left from `q` on, the rest of the input is copied as it is. */
  lemma AllFound(s: string, m: seq<bool>, q: nat)
    requires q <= |s| && |m| == |s| && FindFrom(s, "_", q) == []
    ensures Escaped(s, m, q) + s[q..] == Escaped(s, m, |s|)
  {
    FindFromEmpty(s, "_", q);
    Realign(s, m, q, |s|);
    assert s[|s|..] == [];
  }

  /** One pass of the loop body: the underscore at index `p` of the input stands at `p + offset` in `tmp`. */
  method EscapeOne(s: string, tmp: string, offset: int, p: nat) returns (tmp': string, offset': int)
    requires p < |s| && s[p] == '_' && Progress(s, tmp, offset, p)
    ensures Progress(s, tmp', offset', p + 1)
  {
    ghost var m := Mask(s);
    var loc := p + offset;
    var outside := OutsideTest(tmp, loc);
    OutsidePreserved(s, m, p);
    MaskAt(s, p);
    if outside {
      InsertedPiece(s, m, p);
      StepInserted(s, m, p);
      tmp' := tmp[..loc] + "\\" + tmp[loc..];
      offset' := offset + 1;
    } else {
      KeptPiece(s, m, p);
      StepKept(s, m, p);
      tmp', offset' := tmp, offset;
    }
  }

  /** The five parity tests of the loop body, each count taken by `CountBefore`. */
  method OutsideTest(t: string, loc: nat) returns (b: bool)
    ensures b == OutsideAt(t, loc)
  {
    var inline := CountBefore(t, Dollar, loc);
    var e1 := CountBefore(t, BeginEquation, loc);
    var e2 := CountBefore(t, EndEquation, loc);
    var s1 := CountBefore(t, BeginEquationStar, loc);
    var s2 := CountBefore(t, EndEquationStar, loc);
    var a1 := CountBefore(t, BeginEqnarray, loc);
    var a2 := CountBefore(t, EndEqnarray, loc);
    var g1 := CountBefore(t, ProtectStart, loc);
    var g2 := CountBefore(t, ProtectEnd, loc);
    b := Even(inline) && Even(e1 + e2) && Even(s1 + s2) && Even(a1 + a2) && Even(g1 + g2);
  }

  /** `MatchAt` for the one-character pattern `_`. */
  lemma MatchUnderscore(s: string, i: nat)
    ensures MatchAt(s, "_", i) <==> (i < |s| && s[i] == '_')
  {
    if i < |s| {
      assert s[i..][..1] == [s[i]];
    }
  }

  lemma NoUnderscoreIn(s: string, q: nat, p: nat)
    requires q <= p <= |s|
    requires forall i :: q <= i < p ==> !MatchAt(s, "_", i)
    ensures forall i :: q <= i < p ==> s[i] != '_'
  {
    forall i | q <= i < p ensures s[i] != '_' {
      MatchUnderscore(s, i);
    }
  }

  /** Skipping a stretch without underscores: the text is the same, split at a later index. */
  lemma Realign(s: string, m: seq<bool>, q: nat, p: nat)
    requires q <= p <= |s| && |m| == |s|
    requires forall i :: q <= i < p ==> !MatchAt(s, "_", i)
    ensures Escaped(s, m, q) + s[q..] == Escaped(s, m, p) + s[p..]
    ensures |Escaped(s, m, p)| - p == |Escaped(s, m, q)| - q
  {
    NoUnderscoreIn(s, q, p);
    EscapedNoUnderscore(s, m, q, p);
    RealignText(Escaped(s, m, q), s, q, p);
  }

  lemma RealignText(e: string, s: string, q: nat, p: nat)
    requires q <= p <= |s|
    ensures e + s[q..] == (e + s[q..p]) + s[p..]
  {
    assert s[q..] == s[q..p] + s[p..];
  }

  /** An underscore that passes the test gets a backslash inserted before it. */
  lemma StepInserted(s: string, m: seq<bool>, p: nat)
    requires p < |s| && |m| == |s| && s[p] == '_' && m[p]
    ensures var t := Escaped(s, m, p) + s[p..];
            var loc := |Escaped(s, m, p)|;
            t[..loc] + "\\" + t[loc..] == Escaped(s, m, p + 1) + s[p + 1..]
  {
    InsertedPiece(s, m, p);
    InsertBackslash(Escaped(s, m, p), s, p);
  }

  /** An underscore the mask marks outside is appended with its backslash. */
  lemma InsertedPiece(s: string, m: seq<bool>, p: nat)
    requires p < |s| && |m| == |s| && s[p] == '_' && m[p]
    ensures Escaped(s, m, p + 1) == Escaped(s, m, p) + "\\_"
  {
  }

  /** Inserting a backslash at the end of `e` in `e + s[p..]`. */
  lemma InsertBackslash(e: string, s: string, p: nat)
    requires p < |s| && s[p] == '_'
    ensures var t := e + s[p..];
            t[..|e|] + "\\" + t[|e|..] == (e + "\\_") + s[p + 1..]
  {
    var t := e + s[p..];
    assert t[..|e|] == e && t[|e|..] == s[p..];
    assert s[p..] == "_" + s[p + 1..];
  }

  /** Any other character stays where it is. */
  lemma StepKept(s: string, m: seq<bool>, p: nat)
    requires p < |s| && |m| == |s| && !(s[p] == '_' && m[p])
    ensures Escaped(s, m, p) + s[p..] == Escaped(s, m, p + 1) + s[p + 1..]
  {
    KeptPiece(s, m, p);
    AppendOne(Escaped(s, m, p), s, p);
  }

  /** A character that is not escaped is appended as it is. */
  lemma KeptPiece(s: string, m: seq<bool>, p: nat)
    requires p < |s| && |m| == |s| && !(s[p] == '_' && m[p])
    ensures Escaped(s, m, p + 1) == Escaped(s, m, p) + [s[p]]
  {
  }

  lemma SliceExtend(e: string, s: string, q: nat, p: nat)
    requires q < p <= |s|
    ensures (e + s[q..p - 1]) + [s[p - 1]] == e + s[q..p]
  {
    assert s[q..p] == s[q..p - 1] + [s[p - 1]];
  }

  lemma PrefixExtend(s: string, j: nat)
    requires 0 < j <= |s|
    ensures s[..j - 1] + [s[j - 1]] == s[..j]
  {
  }

  lemma AppendOne(e: string, s: string, p: nat)
    requires p < |s|
    ensures (e + [s[p]]) + s[p + 1..] == e + s[p..]
  {
    assert s[p..] == [s[p]] + s[p + 1..];
  }

  /** A stretch without underscores is copied unchanged. */
  lemma {:induction false} EscapedNoUnderscore(s: string, m: seq<bool>, q: nat, p: nat)
    requires q <= p <= |s| && |m| == |s|
    requires forall i :: q <= i < p ==> s[i] != '_'
    ensures Escaped(s, m, p) == Escaped(s, m, q) + s[q..p]
    decreases p - q
  {
    if q < p {
      EscapedNoUnderscore(s, m, q, p - 1);
      KeptPiece(s, m, p - 1);
      SliceExtend(Escaped(s, m, q), s, q, p);
    }
  }

  // ---------------------------------------------------------------- counting in the rewritten text

  /** A delimiter holds no `_` and does not end in a backslash, so an inserted `\` never belongs to one. */
  predicate SafePattern(pat: string) {
    |pat| > 0 && '_' !in pat && pat[|pat| - 1] != '\\'
  }

  lemma DelimitersSafe()
    ensures SafePattern(Dollar) && SafePattern(BeginEquation) && SafePattern(EndEquation)
    ensures SafePattern(BeginEquationStar) && SafePattern(EndEquationStar)
    ensures SafePattern(BeginEqnarray) && SafePattern(EndEqnarray)
    ensures SafePattern(ProtectStart) && SafePattern(ProtectEnd)
  {
  }

  /** Text beginning with `_` or `\_` blocks a safe pattern from running into it. */
  predicate Blocks(x: string) {
    (|x| > 0 && x[0] == '_') || (|x| > 1 && x[0] == '\\' && x[1] == '_')
  }

  /** `pat` is not a prefix of `y` when they differ at an index of `pat`. */
  lemma Mismatch(pat: string, y: string, j: nat)
    requires j < |pat| && (j >= |y| || pat[j] != y[j])
    ensures !(pat <= y)
  {
  }

  lemma MatchBeforeBlock(e: string, x: string, pat: string, i: nat)
    requires SafePattern(pat) && Blocks(x) && i < |e|
    ensures MatchAt(e + x, pat, i) <==> (i + |pat| <= |e| && pat <= e[i..])
  {
    var t := e + x;
    var y := t[i..];
    var j := |e| - i;
    if i + |pat| > |e| {
      assert y[j] == x[0];
      if x[0] == '_' {
        assert pat[j] in pat;
        Mismatch(pat, y, j);
      } else if j + 1 < |pat| {
        assert y[j + 1] == x[1];
        assert pat[j + 1] in pat;
        Mismatch(pat, y, j + 1);
      } else {
        Mismatch(pat, y, j);
      }
    } else {
      assert y[..|pat|] == e[i..][..|pat|];
    }
  }

  lemma {:induction false} OccurrencesSame(t1: string, t2: string, pat: string, a: nat, b: nat)
    requires forall i :: a <= i < b ==> (MatchAt(t1, pat, i) <==> MatchAt(t2, pat, i))
    ensures Occurrences(t1, pat, a, b) == Occurrences(t2, pat, a, b)
    decreases b - a
  {
    if a < b { OccurrencesSame(t1, t2, pat, a + 1, b); }
  }

  /** A safe pattern does not occur at an underscore, nor at a backslash just before one. */
  lemma NoMatchAtBlock(x: string, pat: string)
    requires SafePattern(pat) && Blocks(x)
    ensures !(pat <= x)
  {
    if x[0] == '_' {
      assert pat[0] in pat;
      Mismatch(pat, x, 0);
    } else if |pat| == 1 {
      Mismatch(pat, x, 0);
    } else {
      assert pat[1] in pat;
      Mismatch(pat, x, 1);
    }
  }

  /**
   * Counting a safe delimiter in the rewritten text before the shifted index gives the count in
   * the input before the original index, whichever underscores are escaped.
   */
  lemma {:induction false} CountsPreserved(s: string, m: seq<bool>, p: nat, pat: string)
    requires p <= |s| && |m| == |s| && SafePattern(pat)
    ensures Occurrences(Escaped(s, m, p) + s[p..], pat, 0, |Escaped(s, m, p)|) == Occurrences(s, pat, 0, p)
  {
    if p > 0 {
      CountsPreserved(s, m, p - 1, pat);
      OccurrencesSplit(s, pat, 0, p - 1, p);
      CountsStep(s, m, p - 1, pat);
    }
  }

  /** One more character of the input: the count in the rewritten text grows by the count at that index. */
  lemma CountsStep(s: string, m: seq<bool>, p: nat, pat: string)
    requires p < |s| && |m| == |s| && SafePattern(pat)
    ensures Occurrences(Escaped(s, m, p + 1) + s[p + 1..], pat, 0, |Escaped(s, m, p + 1)|)
            == Occurrences(Escaped(s, m, p) + s[p..], pat, 0, |Escaped(s, m, p)|) + Occurrences(s, pat, p, p + 1)
  {
    if !(s[p] == '_' && m[p]) {
      CountsStepKept(s, m, p, pat);
    } else {
      CountsStepInserted(s, m, p, pat);
    }
  }

  /** A character copied as it is: the text is the same, one more index is counted. */
  lemma CountsStepKept(s: string, m: seq<bool>, p: nat, pat: string)
    requires p < |s| && |m| == |s| && !(s[p] == '_' && m[p])
    ensures var e := Escaped(s, m, p);
            Occurrences(Escaped(s, m, p + 1) + s[p + 1..], pat, 0, |e| + 1)
            == Occurrences(e + s[p..], pat, 0, |e|) + Occurrences(s, pat, p, p + 1)
  {
    var e := Escaped(s, m, p);
    KeptPiece(s, m, p);
    AppendOne(e, s, p);
    CountsOneMore(e, s, p, pat);
  }

  /** Counting one index further in `e + s[p..]` adds the count at index `p` of `s`. */
  lemma CountsOneMore(e: string, s: string, p: nat, pat: string)
    requires p < |s|
    ensures Occurrences(e + s[p..], pat, 0, |e| + 1)
            == Occurrences(e + s[p..], pat, 0, |e|) + Occurrences(s, pat, p, p + 1)
  {
    var t := e + s[p..];
    OccurrencesSplit(t, pat, 0, |e|, |e| + 1);
    assert t[|e|..] == s[p..];
  }

  /** An escaped underscore: neither the `\` nor the `_` starts a delimiter, and none runs into them. */
  lemma CountsStepInserted(s: string, m: seq<bool>, p: nat, pat: string)
    requires p < |s| && |m| == |s| && SafePattern(pat) && s[p] == '_' && m[p]
    ensures var e := Escaped(s, m, p);
            Occurrences(Escaped(s, m, p + 1) + s[p + 1..], pat, 0, |e| + 2)
            == Occurrences(e + s[p..], pat, 0, |e|) + Occurrences(s, pat, p, p + 1)
  {
    InsertedPiece(s, m, p);
    InsertedCounts(Escaped(s, m, p), s, p, pat);
  }

  /** The same, for any text `e` written before the underscore at index `p` of `s`. */
  lemma InsertedCounts(e: string, s: string, p: nat, pat: string)
    requires p < |s| && SafePattern(pat) && s[p] == '_'
    ensures Occurrences((e + "\\_") + s[p + 1..], pat, 0, |e| + 2)
            == Occurrences(e + s[p..], pat, 0, |e|) + Occurrences(s, pat, p, p + 1)
  {
    var prev := e + s[p..];
    var t := (e + "\\_") + s[p + 1..];
    var x := "\\_" + s[p + 1..];
    assert t == e + x;
    OccurrencesSplit(t, pat, 0, |e|, |e| + 2);
    OccurrencesSplit(t, pat, |e|, |e| + 1, |e| + 2);
    assert t[|e|..] == x;
    assert t[|e| + 1..] == s[p..];
    NoMatchAtBlock(x, pat);
    NoMatchAtBlock(s[p..], pat);
    forall i | 0 <= i < |e| ensures MatchAt(t, pat, i) <==> MatchAt(prev, pat, i) {
      MatchBeforeBlock(e, x, pat, i);
      MatchBeforeBlock(e, s[p..], pat, i);
    }
    OccurrencesSame(t, prev, pat, 0, |e|);
  }

  /** The five parity tests come out the same on the rewritten text as on the input. */
  lemma OutsidePreserved(s: string, m: seq<bool>, p: nat)
    requires p <= |s| && |m| == |s|
    ensures OutsideAt(Escaped(s, m, p) + s[p..], |Escaped(s, m, p)|) == OutsideAt(s, p)
  {
    DelimitersSafe();
    var t, loc := Escaped(s, m, p) + s[p..], |Escaped(s, m, p)|;
    CountsPreserved(s, m, p, Dollar);
    CountsPreserved(s, m, p, BeginEquation);
    CountsPreserved(s, m, p, EndEquation);
    CountsPreserved(s, m, p, BeginEquationStar);
    CountsPreserved(s, m, p, EndEquationStar);
    CountsPreserved(s, m, p, BeginEqnarray);
    CountsPreserved(s, m, p, EndEqnarray);
    CountsPreserved(s, m, p, ProtectStart);
    CountsPreserved(s, m, p, ProtectEnd);
    SameCountsSameTest(t, loc, s, p);
  }

  /** Two places where every delimiter has the same count get the same answer. */
  lemma SameCountsSameTest(t: string, a: nat, s: string, b: nat)
    requires Occurrences(t, Dollar, 0, a) == Occurrences(s, Dollar, 0, b)
    requires Occurrences(t, BeginEquation, 0, a) == Occurrences(s, BeginEquation, 0, b)
    requires Occurrences(t, EndEquation, 0, a) == Occurrences(s, EndEquation, 0, b)
    requires Occurrences(t, BeginEquationStar, 0, a) == Occurrences(s, BeginEquationStar, 0, b)
    requires Occurrences(t, EndEquationStar, 0, a) == Occurrences(s, EndEquationStar, 0, b)
    requires Occurrences(t, BeginEqnarray, 0, a) == Occurrences(s, BeginEqnarray, 0, b)
    requires Occurrences(t, EndEqnarray, 0, a) == Occurrences(s, EndEqnarray, 0, b)
    requires Occurrences(t, ProtectStart, 0, a) == Occurrences(s, ProtectStart, 0, b)
    requires Occurrences(t, ProtectEnd, 0, a) == Occurrences(s, ProtectEnd, 0, b)
    ensures OutsideAt(t, a) == OutsideAt(s, b)
  {
  }

  // ---------------------------------------------------------------- what the pass does

  lemma {:induction false} OccurrencesAbsent(s: string, pat: string, a: nat, b: nat)
    requires !Contains(s, pat)
    ensures Occurrences(s, pat, a, b) == 0
    decreases b - a
  {
    if a < b { OccurrencesAbsent(s, pat, a + 1, b); }
  }

  /** No delimiter anywhere in the text. */
  predicate NoDelimiters(s: string) {
    !Contains(s, Dollar) && !Contains(s, BeginEquation) && !Contains(s, EndEquation)
    && !Contains(s, BeginEquationStar) && !Contains(s, EndEquationStar)
    && !Contains(s, BeginEqnarray) && !Contains(s, EndEqnarray)
    && !Contains(s, ProtectStart) && !Contains(s, ProtectEnd)
  }

  /** Without math or protected blocks, every underscore is escaped: the pass is `replace('_', '\\_')`. */
  lemma UnderscoresAllEscaped(s: string)
    requires NoDelimiters(s)
    ensures UnderscoreEscaped(s) == ReplaceAll(s, "_", "\\_")
  {
    EscapedAllReplaced(s, |s|);
    assert s[..|s|] == s;
  }

  /** Without delimiters the test passes at every index. */
  lemma OutsideEverywhere(s: string, p: nat)
    requires NoDelimiters(s)
    ensures OutsideAt(s, p)
  {
    OccurrencesAbsent(s, Dollar, 0, p);
    OccurrencesAbsent(s, BeginEquation, 0, p);
    OccurrencesAbsent(s, EndEquation, 0, p);
    OccurrencesAbsent(s, BeginEquationStar, 0, p);
    OccurrencesAbsent(s, EndEquationStar, 0, p);
    OccurrencesAbsent(s, BeginEqnarray, 0, p);
    OccurrencesAbsent(s, EndEqnarray, 0, p);
    OccurrencesAbsent(s, ProtectStart, 0, p);
    OccurrencesAbsent(s, ProtectEnd, 0, p);
  }

  lemma {:induction false} EscapedAllReplaced(s: string, j: nat)
    requires NoDelimiters(s) && j <= |s|
    ensures Escaped(s, Mask(s), j) == ReplaceAll(s[..j], "_", "\\_")
  {
    if j > 0 {
      EscapedAllReplaced(s, j - 1);
      var p := j - 1;
      OutsideEverywhere(s, p);
      MaskAt(s, p);
      assert s[..j] == s[..p] + [s[p]];
      Escape.ReplaceCharAppend(s[..p], [s[p]], '_', "\\_");
      Escape.ReplaceCharOne(s[p], '_', "\\_");
    }
  }

  /** An odd number of `$` before index `p`: the index lies inside inline math. */
  predicate InMath(s: string, p: nat) {
    !Even(Occurrences(s, Dollar, 0, p))
  }

  /** Underscores all inside inline math (an odd number of `$` before each) are left alone. */
  lemma UnderscoresInMathKept(s: string)
    requires forall p :: 0 <= p < |s| && s[p] == '_' ==> InMath(s, p)
    ensures UnderscoreEscaped(s) == s
  {
    EscapedInMathKept(s, |s|);
    assert s[..|s|] == s;
  }

  lemma {:induction false} EscapedInMathKept(s: string, j: nat)
    requires j <= |s|
    requires forall p :: 0 <= p < |s| && s[p] == '_' ==> InMath(s, p)
    ensures Escaped(s, Mask(s), j) == s[..j]
  {
    if j > 0 {
      EscapedInMathKept(s, j - 1);
      MaskAt(s, j - 1);
      KeptPiece(s, Mask(s), j - 1);
      PrefixExtend(s, j);
    }
  }
}
