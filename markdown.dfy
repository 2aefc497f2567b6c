/**
 * The markdown cell (ipnb2tex.py:931-1007): a pass that turns `$$` into equation environments,
 * a pass that protects the math spans from the markdown translator by backslash-escaping its
 * special characters, then the translator and the tree walk.
 */
module Markdown {
  import opened Wrappers
  import opened Text
  import opened Metadata
  import opened Bib
  import opened Tree
  import Walk
  import Escape

  // ---------------------------------------------------------------- the `$$` pass

  /** The number of `$` characters in `s`. */
  function DollarCount(s: string): nat {
    if s == [] then 0 else (if s[0] == '$' then 1 else 0) + DollarCount(s[1..])
  }

  /** The `i`-th `$$` met in the cell opens an equation when `i` is even and closes it when odd. */
  function Delimiter(i: nat): (d: string)
    ensures '$' !in d && '\n' !in d
  {
    if i % 2 == 0 then "\\begin{equation}" else "\\end{equation}"
  }

  /** Replacing the first `$$` by a text without `$` removes exactly two `$`. */
  lemma {:induction false} ReplaceFirstDollars(s: string, rep: string)
    requires '$' !in rep && Contains(s, "$$")
    ensures DollarCount(ReplaceFirst(s, "$$", rep)) + 2 == DollarCount(s)
    decreases |s|
  {
    NoDollarCount(rep);
    if "$$" <= s {
      assert s == "$$" + s[2..];
      DollarCountConcat("$$", s[2..]);
      DollarCountConcat(rep, s[2..]);
    } else {
      var i :| MatchAt(s, "$$", i);
      assert i > 0;
      assert s[1..][i - 1..] == s[i..];
      assert MatchAt(s[1..], "$$", i - 1);
      ReplaceFirstDollars(s[1..], rep);
      DollarCountConcat([s[0]], ReplaceFirst(s[1..], "$$", rep));
    }
  }

  lemma {:induction false} DollarCountConcat(a: string, b: string)
    ensures DollarCount(a + b) == DollarCount(a) + DollarCount(b)
  {
    if a == [] {
      assert a + b == b;
    } else {
      assert (a + b)[1..] == a[1..] + b;
      DollarCountConcat(a[1..], b);
    }
  }

  lemma {:induction false} NoDollarCount(s: string)
    requires '$' !in s
    ensures DollarCount(s) == 0
  {
    if s != [] {
      NoDollarCount(s[1..]);
    }
  }

  /**
   * The `while '$$' in line` loop (ipnb2tex.py:957-960) on one line, with the counter `i` shared
   * by the whole cell: each `$$` in turn, leftmost first, becomes the delimiter the counter
   * selects.  No `$$` is left; the counter grows by the number of replacements.
   */
  function LineDollars(line: string, i: nat): (r: (string, nat))
    ensures !Contains(r.0, "$$") && r.1 >= i
    ensures !Contains(line, "$$") ==> r == (line, i)
    decreases DollarCount(line)
  {
    if Contains(line, "$$") then
      ReplaceFirstDollars(line, Delimiter(i));
      LineDollars(ReplaceFirst(line, "$$", Delimiter(i)), i + 1)
    else (line, i)
  }

  /** Markdown's indented code: a line opening with four spaces. */
  predicate IsVerbatimLine(line: string) {
    Slice(line, 0, 4) == "    "
  }

  /** The test as written: a slice of at most four characters compared with eight spaces. */
  predicate IsVerbatimLineAsWritten(line: string) {
    Slice(line, 0, 4) == "        "
  }

  /** The test as written holds for no line, so code lines are never left alone. */
  lemma VerbatimTestNeverHolds(line: string)
    ensures !IsVerbatimLineAsWritten(line)
  {
    var t := Slice(line, 0, 4);
    assert |t| <= 4;
    assert |"        "| == 8;
  }

  /** The lines from the `k`-th on, with the counter at `i`; `asWritten` selects the verbatim test. */
  function LinesDollars(lines: seq<string>, k: nat, i: nat, acc: seq<string>, asWritten: bool): (r: (seq<string>, nat))
    requires k <= |lines|
    ensures |r.0| == |acc| + |lines| - k && r.0[..|acc|] == acc
    decreases |lines| - k
  {
    if k == |lines| then (acc, i)
    else if (if asWritten then IsVerbatimLineAsWritten(lines[k]) else IsVerbatimLine(lines[k])) then
      LinesDollars(lines, k + 1, i, acc + [lines[k]], asWritten)
    else
      var next := LineDollars(lines[k], i);
      var r := LinesDollars(lines, k + 1, next.1, acc + [next.0], asWritten);
      assert r.0[..|acc|] == (acc + [next.0])[..|acc|];
      r
  }

  /**
   * The `$$` pass as written (ipnb2tex.py:946-964): when the cell holds a `$$`, every line has
   * each `$$` replaced in turn, the counter running on across lines, since the test meant to
   * spare indented code never holds.
   */
  function DollarPass(mkd: string): string {
    if |FindAll(mkd, "$$")| > 0 then Join('\n', LinesDollars(Split(mkd, '\n'), 0, 0, [], true).0) else mkd
  }

  /** The pass as intended, where an indented code line is kept as it is. */
  function DollarPassIntended(mkd: string): string {
    if |FindAll(mkd, "$$")| > 0 then Join('\n', LinesDollars(Split(mkd, '\n'), 0, 0, [], false).0) else mkd
  }

  /** As written, every line is left without `$$`, and no line is added or lost. */
  lemma {:induction false} LinesDollarsAsWritten(lines: seq<string>, k: nat, i: nat, acc: seq<string>)
    requires k <= |lines|
    ensures var r := LinesDollars(lines, k, i, acc, true).0;
            forall j :: |acc| <= j < |r| ==> !Contains(r[j], "$$")
    decreases |lines| - k
  {
    if k < |lines| {
      var next := LineDollars(lines[k], i);
      var acc' := acc + [next.0];
      VerbatimTestNeverHolds(lines[k]);
      LinesUnfold(lines, k, i, acc, true);
      LinesDollarsAsWritten(lines, k + 1, next.1, acc');
      var r := LinesDollars(lines, k + 1, next.1, acc', true).0;
      assert r == LinesDollars(lines, k, i, acc, true).0;
      assert r[..|acc'|] == acc';
      assert r[|acc|] == acc'[|acc|] == next.0;
    }
  }

  /** What the intended pass makes of one line: a code line is kept, any other is left without `$$`. */
  predicate KeptOrCleared(line: string, out: string) {
    (IsVerbatimLine(line) ==> out == line) && (!IsVerbatimLine(line) ==> !Contains(out, "$$"))
  }

  /**
   * Code lines are kept as they are, every other line is left without `$$`, and no line is added
   * or lost: output line `j` comes from input line `j - |acc| + k`.
   */
  lemma {:induction false} LinesDollarsSpec(lines: seq<string>, k: nat, i: nat, acc: seq<string>)
    requires k <= |lines|
    ensures var r := LinesDollars(lines, k, i, acc, false).0;
            forall j :: |acc| <= j < |r| ==> KeptOrCleared(lines[j - |acc| + k], r[j])
    decreases |lines| - k
  {
    if k < |lines| {
      var verbatim := IsVerbatimLine(lines[k]);
      var line := if verbatim then lines[k] else LineDollars(lines[k], i).0;
      var i' := if verbatim then i else LineDollars(lines[k], i).1;
      var acc' := acc + [line];
      LinesUnfold(lines, k, i, acc, false);
      LinesDollarsSpec(lines, k + 1, i', acc');
      var r := LinesDollars(lines, k + 1, i', acc', false).0;
      assert r == LinesDollars(lines, k, i, acc, false).0;
      assert r[..|acc'|] == acc';
      assert r[|acc|] == acc'[|acc|] == line;
      assert KeptOrCleared(lines[k], line);
      forall j | |acc| <= j < |r|
        ensures KeptOrCleared(lines[j - |acc| + k], r[j])
      {
        if j > |acc| {
          assert j - |acc'| + (k + 1) == j - |acc| + k;
        }
      }
    }
  }

  lemma LinesUnfold(lines: seq<string>, k: nat, i: nat, acc: seq<string>, asWritten: bool)
    requires k < |lines|
    ensures LinesDollars(lines, k, i, acc, asWritten)
            == if (if asWritten then IsVerbatimLineAsWritten(lines[k]) else IsVerbatimLine(lines[k]))
               then LinesDollars(lines, k + 1, i, acc + [lines[k]], asWritten)
               else LinesDollars(lines, k + 1, LineDollars(lines[k], i).1, acc + [LineDollars(lines[k], i).0], asWritten)
  {
  }

  /** As written, every line goes through the replacement loop. */
  lemma LinesStepAsWritten(lines: seq<string>, k: nat, i: nat, acc: seq<string>)
    requires k < |lines|
    ensures LinesDollars(lines, k, i, acc, true)
            == LinesDollars(lines, k + 1, LineDollars(lines[k], i).1, acc + [LineDollars(lines[k], i).0], true)
  {
    VerbatimTestNeverHolds(lines[k]);
    LinesUnfold(lines, k, i, acc, true);
  }

  /** The leftmost `$$` is the one replaced, by the delimiter the counter selects. */
  lemma {:induction false} ReplaceFirstAfter(p: string, q: string, d: string)
    requires '$' !in p
    ensures ReplaceFirst(p + "$$" + q, "$$", d) == p + d + q
  {
    if p == [] {
      assert p + "$$" + q == "$$" + q;
      assert ("$$" + q)[2..] == q;
    } else {
      var t := p + "$$" + q;
      assert t[0] == p[0] && p[0] in p;
      assert !("$$" <= t);
      assert t[1..] == p[1..] + "$$" + q;
      ReplaceFirstAfter(p[1..], q, d);
    }
  }

  /** A line with `$$` after a part without `$` continues, counter advanced, from the line with that `$$` replaced. */
  lemma LineDollarsStep(p: string, q: string, i: nat)
    requires '$' !in p
    ensures LineDollars(p + "$$" + q, i) == LineDollars(p + Delimiter(i) + q, i + 1)
  {
    var line := p + "$$" + q;
    assert line[|p|..] == "$$" + q;
    assert MatchAt(line, "$$", |p|);
    ReplaceFirstAfter(p, q, Delimiter(i));
  }

  lemma NoDoubleDollar(s: string)
    requires '$' !in s
    ensures !Contains(s, "$$")
  {
    forall j | 0 <= j <= |s| ensures !("$$" <= s[j..]) {
      if |s[j..]| >= 2 {
        assert s[j..][0] == s[j] && s[j] in s;
      }
    }
  }

  /** A line with one `$$` gets the delimiter the counter selects in its place, and the counter moves on by one. */
  lemma OneDelimiter(p: string, q: string, i: nat)
    requires '$' !in p && '$' !in q
    ensures LineDollars(p + "$$" + q, i) == (p + Delimiter(i) + q, i + 1)
  {
    LineDollarsStep(p, q, i);
    var t := p + Delimiter(i) + q;
    assert '$' !in t by {
      forall j | 0 <= j < |t| ensures t[j] != '$' {
        if j < |p| {
          assert t[j] == p[j] && p[j] in p;
        } else if j < |p| + |Delimiter(i)| {
          assert t[j] == Delimiter(i)[j - |p|] && Delimiter(i)[j - |p|] in Delimiter(i);
        } else {
          assert t[j] == q[j - |p| - |Delimiter(i)|] && q[j - |p| - |Delimiter(i)|] in q;
        }
      }
    }
    NoDoubleDollar(t);
  }

  /**
   * An indented code line with one `$$` shows the difference: as written its `$$` is replaced,
   * corrected the line is kept.
   */
  lemma VerbatimLineRewritten(q: string)
    requires '$' !in q
    ensures LinesDollars(["    " + "$$" + q], 0, 0, [], true).0 == ["    " + Delimiter(0) + q]
    ensures LinesDollars(["    " + "$$" + q], 0, 0, [], false).0 == ["    " + "$$" + q]
  {
    var line := "    " + "$$" + q;
    VerbatimTestNeverHolds(line);
    OneDelimiter("    ", q, 0);
    LinesUnfold([line], 0, 0, [], true);
    LinesUnfold([line], 0, 0, [], false);
    assert Slice(line, 0, 4) == line[..4] == "    ";
  }

  /**
   * The counter runs on across lines: of two lines with one `$$` each, the first gets the
   * delimiter the counter selects and the second the other one.
   */
  lemma SharedCounter(p1: string, q1: string, p2: string, q2: string, i: nat)
    requires '$' !in p1 && '$' !in q1 && '$' !in p2 && '$' !in q2
    ensures LinesDollars([p1 + "$$" + q1, p2 + "$$" + q2], 0, i, [], true).0
            == [p1 + Delimiter(i) + q1, p2 + Delimiter(i + 1) + q2]
    ensures Delimiter(i) != Delimiter(i + 1)
  {
    var lines := [p1 + "$$" + q1, p2 + "$$" + q2];
    var first, second := p1 + Delimiter(i) + q1, p2 + Delimiter(i + 1) + q2;
    assert LinesDollars(lines, 0, i, [], true) == LinesDollars(lines, 1, i + 1, [first], true) by {
      OneDelimiter(p1, q1, i);
      LinesStepAsWritten(lines, 0, i, []);
      assert [] + [first] == [first];
    }
    assert LinesDollars(lines, 1, i + 1, [first], true) == ([first, second], i + 2) by {
      OneDelimiter(p2, q2, i + 1);
      LinesStepAsWritten(lines, 1, i + 1, [first]);
      assert [first] + [second] == [first, second];
    }
    DelimitersAlternate(i);
  }

  /** Consecutive `$$` get different delimiters: one opens, the next closes. */
  lemma DelimitersAlternate(i: nat)
    ensures Delimiter(i) != Delimiter(i + 1)
  {
    var b, e := "\\begin{equation}", "\\end{equation}";
    assert b[1] != e[1];
    if i % 2 == 0 {
      assert (i + 1) % 2 == 1;
    } else {
      assert (i + 1) % 2 == 0;
    }
  }

  /** The `$$` pass on the cell object: the loop over lines, and the replacement loop inside each. */
  method DollarPassOf(mkd: string) returns (r: string)
    ensures r == DollarPass(mkd)
  {
    var ddollars := FindAll(mkd, "$$");
    if |ddollars| == 0 {
      return mkd;
    }
    var lines := Split(mkd, '\n');
    var i := 0;
    var nlines := [];
    for k := 0 to |lines|
      invariant LinesDollars(lines, 0, 0, [], true) == LinesDollars(lines, k, i, nlines, true)
    {
      var line := lines[k];
      if IsVerbatimLineAsWritten(line) {
        nlines := nlines + [line];
      } else {
        ghost var start := (line, i);
        while Contains(line, "$$")
          invariant LineDollars(start.0, start.1) == LineDollars(line, i)
          decreases DollarCount(line)
        {
          ReplaceFirstDollars(line, Delimiter(i));
          line := ReplaceFirst(line, "$$", Delimiter(i));
          i := i + 1;
        }
        nlines := nlines + [line];
      }
    }
    r := Join('\n', nlines);
  }

  // ---------------------------------------------------------------- math spans

  type Span = (nat, nat)

  /** `xs[::2]`. */
  function Evens(xs: seq<nat>): (r: seq<nat>)
    ensures |r| == (|xs| + 1) / 2 && forall k :: 0 <= k < |r| ==> r[k] == xs[2 * k]
  {
    if |xs| == 0 then [] else if |xs| == 1 then [xs[0]] else [xs[0]] + Evens(xs[2..])
  }

  /** `xs[1::2]`. */
  function Odds(xs: seq<nat>): (r: seq<nat>)
    ensures |r| == |xs| / 2 && forall k :: 0 <= k < |r| ==> r[k] == xs[2 * k + 1]
  {
    if |xs| < 2 then [] else [xs[1]] + Odds(xs[2..])
  }

  /** `zip(a, b)`: pairs up to the shorter of the two. */
  function Zip(a: seq<nat>, b: seq<nat>): (r: seq<Span>)
    ensures |r| == if |a| < |b| then |a| else |b|
    ensures forall k :: 0 <= k < |r| ==> r[k] == (a[k], b[k])
  {
    if a == [] || b == [] then [] else [(a[0], b[0])] + Zip(a[1..], b[1..])
  }

  /** More starts than ends: the last start is dropped. */
  function DropUnmatched(starts: seq<nat>, ends: seq<nat>): seq<nat> {
    if |starts| > |ends| then starts[..|starts| - 1] else starts
  }

  function Shift(xs: seq<nat>, d: nat): (r: seq<nat>)
    ensures |r| == |xs| && forall k :: 0 <= k < |r| ==> r[k] == xs[k] + d
  {
    seq(|xs|, k requires 0 <= k < |xs| => xs[k] + d)
  }

  /** The `$` spans (ipnb2tex.py:966-971): the `$` signs paired in order, the first with the second and so on. */
  function DollarSpans(mkd: string): seq<Span> {
    var d := FindAll(mkd, "$");
    Zip(DropUnmatched(Evens(d), Odds(d)), Odds(d))
  }

  /** Every `$` but an unpaired last one is in exactly one span, each span from one `$` to the next. */
  lemma DollarSpansPaired(mkd: string)
    ensures var d := FindAll(mkd, "$");
            var r := DollarSpans(mkd);
            |r| == |d| / 2 && forall k :: 0 <= k < |r| ==> r[k] == (d[2 * k], d[2 * k + 1])
  {
  }

  /**
   * An environment's spans (ipnb2tex.py:973-992): each `open` paired in order with a `close`,
   * the span ending `width` characters after the start of `close`, at its closing brace.
   */
  function EnvSpans(mkd: string, open: string, close: string, width: nat): seq<Span> {
    var ends := Shift(FindAll(mkd, close), width);
    Zip(DropUnmatched(FindAll(mkd, open), ends), ends)
  }

  /** The lexicographic order of Python's tuples. */
  predicate SpanLe(a: Span, b: Span) {
    a.0 < b.0 || (a.0 == b.0 && a.1 <= b.1)
  }

  predicate Sorted(xs: seq<Span>) {
    forall i, j :: 0 <= i < j < |xs| ==> SpanLe(xs[i], xs[j])
  }

  function Insert(x: Span, xs: seq<Span>): seq<Span> {
    if xs == [] then [x] else if SpanLe(x, xs[0]) then [x] + xs else [xs[0]] + Insert(x, xs[1..])
  }

  /** `sorted(xs)`. */
  function Sort(xs: seq<Span>): seq<Span> {
    if xs == [] then [] else Insert(xs[0], Sort(xs[1..]))
  }

  lemma {:induction false} InsertMultiset(x: Span, xs: seq<Span>)
    ensures multiset(Insert(x, xs)) == multiset(xs) + multiset{x}
  {
    if xs != [] && !SpanLe(x, xs[0]) {
      InsertMultiset(x, xs[1..]);
      assert xs == [xs[0]] + xs[1..];
    }
  }

  lemma {:induction false} InsertSorted(x: Span, xs: seq<Span>)
    requires Sorted(xs)
    ensures Sorted(Insert(x, xs))
  {
    if xs != [] && !SpanLe(x, xs[0]) {
      var rest := Insert(x, xs[1..]);
      InsertSorted(x, xs[1..]);
      InsertMultiset(x, xs[1..]);
      forall j | 0 <= j < |rest| ensures SpanLe(xs[0], rest[j]) {
        assert rest[j] in multiset(rest);
        if rest[j] != x {
          assert rest[j] in multiset(xs[1..]);
          var m :| 0 <= m < |xs[1..]| && xs[1..][m] == rest[j];
          assert xs[1 + m] == rest[j];
        }
      }
      assert Insert(x, xs) == [xs[0]] + rest;
    }
  }

  /** `sorted` returns its argument in order. */
  lemma {:induction false} SortSpec(xs: seq<Span>)
    ensures Sorted(Sort(xs)) && multiset(Sort(xs)) == multiset(xs)
  {
    if xs != [] {
      SortSpec(xs[1..]);
      InsertSorted(xs[0], Sort(xs[1..]));
      InsertMultiset(xs[0], Sort(xs[1..]));
      assert xs == [xs[0]] + xs[1..];
    }
  }

  /** All spans of the cell, sorted after each kind is added (ipnb2tex.py:971-992). */
  function MathSpans(mkd: string): seq<Span> {
    var d := DollarSpans(mkd);
    var e := EnvSpans(mkd, "\n\\begin{equation}", "\\end{equation}", 13);
    var s := EnvSpans(mkd, "\n\\begin{equation*}", "\\end{equation*}", 14);
    var n := EnvSpans(mkd, "\n\\begin{eqnarray}", "\\end{eqnarray}", 13);
    Sort(Sort(Sort(d + e) + s) + n)
  }

  /** The spans come out in order, each span found exactly once. */
  lemma MathSpansSorted(mkd: string)
    ensures Sorted(MathSpans(mkd))
    ensures multiset(MathSpans(mkd))
            == multiset(DollarSpans(mkd) + EnvSpans(mkd, "\n\\begin{equation}", "\\end{equation}", 13)
                        + EnvSpans(mkd, "\n\\begin{equation*}", "\\end{equation*}", 14)
                        + EnvSpans(mkd, "\n\\begin{eqnarray}", "\\end{eqnarray}", 13))
  {
    var d := DollarSpans(mkd);
    var e := EnvSpans(mkd, "\n\\begin{equation}", "\\end{equation}", 13);
    var s := EnvSpans(mkd, "\n\\begin{equation*}", "\\end{equation*}", 14);
    var n := EnvSpans(mkd, "\n\\begin{eqnarray}", "\\end{eqnarray}", 13);
    SortSpec(d + e);
    SortSpec(Sort(d + e) + s);
    SortSpec(Sort(Sort(d + e) + s) + n);
  }

  // ---------------------------------------------------------------- escaping inside a span

  /** The characters markdown would act on, escaped in this order. */
  const Escapable: string := "\\`*_{}[]()#+-.!"

  /** A character of `Escapable`, written out. */
  predicate IsEscapable(c: char) {
    c == '\\' || c == '`' || c == '*' || c == '_' || c == '{' || c == '}' || c == '[' || c == ']'
    || c == '(' || c == ')' || c == '#' || c == '+' || c == '-' || c == '.' || c == '!'
  }

  lemma EscapableChars(c: char)
    ensures IsEscapable(c) <==> c in Escapable
  {
  }

  /** The replacements from the `k`-th character of `Escapable` on, one after the other. */
  function EscapeFrom(s: string, k: nat): string
    requires k <= |Escapable|
    decreases |Escapable| - k
  {
    if k == |Escapable| then s
    else EscapeFrom(ReplaceAll(s, [Escapable[k]], ['\\', Escapable[k]]), k + 1)
  }

  /** A span as the loop leaves it (ipnb2tex.py:1000-1003): the characters escaped, then newlines removed. */
  function CleanSpan(s: string): string {
    ReplaceAll(EscapeFrom(s, 0), "\n", "")
  }

  /** The same, character by character: newlines go, markdown's characters get a backslash, the rest stay. */
  function CleanRef(s: string): string {
    if s == [] then ""
    else (if s[0] == '\n' then "" else if IsEscapable(s[0]) then ['\\', s[0]] else [s[0]]) + CleanRef(s[1..])
  }

  /** The text after the first `k` replacements: the characters `Escapable[..k]` escaped, the rest kept. */
  function Partial(s: string, k: nat): string
    requires k <= |Escapable|
  {
    if s == [] then ""
    else (if s[0] in Escapable[..k] then ['\\', s[0]] else [s[0]]) + Partial(s[1..], k)
  }

  /** The `k`-th replacement turns the text after `k` replacements into the text after `k + 1`. */
  lemma {:induction false} PartialStep(s: string, k: nat)
    requires k < |Escapable|
    ensures ReplaceAll(Partial(s, k), [Escapable[k]], ['\\', Escapable[k]]) == Partial(s, k + 1)
  {
    if s != [] {
      var c := Escapable[k];
      var x := s[0];
      var piece := if x in Escapable[..k] then ['\\', x] else [x];
      Escape.ReplaceCharAppend(piece, Partial(s[1..], k), c, ['\\', c]);
      PartialStep(s[1..], k);
      assert Escapable[..k + 1] == Escapable[..k] + [c];
      if x in Escapable[..k] {
        assert x != c && (k > 0 ==> c != '\\');
        Escape.ReplaceCharAbsent(piece, c, ['\\', c]);
      }
    }
  }

  lemma {:induction false} EscapeFromPartial(s: string, k: nat)
    requires k <= |Escapable|
    ensures EscapeFrom(Partial(s, k), k) == Partial(s, |Escapable|)
    decreases |Escapable| - k
  {
    if k < |Escapable| {
      PartialStep(s, k);
      EscapeFromPartial(s, k + 1);
    }
  }

  lemma {:induction false} PartialNone(s: string)
    ensures Partial(s, 0) == s
  {
    if s != [] {
      PartialNone(s[1..]);
    }
  }

  lemma {:induction false} DropNewlines(s: string)
    ensures ReplaceAll(Partial(s, |Escapable|), "\n", "") == CleanRef(s)
  {
    if s != [] {
      var x := s[0];
      var piece := if x in Escapable then ['\\', x] else [x];
      assert Escapable[..|Escapable|] == Escapable;
      EscapableChars(x);
      Escape.ReplaceCharAppend(piece, Partial(s[1..], |Escapable|), '\n', "");
      DropNewlines(s[1..]);
      if x != '\n' {
        Escape.ReplaceCharAbsent(piece, '\n', "");
      }
    }
  }

  /** The characters escaped one after the other end up escaped once each, as if by one pass over the span. */
  lemma CleanSpanRef(s: string)
    ensures CleanSpan(s) == CleanRef(s)
  {
    PartialNone(s);
    EscapeFromPartial(s, 0);
    DropNewlines(s);
  }

  /** A cleaned span is one line. */
  lemma {:induction false} CleanRefOneLine(s: string)
    ensures '\n' !in CleanRef(s)
  {
    if s != [] {
      CleanRefOneLine(s[1..]);
      var piece := if s[0] == '\n' then "" else if IsEscapable(s[0]) then ['\\', s[0]] else [s[0]];
      assert CleanRef(s) == piece + CleanRef(s[1..]);
    }
  }

  /** Every markdown character other than a backslash follows a backslash. */
  predicate Escaped(r: string) {
    forall i :: 0 <= i < |r| && IsEscapable(r[i]) && r[i] != '\\' ==> i > 0 && r[i - 1] == '\\'
  }

  /** Every markdown character left in a cleaned span follows a backslash. */
  lemma {:induction false} CleanRefEscaped(s: string)
    ensures Escaped(CleanRef(s))
  {
    if s != [] {
      CleanRefEscaped(s[1..]);
      var piece := if s[0] == '\n' then "" else if IsEscapable(s[0]) then ['\\', s[0]] else [s[0]];
      var r, rest := CleanRef(s), CleanRef(s[1..]);
      assert r == piece + rest;
      assert Escaped(rest);
      forall i | 0 <= i < |r| && IsEscapable(r[i]) && r[i] != '\\'
        ensures i > 0 && r[i - 1] == '\\'
      {
        if i >= |piece| {
          var j := i - |piece|;
          assert r[i] == rest[j];
          assert IsEscapable(rest[j]) && rest[j] != '\\';
          assert j > 0 && rest[j - 1] == '\\';
          assert r[i - 1] == rest[j - 1];
        } else {
          assert r[i] == piece[i] && (i > 0 ==> r[i - 1] == piece[i - 1]);
          assert IsEscapable(piece[i]) && piece[i] != '\\';
          assert i == 1;
        }
      }
    }
  }

  /** The cleaning loop on one span. */
  method CleanSpanOf(s: string) returns (r: string)
    ensures r == CleanRef(s)
  {
    r := s;
    for k := 0 to |Escapable|
      invariant EscapeFrom(s, 0) == EscapeFrom(r, k)
    {
      r := ReplaceAll(r, [Escapable[k]], ['\\', Escapable[k]]);
    }
    r := ReplaceAll(r, "\n", "");
    CleanSpanRef(s);
  }

  // ---------------------------------------------------------------- rewriting the spans

  /**
   * The spans from the `k`-th on, after the text up to `next` has been written to `acc`: the
   * gap before each span as it is, the span cleaned, and the rest after the last span.
   */
  function RewriteFrom(mkd: string, spans: seq<Span>, k: nat, next: nat, acc: string): string
    requires k <= |spans|
    decreases |spans| - k
  {
    if k == |spans| then acc + Slice(mkd, next, |mkd|)
    else
      var span := spans[k];
      RewriteFrom(mkd, spans, k + 1, span.1 + 1, acc + Slice(mkd, next, span.0) + CleanRef(Slice(mkd, span.0, span.1 + 1)))
  }

  /** The span loop (ipnb2tex.py:994-1004), run only when there is a span. */
  function RewriteSpans(mkd: string, spans: seq<Span>): string {
    if spans == [] then mkd else RewriteFrom(mkd, spans, 0, 0, "")
  }

  /** One span inside the text: the text before and after it is kept, the span itself is cleaned. */
  lemma OneSpan(mkd: string, spans: seq<Span>)
    requires |spans| == 1 && spans[0].0 <= spans[0].1 < |mkd|
    ensures RewriteSpans(mkd, spans) == mkd[..spans[0].0] + CleanRef(mkd[spans[0].0..spans[0].1 + 1]) + mkd[spans[0].1 + 1..]
  {
    var a, b := spans[0].0, spans[0].1;
    var gap, cleaned, rest := Slice(mkd, 0, a), CleanRef(Slice(mkd, a, b + 1)), Slice(mkd, b + 1, |mkd|);
    assert RewriteSpans(mkd, spans) == "" + gap + cleaned + rest by {
      RewriteSome(mkd, spans);
      RewriteLast(mkd, spans, 0, "");
    }
    assert "" + gap == mkd[..a];
    assert cleaned == CleanRef(mkd[a..b + 1]) by {
      assert Slice(mkd, a, b + 1) == mkd[a..b + 1];
    }
    assert rest == mkd[b + 1..];
  }

  /** The last span: the gap before it, the span cleaned, then the rest of the text. */
  lemma RewriteLast(mkd: string, spans: seq<Span>, next: nat, acc: string)
    requires |spans| > 0
    ensures RewriteFrom(mkd, spans, |spans| - 1, next, acc)
            == acc + Slice(mkd, next, spans[|spans| - 1].0) + CleanRef(Slice(mkd, spans[|spans| - 1].0, spans[|spans| - 1].1 + 1))
               + Slice(mkd, spans[|spans| - 1].1 + 1, |mkd|)
  {
    var k := |spans| - 1;
    RewriteUnfold(mkd, spans, k, next, acc);
  }

  lemma RewriteSome(mkd: string, spans: seq<Span>)
    requires spans != []
    ensures RewriteSpans(mkd, spans) == RewriteFrom(mkd, spans, 0, 0, "")
  {
  }

  lemma RewriteUnfold(mkd: string, spans: seq<Span>, k: nat, next: nat, acc: string)
    requires k < |spans|
    ensures RewriteFrom(mkd, spans, k, next, acc)
            == RewriteFrom(mkd, spans, k + 1, spans[k].1 + 1, acc + Slice(mkd, next, spans[k].0) + CleanRef(Slice(mkd, spans[k].0, spans[k].1 + 1)))
  {
  }

  lemma RewriteCleaned(mkd: string, spans: seq<Span>, k: nat, next: nat, acc: string, gap: string, cleaned: string)
    requires k < |spans| && gap == Slice(mkd, next, spans[k].0)
    requires cleaned == CleanRef(Slice(mkd, spans[k].0, spans[k].1 + 1))
    ensures RewriteFrom(mkd, spans, k, next, acc) == RewriteFrom(mkd, spans, k + 1, spans[k].1 + 1, acc + gap + cleaned)
  {
    RewriteUnfold(mkd, spans, k, next, acc);
  }

  /** One pass of the span loop: the gap before the span, then the span cleaned. */
  method RewriteStep(mkd: string, spans: seq<Span>, k: nat, next: nat, acc: string) returns (acc': string, next': nat)
    requires k < |spans|
    ensures RewriteFrom(mkd, spans, k, next, acc) == RewriteFrom(mkd, spans, k + 1, next', acc')
  {
    var start, stop := spans[k].0, spans[k].1 + 1;
    var gap := Slice(mkd, next, start);
    var cleaned := CleanSpanOf(Slice(mkd, start, stop));
    RewriteCleaned(mkd, spans, k, next, acc, gap, cleaned);
    acc', next' := acc + gap + cleaned, stop;
  }

  /** The span loop on the cell's text. */
  method RewriteSpansOf(mkd: string, spans: seq<Span>) returns (r: string)
    ensures r == RewriteSpans(mkd, spans)
  {
    if spans == [] {
      return mkd;
    }
    var acc := "";
    var next := 0;
    for k := 0 to |spans|
      invariant RewriteFrom(mkd, spans, 0, 0, "") == RewriteFrom(mkd, spans, k, next, acc)
    {
      acc, next := RewriteStep(mkd, spans, k, next, acc);
    }
    r := acc + Slice(mkd, next, |mkd|);
  }

  // ---------------------------------------------------------------- the cell

  /** What the translator is handed: the cell's text after both passes. */
  function PrePass(source: string): string {
    var mkd := DollarPass(source);
    RewriteSpans(mkd, MathSpans(mkd))
  }

  /** A text without `$`, `$$` or equation environments goes to the translator unchanged. */
  lemma PlainTextUnchanged(source: string)
    requires MathSpans(DollarPass(source)) == []
    requires |FindAll(source, "$$")| == 0
    ensures PrePass(source) == source
  {
  }

  /**
   * `convertMarkdownCell` (ipnb2tex.py:931-1007): the cell's bibliography metadata is merged, the
   * two passes run, `markdown` stands for the translator and its parser, and the walk writes the
   * tree.  The listing part of the result is always empty.
   */
  method ConvertMarkdownCell(bib: BibState, source: string, meta: CellMetadata, heading: Option<int>,
                             markdown: string -> seq<Node>, evalList: string -> seq<string>, addUrl: bool)
    returns (r: Result<string>)
    modifies bib
    ensures Walk.Agrees(r, bib.Snapshot(),
                        Walk.HtmlTree(markdown(PrePass(source)), Extract(old(bib.Snapshot()), meta), heading, meta,
                                      evalList, addUrl))
  {
    bib.ExtractBibtexXref(meta);
    var mkd := DollarPassOf(source);
    var spans := MathSpans(mkd);
    mkd := RewriteSpansOf(mkd, spans);
    r := Walk.ProcessHTMLTree(bib, markdown(mkd), heading, meta, evalList, addUrl);
  }
}
