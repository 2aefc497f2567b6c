/**
 * Text escapes for LaTeX output: file-name/label cleaning, percent escaping,
 * math wrapping and scientific notation for table cells (latexEscapeForHtmlTableOutput),
 * heading commands and verbatim spans.
 */
module Escape {
  import opened Wrappers
  import opened Text

  /** The default removal set of `cleanFilename`. */
  const FileNameRemove: string := " %:/,.\\[]"
  /** The extended removal set used for section labels and citation labels. */
  const LabelRemove: string := " %:/,.\\[]=?~!@#$^&*()-_{};"

  /** `cleanFilename(s, remove)` (ipnb2tex.py:426-444): `s` with every character of `remove` deleted. */
  function CleanFilename(s: string, remove: string): (r: string)
    ensures |r| <= |s|
    ensures forall i :: 0 <= i < |r| ==> r[i] !in remove
    ensures forall i :: 0 <= i < |s| && s[i] !in remove ==> s[i] in r
  {
    if s == [] then []
    else Kept(s[0], remove) + CleanFilename(s[1..], remove)
  }

  /** What cleaning keeps of one character. */
  function Kept(c: char, remove: string): string {
    if c in remove then [] else [c]
  }

  /** Cleaning works piecewise, so the kept characters stay in their original order. */
  lemma {:induction false} CleanFilenameAppend(a: string, b: string, remove: string)
    ensures CleanFilename(a + b, remove) == CleanFilename(a, remove) + CleanFilename(b, remove)
  {
    if a != [] {
      assert (a + b)[0] == a[0];
      assert (a + b)[1..] == a[1..] + b;
      CleanFilenameAppend(a[1..], b, remove);
      calc {
        CleanFilename(a + b, remove);
        Kept(a[0], remove) + CleanFilename(a[1..] + b, remove);
        Kept(a[0], remove) + (CleanFilename(a[1..], remove) + CleanFilename(b, remove));
      }
    } else {
      assert a + b == b;
    }
  }

  /** A string with nothing to remove is its own clean version. */
  lemma {:induction false} CleanFilenameKeepsClean(s: string, remove: string)
    requires forall i :: 0 <= i < |s| ==> s[i] !in remove
    ensures CleanFilename(s, remove) == s
  {
    if s != [] { CleanFilenameKeepsClean(s[1..], remove); }
  }

  /** Cleaning twice is cleaning once. */
  lemma CleanFilenameIdempotent(s: string, remove: string)
    ensures CleanFilename(CleanFilename(s, remove), remove) == CleanFilename(s, remove)
  {
    CleanFilenameKeepsClean(CleanFilename(s, remove), remove);
  }

  // ---------------------------------------------------------------- percent

  /** The second half of the percent step: every `%` becomes `\%`. */
  function EscapeEachPercent(u: string): string {
    ReplaceAll(u, "%", "\\%")
  }

  /**
   * The percent step of ipnb2tex.py:224-225 and 1094-1095: first turn every `\%` back into `%`,
   * then escape every `%`.
   */
  function EscapePercent(s: string): string {
    EscapeEachPercent(ReplaceAll(s, "\\%", "%"))
  }

  lemma {:induction false} EscapeEachPercentStart(u: string)
    ensures EscapeEachPercent(u) == [] <==> u == []
    ensures u != [] ==> EscapeEachPercent(u)[0] == (if u[0] == '%' then '\\' else u[0])
  {
  }

  /** In the output of the second half, every `%` directly follows a backslash. */
  lemma {:induction false} EscapeEachPercentGuarded(u: string)
    ensures var t := EscapeEachPercent(u);
            forall i :: 0 <= i < |t| && t[i] == '%' ==> i > 0 && t[i - 1] == '\\'
  {
    if u != [] {
      EscapeEachPercentGuarded(u[1..]);
      EscapeEachPercentStart(u[1..]);
      var rest := EscapeEachPercent(u[1..]);
      if u[0] == '%' {
        assert EscapeEachPercent(u) == "\\%" + rest;
      } else {
        assert EscapeEachPercent(u) == [u[0]] + rest;
      }
    }
  }

  /** Un-escaping exactly undoes the second half: every `\%` it finds is one it inserted. */
  lemma {:induction false} UnescapeAfterEscape(u: string)
    ensures ReplaceAll(EscapeEachPercent(u), "\\%", "%") == u
  {
    if u != [] {
      var rest := EscapeEachPercent(u[1..]);
      UnescapeAfterEscape(u[1..]);
      EscapeEachPercentStart(u[1..]);
      if u[0] == '%' {
        var t := "\\%" + rest;
        assert EscapeEachPercent(u) == t;
        assert t[2..] == rest;
      } else {
        var t := [u[0]] + rest;
        assert EscapeEachPercent(u) == t;
        assert t[1..] == rest;
        if |t| >= 2 { assert !("\\%" <= t); }
      }
    }
  }

  /** Every `%` of an escaped text is preceded by a backslash. */
  lemma PercentEscaped(s: string)
    ensures var t := EscapePercent(s);
            forall i :: 0 <= i < |t| && t[i] == '%' ==> i > 0 && t[i - 1] == '\\'
  {
    EscapeEachPercentGuarded(ReplaceAll(s, "\\%", "%"));
  }

  /** Escaping an escaped text changes nothing, so the step may run on its own output. */
  lemma EscapePercentIdempotent(s: string)
    ensures EscapePercent(EscapePercent(s)) == EscapePercent(s)
  {
    UnescapeAfterEscape(ReplaceAll(s, "\\%", "%"));
  }

  // ---------------------------------------------------------------- math characters

  predicate IsMathChar(c: char) {
    c == '<' || c == '>' || c == '|' || c == '='
  }

  /** One character of table text after math wrapping. */
  function WrapOne(c: char): string {
    if IsMathChar(c) then ['$', c, '$'] else [c]
  }

  /** The loop at ipnb2tex.py:227-228: `<`, `>`, `|` and `=` are replaced, in that order, by `$c$`. */
  function WrapMathChars(s: string): string {
    MathStage(MathStage(MathStage(MathStage(s, '<'), '>'), '|'), '=')
  }

  /** `s.replace(c, '$' + c + '$')`. */
  function MathStage(s: string, c: char): string {
    ReplaceAll(s, [c], ['$', c, '$'])
  }

  /** Reference definition: each math character on its own wrapped in `$`, everything else kept. */
  function WrapMathRef(s: string): string {
    if s == [] then [] else WrapOne(s[0]) + WrapMathRef(s[1..])
  }

  /** One step of a one-character replacement. */
  lemma ReplaceCharStep(s: string, c: char, rep: string)
    requires s != []
    ensures ReplaceAll(s, [c], rep) == (if s[0] == c then rep else [s[0]]) + ReplaceAll(s[1..], [c], rep)
  {
    assert [c] <= s <==> s[0] == c;
  }

  lemma {:induction false} ReplaceCharAppend(a: string, b: string, c: char, rep: string)
    ensures ReplaceAll(a + b, [c], rep) == ReplaceAll(a, [c], rep) + ReplaceAll(b, [c], rep)
  {
    if a != [] {
      assert (a + b)[0] == a[0];
      assert (a + b)[1..] == a[1..] + b;
      ReplaceCharStep(a + b, c, rep);
      ReplaceCharStep(a, c, rep);
      ReplaceCharAppend(a[1..], b, c, rep);
    } else {
      assert a + b == b;
    }
  }

  lemma ReplaceCharOne(x: char, c: char, rep: string)
    ensures ReplaceAll([x], [c], rep) == if x == c then rep else [x]
  {
    ReplaceCharStep([x], c, rep);
    assert [x][1..] == [];
  }

  lemma {:induction false} ReplaceCharAbsent(s: string, c: char, rep: string)
    requires c !in s
    ensures ReplaceAll(s, [c], rep) == s
  {
    if s != [] {
      ReplaceCharStep(s, c, rep);
      ReplaceCharAbsent(s[1..], c, rep);
    }
  }

  lemma MathStageAppend(a: string, b: string, c: char)
    ensures MathStage(a + b, c) == MathStage(a, c) + MathStage(b, c)
  {
    ReplaceCharAppend(a, b, c, ['$', c, '$']);
  }

  /** A character is wrapped by its own stage and left alone by the other three. */
  lemma MathStageOne(x: char, c: char)
    ensures MathStage([x], c) == if x == c then ['$', c, '$'] else [x]
    ensures x == c ==> forall d :: d != c && d != '$' ==> MathStage(['$', c, '$'], d) == ['$', c, '$']
  {
    ReplaceCharOne(x, c, ['$', c, '$']);
    forall d | d != c && d != '$' ensures MathStage(['$', c, '$'], d) == ['$', c, '$'] {
      ReplaceCharAbsent(['$', c, '$'], d, ['$', d, '$']);
    }
  }

  lemma WrapMathCharsAppend(a: string, b: string)
    ensures WrapMathChars(a + b) == WrapMathChars(a) + WrapMathChars(b)
  {
    MathStageAppend(a, b, '<');
    var a1, b1 := MathStage(a, '<'), MathStage(b, '<');
    MathStageAppend(a1, b1, '>');
    var a2, b2 := MathStage(a1, '>'), MathStage(b1, '>');
    MathStageAppend(a2, b2, '|');
    var a3, b3 := MathStage(a2, '|'), MathStage(b2, '|');
    MathStageAppend(a3, b3, '=');
  }

  lemma WrapMathCharsOne(x: char)
    ensures WrapMathChars([x]) == WrapOne(x)
  {
    MathStageOne(x, '<');
    MathStageOne(x, '>');
    MathStageOne(x, '|');
    MathStageOne(x, '=');
  }

  /** The four sequential replacements wrap each math character exactly once. */
  lemma {:induction false} WrapMathCharsMatchesRef(s: string)
    ensures WrapMathChars(s) == WrapMathRef(s)
  {
    if s != [] {
      WrapMathCharsMatchesRef(s[1..]);
      assert s == [s[0]] + s[1..];
      WrapMathCharsAppend([s[0]], s[1..]);
      WrapMathCharsOne(s[0]);
    } else {
      assert WrapMathChars(s) == s;
    }
  }

  // ---------------------------------------------------------------- scientific notation

  predicate IsDigit(c: char) { '0' <= c <= '9' }

  /** The characters of the regular-expression class `[0-9,.,\-]`. */
  predicate IsLeadChar(c: char) { IsDigit(c) || c == ',' || c == '.' || c == '-' }

  predicate AllDigits(s: string) { forall i :: 0 <= i < |s| ==> IsDigit(s[i]) }
  predicate AllLead(s: string) { forall i :: 0 <= i < |s| ==> IsLeadChar(s[i]) }

  /** The groups of a match of `^([0-9,.,\-]+)e(\+|\-)([0-9]+)$`. */
  datatype SciParts = SciParts(lead: string, sign: char, pw: string)

  /** `t` is matched by the pattern, with groups `lead`, `sign` and `pw`. */
  predicate SciShape(t: string, lead: string, sign: char, pw: string) {
    |lead| > 0 && AllLead(lead) && (sign == '+' || sign == '-') && |pw| > 0 && AllDigits(pw)
    && |t| == |lead| + 2 + |pw| && t[..|lead|] == lead && t[|lead|] == 'e' && t[|lead| + 1] == sign
    && t[|lead| + 2..] == pw
  }

  /** The number of leading characters of `t` in the class `[0-9,.,\-]`. */
  function LeadLength(t: string): (k: nat)
    ensures k <= |t| && AllLead(t[..k]) && (k < |t| ==> !IsLeadChar(t[k]))
  {
    if t != [] && IsLeadChar(t[0]) then
      var k := 1 + LeadLength(t[1..]);
      assert t[..k] == [t[0]] + t[1..][..k - 1];
      k
    else 0
  }

  /** `re.search` with the scientific-notation pattern on an already stripped text. */
  function ParseSci(t: string): Option<SciParts> {
    var k := LeadLength(t);
    if 0 < k && k + 2 < |t| && t[k] == 'e' && (t[k + 1] == '+' || t[k + 1] == '-') && AllDigits(t[k + 2..]) then
      Some(SciParts(t[..k], t[k + 1], t[k + 2..]))
    else None
  }

  /** The parse finds the groups exactly when the text matches the pattern, and those are the only groups. */
  lemma ParseSciMatches(t: string)
    ensures ParseSci(t).Some? ==> SciShape(t, ParseSci(t).value.lead, ParseSci(t).value.sign, ParseSci(t).value.pw)
    ensures forall lead, sign, pw :: SciShape(t, lead, sign, pw) ==> ParseSci(t) == Some(SciParts(lead, sign, pw))
  {
    SciUnique(t, LeadLength(t));
  }

  lemma SciUnique(t: string, k: nat)
    requires k == LeadLength(t)
    ensures forall lead, sign, pw :: SciShape(t, lead, sign, pw) ==>
      lead == t[..k] && k + 2 < |t| && t[k] == 'e' && sign == t[k + 1] && pw == t[k + 2..]
  {
    forall lead, sign, pw | SciShape(t, lead, sign, pw)
      ensures lead == t[..k] && k + 2 < |t| && t[k] == 'e' && sign == t[k + 1] && pw == t[k + 2..]
    {
      SciSplit(t, k, lead, sign, pw);
    }
  }

  lemma SciSplit(t: string, k: nat, lead: string, sign: char, pw: string)
    requires k <= |t| && AllLead(t[..k]) && (k < |t| ==> !IsLeadChar(t[k]))
    requires SciShape(t, lead, sign, pw)
    ensures lead == t[..k] && k + 2 < |t| && t[k] == 'e' && sign == t[k + 1] && pw == t[k + 2..]
  {
    var n := |lead|;
    forall i | 0 <= i < n ensures IsLeadChar(t[i]) { assert t[i] == lead[i]; }
    assert !IsLeadChar(t[n]);
    assert k >= n;
    assert k <= n;
  }

  /** `s.strip(c)`: the characters `c` removed at both ends. */
  function StripChar(s: string, c: char): (r: string)
    ensures |r| <= |s|
    ensures |r| > 0 ==> r[0] != c && r[|r| - 1] != c
  {
    if |s| > 0 && s[0] == c then StripChar(s[1..], c)
    else if |s| > 0 && s[|s| - 1] == c then StripChar(s[..|s| - 1], c)
    else s
  }

  /** The exponent as the source writes it, `pw.strip('0')`: trailing zeros are lost as well. */
  function ExponentAsWritten(pw: string): string {
    StripChar(pw, '0')
  }

  /** The exponent as written keeps no zero at either end, so `00` gives an empty exponent `10^{}`. */
  lemma ExponentAsWrittenNoZeroEnds(pw: string)
    ensures var r := ExponentAsWritten(pw);
            |r| <= |pw| && (|r| > 0 ==> r[0] != '0' && r[|r| - 1] != '0')
            && (r == "" <==> forall k :: 0 <= k < |pw| ==> pw[k] == '0')
  {
    StripCharEmpty(pw, '0');
  }

  /** Stripping `c` leaves nothing exactly when the text is made of `c` alone. */
  lemma {:induction false} StripCharEmpty(s: string, c: char)
    ensures StripChar(s, c) == "" <==> forall k :: 0 <= k < |s| ==> s[k] == c
    decreases |s|
  {
    if |s| > 0 && s[0] == c {
      StripCharEmpty(s[1..], c);
      assert forall k :: 1 <= k < |s| ==> s[k] == s[1..][k - 1];
    } else if |s| > 0 && s[|s| - 1] == c {
      StripCharEmpty(s[..|s| - 1], c);
      assert forall k :: 0 <= k < |s| - 1 ==> s[k] == s[..|s| - 1][k];
    }
  }

  /** Stripping trailing zeros changes the exponent: `1.5e+10` is rendered with exponent 1. */
  lemma ExponentAsWrittenLosesValue()
    ensures ExponentAsWritten("10") == "1"
    ensures DigitsValue("10") == 10 && DigitsValue(ExponentAsWritten("10")) == 1
  {
    assert "10"[..1] == "1";
    assert "1"[1..] == "";
  }

  /** The exponent as intended: leading zeros dropped, at least one digit kept. */
  function Exponent(pw: string): string {
    if |pw| > 0 && pw[0] == '0' then Exponent(pw[1..])
    else if pw == [] then "0"
    else pw
  }

  /** The intended exponent is a digit string without a leading zero and with the value of the matched digits. */
  lemma {:induction false} ExponentValue(pw: string)
    requires AllDigits(pw)
    ensures var r := Exponent(pw);
            AllDigits(r) && |r| > 0 && (|r| > 1 ==> r[0] != '0') && DigitsValue(r) == DigitsValue(pw)
  {
    if |pw| > 0 && pw[0] == '0' {
      ExponentValue(pw[1..]);
      LeadingZeroValue(pw[1..]);
      assert pw == "0" + pw[1..];
    }
  }

  /** The sign written before the exponent: a `+` is dropped. */
  function SignText(sign: char): string {
    if sign == '+' then "" else "-"
  }

  /** The LaTeX that replaces a matched token, as written: `$lead\times 10^{exp}$` with `pw.strip('0')`. */
  function SciReplacement(p: SciParts): string {
    "$" + p.lead + "\\times 10^{" + SignText(p.sign) + ExponentAsWritten(p.pw) + "}$"
  }

  /** The replacement as intended, with the exponent kept at its value. */
  function SciReplacementIntended(p: SciParts): string {
    "$" + p.lead + "\\times 10^{" + SignText(p.sign) + Exponent(p.pw) + "}$"
  }

  /** The two replacements differ exactly where stripping the trailing zeros changes the exponent. */
  lemma SciReplacementsAgree(p: SciParts)
    ensures SciReplacement(p) == SciReplacementIntended(p) <==> ExponentAsWritten(p.pw) == Exponent(p.pw)
  {
    var pre := "$" + p.lead + "\\times 10^{" + SignText(p.sign);
    if SciReplacement(p) == SciReplacementIntended(p) {
      assert ExponentAsWritten(p.pw) == SciReplacement(p)[|pre|..|SciReplacement(p)| - 2];
      assert Exponent(p.pw) == SciReplacementIntended(p)[|pre|..|SciReplacementIntended(p)| - 2];
    }
  }

  /** `latexEscapeForHtmlTableOutput` (ipnb2tex.py:219-236), exponent as the source writes it. */
  function LatexEscapeForHtmlTableOutput(s: string): string {
    var b := WrapMathChars(EscapePercent(s));
    var t := Strip(b);
    match ParseSci(t)
    case None => b
    case Some(p) => ReplaceAll(b, t, SciReplacement(p))
  }

  lemma {:induction false} ReplaceAllSkip(x: string, y: string, pat: string, rep: string)
    requires |pat| > 0 && forall i :: 0 <= i < |x| ==> x[i] != pat[0]
    ensures ReplaceAll(x + y, pat, rep) == x + ReplaceAll(y, pat, rep)
  {
    if x == [] {
      assert x + y == y;
    } else {
      var s := x + y;
      assert s[0] == x[0] && s[1..] == x[1..] + y;
      ReplaceAllSkip(x[1..], y, pat, rep);
      if |s| < |pat| {
        assert ReplaceAll(y, pat, rep) == y;
      } else {
        assert !(pat <= s) by { assert s[0] != pat[0]; }
        assert ReplaceAll(s, pat, rep) == [s[0]] + ReplaceAll(s[1..], pat, rep);
        assert x == [x[0]] + x[1..];
      }
    }
  }

  /** The whitespace that `strip` removes at the front of `b`. */
  function LeadingSpace(b: string): (w: string)
    ensures forall i :: 0 <= i < |w| ==> IsSpace(w[i])
  {
    b[..|b| - |LStrip(b)|]
  }

  /** The whitespace that `strip` removes at the back of `b`. */
  function TrailingSpace(b: string): (w: string)
    ensures forall i :: 0 <= i < |w| ==> IsSpace(w[i])
  {
    var l := LStrip(b);
    assert forall i :: |Strip(b)| <= i < |l| ==> IsSpace(l[i]);
    l[|Strip(b)|..]
  }

  lemma StripDecomposes(b: string)
    ensures |Strip(b)| > 0 ==> !IsSpace(Strip(b)[0])
    ensures b == LeadingSpace(b) + (Strip(b) + TrailingSpace(b))
  {
    var l := LStrip(b);
    var t := Strip(b);
    assert b == LeadingSpace(b) + l;
    assert t == l[..|t|];
    assert l == l[..|t|] + l[|t|..];
  }

  /** A core that starts with a non-space character, followed by whitespace, is replaced once. */
  lemma CoreThenSpaceReplaced(t: string, post: string, rep: string)
    requires |t| > 0 && !IsSpace(t[0]) && forall i :: 0 <= i < |post| ==> IsSpace(post[i])
    ensures ReplaceAll(t + post, t, rep) == rep + post
  {
    assert t <= t + post;
    assert (t + post)[|t|..] == post;
    assert !Contains(post, t) by {
      forall i | MatchAt(post, t, i) ensures post[i] == t[0] { }
    }
    ReplaceAllAbsent(post, t, rep);
  }

  /** Replacing the stripped core of a text replaces exactly that core and keeps the whitespace around it. */
  lemma StrippedCoreReplaced(b: string, rep: string)
    requires |Strip(b)| > 0
    ensures b == LeadingSpace(b) + Strip(b) + TrailingSpace(b)
    ensures ReplaceAll(b, Strip(b), rep) == LeadingSpace(b) + rep + TrailingSpace(b)
  {
    var t := Strip(b);
    var pre, post := LeadingSpace(b), TrailingSpace(b);
    StripDecomposes(b);
    ReplaceAllSkip(pre, t + post, t, rep);
    CoreThenSpaceReplaced(t, post, rep);
  }

  /**
   * A cell whose stripped text is a token like `1.5e-03` becomes the math expression, and the
   * whitespace around the token is kept.
   */
  lemma SciNotationRendered(s: string)
    requires ParseSci(Strip(WrapMathChars(EscapePercent(s)))).Some?
    ensures var b := WrapMathChars(EscapePercent(s));
            var p := ParseSci(Strip(b)).value;
            LatexEscapeForHtmlTableOutput(s)
              == LeadingSpace(b) + "$" + p.lead + "\\times 10^{" + SignText(p.sign) + ExponentAsWritten(p.pw) + "}$"
                 + TrailingSpace(b)
  {
    var b := WrapMathChars(EscapePercent(s));
    var p := ParseSci(Strip(b)).value;
    StrippedCoreReplaced(b, SciReplacement(p));
    SciReplacementSpelled(p, LeadingSpace(b), TrailingSpace(b));
  }

  lemma SciReplacementSpelled(p: SciParts, before: string, after: string)
    ensures before + SciReplacement(p) + after
            == before + "$" + p.lead + "\\times 10^{" + SignText(p.sign) + ExponentAsWritten(p.pw) + "}$" + after
  {
  }

  // ---------------------------------------------------------------- headings and verbatim

  /** The sectioning command for heading level 1 to 6 (ipnb2tex.py:1034-1050). */
  function HeadingCommand(level: nat): (cmd: string)
    requires 1 <= level <= 6
    ensures |cmd| > 1 && cmd[0] == '\\'
  {
    if level == 1 then "\\chapter"
    else if level == 2 then "\\section"
    else if level == 3 then "\\subsection"
    else if level == 4 then "\\subsubsection"
    else if level == 5 then "\\paragraph"
    else "\\subparagraph"
  }

  /** The label derived from a heading text. */
  function SectionLabel(text: string): string {
    CleanFilename(text, LabelRemove)
  }

  /**
   * `processHeading(hstring, cstring)` (ipnb2tex.py:1121-1125): the command with the text, then a
   * `sec:` label made of the text's characters that are legal in a label.
   */
  function ProcessHeading(cmd: string, text: string): (r: string)
    ensures exists lbl :: r == "\n" + cmd + "{" + text + "}\n" + "\\label{sec:" + lbl + "}\n\n"
                          && lbl == CleanFilename(text, LabelRemove)
                          && |lbl| <= |text| && (forall i :: 0 <= i < |lbl| ==> lbl[i] !in LabelRemove)
  {
    "\n" + cmd + "{" + text + "}\n" + "\\label{sec:" + SectionLabel(text) + "}\n\n"
  }

  /** A heading whose text is already a legal label (such as `Title`) is labelled `sec:` + the text itself. */
  lemma HeadingLabelIsText(cmd: string, text: string)
    requires forall i :: 0 <= i < |text| ==> text[i] !in LabelRemove
    ensures ProcessHeading(cmd, text) == "\n" + cmd + "{" + text + "}\n" + "\\label{sec:" + text + "}\n\n"
  {
    CleanFilenameKeepsClean(text, LabelRemove);
  }

  /**
   * `processVerbatim(child)` (ipnb2tex.py:412-419): a text of more than one line becomes a
   * `verbatim` block, a single line an inline `\verb+...+` with trailing space removed; the node's
   * tail follows.  A node without text fails, as `None.splitlines()` does.
   */
  function ProcessVerbatim(text: Option<string>, tail: Option<string>): (r: Result<string>)
    ensures r.Ok? <==> text.Some?
    ensures text.Some? && SplitLinesCount(text.value) > 1 ==>
      r.value == "\\begin{verbatim}\n" + text.value + "\\end{verbatim}" + TailText(tail)
    ensures text.Some? && SplitLinesCount(text.value) <= 1 ==>
      exists body :: r.value == "\\verb+" + body + "+" + TailText(tail)
                     && |body| <= |text.value| && body == text.value[..|body|]
                     && (forall i :: |body| <= i < |text.value| ==> IsSpace(text.value[i]))
                     && (|body| == 0 || !IsSpace(body[|body| - 1]))
  {
    match text
    case None => Err(AttributeError("'NoneType' object has no attribute 'splitlines'"))
    case Some(t) =>
      if SplitLinesCount(t) > 1 then Ok("\\begin{verbatim}\n" + t + "\\end{verbatim}" + TailText(tail))
      else Ok("\\verb+" + RStrip(t) + "+" + TailText(tail))
  }

  /** `'' if child.tail == None else child.tail`. */
  function TailText(tail: Option<string>): string {
    if tail.Some? then tail.value else ""
  }
}
