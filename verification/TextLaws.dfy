/** Which differences between texts normalisation does not see, and where a text is cut into lines. */
module TextLaws {
  import opened Text
  import opened Lines

  // ---- white space and line breaks ----

  /** White space other than blanks: the breaks, the information separator and the space separators. */
  lemma SpacesAre(c: char)
    ensures IsSpace(c) <==> || IsBreak(c) || c in {'\t', ' ', '\U{001F}', '\U{00A0}', '\U{1680}', '\U{202F}', '\U{205F}', '\U{3000}'}
                            || c in {'\U{2000}', '\U{2001}', '\U{2002}', '\U{2003}', '\U{2004}', '\U{2005}', '\U{2006}',
                                    '\U{2007}', '\U{2008}', '\U{2009}', '\U{200A}'}
  {
  }

  lemma BreaksAre(c: char)
    ensures IsBreak(c) <==> c in {'\n', '\r', '\U{000B}', '\U{000C}', '\U{001C}', '\U{001D}', '\U{001E}', '\U{0085}',
                                  '\U{2028}', '\U{2029}'}
  {
  }

  lemma {:induction false} InkOfSpace(s: string)
    ensures Ink(s) == "" <==> AllSpace(s)
  {
    if s != "" {
      InkOfSpace(s[1..]);
      assert s == [s[0]] + s[1..];
    }
  }

  lemma BlankIsSpace(s: string)
    ensures Strip(s) == "" <==> AllSpace(s)
  {
    InkEmpty(s);
    InkOfSpace(s);
  }

  // ---- line ends ----

  /** Every line end is written as a single newline. */
  function Unified(s: string): string {
    ReplaceCr(ReplaceCrLf(s))
  }

  lemma {:induction false} ReplaceCrConcat(a: string, b: string)
    ensures ReplaceCr(a + b) == ReplaceCr(a) + ReplaceCr(b)
  {
    if a == "" {
      assert a + b == b;
    } else {
      assert (a + b)[1..] == a[1..] + b;
      ReplaceCrConcat(a[1..], b);
    }
  }

  lemma {:induction false} ReplaceCrLfConcat(a: string, b: string)
    requires a != "" && a[|a| - 1] == '\r' ==> b == "" || b[0] != '\n'
    ensures ReplaceCrLf(a + b) == ReplaceCrLf(a) + ReplaceCrLf(b)
  {
    if a == "" {
      assert a + b == b;
    } else if a[0] == '\r' && |a| > 1 && a[1] == '\n' {
      assert (a + b)[2..] == a[2..] + b;
      ReplaceCrLfConcat(a[2..], b);
      assert "\n" + (ReplaceCrLf(a[2..]) + ReplaceCrLf(b)) == ("\n" + ReplaceCrLf(a[2..])) + ReplaceCrLf(b);
    } else {
      assert (a + b)[1..] == a[1..] + b;
      ReplaceCrLfConcat(a[1..], b);
      assert [a[0]] + (ReplaceCrLf(a[1..]) + ReplaceCrLf(b)) == ([a[0]] + ReplaceCrLf(a[1..])) + ReplaceCrLf(b);
    }
  }

  lemma UnifiedConcat(a: string, b: string)
    requires a != "" && a[|a| - 1] == '\r' ==> b == "" || b[0] != '\n'
    ensures Unified(a + b) == Unified(a) + Unified(b)
  {
    ReplaceCrLfConcat(a, b);
    ReplaceCrConcat(ReplaceCrLf(a), ReplaceCrLf(b));
  }

  predicate IsLineEnd(end: string) {
    end == "\n" || end == "\r\n" || end == "\r"
  }

  lemma UnifiedEnd(end: string)
    requires IsLineEnd(end)
    ensures Unified(end) == "\n"
  {
    if end == "\r\n" {
      assert end[2..] == "" && ReplaceCrLf(end) == "\n" + "";
      assert "\n"[1..] == "";
    } else {
      assert end[1..] == "" && ReplaceCrLf(end) == [end[0]] + "" == end;
      assert ReplaceCr(end) == "\n" + "" == "\n";
    }
  }

  lemma EndInContext(a: string, end: string, b: string)
    requires IsLineEnd(end) && (a != "" ==> a[|a| - 1] != '\r')
    requires end == "\r" ==> b == "" || b[0] != '\n'
    ensures Unified(a + end + b) == Unified(a) + ("\n" + Unified(b))
  {
    assert a + end + b == a + (end + b) && (end + b)[0] == end[0];
    UnifiedEnd(end);
    UnifiedConcat(end, b);
    UnifiedConcat(a, end + b);
  }

  /** One line end, wherever it stands, counts as a newline. */
  lemma LineEndIsNewline(a: string, end: string, b: string)
    requires IsLineEnd(end) && (a != "" ==> a[|a| - 1] != '\r')
    requires end == "\r" ==> b == "" || b[0] != '\n'
    ensures Normalize(a + end + b) == Normalize(a + "\n" + b)
    ensures SplitParagraphs(a + end + b) == SplitParagraphs(a + "\n" + b)
  {
    EndInContext(a, end, b);
    EndInContext(a, "\n", b);
  }

  /** The text with every newline written as `end`. */
  function WithEnds(s: string, end: string): string {
    if s == "" then "" else (if s[0] == '\n' then end else [s[0]]) + WithEnds(s[1..], end)
  }

  ghost predicate NoCr(s: string) {
    forall i :: 0 <= i < |s| ==> s[i] != '\r'
  }

  lemma {:induction false} EndsAreUnified(s: string, end: string)
    requires IsLineEnd(end) && NoCr(s)
    ensures Unified(WithEnds(s, end)) == s
    ensures end == "\r" ==> forall i :: 0 <= i < |WithEnds(s, end)| ==> WithEnds(s, end)[i] != '\n'
  {
    if s != "" {
      var first, rest := if s[0] == '\n' then end else [s[0]], WithEnds(s[1..], end);
      EndsAreUnified(s[1..], end);
      UnifiedConcat(first, rest);
      if s[0] == '\n' {
        UnifiedEnd(end);
      } else {
        assert first[1..] == "" && Unified(first) == first;
      }
    }
  }

  /** Line ends do not matter: a text whose newlines are written in another way is normalised and split alike.
      So a normal text comes back with its line boundaries, and a join of paragraphs with its paragraphs. */
  lemma LineEndsDoNotMatter(s: string, end: string)
    requires IsLineEnd(end) && NoCr(s)
    ensures Normalize(WithEnds(s, end)) == Normalize(s)
    ensures SplitParagraphs(WithEnds(s, end)) == SplitParagraphs(s)
    ensures Normal(s) ==> Normalize(WithEnds(s, end)) == s
  {
    EndsAreUnified(s, end);
    ReplaceFixed(s);
    NormalIffFixed(s);
  }

  lemma ParagraphsSurviveLineEnds(parts: seq<string>, end: string)
    requires IsLineEnd(end) && AllParagraphs(parts)
    ensures SplitParagraphs(WithEnds(Join(PARAGRAPH_BREAK, parts), end)) == parts
  {
    JoinIsNormal(parts);
    LineEndsDoNotMatter(Join(PARAGRAPH_BREAK, parts), end);
    SplitOfJoin(parts);
  }

  // ---- runs of blanks and newlines ----

  /** Whether a run of blanks is under way behind `s`. */
  function InRunAfter(s: string, inRun: bool): bool {
    if s == "" then inRun else IsBlank(s[|s| - 1])
  }

  lemma {:induction false} CollapseBlanksConcat(a: string, b: string, inRun: bool)
    ensures CollapseBlanks(a + b, inRun) == CollapseBlanks(a, inRun) + CollapseBlanks(b, InRunAfter(a, inRun))
  {
    if a == "" {
      assert a + b == b;
    } else {
      var first := if !IsBlank(a[0]) then [a[0]] else if inRun then "" else " ";
      var rest, last := CollapseBlanks(a[1..], IsBlank(a[0])), CollapseBlanks(b, InRunAfter(a, inRun));
      assert (a + b)[0] == a[0] && (a + b)[1..] == a[1..] + b;
      assert InRunAfter(a[1..], IsBlank(a[0])) == InRunAfter(a, inRun);
      CollapseBlanksConcat(a[1..], b, IsBlank(a[0]));
      Regroup(first, rest, last);
    }
  }

  ghost predicate AllBlank(x: string) {
    x != "" && forall i :: 0 <= i < |x| ==> IsBlank(x[i])
  }

  lemma {:induction false} CollapsedRun(x: string, inRun: bool)
    requires AllBlank(x)
    ensures CollapseBlanks(x, inRun) == if inRun then "" else " "
  {
    if |x| > 1 {
      CollapsedRun(x[1..], true);
      assert " " + "" == " ";
    } else {
      assert x[1..] == "" && " " + "" == " ";
    }
  }

  lemma {:induction false} UnifiedRun(x: string)
    requires AllBlank(x)
    ensures Unified(x) == x
  {
    ReplaceFixed(x);
  }

  lemma RunUnified(a: string, x: string, b: string)
    requires AllBlank(x)
    ensures Unified(a + x + b) == Unified(a) + (x + Unified(b))
  {
    assert a + x + b == a + (x + b) && (x + b)[0] == x[0];
    UnifiedConcat(x, b);
    UnifiedConcat(a, x + b);
    UnifiedRun(x);
  }

  lemma RunInContext(p: string, x: string, q: string)
    requires AllBlank(x)
    ensures CollapseBlanks(p + (x + q), false)
         == CollapseBlanks(p, false) + ((if InRunAfter(p, false) then "" else " ") + CollapseBlanks(q, true))
  {
    CollapseBlanksConcat(p, x + q, false);
    CollapseBlanksConcat(x, q, InRunAfter(p, false));
    CollapsedRun(x, InRunAfter(p, false));
  }

  /** A run of spaces and tabs, wherever it stands, counts as one space. */
  lemma BlankRunIsSpace(a: string, x: string, b: string)
    requires AllBlank(x)
    ensures Normalize(a + x + b) == Normalize(a + " " + b)
    ensures SplitParagraphs(a + x + b) == SplitParagraphs(a + " " + b)
  {
    RunUnified(a, x, b);
    RunUnified(a, " ", b);
    RunInContext(Unified(a), x, Unified(b));
    RunInContext(Unified(a), " ", Unified(b));
  }

  function RunAfter(s: string, run: nat): nat {
    if s == "" then run
    else if s[|s| - 1] != '\n' then 0
    else if RunAfter(s[..|s| - 1], run) < 2 then RunAfter(s[..|s| - 1], run) + 1
    else RunAfter(s[..|s| - 1], run)
  }

  lemma {:induction false} CollapseNewlinesSnoc(s: string, c: char, run: nat)
    ensures CollapseNewlines(s + [c], run) == CollapseNewlines(s, run) + if c == '\n' && RunAfter(s, run) >= 2 then "" else [c]
  {
    if s == "" {
      assert s + [c] == [c] && [c][1..] == "";
    } else {
      var next := if s[0] != '\n' then 0 else if run < 2 then run + 1 else run;
      assert (s + [c])[1..] == s[1..] + [c];
      CollapseNewlinesSnoc(s[1..], c, next);
      RunAfterTail(s, run);
    }
  }

  lemma {:induction false} RunAfterTail(s: string, run: nat)
    requires s != ""
    ensures RunAfter(s, run) == RunAfter(s[1..], if s[0] != '\n' then 0 else if run < 2 then run + 1 else run)
  {
    if |s| == 1 {
      assert s[..0] == "" && s[1..] == "";
    } else {
      assert s[1..][..|s| - 2] == s[..|s| - 1][1..];
      RunAfterTail(s[..|s| - 1], run);
    }
  }

  function Newlines(n: nat): string {
    if n == 0 then "" else Newlines(n - 1) + "\n"
  }

  lemma {:induction false} CollapsedNewlines(s: string, n: nat)
    requires n >= 2
    ensures CollapseNewlines(s + Newlines(n), 0) == CollapseNewlines(s + Newlines(2), 0)
    ensures RunAfter(s + Newlines(n), 0) == 2
  {
    if n == 2 {
      assert s + Newlines(2) == s + "\n" + "\n" && (s + "\n" + "\n")[..|s| + 1] == s + "\n" && (s + "\n")[..|s|] == s;
      RunAtMostTwo(s);
    } else {
      CollapsedNewlines(s, n - 1);
      var longer := s + Newlines(n - 1);
      assert s + Newlines(n) == longer + ['\n'] && (longer + ['\n'])[..|longer|] == longer;
      CollapseNewlinesSnoc(longer, '\n', 0);
    }
  }

  lemma {:induction false} RunAtMostTwo(s: string)
    ensures RunAfter(s, 0) <= 2
  {
    if s != "" {
      RunAtMostTwo(s[..|s| - 1]);
    }
  }

  /** What is left of equal beginnings depends on the newlines before only. */
  lemma {:induction false} SameBehind(p: string, q: string, b: string)
    requires CollapseNewlines(p, 0) == CollapseNewlines(q, 0) && RunAfter(p, 0) == RunAfter(q, 0)
    ensures CollapseNewlines(p + b, 0) == CollapseNewlines(q + b, 0)
    decreases |b|
  {
    if b == "" {
      assert p + b == p && q + b == q;
    } else {
      CollapseNewlinesSnoc(p, b[0], 0);
      CollapseNewlinesSnoc(q, b[0], 0);
      assert (p + [b[0]])[..|p|] == p && (q + [b[0]])[..|q|] == q;
      SameBehind(p + [b[0]], q + [b[0]], b[1..]);
      assert p + b == p + [b[0]] + b[1..] && q + b == q + [b[0]] + b[1..];
    }
  }

  lemma {:induction false} BlanksBesideNewlines(a: string, n: nat, b: string)
    requires n >= 1
    ensures CollapseBlanks(a + Newlines(n) + b, false) == CollapseBlanks(a, false) + Newlines(n) + CollapseBlanks(b, false)
  {
    CollapseBlanksConcat(a + Newlines(n), b, false);
    CollapseBlanksConcat(a, Newlines(n), false);
    NewlinesStay(n, InRunAfter(a, false));
  }

  lemma {:induction false} NewlinesStay(n: nat, inRun: bool)
    requires n >= 1
    ensures |Newlines(n)| == n && forall i :: 0 <= i < n ==> Newlines(n)[i] == '\n'
    ensures CollapseBlanks(Newlines(n), inRun) == Newlines(n)
  {
    assert "\n"[1..] == "";
    if n > 1 {
      NewlinesStay(n - 1, inRun);
      CollapseBlanksConcat(Newlines(n - 1), "\n", inRun);
    } else {
      assert Newlines(1) == "" + "\n" == "\n";
    }
  }

  /** A run of two or more newlines, wherever it stands, counts as two. */
  lemma NewlineRunIsTwo(a: string, n: nat, b: string)
    requires n >= 2 && NoCr(a) && NoCr(b)
    ensures Normalize(a + Newlines(n) + b) == Normalize(a + PARAGRAPH_BREAK + b)
    ensures SplitParagraphs(a + Newlines(n) + b) == SplitParagraphs(a + PARAGRAPH_BREAK + b)
  {
    var p, q := CollapseBlanks(a, false), CollapseBlanks(b, false);
    assert Newlines(2) == PARAGRAPH_BREAK;
    forall m: nat | m == n || m == 2
      ensures CollapseBlanks(Unified(a + Newlines(m) + b), false) == p + Newlines(m) + q
    {
      NewlinesStay(m, false);
      ReplaceFixed(a + Newlines(m) + b);
      BlanksBesideNewlines(a, m, b);
    }
    CollapsedNewlines(p, n);
    CollapsedNewlines(p, 2);
    SameBehind(p + Newlines(n), p + Newlines(2), q);
  }

  // ---- paragraphs ----

  /** The stripped nonempty parts of a text that is not normalised any more. */
  function Parts(pending: string, s: string): seq<string> {
    StripNonEmpty(SplitBlankLine(pending, s))
  }

  lemma PartsCons(first: string, rest: seq<string>)
    ensures StripNonEmpty([first] + rest) == (if Strip(first) == "" then [] else [Strip(first)]) + StripNonEmpty(rest)
  {
    assert ([first] + rest)[1..] == rest;
  }

  lemma StripOfIndented(c: char, s: string)
    requires IsSpace(c)
    ensures Strip([c] + s) == Strip(s)
  {
    assert ([c] + s)[1..] == s;
  }

  lemma {:induction false} IndentedPending(c: char, pending: string, s: string)
    requires IsSpace(c)
    ensures Parts([c] + pending, s) == Parts(pending, s)
    decreases |s|
  {
    if s == "" {
      PartsCons([c] + pending, []);
      PartsCons(pending, []);
      assert [pending] + [] == [pending] && [[c] + pending] + [] == [[c] + pending];
      StripOfIndented(c, pending);
    } else if |s| > 1 && s[0] == '\n' && s[1] == '\n' {
      PartsCons([c] + pending, SplitBlankLine("", s[2..]));
      PartsCons(pending, SplitBlankLine("", s[2..]));
      StripOfIndented(c, pending);
    } else {
      assert [c] + pending + [s[0]] == [c] + (pending + [s[0]]);
      IndentedPending(c, pending + [s[0]], s[1..]);
    }
  }

  /** White space in front of a text makes no part. */
  lemma {:induction false} SpaceInFront(c: char, s: string)
    requires IsSpace(c)
    ensures Parts("", [c] + s) == Parts("", s)
    decreases |s|
  {
    assert ([c] + s)[1..] == s && "" + [c] == [c] + "" == [c];
    if c == '\n' && s != "" && s[0] == '\n' {
      assert ([c] + s)[2..] == s[1..] && s == ['\n'] + s[1..];
      PartsCons("", SplitBlankLine("", s[1..]));
      SpaceInFront('\n', s[1..]);
    } else {
      IndentedPending(c, "", s);
    }
  }

  /** Nor does white space behind it. */
  lemma {:induction false} SpaceBehind(pending: string, s: string, c: char)
    requires IsSpace(c)
    ensures Parts(pending, s + [c]) == Parts(pending, s)
    decreases |s|
  {
    var t := s + [c];
    if s == "" {
      assert t == [c] && SplitBlankLine(pending, s) == [pending];
      OneChar(pending, c);
      OnePart(pending + [c]);
      OnePart(pending);
      StripAppend(pending, c);
    } else if |s| > 1 && s[0] == '\n' && s[1] == '\n' {
      assert t[2..] == s[2..] + [c];
      SpaceBehind("", s[2..], c);
      PartsCons(pending, SplitBlankLine("", t[2..]));
      PartsCons(pending, SplitBlankLine("", s[2..]));
    } else if s == "\n" && c == '\n' {
      assert t[2..] == "" && s[1..] == "";
      PartsCons(pending, [""]);
      assert SplitBlankLine("", "") == [""] && SplitBlankLine(pending, t) == [pending] + [""];
      OneChar(pending, '\n');
      OnePart("");
      OnePart(pending);
      OnePart(pending + ['\n']);
      StripAppend(pending, '\n');
    } else {
      assert t[1..] == s[1..] + [c];
      SpaceBehind(pending + [s[0]], s[1..], c);
    }
  }

  lemma OneChar(pending: string, c: char)
    ensures SplitBlankLine(pending, [c]) == [pending + [c]]
  {
    assert [c][1..] == "" && SplitBlankLine(pending + [c], "") == [pending + [c]];
  }

  lemma OnePart(s: string)
    ensures StripNonEmpty([s]) == if Strip(s) == "" then [] else [Strip(s)]
  {
    assert [s][1..] == [];
  }

  lemma {:induction false} PartsOfStripLeft(s: string)
    ensures Parts("", StripLeft(s)) == Parts("", s)
  {
    if s != "" && IsSpace(s[0]) {
      PartsOfStripLeft(s[1..]);
      SpaceInFront(s[0], s[1..]);
      assert s == [s[0]] + s[1..];
    }
  }

  lemma {:induction false} PartsOfStripRight(s: string)
    ensures Parts("", StripRight(s)) == Parts("", s)
  {
    if s != "" && IsSpace(s[|s| - 1]) {
      var before, c := s[..|s| - 1], s[|s| - 1];
      assert s == before + [c];
      calc {
        Parts("", StripRight(s));
      ==
        Parts("", StripRight(before));
      == { PartsOfStripRight(before); }
        Parts("", before);
      == { SpaceBehind("", before, c); }
        Parts("", s);
      }
    }
  }

  lemma FirstBreak(pending: string, s: string)
    requires |s| > 1 && s[0] == '\n' && s[1] == '\n'
    ensures Parts(pending, s) == (if Strip(pending) == "" then [] else [Strip(pending)]) + Parts("", s[2..])
  {
    PartsCons(pending, SplitBlankLine("", s[2..]));
  }

  /** A blank line behind `u` separates the parts before it from those behind it. */
  ghost predicate SeparatedAt(pending: string, u: string, v: string) {
    Parts(pending, u + PARAGRAPH_BREAK + v) == Parts(pending, u) + Parts("", v)
  }

  lemma SeparatedAtStart(pending: string, v: string)
    ensures SeparatedAt(pending, "", v)
  {
    assert ("" + PARAGRAPH_BREAK + v)[2..] == v;
    FirstBreak(pending, "" + PARAGRAPH_BREAK + v);
    OnePart(pending);
  }

  lemma SeparatedAtThirdNewline(pending: string, v: string)
    ensures SeparatedAt(pending, "\n", v)
  {
    var t := "\n" + PARAGRAPH_BREAK + v;
    assert t[2..] == ['\n'] + v;
    FirstBreak(pending, t);
    OneChar(pending, '\n');
    SpaceInFront('\n', v);
    OnePart(pending + ['\n']);
    StripAppend(pending, '\n');
  }

  lemma SeparatedBehindBreak(pending: string, u: string, v: string)
    requires |u| > 1 && u[0] == '\n' && u[1] == '\n' && SeparatedAt("", u[2..], v)
    ensures SeparatedAt(pending, u, v)
  {
    var t, first := u + PARAGRAPH_BREAK + v, if Strip(pending) == "" then [] else [Strip(pending)];
    assert t[2..] == u[2..] + PARAGRAPH_BREAK + v;
    FirstBreak(pending, t);
    FirstBreak(pending, u);
    assert first + (Parts("", u[2..]) + Parts("", v)) == (first + Parts("", u[2..])) + Parts("", v);
  }

  lemma SeparatedBehindChar(pending: string, u: string, v: string)
    requires u != "" && u != "\n" && !(|u| > 1 && u[0] == '\n' && u[1] == '\n')
    requires SeparatedAt(pending + [u[0]], u[1..], v)
    ensures SeparatedAt(pending, u, v)
  {
    var t := u + PARAGRAPH_BREAK + v;
    assert t[1..] == u[1..] + PARAGRAPH_BREAK + v && t[0] == u[0] && t[1] == if |u| > 1 then u[1] else '\n';
    assert SplitBlankLine(pending, t) == SplitBlankLine(pending + [u[0]], t[1..]);
    assert SplitBlankLine(pending, u) == SplitBlankLine(pending + [u[0]], u[1..]);
  }

  lemma {:induction false} PartsAtBreak(pending: string, u: string, v: string)
    ensures SeparatedAt(pending, u, v)
    decreases |u|
  {
    if u == "" {
      SeparatedAtStart(pending, v);
    } else if |u| > 1 && u[0] == '\n' && u[1] == '\n' {
      PartsAtBreak("", u[2..], v);
      SeparatedBehindBreak(pending, u, v);
    } else if u == "\n" {
      SeparatedAtThirdNewline(pending, v);
    } else {
      PartsAtBreak(pending + [u[0]], u[1..], v);
      SeparatedBehindChar(pending, u, v);
    }
  }

  lemma FirstNewline(s: string, run: nat)
    requires s != "" && s[0] == '\n' && run <= 2
    ensures Parts("", CollapseNewlines(s, run)) == Parts("", CollapseNewlines(s[1..], if run < 2 then run + 1 else 2))
  {
    if run < 2 {
      SpaceInFront('\n', CollapseNewlines(s[1..], run + 1));
      assert CollapseNewlines(s, run) == ['\n'] + CollapseNewlines(s[1..], run + 1);
    }
  }

  /** The newlines that a text starts with make no part, however many of them are kept. */
  lemma {:induction false} PartsAfterRun(s: string, run: nat)
    requires run <= 2
    ensures Parts("", CollapseNewlines(s, run)) == Parts("", CollapseNewlines(s, 0))
    decreases |s|
  {
    if s != "" && s[0] == '\n' {
      FirstNewline(s, run);
      FirstNewline(s, 0);
      PartsAfterRun(s[1..], if run < 2 then run + 1 else 2);
      PartsAfterRun(s[1..], 1);
    }
  }

  /** Collapsing goes on behind a prefix with the newlines that end it. */
  lemma {:induction false} CollapseNewlinesConcat(p: string, q: string)
    ensures CollapseNewlines(p + q, 0) == CollapseNewlines(p, 0) + CollapseNewlines(q, RunAfter(p, 0))
    decreases |q|
  {
    if q == "" {
      assert p + q == p;
    } else {
      var next, c := p + [q[0]], q[0];
      assert p + q == next + q[1..] && next[..|p|] == p;
      CollapseNewlinesConcat(next, q[1..]);
      CollapseNewlinesSnoc(p, c, 0);
      RunAtMostTwo(p);
      var kept := if c == '\n' && RunAfter(p, 0) >= 2 then "" else [c];
      assert CollapseNewlines(q, RunAfter(p, 0)) == kept + CollapseNewlines(q[1..], RunAfter(next, 0));
      Regroup(CollapseNewlines(p, 0), kept, CollapseNewlines(q[1..], RunAfter(next, 0)));
    }
  }

  /** The text before the ends are stripped. */
  function Collapsed(s: string): string {
    CollapseNewlines(CollapseBlanks(Unified(s), false), 0)
  }

  lemma SplitIsParts(s: string)
    ensures SplitParagraphs(s) == Parts("", Collapsed(s))
  {
    PartsOfStripLeft(Collapsed(s));
    PartsOfStripRight(StripLeft(Collapsed(s)));
  }

  /** The collapsed text ends with the newlines that its run counts. */
  lemma {:induction false} EndsWithRun(p: string) returns (front: string)
    ensures CollapseNewlines(p, 0) == front + Newlines(RunAfter(p, 0))
  {
    if p == "" {
      front := "";
    } else {
      var before, c := p[..|p| - 1], p[|p| - 1];
      assert p == before + [c];
      var earlier := EndsWithRun(before);
      CollapseNewlinesSnoc(before, c, 0);
      if c != '\n' {
        front := CollapseNewlines(p, 0);
        assert front + "" == front;
      } else {
        front := earlier;
        Regroup(earlier, Newlines(RunAfter(before, 0)), "\n");
      }
    }
  }

  lemma TwoMoreNewlines(run: nat)
    requires run <= 2
    ensures Newlines(run) + CollapseNewlines(PARAGRAPH_BREAK, run) == PARAGRAPH_BREAK
  {
    assert PARAGRAPH_BREAK[1..] == "\n" && "\n"[1..] == "";
    assert Newlines(1) == "\n" && Newlines(2) == PARAGRAPH_BREAK;
  }

  lemma {:induction false} PartsBeforeNewlines(s: string, n: nat)
    ensures Parts("", s + Newlines(n)) == Parts("", s)
  {
    if n == 0 {
      assert s + "" == s;
    } else {
      PartsBeforeNewlines(s, n - 1);
      SpaceBehind("", s + Newlines(n - 1), '\n');
      assert s + Newlines(n) == s + Newlines(n - 1) + ['\n'];
    }
  }

  lemma PartsAroundBreak(p: string, q: string)
    ensures Parts("", CollapseNewlines(p + PARAGRAPH_BREAK + q, 0))
         == Parts("", CollapseNewlines(p, 0)) + Parts("", CollapseNewlines(q, 0))
  {
    var run := RunAfter(p, 0);
    var front := EndsWithRun(p);
    var w := CollapseNewlines(q, 2);
    RunAtMostTwo(p);
    assert Newlines(2) == PARAGRAPH_BREAK;
    CollapsedNewlines(p, 2);
    CollapseNewlinesConcat(p, PARAGRAPH_BREAK);
    CollapseNewlinesConcat(p + PARAGRAPH_BREAK, q);
    Regroup(front, Newlines(run), CollapseNewlines(PARAGRAPH_BREAK, run));
    TwoMoreNewlines(run);
    PartsAtBreak("", front, w);
    PartsBeforeNewlines(front, run);
    PartsAfterRun(q, 2);
  }

  /** A blank line separates paragraphs: those of a text around it are those before it and those behind it. */
  lemma BlankLineSeparates(a: string, b: string)
    requires NoCr(a) && NoCr(b)
    ensures SplitParagraphs(a + PARAGRAPH_BREAK + b) == SplitParagraphs(a) + SplitParagraphs(b)
  {
    var p, q := CollapseBlanks(a, false), CollapseBlanks(b, false);
    assert Newlines(2) == PARAGRAPH_BREAK;
    ReplaceFixed(a);
    ReplaceFixed(b);
    ReplaceFixed(a + PARAGRAPH_BREAK + b);
    BlanksBesideNewlines(a, 2, b);
    SplitIsParts(a);
    SplitIsParts(b);
    SplitIsParts(a + PARAGRAPH_BREAK + b);
    PartsAroundBreak(p, q);
  }

  /** A text whose normal form has no blank line is one paragraph, or none if it is blank. */
  lemma OneParagraph(s: string)
    requires NoBlankLine(Normalize(s))
    ensures SplitParagraphs(s) == if Normalize(s) == "" then [] else [Normalize(s)]
  {
    NormalizeIsNormal(s);
    SplitWithoutBreak("", Normalize(s));
    assert "" + Normalize(s) == Normalize(s);
    StripOfStripped(Normalize(s));
    OnePart(Normalize(s));
  }

  // ---- lines ----

  /** Each line with `end` behind it. */
  function Ended(lines: seq<string>, end: string): string {
    if lines == [] then "" else lines[0] + end + Ended(lines[1..], end)
  }

  ghost predicate IsLineBreak(end: string) {
    end == "\r\n" || (|end| == 1 && IsBreak(end[0]))
  }

  /** Cutting a text into lines undoes ending lines, whichever line break is used. */
  lemma {:induction false} LinesOfEnded(lines: seq<string>, end: string)
    requires AllBreakFree(lines) && IsLineBreak(end)
    ensures SplitLines(Ended(lines, end)) == lines
  {
    if lines != [] {
      LinesOfEnded(lines[1..], end);
      FirstLine(lines[0], end, Ended(lines[1..], end), lines[1..]);
      assert [lines[0]] + lines[1..] == lines;
    }
  }

  lemma FirstLine(first: string, end: string, rest: string, lines: seq<string>)
    requires IsLineBreak(end) && BreakFree(first) && rest == Ended(lines, end) && AllBreakFree(lines)
    ensures SplitLines(first + end + rest) == [first] + SplitLines(rest)
  {
    assert first + end + rest == first + (end + rest) && "" + first == first;
    SplitOfBreakFree("", first, end + rest);
    EndCloses(first, end, rest, lines);
  }

  lemma EndCloses(first: string, end: string, rest: string, lines: seq<string>)
    requires IsLineBreak(end) && rest == Ended(lines, end) && AllBreakFree(lines)
    ensures SplitLinesFrom(first, end + rest) == [first] + SplitLines(rest)
  {
    if end == "\r\n" {
      assert (end + rest)[2..] == rest;
    } else {
      assert (end + rest)[1..] == rest;
      if end == "\r" && rest != "" {
        assert rest == lines[0] + end + Ended(lines[1..], end);
        assert rest[0] != '\n';
      }
    }
  }
}
