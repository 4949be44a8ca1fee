/** Lines of a text, as `str.splitlines` cuts them, and what normalisation does to them. */
module Lines {
  import opened Text

  /** The characters that end a line for `splitlines`. */
  predicate IsBreak(c: char) {
    var n := c as int;
    10 <= n <= 13 || 28 <= n <= 30 || n == 133 || n == 8232 || n == 8233
  }

  function SplitLinesFrom(pending: string, s: string): seq<string>
    decreases |s|
  {
    if s == "" then (if pending == "" then [] else [pending])
    else if s[0] == '\r' && |s| > 1 && s[1] == '\n' then [pending] + SplitLinesFrom("", s[2..])
    else if IsBreak(s[0]) then [pending] + SplitLinesFrom("", s[1..])
    else SplitLinesFrom(pending + [s[0]], s[1..])
  }

  /** `text.splitlines()` */
  function SplitLines(s: string): seq<string> {
    SplitLinesFrom("", s)
  }

  /** `normalize_text(line).strip()` */
  function Canonical(line: string): string {
    Strip(Normalize(line))
  }

  ghost predicate BreakFree(s: string) {
    forall i :: 0 <= i < |s| ==> !IsBreak(s[i])
  }

  /** Cutting a text into lines loses nothing visible. */
  lemma {:induction false} SplitLinesKeepInk(pending: string, s: string)
    ensures Ink(Concat(SplitLinesFrom(pending, s))) == Ink(pending) + Ink(s)
    decreases |s|
  {
    if s == "" {
      ConcatOne(pending);
      assert Ink(pending) + "" == Ink(pending);
    } else if s[0] == '\r' && |s| > 1 && s[1] == '\n' {
      SplitLinesKeepInk("", s[2..]);
      LineAndRest(pending, SplitLinesFrom("", s[2..]), s[2..]);
      InkOfBlankLine(s);
    } else if IsBreak(s[0]) {
      SplitLinesKeepInk("", s[1..]);
      LineAndRest(pending, SplitLinesFrom("", s[1..]), s[1..]);
      assert Ink(s) == Ink(s[1..]);
    } else {
      SplitLinesKeepInk(pending + [s[0]], s[1..]);
      InkMove(pending, s);
    }
  }

  lemma LineAndRest(line: string, rest: seq<string>, s: string)
    requires Ink(Concat(rest)) == "" + Ink(s)
    ensures Ink(Concat([line] + rest)) == Ink(line) + Ink(s)
  {
    InkConcat(line, Concat(rest));
  }

  // ---- canonical forms do not see white space at the ends of a line ----

  lemma BlanksAtStart(s: string)
    ensures StripLeft(CollapseNewlines(CollapseBlanks(s, true), 0)) == StripLeft(CollapseNewlines(CollapseBlanks(s, false), 0))
  {
    if s != "" && IsBlank(s[0]) {
      var rest := CollapseBlanks(s[1..], true);
      assert CollapseBlanks(s, false) == " " + rest && (" " + rest)[1..] == rest;
      assert CollapseBlanks(s, true) == rest;
      var tail := CollapseNewlines(rest, 0);
      assert CollapseNewlines(" " + rest, 0) == " " + tail && (" " + tail)[1..] == tail;
    }
  }

  lemma ReplaceStep(c: char, s: string)
    requires c != '\r'
    ensures ReplaceCr(ReplaceCrLf([c] + s)) == [c] + ReplaceCr(ReplaceCrLf(s))
  {
    assert ([c] + s)[1..] == s;
    assert ([c] + ReplaceCrLf(s))[1..] == ReplaceCrLf(s);
  }

  lemma CanonicalOfIndented(c: char, s: string)
    requires IsSpace(c) && !IsBreak(c)
    ensures Canonical([c] + s) == Canonical(s)
  {
    var y := ReplaceCr(ReplaceCrLf(s));
    ReplaceStep(c, s);
    assert ([c] + y)[1..] == y;
    var z := CollapseBlanks(y, IsBlank(c));
    var x := if IsBlank(c) then ' ' else c;
    assert CollapseBlanks([c] + y, false) == [x] + z && ([x] + z)[1..] == z;
    var w := CollapseNewlines(z, 0);
    assert CollapseNewlines([x] + z, 0) == [x] + w && ([x] + w)[1..] == w;
    if IsBlank(c) {
      BlanksAtStart(y);
    }
  }

  lemma {:induction false} ReplaceCrLfAppend(s: string, c: char)
    requires c != '\n' && c != '\r'
    ensures ReplaceCrLf(s + [c]) == ReplaceCrLf(s) + [c]
  {
    if s != "" {
      if s[0] == '\r' && |s| > 1 && s[1] == '\n' {
        assert (s + [c])[2..] == s[2..] + [c];
        ReplaceCrLfAppend(s[2..], c);
      } else {
        assert (s + [c])[1..] == s[1..] + [c];
        ReplaceCrLfAppend(s[1..], c);
      }
    }
  }

  lemma {:induction false} ReplaceCrAppend(s: string, c: char)
    requires c != '\r'
    ensures ReplaceCr(s + [c]) == ReplaceCr(s) + [c]
  {
    if s != "" {
      assert (s + [c])[1..] == s[1..] + [c];
      ReplaceCrAppend(s[1..], c);
    }
  }

  lemma Regroup(a: string, b: string, c: string)
    ensures a + (b + c) == (a + b) + c
  {
  }

  lemma CollapseBlanksCons(c: char, s: string, inRun: bool)
    ensures CollapseBlanks([c] + s, inRun) ==
            (if !IsBlank(c) then [c] else if inRun then "" else " ") + CollapseBlanks(s, IsBlank(c))
  {
    assert ([c] + s)[1..] == s;
  }

  /** A white space at the end leaves a white space at the end, or nothing. */
  lemma {:induction false} CollapseBlanksAppend(s: string, c: char, inRun: bool) returns (w: string)
    requires IsSpace(c) && c != '\n'
    ensures CollapseBlanks(s + [c], inRun) == CollapseBlanks(s, inRun) + w
    ensures w == "" || w == " " || w == [c]
  {
    if s == "" {
      assert s + [c] == [c] + "" == [c];
      CollapseBlanksCons(c, "", inRun);
      w := CollapseBlanks([c], inRun);
    } else {
      w := CollapseBlanksAppend(s[1..], c, IsBlank(s[0]));
      assert (s + [c])[0] == s[0] && (s + [c])[1..] == s[1..] + [c];
      var first, rest := if !IsBlank(s[0]) then [s[0]] else if inRun then "" else " ", CollapseBlanks(s[1..], IsBlank(s[0]));
      Regroup(first, rest, w);
    }
  }

  lemma {:induction false} CollapseNewlinesAppend(s: string, c: char, run: nat)
    requires c != '\n'
    ensures CollapseNewlines(s + [c], run) == CollapseNewlines(s, run) + [c]
  {
    if s == "" {
      assert s + [c] == [c] && [c][1..] == "";
    } else {
      assert (s + [c])[1..] == s[1..] + [c];
      CollapseNewlinesAppend(s[1..], c, if s[0] != '\n' then 0 else if run < 2 then run + 1 else run);
    }
  }

  lemma {:induction false} StripAppend(s: string, c: char)
    requires IsSpace(c)
    ensures Strip(s + [c]) == Strip(s)
  {
    if s == "" {
      assert s + [c] == [c] && [c][1..] == "";
    } else if IsSpace(s[0]) {
      assert (s + [c])[1..] == s[1..] + [c];
      StripAppend(s[1..], c);
    } else {
      assert (s + [c])[..|s|] == s;
    }
  }

  lemma CanonicalOfTrailing(s: string, c: char)
    requires IsSpace(c) && !IsBreak(c)
    ensures Canonical(s + [c]) == Canonical(s)
  {
    ReplaceCrLfAppend(s, c);
    ReplaceCrAppend(ReplaceCrLf(s), c);
    var y := ReplaceCr(ReplaceCrLf(s));
    var w := CollapseBlanksAppend(y, c, false);
    var z := CollapseBlanks(y, false);
    if w == "" {
      assert z + w == z;
    } else {
      assert z + w == z + [w[0]];
      CollapseNewlinesAppend(z, w[0], 0);
      StripAppend(CollapseNewlines(z, 0), w[0]);
    }
  }

  // ---- which canonical lines a text has ----

  /** No line of the text has one of these canonical forms. */
  ghost predicate Avoids(s: string, banned: set<string>) {
    AllAvoid(SplitLines(s), banned)
  }

  ghost predicate AllAvoid(lines: seq<string>, banned: set<string>) {
    forall i :: 0 <= i < |lines| ==> Canonical(lines[i]) !in banned
  }

  lemma {:induction false} IndentedFirstLine(c: char, pending: string, s: string, banned: set<string>)
    requires IsSpace(c) && !IsBreak(c) && "" !in banned
    requires AllAvoid(SplitLinesFrom([c] + pending, s), banned)
    ensures AllAvoid(SplitLinesFrom(pending, s), banned)
    decreases |s|
  {
    var lines, indented := SplitLinesFrom(pending, s), SplitLinesFrom([c] + pending, s);
    CanonicalOfIndented(c, pending);
    if s == "" {
      assert indented[0] == [c] + pending;
    } else if s[0] == '\r' && |s| > 1 && s[1] == '\n' {
      assert indented[0] == [c] + pending;
      assert forall i :: 1 <= i < |lines| ==> lines[i] == indented[i];
    } else if IsBreak(s[0]) {
      assert indented[0] == [c] + pending;
      assert forall i :: 1 <= i < |lines| ==> lines[i] == indented[i];
    } else {
      assert [c] + pending + [s[0]] == [c] + (pending + [s[0]]);
      IndentedFirstLine(c, pending + [s[0]], s[1..], banned);
    }
  }

  lemma {:induction false} StripLeftAvoids(s: string, banned: set<string>)
    requires Avoids(s, banned) && "" !in banned
    ensures Avoids(StripLeft(s), banned)
  {
    if s != "" && IsSpace(s[0]) {
      var lines := SplitLines(s);
      if s[0] == '\r' && |s| > 1 && s[1] == '\n' {
        assert s[1..][1..] == s[2..];
        assert SplitLines(s[1..]) == [""] + SplitLines(s[2..]) == lines;
      } else if IsBreak(s[0]) {
        assert forall i :: 0 <= i < |SplitLines(s[1..])| ==> SplitLines(s[1..])[i] == lines[i + 1];
      } else {
        assert "" + [s[0]] == [s[0]] + "" == [s[0]];
        IndentedFirstLine(s[0], "", s[1..], banned);
      }
      StripLeftAvoids(s[1..], banned);
    }
  }

  lemma OneCharacter(pending: string, c: char)
    ensures SplitLinesFrom(pending, [c]) == [if IsBreak(c) then pending else pending + [c]]
  {
    assert [c][1..] == "";
    if IsBreak(c) {
      assert SplitLinesFrom(pending, [c]) == [pending] + SplitLinesFrom("", "");
    } else {
      assert SplitLinesFrom(pending, [c]) == SplitLinesFrom(pending + [c], "");
    }
  }

  lemma {:induction false} TrailingLastLine(pending: string, s: string, c: char, banned: set<string>)
    requires IsSpace(c) && "" !in banned
    requires AllAvoid(SplitLinesFrom(pending, s + [c]), banned)
    ensures AllAvoid(SplitLinesFrom(pending, s), banned)
    decreases |s|
  {
    var t := s + [c];
    if s == "" {
      assert t == [c];
      OneCharacter(pending, c);
      assert SplitLinesFrom(pending, s) == if pending == "" then [] else [pending];
      if IsBreak(c) {
        assert [pending][0] == pending;
      } else {
        CanonicalOfTrailing(pending, c);
        assert [pending + [c]][0] == pending + [c];
      }
    } else if s[0] == '\r' && |s| > 1 && s[1] == '\n' {
      assert t[2..] == s[2..] + [c];
      AvoidTail(pending, SplitLinesFrom("", t[2..]), banned);
      TrailingLastLine("", s[2..], c, banned);
    } else if s == "\r" && c == '\n' {
      assert t[2..] == "" && s[1..] == "";
    } else if IsBreak(s[0]) {
      assert t[1..] == s[1..] + [c];
      AvoidTail(pending, SplitLinesFrom("", t[1..]), banned);
      TrailingLastLine("", s[1..], c, banned);
    } else {
      assert t[1..] == s[1..] + [c];
      TrailingLastLine(pending + [s[0]], s[1..], c, banned);
    }
  }

  lemma AvoidTail(first: string, rest: seq<string>, banned: set<string>)
    requires AllAvoid([first] + rest, banned)
    ensures Canonical(first) !in banned && AllAvoid(rest, banned)
  {
    assert ([first] + rest)[0] == first;
    assert forall i :: 0 <= i < |rest| ==> rest[i] == ([first] + rest)[i + 1];
  }

  lemma {:induction false} StripRightAvoids(s: string, banned: set<string>)
    requires Avoids(s, banned) && "" !in banned
    ensures Avoids(StripRight(s), banned)
  {
    if s != "" && IsSpace(s[|s| - 1]) {
      assert s == s[..|s| - 1] + [s[|s| - 1]];
      TrailingLastLine("", s[..|s| - 1], s[|s| - 1], banned);
      StripRightAvoids(s[..|s| - 1], banned);
    }
  }

  lemma {:induction false} CollapseNewlinesAvoids(pending: string, s: string, run: nat, banned: set<string>)
    requires run > 0 ==> pending == ""
    requires AllAvoid(SplitLinesFrom(pending, s), banned) && "" !in banned
    requires forall i :: 0 <= i < |s| ==> s[i] != '\r'
    ensures AllAvoid(SplitLinesFrom(pending, CollapseNewlines(s, run)), banned)
    decreases |s|
  {
    if s != "" {
      var next := if s[0] != '\n' then 0 else if run < 2 then run + 1 else run;
      var rest := CollapseNewlines(s[1..], next);
      assert ([s[0]] + rest)[1..] == rest;
      if IsBreak(s[0]) {
        AvoidTail(pending, SplitLinesFrom("", s[1..]), banned);
        CollapseNewlinesAvoids("", s[1..], next, banned);
      } else {
        CollapseNewlinesAvoids(pending + [s[0]], s[1..], next, banned);
      }
    }
  }

  // ---- keeping lines ----

  ghost predicate AllBreakFree(lines: seq<string>) {
    forall i :: 0 <= i < |lines| ==> BreakFree(lines[i])
  }

  ghost predicate AllSingleBlanks(lines: seq<string>) {
    forall i :: 0 <= i < |lines| ==> SingleBlanks(lines[i], false)
  }

  lemma SingleBlanksSlice(s: string, i: nat, j: nat)
    requires SingleBlanks(s, false) && i <= j <= |s|
    ensures SingleBlanks(s[i..j], false)
  {
  }

  lemma LineCons(first: string, rest: seq<string>)
    requires BreakFree(first) && SingleBlanks(first, false) && AllBreakFree(rest) && AllSingleBlanks(rest)
    ensures AllBreakFree([first] + rest) && AllSingleBlanks([first] + rest)
  {
  }

  lemma {:induction false} LinesLemma(pending: string, s: string)
    requires BreakFree(pending) && SingleBlanks(pending + s, false)
    ensures AllBreakFree(SplitLinesFrom(pending, s)) && AllSingleBlanks(SplitLinesFrom(pending, s))
    decreases |s|
  {
    var whole := pending + s;
    assert whole[0..|pending|] == pending;
    SingleBlanksSlice(whole, 0, |pending|);
    if s != "" {
      if IsBreak(s[0]) {
        assert whole[|pending|] == s[0];
        assert whole[|pending| + 1..|whole|] == s[1..] == "" + s[1..];
        SingleBlanksSlice(whole, |pending| + 1, |whole|);
        LinesLemma("", s[1..]);
        LineCons(pending, SplitLinesFrom("", s[1..]));
      } else {
        assert pending + [s[0]] + s[1..] == whole;
        LinesLemma(pending + [s[0]], s[1..]);
      }
    }
  }

  lemma {:induction false} SplitOfBreakFree(pending: string, line: string, rest: string)
    requires BreakFree(line)
    ensures SplitLinesFrom(pending, line + rest) == SplitLinesFrom(pending + line, rest)
    decreases |line|
  {
    if line == "" {
      assert line + rest == rest && pending + line == pending;
    } else {
      assert (line + rest)[1..] == line[1..] + rest;
      assert pending + [line[0]] + line[1..] == pending + line;
      SplitOfBreakFree(pending + [line[0]], line[1..], rest);
    }
  }

  /** Joining lines and splitting them again brings back no other line. */
  lemma {:induction false} JoinedLinesAvoid(lines: seq<string>, banned: set<string>)
    requires AllBreakFree(lines) && AllAvoid(lines, banned) && "" !in banned
    ensures Avoids(Join("\n", lines), banned)
  {
    if lines != [] {
      var first := lines[0];
      if |lines| == 1 {
        assert first + "" == first && "" + first == first;
        SplitOfBreakFree("", first, "");
      } else {
        var rest := Join("\n", lines[1..]);
        assert Join("\n", lines) == first + ("\n" + rest);
        assert ("\n" + rest)[1..] == rest && "" + first == first;
        SplitOfBreakFree("", first, "\n" + rest);
        JoinedLinesAvoid(lines[1..], banned);
      }
    }
  }

  lemma {:induction false} JoinedLinesSingleBlanks(lines: seq<string>)
    requires AllSingleBlanks(lines)
    ensures SingleBlanks(Join("\n", lines), false)
  {
    if |lines| > 1 {
      var rest := Join("\n", lines[1..]);
      JoinedLinesSingleBlanks(lines[1..]);
      assert SingleBlanks(lines[0], false);
      var s := lines[0] + "\n" + rest;
      assert forall i :: 0 <= i < |s| ==>
        s[i] == if i < |lines[0]| then lines[0][i] else if i == |lines[0]| then '\n' else rest[i - |lines[0]| - 1];
    }
  }

  /** Normalising a join of kept lines brings none of the banned lines back. */
  lemma NormalizedJoinAvoids(lines: seq<string>, banned: set<string>)
    requires AllBreakFree(lines) && AllSingleBlanks(lines) && AllAvoid(lines, banned) && "" !in banned
    ensures Avoids(Normalize(Join("\n", lines)), banned)
  {
    var s := Join("\n", lines);
    JoinedLinesAvoid(lines, banned);
    JoinedLinesSingleBlanks(lines);
    ReplaceCrLfLemma(s);
    ReplaceCrLemma(s);
    CollapseBlanksLemma(s, false);
    CollapseNewlinesAvoids("", s, 0, banned);
    StripLeftAvoids(CollapseNewlines(s, 0), banned);
    StripRightAvoids(StripLeft(CollapseNewlines(s, 0)), banned);
  }
}
