/** Text normalisation and paragraph splitting, as Python's string functions do it. */
module Text {

  /** The characters that Python's `str.strip` and `str.isspace` treat as white space. */
  predicate IsSpace(c: char) {
    var n := c as int;
    || 9 <= n <= 13 || 28 <= n <= 32 || n == 133 || n == 160 || n == 5760
    || 8192 <= n <= 8202 || n == 8232 || n == 8233 || n == 8239 || n == 8287 || n == 12288
  }

  predicate IsBlank(c: char) {
    c == ' ' || c == '\t'
  }

  // ---- normalize_text ----

  /** `value.replace("\r\n", "\n")` */
  function ReplaceCrLf(s: string): string {
    if s == "" then ""
    else if s[0] == '\r' && |s| > 1 && s[1] == '\n' then "\n" + ReplaceCrLf(s[2..])
    else [s[0]] + ReplaceCrLf(s[1..])
  }

  /** `value.replace("\r", "\n")` */
  function ReplaceCr(s: string): string {
    if s == "" then "" else [if s[0] == '\r' then '\n' else s[0]] + ReplaceCr(s[1..])
  }

  /** A run of spaces and tabs becomes one space; `inRun` says that a run has begun. */
  function CollapseBlanks(s: string, inRun: bool): string {
    if s == "" then ""
    else if IsBlank(s[0]) then (if inRun then "" else " ") + CollapseBlanks(s[1..], true)
    else [s[0]] + CollapseBlanks(s[1..], false)
  }

  /** A run of three or more newlines becomes two; `run` newlines have just been kept. */
  function CollapseNewlines(s: string, run: nat): string {
    if s == "" then ""
    else if s[0] != '\n' then [s[0]] + CollapseNewlines(s[1..], 0)
    else if run < 2 then "\n" + CollapseNewlines(s[1..], run + 1)
    else CollapseNewlines(s[1..], run)
  }

  function StripLeft(s: string): string {
    if s != "" && IsSpace(s[0]) then StripLeft(s[1..]) else s
  }

  function StripRight(s: string): string {
    if s != "" && IsSpace(s[|s| - 1]) then StripRight(s[..|s| - 1]) else s
  }

  function Strip(s: string): string {
    StripRight(StripLeft(s))
  }

  function Normalize(s: string): string {
    Strip(CollapseNewlines(CollapseBlanks(ReplaceCr(ReplaceCrLf(s)), false), 0))
  }

  // ---- split_paragraphs ----

  function SplitBlankLine(pending: string, s: string): seq<string>
    decreases |s|
  {
    if s == "" then [pending]
    else if |s| > 1 && s[0] == '\n' && s[1] == '\n' then [pending] + SplitBlankLine("", s[2..])
    else SplitBlankLine(pending + [s[0]], s[1..])
  }

  function StripNonEmpty(parts: seq<string>): seq<string> {
    if parts == [] then []
    else (if Strip(parts[0]) == "" then [] else [Strip(parts[0])]) + StripNonEmpty(parts[1..])
  }

  function SplitParagraphs(s: string): seq<string> {
    StripNonEmpty(SplitBlankLine("", Normalize(s)))
  }

  function Join(separator: string, parts: seq<string>): string {
    if parts == [] then ""
    else if |parts| == 1 then parts[0]
    else parts[0] + separator + Join(separator, parts[1..])
  }

  function Concat(parts: seq<string>): string {
    if parts == [] then "" else parts[0] + Concat(parts[1..])
  }

  /** The visible characters of a text, in order. */
  function Ink(s: string): string {
    if s == "" then "" else (if IsSpace(s[0]) then "" else [s[0]]) + Ink(s[1..])
  }

  // ---- what a normal text looks like ----

  /** No carriage return, no tab, no two adjacent spaces and no three adjacent newlines. */
  ghost predicate Clean(s: string) {
    && (forall i :: 0 <= i < |s| ==> s[i] != '\r' && s[i] != '\t')
    && (forall i :: 0 < i < |s| ==> !(s[i - 1] == ' ' && s[i] == ' '))
    && (forall i :: 1 < i < |s| ==> !(s[i - 2] == '\n' && s[i - 1] == '\n' && s[i] == '\n'))
  }

  ghost predicate Stripped(s: string) {
    s != "" ==> !IsSpace(s[0]) && !IsSpace(s[|s| - 1])
  }

  ghost predicate Normal(s: string) {
    Clean(s) && Stripped(s)
  }

  ghost predicate NoBlankLine(s: string) {
    forall i :: 0 < i < |s| ==> !(s[i - 1] == '\n' && s[i] == '\n')
  }

  /** What a member of a paragraph list looks like. */
  ghost predicate IsParagraph(s: string) {
    s != "" && Normal(s) && NoBlankLine(s)
  }

  ghost predicate AllParagraphs(parts: seq<string>) {
    forall i :: 0 <= i < |parts| ==> IsParagraph(parts[i])
  }

  // ---- stripping ----

  lemma {:induction false} StripLeftSuffix(s: string) returns (k: nat)
    ensures k <= |s| && StripLeft(s) == s[k..]
    ensures StripLeft(s) != "" ==> !IsSpace(StripLeft(s)[0])
  {
    if s != "" && IsSpace(s[0]) {
      k := StripLeftSuffix(s[1..]);
      assert s[1..][k..] == s[k + 1..];
      k := k + 1;
    } else {
      k := 0;
    }
  }

  lemma {:induction false} StripLeftKeepsInk(s: string)
    ensures Ink(StripLeft(s)) == Ink(s)
  {
    if s != "" && IsSpace(s[0]) {
      StripLeftKeepsInk(s[1..]);
    }
  }

  lemma {:induction false} StripRightPrefix(s: string) returns (k: nat)
    ensures k <= |s| && StripRight(s) == s[..k]
    ensures StripRight(s) != "" ==> !IsSpace(StripRight(s)[|StripRight(s)| - 1])
  {
    if s != "" && IsSpace(s[|s| - 1]) {
      k := StripRightPrefix(s[..|s| - 1]);
      assert s[..|s| - 1][..k] == s[..k];
    } else {
      k := |s|;
    }
  }

  lemma {:induction false} StripRightKeepsInk(s: string)
    ensures Ink(StripRight(s)) == Ink(s)
  {
    if s != "" && IsSpace(s[|s| - 1]) {
      var t, c := s[..|s| - 1], s[|s| - 1];
      StripRightKeepsInk(t);
      assert s == t + [c];
      InkConcat(t, [c]);
      assert Ink([c]) == "";
    }
  }

  /** Stripping takes a slice whose ends are visible, and keeps the visible characters. */
  lemma {:induction false} StripSlice(s: string) returns (i: nat, j: nat)
    ensures i <= j <= |s| && Strip(s) == s[i..j]
    ensures Stripped(Strip(s))
    ensures Ink(Strip(s)) == Ink(s)
  {
    i := StripLeftSuffix(s);
    var t := StripLeft(s);
    var k := StripRightPrefix(t);
    j := i + k;
    assert t[..k] == s[i..j];
    assert k > 0 ==> StripRight(t)[0] == t[0];
    StripLeftKeepsInk(s);
    StripRightKeepsInk(t);
  }

  lemma StripOfStripped(s: string)
    requires Stripped(s)
    ensures Strip(s) == s
  {
  }

  ghost predicate AllSpace(s: string) {
    forall i :: 0 <= i < |s| ==> IsSpace(s[i])
  }

  lemma {:induction false} StripLeftPadded(left: string, s: string)
    requires AllSpace(left) && s != "" && !IsSpace(s[0])
    ensures StripLeft(left + s) == s
  {
    if left == "" {
      assert left + s == s;
    } else {
      assert (left + s)[1..] == left[1..] + s;
      StripLeftPadded(left[1..], s);
    }
  }

  lemma {:induction false} StripRightPadded(s: string, right: string)
    requires AllSpace(right) && s != "" && !IsSpace(s[|s| - 1])
    ensures StripRight(s + right) == s
  {
    if right == "" {
      assert s + right == s;
    } else {
      var t := s + right;
      assert t[..|t| - 1] == s + right[..|right| - 1];
      StripRightPadded(s, right[..|right| - 1]);
    }
  }

  /** White space on either side is stripped, whatever it is. */
  lemma StripPadded(left: string, s: string, right: string)
    requires s != "" && Stripped(s) && AllSpace(left) && AllSpace(right)
    ensures Strip(left + s + right) == s
  {
    assert left + s + right == left + (s + right) && (s + right)[0] == s[0];
    StripLeftPadded(left, s + right);
    StripRightPadded(s, right);
  }

  lemma {:induction false} InkConcat(s: string, t: string)
    ensures Ink(s + t) == Ink(s) + Ink(t)
  {
    if s == "" {
      assert s + t == t;
    } else {
      assert (s + t)[1..] == s[1..] + t;
      InkConcat(s[1..], t);
    }
  }

  lemma {:induction false} InkEmpty(s: string)
    ensures Ink(s) == "" <==> Strip(s) == ""
  {
    var _, _ := StripSlice(s);
    var t := Strip(s);
    if t != "" {
      assert Ink(t) == [t[0]] + Ink(t[1..]);
    }
  }

  // ---- normalize_text: normal result, fixed points, visible characters ----

  lemma {:induction false} ReplaceCrLfLemma(s: string)
    ensures Ink(ReplaceCrLf(s)) == Ink(s)
    ensures (forall i :: 0 <= i < |s| ==> s[i] != '\r') ==> ReplaceCrLf(s) == s
  {
    if s != "" {
      if s[0] == '\r' && |s| > 1 && s[1] == '\n' {
        ReplaceCrLfLemma(s[2..]);
        assert s[1..][1..] == s[2..];
        assert Ink(s) == Ink(s[1..]) == Ink(s[2..]);
      } else {
        ReplaceCrLfLemma(s[1..]);
      }
    }
  }

  lemma {:induction false} ReplaceCrLemma(s: string)
    ensures Ink(ReplaceCr(s)) == Ink(s)
    ensures forall i :: 0 <= i < |ReplaceCr(s)| ==> ReplaceCr(s)[i] != '\r'
    ensures (forall i :: 0 <= i < |s| ==> s[i] != '\r') ==> ReplaceCr(s) == s
  {
    if s != "" {
      ReplaceCrLemma(s[1..]);
    }
  }

  /** No carriage return or tab, no two adjacent spaces, and no space to start with inside a run. */
  ghost predicate SingleBlanks(s: string, inRun: bool) {
    && (forall i :: 0 <= i < |s| ==> s[i] != '\r' && s[i] != '\t')
    && (forall i :: 0 < i < |s| ==> !(s[i - 1] == ' ' && s[i] == ' '))
    && (inRun && s != "" ==> s[0] != ' ')
  }

  lemma {:induction false} CollapseBlanksLemma(s: string, inRun: bool)
    ensures Ink(CollapseBlanks(s, inRun)) == Ink(s)
    ensures (forall i :: 0 <= i < |s| ==> s[i] != '\r') ==> SingleBlanks(CollapseBlanks(s, inRun), inRun)
    ensures SingleBlanks(s, inRun) ==> CollapseBlanks(s, inRun) == s
  {
    if s != "" {
      CollapseBlanksLemma(s[1..], IsBlank(s[0]));
      if IsBlank(s[0]) && !inRun {
        assert (" " + CollapseBlanks(s[1..], true))[1..] == CollapseBlanks(s[1..], true);
      } else if IsBlank(s[0]) {
        assert CollapseBlanks(s, inRun) == CollapseBlanks(s[1..], true);
      }
    }
  }

  /** At most two adjacent newlines, counting the `run` that went before. */
  ghost predicate ShortRuns(s: string, run: nat) {
    && (forall i :: 1 < i < |s| ==> !(s[i - 2] == '\n' && s[i - 1] == '\n' && s[i] == '\n'))
    && (run >= 1 && |s| > 1 ==> !(s[0] == '\n' && s[1] == '\n'))
    && (run >= 2 && |s| > 0 ==> s[0] != '\n')
  }

  lemma {:induction false} CollapseNewlinesLemma(s: string, run: nat)
    requires run <= 2
    ensures ShortRuns(CollapseNewlines(s, run), run)
  {
    if s != "" {
      var next := if s[0] != '\n' then 0 else if run < 2 then run + 1 else run;
      CollapseNewlinesLemma(s[1..], next);
    }
  }

  lemma {:induction false} CollapseNewlinesFixed(s: string, run: nat)
    requires run <= 2 && ShortRuns(s, run)
    ensures CollapseNewlines(s, run) == s
  {
    if s != "" {
      CollapseNewlinesFixed(s[1..], if s[0] != '\n' then 0 else run + 1);
      assert s == [s[0]] + s[1..];
    }
  }

  lemma {:induction false} CollapseNewlinesKeepsInk(s: string, run: nat)
    ensures Ink(CollapseNewlines(s, run)) == Ink(s)
  {
    if s != "" {
      var next := if s[0] != '\n' then 0 else if run < 2 then run + 1 else run;
      var rest := CollapseNewlines(s[1..], next);
      CollapseNewlinesKeepsInk(s[1..], next);
      assert ([s[0]] + rest)[1..] == rest;
    }
  }

  /** Collapsing newlines brings no two spaces together. */
  lemma {:induction false} CollapseNewlinesKeepsBlanks(s: string, run: nat)
    requires SingleBlanks(s, false)
    ensures SingleBlanks(CollapseNewlines(s, run), false)
    ensures s != "" && s[0] != '\n' ==> CollapseNewlines(s, run) != "" && CollapseNewlines(s, run)[0] == s[0]
    ensures s != "" && s[0] == '\n' && CollapseNewlines(s, run) != "" && run < 2 ==> CollapseNewlines(s, run)[0] == '\n'
  {
    if s != "" {
      var next := if s[0] != '\n' then 0 else if run < 2 then run + 1 else run;
      assert SingleBlanks(s[1..], false);
      CollapseNewlinesKeepsBlanks(s[1..], next);
    }
  }

  /** `normalize_text` returns a normal text with the same visible characters. */
  lemma NormalizeIsNormal(s: string)
    ensures Normal(Normalize(s))
    ensures Ink(Normalize(s)) == Ink(s)
  {
    var t1 := ReplaceCrLf(s);
    ReplaceCrLfLemma(s);
    var t2 := ReplaceCr(t1);
    ReplaceCrLemma(t1);
    var t3 := CollapseBlanks(t2, false);
    CollapseBlanksLemma(t2, false);
    var t4 := CollapseNewlines(t3, 0);
    CollapseNewlinesLemma(t3, 0);
    CollapseNewlinesKeepsInk(t3, 0);
    CollapseNewlinesKeepsBlanks(t3, 0);
    var i, j := StripSlice(t4);
    CleanSlice(t4, i, j);
  }

  lemma CleanSlice(s: string, i: nat, j: nat)
    requires Clean(s) && i <= j <= |s|
    ensures Clean(s[i..j])
  {
  }

  lemma ReplaceFixed(s: string)
    requires forall i :: 0 <= i < |s| ==> s[i] != '\r'
    ensures ReplaceCr(ReplaceCrLf(s)) == s
  {
    ReplaceCrLfLemma(s);
    ReplaceCrLemma(s);
  }

  lemma CollapseBlanksFixed(s: string)
    requires SingleBlanks(s, false)
    ensures CollapseBlanks(s, false) == s
  {
    CollapseBlanksLemma(s, false);
  }

  lemma NormalIsFixed(s: string)
    requires Normal(s)
    ensures Normalize(s) == s
  {
    ReplaceFixed(s);
    assert ReplaceCr(ReplaceCrLf(s)) == s;
    CollapseBlanksFixed(s);
    CollapseNewlinesFixed(s, 0);
  }

  /** The texts that `normalize_text` leaves alone are exactly the normal ones. */
  lemma NormalIffFixed(s: string)
    ensures Normal(s) <==> Normalize(s) == s
  {
    if Normal(s) {
      NormalIsFixed(s);
    } else {
      NormalizeIsNormal(s);
    }
  }

  lemma NormalizeIdempotent(s: string)
    ensures Normalize(Normalize(s)) == Normalize(s)
  {
    NormalizeIsNormal(s);
    NormalIffFixed(Normalize(s));
  }

  // ---- split_paragraphs: every part is a paragraph, and joining undoes it ----

  ghost predicate CleanParts(parts: seq<string>) {
    forall i :: 0 <= i < |parts| ==> Clean(parts[i]) && NoBlankLine(parts[i])
  }

  lemma CleanPartsCons(first: string, rest: seq<string>)
    requires Clean(first) && NoBlankLine(first) && CleanParts(rest)
    ensures CleanParts([first] + rest)
  {
  }

  lemma NoBlankLineSnoc(s: string, c: char)
    requires NoBlankLine(s) && (s != "" && s[|s| - 1] == '\n' ==> c != '\n')
    ensures NoBlankLine(s + [c])
  {
  }

  lemma CleanEnds(pending: string, s: string)
    requires Clean(pending + s)
    ensures Clean(pending) && (|s| >= 2 ==> Clean(s[2..]))
  {
    var whole := pending + s;
    assert whole[0..|pending|] == pending;
    CleanSlice(whole, 0, |pending|);
    if |s| >= 2 {
      assert whole[|pending| + 2..|whole|] == s[2..];
      CleanSlice(whole, |pending| + 2, |whole|);
    }
  }

  lemma {:induction false} PartsAreClean(pending: string, s: string)
    requires Clean(pending + s) && NoBlankLine(pending)
    requires pending != "" && pending[|pending| - 1] == '\n' ==> s == "" || s[0] != '\n'
    ensures CleanParts(SplitBlankLine(pending, s))
    decreases |s|
  {
    CleanEnds(pending, s);
    if s == "" {
      CleanPartsCons(pending, []);
      assert [pending] + [] == [pending];
    } else if |s| > 1 && s[0] == '\n' && s[1] == '\n' {
      assert "" + s[2..] == s[2..];
      PartsAreClean("", s[2..]);
      CleanPartsCons(pending, SplitBlankLine("", s[2..]));
    } else {
      var next := pending + [s[0]];
      assert next + s[1..] == pending + s;
      NoBlankLineSnoc(pending, s[0]);
      PartsAreClean(next, s[1..]);
    }
  }

  lemma ConcatOne(s: string)
    ensures Concat([s]) == s
  {
    assert [s] + [] == [s] && s + "" == s;
  }

  /** Joining with a blank separator adds nothing visible. */
  lemma {:induction false} JoinKeepsInk(separator: string, parts: seq<string>)
    requires Ink(separator) == ""
    ensures Ink(Join(separator, parts)) == Ink(Concat(parts))
  {
    if |parts| == 1 {
      assert parts == [parts[0]];
      ConcatOne(parts[0]);
    } else if |parts| > 1 {
      var rest := Join(separator, parts[1..]);
      JoinKeepsInk(separator, parts[1..]);
      InkConcat(parts[0] + separator, rest);
      InkConcat(parts[0], separator);
      InkConcat(parts[0], Concat(parts[1..]));
    }
  }

  lemma InkOfBlankLine(s: string)
    requires |s| > 1 && IsSpace(s[0]) && IsSpace(s[1])
    ensures Ink(s) == Ink(s[2..])
  {
    assert s[1..][1..] == s[2..];
  }

  lemma InkMove(s: string, t: string)
    requires t != ""
    ensures Ink(s + [t[0]]) + Ink(t[1..]) == Ink(s) + Ink(t)
  {
    var first := if IsSpace(t[0]) then "" else [t[0]];
    InkConcat(s, [t[0]]);
    assert [t[0]][1..] == "" && first + "" == first;
    assert Ink([t[0]]) == first && Ink(t) == first + Ink(t[1..]);
  }

  lemma {:induction false} PartsKeepInk(pending: string, s: string)
    ensures Ink(Concat(SplitBlankLine(pending, s))) == Ink(pending) + Ink(s)
    decreases |s|
  {
    if s == "" {
      assert [pending] + [] == [pending] == SplitBlankLine(pending, s) && pending + "" == pending;
      assert Ink(pending) + "" == Ink(pending);
    } else if |s| > 1 && s[0] == '\n' && s[1] == '\n' {
      var rest := SplitBlankLine("", s[2..]);
      assert SplitBlankLine(pending, s) == [pending] + rest;
      PartsKeepInk("", s[2..]);
      assert "" + Ink(s[2..]) == Ink(s[2..]);
      InkConcat(pending, Concat(rest));
      InkOfBlankLine(s);
    } else {
      PartsKeepInk(pending + [s[0]], s[1..]);
      InkMove(pending, s);
    }
  }

  lemma StripToParagraph(s: string)
    requires Clean(s) && NoBlankLine(s)
    ensures Strip(s) == "" || IsParagraph(Strip(s))
  {
    var i, j := StripSlice(s);
    CleanSlice(s, i, j);
  }

  lemma {:induction false} StripNonEmptyLemma(parts: seq<string>)
    requires CleanParts(parts)
    ensures AllParagraphs(StripNonEmpty(parts))
  {
    if parts != [] {
      StripNonEmptyLemma(parts[1..]);
      StripToParagraph(parts[0]);
    }
  }

  lemma {:induction false} StripNonEmptyKeepsInk(parts: seq<string>)
    ensures Ink(Concat(StripNonEmpty(parts))) == Ink(Concat(parts))
  {
    if parts != [] {
      var rest := StripNonEmpty(parts[1..]);
      StripNonEmptyKeepsInk(parts[1..]);
      var _, _ := StripSlice(parts[0]);
      InkConcat(parts[0], Concat(parts[1..]));
      InkConcat(Strip(parts[0]), Concat(rest));
      assert Strip(parts[0]) == "" ==> StripNonEmpty(parts) == rest;
    }
  }

  /** Every paragraph is nonempty, normal and without a blank line; together they hold the
      visible characters of the text. */
  lemma SplitParagraphsLemma(s: string)
    ensures AllParagraphs(SplitParagraphs(s))
    ensures Ink(Concat(SplitParagraphs(s))) == Ink(s)
  {
    NormalizeIsNormal(s);
    var t := Normalize(s);
    assert "" + t == t;
    PartsAreClean("", t);
    PartsKeepInk("", t);
    StripNonEmptyLemma(SplitBlankLine("", t));
    StripNonEmptyKeepsInk(SplitBlankLine("", t));
  }

  const PARAGRAPH_BREAK := "\n\n"

  lemma {:induction false} JoinIsNormal(parts: seq<string>)
    requires AllParagraphs(parts)
    ensures Normal(Join(PARAGRAPH_BREAK, parts))
    ensures parts != [] ==> Join(PARAGRAPH_BREAK, parts) != ""
    ensures parts != [] ==> Join(PARAGRAPH_BREAK, parts)[0] == parts[0][0]
  {
    if |parts| > 1 {
      JoinIsNormal(parts[1..]);
    }
  }

  lemma {:induction false} SplitAtBreak(pending: string, p: string, rest: string)
    requires NoBlankLine(p) && (p != "" ==> p[|p| - 1] != '\n')
    ensures SplitBlankLine(pending, p + PARAGRAPH_BREAK + rest) == [pending + p] + SplitBlankLine("", rest)
    decreases |p|
  {
    var s := p + PARAGRAPH_BREAK + rest;
    if p == "" {
      assert s[2..] == rest && pending + p == pending;
    } else {
      assert s[1..] == p[1..] + PARAGRAPH_BREAK + rest;
      assert pending + [p[0]] + p[1..] == pending + p;
      SplitAtBreak(pending + [p[0]], p[1..], rest);
    }
  }

  lemma {:induction false} SplitWithoutBreak(pending: string, p: string)
    requires NoBlankLine(p)
    ensures SplitBlankLine(pending, p) == [pending + p]
    decreases |p|
  {
    if p == "" {
      assert pending + p == pending;
    } else {
      assert pending + [p[0]] + p[1..] == pending + p;
      SplitWithoutBreak(pending + [p[0]], p[1..]);
    }
  }

  lemma {:induction false} SplitJoinedParagraphs(parts: seq<string>)
    requires parts != [] && AllParagraphs(parts)
    ensures SplitBlankLine("", Join(PARAGRAPH_BREAK, parts)) == parts
  {
    var p := parts[0];
    assert "" + p == p;
    if |parts| == 1 {
      SplitWithoutBreak("", p);
    } else {
      SplitAtBreak("", p, Join(PARAGRAPH_BREAK, parts[1..]));
      SplitJoinedParagraphs(parts[1..]);
    }
  }

  lemma {:induction false} StripNonEmptyFixed(parts: seq<string>)
    requires AllParagraphs(parts)
    ensures StripNonEmpty(parts) == parts
  {
    if parts != [] {
      StripNonEmptyFixed(parts[1..]);
    }
  }

  /** Splitting a join of paragraphs gives the paragraphs back. */
  lemma {:induction false} SplitOfJoin(parts: seq<string>)
    requires AllParagraphs(parts)
    ensures SplitParagraphs(Join(PARAGRAPH_BREAK, parts)) == parts
  {
    if parts == [] {
      assert SplitBlankLine("", "") == [""];
      assert Normalize("") == "";
      assert StripNonEmpty([""]) == [];
    } else {
      var s := Join(PARAGRAPH_BREAK, parts);
      JoinIsNormal(parts);
      NormalIffFixed(s);
      SplitJoinedParagraphs(parts);
      StripNonEmptyFixed(parts);
    }
  }

  /** Re-splitting is a fixed point: for every text, splitting the join of its paragraphs
      gives the same paragraphs. */
  lemma {:induction false} SplitJoinRoundTrip(s: string)
    ensures SplitParagraphs(Join(PARAGRAPH_BREAK, SplitParagraphs(s))) == SplitParagraphs(s)
  {
    SplitParagraphsLemma(s);
    SplitOfJoin(SplitParagraphs(s));
  }
}
