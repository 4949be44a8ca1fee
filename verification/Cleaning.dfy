/** The document cleaner: drop repeated page headers and footers, then drop noise. */
module Cleaning {
  import opened Common
  import opened Documents
  import opened Text
  import opened Lines

  /** The Unicode classes the cleaner asks for: category C, `\w` and `str.isalnum`. */
  datatype Charset = Charset(isControl: char -> bool, isWord: char -> bool, isAlnum: char -> bool)

  datatype Policy = Policy(
    enabled: bool, cleaningVersion: string, removeControlChars: bool, repairPdfLineWraps: bool,
    removeRepeatedPageLines: bool, dropEmptySections: bool, dropShortNoiseSections: bool,
    minTextChars: int, maxSymbolRatio: real, repeatedLineMinPages: int, repeatedLineEdgeLines: int)

  // ---- slices ----

  /** `s[:n]` */
  function Take<T>(s: seq<T>, n: int): seq<T> {
    if n >= |s| then s else if n >= 0 then s[..n] else if |s| + n >= 0 then s[..|s| + n] else []
  }

  /** `s[n:]` */
  function From<T>(s: seq<T>, n: int): seq<T> {
    if n >= |s| then [] else if n >= 0 then s[n..] else if |s| + n >= 0 then s[|s| + n..] else s
  }

  // ---- repeated edge lines ----

  predicate Truthy(value: Meta) {
    match value
    case Nothing => false
    case Flag(b) => b
    case Number(n) => n != 0
    case Fraction(r) => r != 0.0
    case Words(s) => s != ""
    case Other => true
  }

  /** `_section_start_page` */
  function StartPage(section: Section): Option<int> {
    if section.pageNumber.Some? then section.pageNumber
    else if "start_page" in section.metadata && Truthy(section.metadata["start_page"])
    then IntAt(section.metadata, "start_page")
    else IntAt(section.metadata, "page_number")
  }

  /** `_section_end_page` */
  function EndPage(section: Section): Option<int> {
    if section.pageNumber.Some? then section.pageNumber
    else if "end_page" in section.metadata && Truthy(section.metadata["end_page"])
    then IntAt(section.metadata, "end_page")
    else IntAt(section.metadata, "page_number")
  }

  function NonEmptyCanonical(lines: seq<string>): seq<string> {
    if lines == [] then []
    else (if Canonical(lines[0]) == "" then [] else [Canonical(lines[0])]) + NonEmptyCanonical(lines[1..])
  }

  /** `_edge_lines`: the first and the last nonempty canonical lines. */
  function EdgeLines(text: string, edgeLines: int): seq<string> {
    var lines := NonEmptyCanonical(SplitLines(text));
    Take(lines, edgeLines) + From(lines, -edgeLines)
  }

  /** `line.split()` has this many words; `inWord` says that a word has begun. */
  function WordCount(line: string, inWord: bool): nat {
    if line == "" then 0
    else (if !IsSpace(line[0]) && !inWord then 1 else 0) + WordCount(line[1..], !IsSpace(line[0]))
  }

  predicate LooksLikeBodyLine(line: string) {
    WordCount(line, false) >= 8 || |line| > 80
  }

  predicate IsEdgeLineOf(section: Section, line: string, edgeLines: int) {
    StartPage(section).Some? && line in EdgeLines(section.text, edgeLines)
  }

  /** In how many paged sections the line is an edge line. */
  function PageCount(sections: seq<Section>, line: string, edgeLines: int): nat {
    if sections == [] then 0
    else
      PageCount(sections[..|sections| - 1], line, edgeLines)
      + if IsEdgeLineOf(sections[|sections| - 1], line, edgeLines) then 1 else 0
  }

  /** A header or footer: an edge line of enough pages that does not read like body text. */
  predicate IsRepeated(sections: seq<Section>, line: string, policy: Policy) {
    var count := PageCount(sections, line, policy.repeatedLineEdgeLines);
    count >= 1 && count >= policy.repeatedLineMinPages && !LooksLikeBodyLine(line)
  }

  function PagedSections(sections: seq<Section>): seq<Section> {
    if sections == [] then []
    else
      PagedSections(sections[..|sections| - 1])
      + if StartPage(sections[|sections| - 1]).Some? then [sections[|sections| - 1]] else []
  }

  lemma {:induction false} PagedSectionsLemma(sections: seq<Section>, line: string, edgeLines: int)
    ensures forall i :: 0 <= i < |PagedSections(sections)| ==> StartPage(PagedSections(sections)[i]).Some?
    ensures PageCount(PagedSections(sections), line, edgeLines) == PageCount(sections, line, edgeLines)
    ensures PageCount(sections, line, edgeLines) <= |PagedSections(sections)|
  {
    if sections != [] {
      var before, last := sections[..|sections| - 1], sections[|sections| - 1];
      PagedSectionsLemma(before, line, edgeLines);
      if StartPage(last).Some? {
        assert PagedSections(sections)[..|PagedSections(sections)| - 1] == PagedSections(before);
      } else {
        assert PagedSections(sections) == PagedSections(before);
      }
    }
  }

  /** Each candidate line is counted once more. */
  method CountLines(counts: map<string, nat>, candidates: set<string>) returns (next: map<string, nat>)
    ensures forall l :: l in next <==> l in counts || l in candidates
    ensures forall l :: l in next ==>
              next[l] == (if l in counts then counts[l] else 0) + if l in candidates then 1 else 0
  {
    next := counts;
    var todo := candidates;
    while todo != {}
      invariant todo <= candidates
      invariant forall l :: l in next <==> l in counts || l in candidates - todo
      invariant forall l :: l in next ==>
                  next[l] == (if l in counts then counts[l] else 0) + if l in candidates - todo then 1 else 0
    {
      var line :| line in todo;
      todo := todo - {line};
      next := next[line := (if line in next then next[line] else 0) + 1];
    }
  }

  lemma PageCountStep(paged: seq<Section>, i: nat, line: string, edgeLines: int)
    requires i < |paged| && StartPage(paged[i]).Some?
    ensures PageCount(paged[..i + 1], line, edgeLines) ==
            PageCount(paged[..i], line, edgeLines) + if line in EdgeLines(paged[i].text, edgeLines) then 1 else 0
  {
    assert paged[..i + 1][..i] == paged[..i];
  }

  ghost predicate CountOf(counts: map<string, nat>, line: string, n: nat) {
    (line in counts <==> n > 0) && (line in counts ==> counts[line] == n)
  }

  /** The loop that counts, for each edge line, the paged sections it occurs in. */
  method CountEdgeLines(paged: seq<Section>, edgeLines: int) returns (counts: map<string, nat>)
    requires forall i :: 0 <= i < |paged| ==> StartPage(paged[i]).Some?
    ensures forall l :: CountOf(counts, l, PageCount(paged, l, edgeLines))
  {
    counts := map[];
    for i := 0 to |paged|
      invariant forall l :: CountOf(counts, l, PageCount(paged[..i], l, edgeLines))
    {
      var candidates := EdgeLines(paged[i].text, edgeLines);
      var next := CountLines(counts, set l | l in candidates);
      ghost var counted := paged[..i + 1];
      forall l: string
        ensures CountOf(next, l, PageCount(counted, l, edgeLines))
      {
        assert CountOf(counts, l, PageCount(paged[..i], l, edgeLines));
        PageCountStep(paged, i, l, edgeLines);
      }
      counts := next;
    }
    assert paged[..|paged|] == paged;
  }

  /** `_find_repeated_edge_lines` finds exactly the repeated lines. */
  method FindRepeatedEdgeLines(sections: seq<Section>, policy: Policy) returns (repeated: set<string>)
    ensures forall line :: line in repeated <==> IsRepeated(sections, line, policy)
  {
    var paged := PagedSections(sections);
    PagedSectionsLemma(sections, "", policy.repeatedLineEdgeLines);
    forall line: string
      ensures PageCount(paged, line, policy.repeatedLineEdgeLines) == PageCount(sections, line, policy.repeatedLineEdgeLines)
      ensures PageCount(sections, line, policy.repeatedLineEdgeLines) <= |paged|
    {
      PagedSectionsLemma(sections, line, policy.repeatedLineEdgeLines);
    }
    if |paged| < policy.repeatedLineMinPages {
      return {};
    }
    var counts := CountEdgeLines(paged, policy.repeatedLineEdgeLines);
    assert forall l :: CountOf(counts, l, PageCount(sections, l, policy.repeatedLineEdgeLines));
    repeated := set l | l in counts && counts[l] >= policy.repeatedLineMinPages && !LooksLikeBodyLine(l);
  }

  lemma FromMember<T>(s: seq<T>, n: int, x: T)
    requires n >= 1
    ensures x in From(s, -n) <==> exists i :: 0 <= i < |s| && s[i] == x && i >= |s| - n
  {
    var t := From(s, -n);
    var skipped := |s| - |t|;
    assert forall i :: 0 <= i < |t| ==> t[i] == s[skipped + i];
    if i :| 0 <= i < |s| && s[i] == x && i >= |s| - n {
      assert t[i - skipped] == x;
    }
  }

  lemma EndsMember<T>(s: seq<T>, n: int, x: T)
    requires n >= 1
    ensures x in Take(s, n) + From(s, -n) <==> exists i :: 0 <= i < |s| && s[i] == x && (i < n || i >= |s| - n)
  {
    FromMember(s, n, x);
    var first, last := Take(s, n), From(s, -n);
    assert x in first + last <==> x in first || x in last;
  }

  /** The edge lines of a text are its first and its last `edgeLines` nonempty canonical lines. */
  lemma EdgeLineIff(text: string, edgeLines: int, line: string, lines: seq<string>)
    requires edgeLines >= 1 && lines == NonEmptyCanonical(SplitLines(text))
    ensures line in EdgeLines(text, edgeLines) <==>
            exists i :: 0 <= i < |lines| && lines[i] == line && (i < edgeLines || i >= |lines| - edgeLines)
  {
    assert EdgeLines(text, edgeLines) == Take(lines, edgeLines) + From(lines, -edgeLines);
    EndsMember(lines, edgeLines, line);
  }

  lemma {:induction false} EdgeLinesNotEmpty(lines: seq<string>)
    ensures forall i :: 0 <= i < |NonEmptyCanonical(lines)| ==> NonEmptyCanonical(lines)[i] != ""
  {
    if lines != [] {
      EdgeLinesNotEmpty(lines[1..]);
    }
  }

  lemma {:induction false} EmptyLineNotCounted(sections: seq<Section>, edgeLines: int)
    ensures PageCount(sections, "", edgeLines) == 0
  {
    if sections != [] {
      EmptyLineNotCounted(sections[..|sections| - 1], edgeLines);
      EdgeLinesNotEmpty(SplitLines(sections[|sections| - 1].text));
    }
  }

  /** With an edge size of zero, `lines[-0:]` is the whole list: every line is an edge line. */
  lemma ZeroEdgeMeansAllLines(text: string)
    ensures EdgeLines(text, 0) == NonEmptyCanonical(SplitLines(text))
  {
  }

  // ---- removing them ----

  function KeptLines(lines: seq<string>, repeated: set<string>): seq<string> {
    if lines == [] then []
    else
      KeptLines(lines[..|lines| - 1], repeated)
      + if Canonical(lines[|lines| - 1]) in repeated then [] else [lines[|lines| - 1]]
  }

  lemma {:induction false} KeptLineAt(lines: seq<string>, repeated: set<string>, k: nat) returns (i: nat)
    requires k < |KeptLines(lines, repeated)|
    ensures i < |lines| && KeptLines(lines, repeated)[k] == lines[i] && Canonical(lines[i]) !in repeated
  {
    var before := KeptLines(lines[..|lines| - 1], repeated);
    if k < |before| {
      i := KeptLineAt(lines[..|lines| - 1], repeated, k);
      assert KeptLines(lines, repeated)[k] == before[k];
    } else {
      i := |lines| - 1;
    }
  }

  lemma {:induction false} LineIsKept(lines: seq<string>, repeated: set<string>, i: nat)
    requires i < |lines| && Canonical(lines[i]) !in repeated
    ensures lines[i] in KeptLines(lines, repeated)
  {
    if i < |lines| - 1 {
      LineIsKept(lines[..|lines| - 1], repeated, i);
    }
  }

  lemma {:induction false} KeptCount(lines: seq<string>, repeated: set<string>)
    ensures |KeptLines(lines, repeated)| <= |lines|
  {
    if lines != [] {
      KeptCount(lines[..|lines| - 1], repeated);
    }
  }

  /** A line goes exactly when its canonical form is one of the repeated lines. */
  lemma KeptLinesLemma(lines: seq<string>, repeated: set<string>)
    ensures forall l :: l in KeptLines(lines, repeated) <==> l in lines && Canonical(l) !in repeated
    ensures AllAvoid(KeptLines(lines, repeated), repeated)
  {
    var kept := KeptLines(lines, repeated);
    forall k | 0 <= k < |kept|
      ensures kept[k] in lines && Canonical(kept[k]) !in repeated
    {
      var i := KeptLineAt(lines, repeated, k);
    }
    forall l | l in lines && Canonical(l) !in repeated
      ensures l in kept
    {
      var i :| 0 <= i < |lines| && lines[i] == l;
      LineIsKept(lines, repeated, i);
    }
  }

  lemma KeptLinesStayNormal(lines: seq<string>, repeated: set<string>)
    requires AllBreakFree(lines) && AllSingleBlanks(lines)
    ensures AllBreakFree(KeptLines(lines, repeated)) && AllSingleBlanks(KeptLines(lines, repeated))
  {
    var kept := KeptLines(lines, repeated);
    forall k | 0 <= k < |kept|
      ensures BreakFree(kept[k]) && SingleBlanks(kept[k], false)
    {
      var i := KeptLineAt(lines, repeated, k);
    }
  }

  /** `_remove_repeated_lines` */
  method RemoveRepeatedLines(text: string, repeated: set<string>) returns (kept: string, removed: nat)
    ensures kept == Join("\n", KeptLines(SplitLines(text), repeated))
    ensures removed == |SplitLines(text)| - |KeptLines(SplitLines(text), repeated)|
  {
    var lines := SplitLines(text);
    var keptLines: seq<string> := [];
    removed := 0;
    for i := 0 to |lines|
      invariant keptLines == KeptLines(lines[..i], repeated) && removed == i - |keptLines|
    {
      assert lines[..i + 1][..i] == lines[..i];
      assert KeptLines(lines[..i + 1], repeated) ==
             keptLines + if Canonical(lines[i]) in repeated then [] else [lines[i]];
      KeptCount(lines[..i + 1], repeated);
      if Canonical(lines[i]) in repeated {
        removed := removed + 1;
      } else {
        keptLines := keptLines + [lines[i]];
      }
    }
    assert lines[..|lines|] == lines;
    kept := Join("\n", keptLines);
  }

  // ---- preparing a text ----

  /** Control characters other than newline and tab become spaces. */
  function RemoveControlChars(text: string, charset: Charset): string {
    seq(|text|, i requires 0 <= i < |text| =>
      if text[i] == '\n' || text[i] == '\t' || !charset.isControl(text[i]) then text[i] else ' ')
  }

  /** A hyphen and newline between word characters goes; `previous` is the character before. */
  function JoinHyphens(text: string, previous: Option<char>, charset: Charset): string {
    if text == "" then ""
    else if |text| > 2 && text[0] == '-' && text[1] == '\n' && charset.isWord(text[2])
            && previous.Some? && charset.isWord(previous.value)
    then JoinHyphens(text[2..], Some('\n'), charset)
    else [text[0]] + JoinHyphens(text[1..], Some(text[0]), charset)
  }

  predicate EndsSentence(c: char) {
    c in "\n\U{3002}\U{FF01}\U{FF1F}.!?;\U{FF1B}:\U{FF1A}"
  }

  /** A newline inside a sentence becomes a space. */
  function JoinWrapped(text: string, previous: Option<char>): string {
    if text == "" then ""
    else
      [if text[0] == '\n' && |text| > 1 && !IsSpace(text[1]) && previous.Some? && !EndsSentence(previous.value)
       then ' ' else text[0]]
      + JoinWrapped(text[1..], Some(text[0]))
  }

  function RepairLineWraps(text: string, charset: Charset): string {
    JoinWrapped(JoinHyphens(text, None, charset), None)
  }

  function WithoutHyphens(s: string): string {
    if s == "" then "" else (if s[0] == '-' then "" else [s[0]]) + WithoutHyphens(s[1..])
  }

  lemma InkCons(c: char, s: string)
    ensures IsSpace(c) ==> Ink([c] + s) == Ink(s)
    ensures !IsSpace(c) ==> Ink([c] + s) == [c] + Ink(s)
  {
    assert ([c] + s)[1..] == s;
  }

  lemma {:induction false} JoinWrappedKeepsInk(text: string, previous: Option<char>)
    ensures Ink(JoinWrapped(text, previous)) == Ink(text)
  {
    if text != "" {
      var rest := JoinWrapped(text[1..], Some(text[0]));
      JoinWrappedKeepsInk(text[1..], Some(text[0]));
      InkCons(JoinWrapped(text, previous)[0], rest);
    }
  }

  lemma WithoutHyphensCons(c: char, s: string)
    ensures WithoutHyphens([c] + s) == (if c == '-' then "" else [c]) + WithoutHyphens(s)
  {
    assert ([c] + s)[1..] == s;
  }

  lemma {:induction false} HyphenBreak(text: string)
    requires |text| > 1 && text[0] == '-' && text[1] == '\n'
    ensures WithoutHyphens(Ink(text)) == WithoutHyphens(Ink(text[2..]))
  {
    assert text[1..][1..] == text[2..];
    assert Ink(text[1..]) == "" + Ink(text[2..]) == Ink(text[2..]);
    assert Ink(text) == ['-'] + Ink(text[2..]);
    WithoutHyphensCons('-', Ink(text[2..]));
  }

  lemma SameAfterCons(c: char, s: string, t: string)
    requires WithoutHyphens(Ink(s)) == WithoutHyphens(Ink(t))
    ensures WithoutHyphens(Ink([c] + s)) == WithoutHyphens(Ink([c] + t))
  {
    InkCons(c, s);
    InkCons(c, t);
    WithoutHyphensCons(c, Ink(s));
    WithoutHyphensCons(c, Ink(t));
  }

  lemma {:induction false} JoinHyphensKeepsInk(text: string, previous: Option<char>, charset: Charset)
    ensures WithoutHyphens(Ink(JoinHyphens(text, previous, charset))) == WithoutHyphens(Ink(text))
    decreases |text|
  {
    if text != "" {
      if |text| > 2 && text[0] == '-' && text[1] == '\n' && charset.isWord(text[2])
         && previous.Some? && charset.isWord(previous.value) {
        JoinHyphensKeepsInk(text[2..], Some('\n'), charset);
        HyphenBreak(text);
      } else {
        JoinHyphensKeepsInk(text[1..], Some(text[0]), charset);
        SameAfterCons(text[0], JoinHyphens(text[1..], Some(text[0]), charset), text[1..]);
        assert text == [text[0]] + text[1..];
      }
    }
  }

  /** Repairing line wraps loses no visible character but hyphens. */
  lemma RepairLosesOnlyHyphens(text: string, charset: Charset)
    ensures WithoutHyphens(Ink(RepairLineWraps(text, charset))) == WithoutHyphens(Ink(text))
  {
    JoinHyphensKeepsInk(text, None, charset);
    JoinWrappedKeepsInk(JoinHyphens(text, None, charset), None);
  }

  function Prepared(section: Section, policy: Policy, charset: Charset): string {
    var t1 := if policy.removeControlChars then RemoveControlChars(section.text, charset) else section.text;
    var t2 := if policy.repairPdfLineWraps then RepairLineWraps(t1, charset) else t1;
    Normalize(t2)
  }

  // ---- noise ----

  /** `string.punctuation` */
  predicate IsPunctuation(c: char) {
    '!' <= c <= '/' || ':' <= c <= '@' || '[' <= c <= '`' || '{' <= c <= '~'
  }

  function Count(s: string, p: char -> bool): (n: nat)
    ensures n <= |s|
  {
    if s == "" then 0 else (if p(s[0]) then 1 else 0) + Count(s[1..], p)
  }

  function Positive(x: real): real {
    if x > 0.0 then x else 0.0
  }

  /** The weighted sum that scores a text of `length` characters, `visible` of them not blank. */
  function NoiseSum(symbols: nat, alnum: nat, visible: nat, length: nat): real
    requires visible > 0
  {
    (symbols as real / visible as real) * 0.6
    + Positive((20 - length) as real / 20.0) * 0.3
    + Positive(0.45 - alnum as real / visible as real) * 0.4
  }

  function NoiseScore(text: string, charset: Charset): real {
    var chars := Ink(Strip(text));
    if chars == "" then 1.0
    else
      var sum := NoiseSum(Count(chars, c => IsPunctuation(c)), Count(chars, charset.isAlnum), |chars|, |Strip(text)|);
      if sum <= 1.0 then sum else 1.0
  }

  datatype Reason = NotDropped | Empty | ShortNoise | HighNoise

  function DropReason(text: string, score: real, policy: Policy): Reason {
    if policy.dropEmptySections && Strip(text) == "" then Empty
    else if !policy.dropShortNoiseSections then NotDropped
    else if |Strip(text)| < policy.minTextChars && score >= policy.maxSymbolRatio then ShortNoise
    else if score >= 0.95 then HighNoise
    else NotDropped
  }

  lemma RatioInUnit(n: nat, d: nat)
    requires n <= d && d > 0
    ensures 0.0 <= n as real / d as real <= 1.0
  {
    var q := n as real / d as real;
    assert d as real * q == n as real;
  }

  lemma NoiseSumBounds(symbols: nat, alnum: nat, visible: nat, length: nat)
    requires symbols <= visible && alnum <= visible && 0 < visible <= length
    ensures NoiseSum(symbols, alnum, visible, length) >= 0.0
    ensures length >= 9 ==> NoiseSum(symbols, alnum, visible, length) < 0.95
  {
    RatioInUnit(symbols, visible);
    RatioInUnit(alnum, visible);
  }

  lemma {:induction false} InkLength(s: string)
    ensures |Ink(s)| <= |s|
  {
    if s != "" {
      InkLength(s[1..]);
    }
  }

  /** The noise score lies between zero and one, and stays below the cut-off of 0.95 as soon as
      nine characters are left. */
  lemma NoiseScoreBounds(text: string, charset: Charset)
    ensures 0.0 <= NoiseScore(text, charset) <= 1.0
    ensures |Strip(text)| >= 9 ==> NoiseScore(text, charset) < 0.95
  {
    var chars := Ink(Strip(text));
    InkLength(Strip(text));
    InkEmpty(text);
    var _, _ := StripSlice(text);
    if chars != "" {
      NoiseSumBounds(Count(chars, c => IsPunctuation(c)), Count(chars, charset.isAlnum), |chars|, |Strip(text)|);
    }
  }

  /** No text of at least `max(min_text_chars, 9)` characters is dropped, whatever it contains and
      whatever the symbol ratio limit is. */
  lemma LongTextIsNeverDropped(text: string, charset: Charset, policy: Policy)
    requires |Strip(text)| >= policy.minTextChars && |Strip(text)| >= 9
    ensures DropReason(text, NoiseScore(text, charset), policy) == NotDropped
  {
    NoiseScoreBounds(text, charset);
  }

  lemma {:induction false} CountAll(s: string, p: char -> bool)
    ensures (forall i :: 0 <= i < |s| ==> p(s[i])) ==> Count(s, p) == |s|
    ensures (forall i :: 0 <= i < |s| ==> !p(s[i])) ==> Count(s, p) == 0
  {
    if s != "" {
      CountAll(s[1..], p);
    }
  }

  lemma {:induction false} InkOfSolid(s: string)
    requires forall i :: 0 <= i < |s| ==> !IsSpace(s[i])
    ensures Ink(s) == s
  {
    if s != "" {
      InkOfSolid(s[1..]);
    }
  }

  /** Nine is tight: punctuation alone reaches the cut-off exactly up to eight characters. */
  lemma PunctuationThreshold(text: string, charset: Charset)
    requires text != "" && forall i :: 0 <= i < |text| ==> IsPunctuation(text[i]) && !charset.isAlnum(text[i])
    ensures NoiseScore(text, charset) >= 0.95 <==> |text| <= 8
  {
    assert forall i :: 0 <= i < |text| ==> !IsSpace(text[i]);
    InkOfSolid(text);
    CountAll(text, c => IsPunctuation(c));
    CountAll(text, charset.isAlnum);
    PunctuationSum(|text|);
  }

  lemma PunctuationSum(n: nat)
    requires n > 0
    ensures NoiseSum(n, 0, n, n) >= 0.95 <==> n <= 8
  {
    assert n as real / n as real == 1.0;
    assert 0.0 / n as real == 0.0;
  }

  // ---- cleaning ----

  /** The final text of a prepared text, and how many lines were removed from it. */
  function WithoutRepeated(text: string, repeated: set<string>, policy: Policy): (string, int) {
    if policy.removeRepeatedPageLines && repeated != {} then
      var kept := KeptLines(SplitLines(text), repeated);
      (Normalize(Join("\n", kept)), |SplitLines(text)| - |kept|)
    else (Normalize(text), 0)
  }

  function CleanedText(section: Section, repeated: set<string>, policy: Policy, charset: Charset): (string, int) {
    WithoutRepeated(Prepared(section, policy, charset), repeated, policy)
  }

  /** `round(x, 4)`, ties to even */
  function Round4(x: real): real {
    var scaled := x * 10000.0;
    var floor := scaled.Floor;
    var rest := scaled - floor as real;
    (if rest < 0.5 || (rest == 0.5 && floor % 2 == 0) then floor else floor + 1) as real / 10000.0
  }

  datatype Verdict =
    | Keep(section: Section)
    | Drop(sectionId: string, reason: Reason, preview: string, startPage: Option<int>, endPage: Option<int>, score: real)

  /** What becomes of a section whose text was cleaned to `text` by removing `removed` lines. */
  function Judge(section: Section, text: string, removed: int, policy: Policy, charset: Charset): Verdict {
    var score := NoiseScore(text, charset);
    var reason := DropReason(text, score, policy);
    if reason != NotDropped then
      Drop(section.sectionId, reason, Take(text, 160), StartPage(section), EndPage(section), score)
    else
      var metadata := section.metadata["cleaning_version" := Words(policy.cleaningVersion)]
        ["cleaning_applied" := Flag(true)]["noise_score" := Fraction(Round4(score))];
      Keep(section.(text := text,
                    metadata := if removed != 0 then metadata["removed_repeated_lines" := Number(removed)] else metadata))
  }

  function VerdictOn(section: Section, repeated: set<string>, policy: Policy, charset: Charset): Verdict {
    var (text, removed) := CleanedText(section, repeated, policy, charset);
    Judge(section, text, removed, policy, charset)
  }

  function Verdicts(sections: seq<Section>, repeated: set<string>, policy: Policy, charset: Charset): (verdicts: seq<Verdict>)
    ensures |verdicts| == |sections|
  {
    if sections == [] then []
    else
      Verdicts(sections[..|sections| - 1], repeated, policy, charset)
      + [VerdictOn(sections[|sections| - 1], repeated, policy, charset)]
  }

  function Kept(verdicts: seq<Verdict>): seq<Section> {
    if verdicts == [] then []
    else
      Kept(verdicts[..|verdicts| - 1])
      + if verdicts[|verdicts| - 1].Keep? then [verdicts[|verdicts| - 1].section] else []
  }

  function Dropped(verdicts: seq<Verdict>): seq<Verdict> {
    if verdicts == [] then []
    else
      Dropped(verdicts[..|verdicts| - 1]) + if verdicts[|verdicts| - 1].Drop? then [verdicts[|verdicts| - 1]] else []
  }

  function RemovedTotal(sections: seq<Section>, repeated: set<string>, policy: Policy, charset: Charset): int {
    if sections == [] then 0
    else
      RemovedTotal(sections[..|sections| - 1], repeated, policy, charset)
      + CleanedText(sections[|sections| - 1], repeated, policy, charset).1
  }

  method Prepare(section: Section, policy: Policy, charset: Charset) returns (text: string)
    ensures text == Prepared(section, policy, charset)
  {
    text := section.text;
    if policy.removeControlChars {
      text := RemoveControlChars(text, charset);
    }
    if policy.repairPdfLineWraps {
      text := RepairLineWraps(text, charset);
    }
    text := Normalize(text);
  }

  /** The cleaned text of one section. */
  method CleanText(section: Section, repeated: set<string>, policy: Policy, charset: Charset)
    returns (text: string, removed: int)
    ensures (text, removed) == CleanedText(section, repeated, policy, charset)
  {
    text := Prepare(section, policy, charset);
    removed := 0;
    if policy.removeRepeatedPageLines && repeated != {} {
      text, removed := RemoveRepeatedLines(text, repeated);
    }
    text := Normalize(text);
  }

  datatype CleaningResult = CleaningResult(
    sections: seq<Section>, dropped: seq<Verdict>, removedRepeatedLines: int, repeatedLineCount: nat)

  /** `DocumentCleaner.clean` */
  method Clean(sections: seq<Section>, policy: Policy, charset: Charset)
    returns (result: CleaningResult, ghost repeated: set<string>)
    ensures !policy.enabled ==> result == CleaningResult(sections, [], 0, 0)
    ensures policy.enabled ==>
              && (forall line :: line in repeated <==> IsRepeated(sections, line, policy))
              && result == CleaningResult(
                   Kept(Verdicts(sections, repeated, policy, charset)), Dropped(Verdicts(sections, repeated, policy, charset)),
                   RemovedTotal(sections, repeated, policy, charset), |repeated|)
  {
    repeated := {};
    if !policy.enabled {
      result := CleaningResult(sections, [], 0, 0);
      return;
    }
    var found := FindRepeatedEdgeLines(sections, policy);
    repeated := found;
    var cleaned, dropped, total := CleanAll(sections, found, policy, charset);
    result := CleaningResult(cleaned, dropped, total, |found|);
  }

  /** The loop over the sections. */
  method CleanAll(sections: seq<Section>, repeated: set<string>, policy: Policy, charset: Charset)
    returns (cleaned: seq<Section>, dropped: seq<Verdict>, total: int)
    ensures cleaned == Kept(Verdicts(sections, repeated, policy, charset))
    ensures dropped == Dropped(Verdicts(sections, repeated, policy, charset))
    ensures total == RemovedTotal(sections, repeated, policy, charset)
  {
    cleaned, dropped, total := [], [], 0;
    for i := 0 to |sections|
      invariant cleaned == Kept(Verdicts(sections[..i], repeated, policy, charset))
      invariant dropped == Dropped(Verdicts(sections[..i], repeated, policy, charset))
      invariant total == RemovedTotal(sections[..i], repeated, policy, charset)
    {
      PrefixStep(sections, i);
      VerdictsStep(sections[..i], sections[i], repeated, policy, charset);
      RemovedStep(sections[..i], sections[i], repeated, policy, charset);
      var text, removed := CleanText(sections[i], repeated, policy, charset);
      VerdictIsJudgement(sections[i], text, removed, repeated, policy, charset);
      total := total + removed;
      var verdict := Judge(sections[i], text, removed, policy, charset);
      if verdict.Drop? {
        dropped := dropped + [verdict];
      } else {
        cleaned := cleaned + [verdict.section];
      }
    }
    assert sections[..|sections|] == sections;
  }

  lemma VerdictIsJudgement(
    section: Section, text: string, removed: int, repeated: set<string>, policy: Policy, charset: Charset)
    requires (text, removed) == CleanedText(section, repeated, policy, charset)
    ensures VerdictOn(section, repeated, policy, charset) == Judge(section, text, removed, policy, charset)
  {
  }

  lemma RemovedStep(sections: seq<Section>, section: Section, repeated: set<string>, policy: Policy, charset: Charset)
    ensures RemovedTotal(sections + [section], repeated, policy, charset)
         == RemovedTotal(sections, repeated, policy, charset) + CleanedText(section, repeated, policy, charset).1
  {
    assert (sections + [section])[..|sections|] == sections;
  }

  lemma VerdictsStep(sections: seq<Section>, section: Section, repeated: set<string>, policy: Policy, charset: Charset)
    ensures var verdict := VerdictOn(section, repeated, policy, charset);
            && Kept(Verdicts(sections + [section], repeated, policy, charset))
               == Kept(Verdicts(sections, repeated, policy, charset)) + (if verdict.Keep? then [verdict.section] else [])
            && Dropped(Verdicts(sections + [section], repeated, policy, charset))
               == Dropped(Verdicts(sections, repeated, policy, charset)) + (if verdict.Drop? then [verdict] else [])
  {
    var longer := Verdicts(sections + [section], repeated, policy, charset);
    assert (sections + [section])[..|sections|] == sections;
    assert longer[..|longer| - 1] == Verdicts(sections, repeated, policy, charset);
  }

  lemma PreparedIsNormal(section: Section, policy: Policy, charset: Charset)
    ensures Normal(Prepared(section, policy, charset))
  {
    var t1 := if policy.removeControlChars then RemoveControlChars(section.text, charset) else section.text;
    NormalizeIsNormal(if policy.repairPdfLineWraps then RepairLineWraps(t1, charset) else t1);
  }

  lemma RemovalAvoids(text: string, repeated: set<string>)
    requires Normal(text) && "" !in repeated
    ensures Avoids(Normalize(Join("\n", KeptLines(SplitLines(text), repeated))), repeated)
  {
    assert "" + text == text;
    LinesLemma("", text);
    KeptLinesLemma(SplitLines(text), repeated);
    KeptLinesStayNormal(SplitLines(text), repeated);
    NormalizedJoinAvoids(KeptLines(SplitLines(text), repeated), repeated);
  }

  /** Removing repeated lines and normalising again loses no visible character of the other lines,
      and cutting the text into lines loses none at all. */
  lemma RemovalKeepsOtherLines(text: string, repeated: set<string>)
    ensures Ink(Concat(SplitLines(text))) == Ink(text)
    ensures Ink(Normalize(Join("\n", KeptLines(SplitLines(text), repeated))))
         == Ink(Concat(KeptLines(SplitLines(text), repeated)))
  {
    SplitLinesKeepInk("", text);
    assert "" + Ink(text) == Ink(text);
    var kept := KeptLines(SplitLines(text), repeated);
    assert Ink("\n") == "";
    NormalizeIsNormal(Join("\n", kept));
    JoinKeepsInk("\n", kept);
  }

  /** With removal on, no cleaned text retains a repeated line, not even after the final
      normalisation. */
  lemma NoRepeatedLineRemains(sections: seq<Section>, section: Section, repeated: set<string>, policy: Policy, charset: Charset)
    requires policy.removeRepeatedPageLines
    requires forall line :: line in repeated <==> IsRepeated(sections, line, policy)
    ensures Avoids(CleanedText(section, repeated, policy, charset).0, repeated)
  {
    if repeated != {} {
      EmptyLineNotCounted(sections, policy.repeatedLineEdgeLines);
      PreparedIsNormal(section, policy, charset);
      RemovalAvoids(Prepared(section, policy, charset), repeated);
    }
  }

  lemma KeptVerdictText(section: Section, repeated: set<string>, policy: Policy, charset: Charset)
    ensures var verdict := VerdictOn(section, repeated, policy, charset);
            verdict.Keep? ==> verdict.section.text == CleanedText(section, repeated, policy, charset).0
  {
  }

  lemma {:induction false} VerdictAt(sections: seq<Section>, repeated: set<string>, policy: Policy, charset: Charset, i: nat)
    requires i < |sections|
    ensures var verdict := Verdicts(sections, repeated, policy, charset)[i];
            verdict == VerdictOn(sections[i], repeated, policy, charset)
            && sections[i].sectionId == if verdict.Keep? then verdict.section.sectionId else verdict.sectionId
  {
    if i < |sections| - 1 {
      VerdictAt(sections[..|sections| - 1], repeated, policy, charset, i);
    }
  }

  lemma {:induction false} KeptComesFrom(verdicts: seq<Verdict>, k: nat) returns (i: nat)
    requires k < |Kept(verdicts)|
    ensures i < |verdicts| && verdicts[i].Keep? && Kept(verdicts)[k] == verdicts[i].section
  {
    var before := verdicts[..|verdicts| - 1];
    if k < |Kept(before)| {
      i := KeptComesFrom(before, k);
    } else {
      i := |verdicts| - 1;
    }
  }

  lemma {:induction false} KeptSectionIsCleaned(
    sections: seq<Section>, repeated: set<string>, policy: Policy, charset: Charset, k: nat) returns (i: nat)
    requires k < |Kept(Verdicts(sections, repeated, policy, charset))|
    ensures i < |sections|
    ensures Kept(Verdicts(sections, repeated, policy, charset))[k].text == CleanedText(sections[i], repeated, policy, charset).0
  {
    i := KeptComesFrom(Verdicts(sections, repeated, policy, charset), k);
    VerdictAt(sections, repeated, policy, charset, i);
    KeptVerdictText(sections[i], repeated, policy, charset);
  }

  lemma {:induction false} DroppedComesFrom(verdicts: seq<Verdict>, k: nat) returns (i: nat)
    requires k < |Dropped(verdicts)|
    ensures i < |verdicts| && verdicts[i].Drop? && Dropped(verdicts)[k] == verdicts[i]
  {
    var before := verdicts[..|verdicts| - 1];
    if k < |Dropped(before)| {
      i := DroppedComesFrom(before, k);
    } else {
      i := |verdicts| - 1;
    }
  }

  lemma DroppedIsShort(section: Section, repeated: set<string>, policy: Policy, charset: Charset)
    requires VerdictOn(section, repeated, policy, charset).Drop?
    ensures var length := |Strip(CleanedText(section, repeated, policy, charset).0)|;
            length < policy.minTextChars || length < 9
  {
    var (text, _) := CleanedText(section, repeated, policy, charset);
    if |Strip(text)| >= policy.minTextChars && |Strip(text)| >= 9 {
      LongTextIsNeverDropped(text, charset, policy);
    }
  }

  /** Every entry of the dropped list is the verdict on a section whose cleaned text has fewer than
      max(`min_text_chars`, 9) characters. */
  lemma OnlyShortSectionsAreDropped(
    sections: seq<Section>, repeated: set<string>, policy: Policy, charset: Charset, k: nat) returns (i: nat)
    requires k < |Dropped(Verdicts(sections, repeated, policy, charset))|
    ensures i < |sections|
    ensures Dropped(Verdicts(sections, repeated, policy, charset))[k] == VerdictOn(sections[i], repeated, policy, charset)
    ensures var length := |Strip(CleanedText(sections[i], repeated, policy, charset).0)|;
            length < policy.minTextChars || length < 9
  {
    i := DroppedComesFrom(Verdicts(sections, repeated, policy, charset), k);
    VerdictAt(sections, repeated, policy, charset, i);
    DroppedIsShort(sections[i], repeated, policy, charset);
  }

  /** Hence no output section has a line that is a repeated edge line. */
  lemma {:induction false} OutputHasNoRepeatedLine(sections: seq<Section>, repeated: set<string>, policy: Policy, charset: Charset, k: nat)
    requires policy.removeRepeatedPageLines
    requires forall line :: line in repeated <==> IsRepeated(sections, line, policy)
    requires k < |Kept(Verdicts(sections, repeated, policy, charset))|
    ensures var lines := SplitLines(Kept(Verdicts(sections, repeated, policy, charset))[k].text);
            forall j :: 0 <= j < |lines| ==> !IsRepeated(sections, Canonical(lines[j]), policy)
  {
    var i := KeptSectionIsCleaned(sections, repeated, policy, charset, k);
    NoRepeatedLineRemains(sections, sections[i], repeated, policy, charset);
  }

  /** Kept and dropped sections partition the input in order: the verdict on section `i` is found
      in its list after as many entries as there are such verdicts before it. */
  lemma {:induction false} PartitionInOrder(verdicts: seq<Verdict>, i: nat)
    requires i < |verdicts|
    ensures |Kept(verdicts)| + |Dropped(verdicts)| == |verdicts|
    ensures |Kept(verdicts[..i])| + |Dropped(verdicts[..i])| == i
    ensures if verdicts[i].Keep?
            then |Kept(verdicts[..i])| < |Kept(verdicts)| && Kept(verdicts)[|Kept(verdicts[..i])|] == verdicts[i].section
            else |Dropped(verdicts[..i])| < |Dropped(verdicts)| && Dropped(verdicts)[|Dropped(verdicts[..i])|] == verdicts[i]
  {
    var before := verdicts[..|verdicts| - 1];
    if i < |verdicts| - 1 {
      PartitionInOrder(before, i);
      assert before[..i] == verdicts[..i];
    } else if i > 0 {
      PartitionInOrder(before, i - 1);
    }
  }
}
