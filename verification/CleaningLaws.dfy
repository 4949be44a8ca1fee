/** What the cleaner keeps of a section, character by character, and which sections it drops. */
module CleaningLaws {
  import opened Common
  import opened Documents
  import opened Text
  import opened Lines
  import opened Cleaning

  /** The characters that meet `p`, in order. */
  function Only(s: string, p: char -> bool): string {
    if s == "" then "" else (if p(s[0]) then [s[0]] else "") + Only(s[1..], p)
  }

  /** The visible characters that the policy means to keep: those that are no control characters, if control
      characters are removed. */
  function Shown(text: string, policy: Policy, charset: Charset): string {
    Only(text, c => !IsSpace(c) && !(policy.removeControlChars && charset.isControl(c)))
  }

  lemma {:induction false} InkIsOnly(s: string, p: char -> bool)
    requires forall c :: p(c) <==> !IsSpace(c)
    ensures Ink(s) == Only(s, p)
  {
    if s != "" {
      InkIsOnly(s[1..], p);
    }
  }

  // ---- selected in order ----

  /** `picked` lists the elements of `s` at the chosen places, in order. */
  ghost predicate Picks<T(!new)>(s: seq<T>, picked: seq<T>, places: seq<nat>, chosen: set<nat>) {
    && |places| == |picked|
    && (forall k :: 0 <= k < |places| ==> places[k] < |s| && picked[k] == s[places[k]])
    && (forall k, l :: 0 <= k < l < |places| ==> places[k] < places[l])
    && (forall i: nat :: i in places <==> i in chosen)
  }

  lemma PicksSnoc<T(!new)>(s: seq<T>, x: T, picked: seq<T>, places: seq<nat>, chosen: set<nat>)
    requires Picks(s, picked, places, chosen)
    ensures Picks(s + [x], picked, places, chosen)
    ensures Picks(s + [x], picked + [x], places + [|s|], chosen + {|s|})
  {
    assert forall k :: 0 <= k < |places| ==> places[k] in places;
    forall i: nat
      ensures i in places + [|s|] <==> i in chosen + {|s|}
    {
      assert i in places + [|s|] <==> i in places || i == |s|;
    }
  }

  // ---- control characters ----

  lemma RemovedTail(text: string, charset: Charset)
    requires text != ""
    ensures RemoveControlChars(text, charset)[1..] == RemoveControlChars(text[1..], charset)
  {
  }

  lemma {:induction false} RemovalKeepsShown(text: string, charset: Charset, p: char -> bool)
    requires forall c :: p(c) <==> !IsSpace(c) && !charset.isControl(c)
    ensures Ink(RemoveControlChars(text, charset)) == Only(text, p)
  {
    if text != "" {
      RemovedTail(text, charset);
      RemovalKeepsShown(text[1..], charset, p);
    }
  }

  ghost predicate NoControlChars(text: string, charset: Charset) {
    forall i :: 0 <= i < |text| ==> text[i] == '\n' || text[i] == '\t' || !charset.isControl(text[i])
  }

  /** A text without control characters is left alone; any other control character might as well have been a
      space. */
  lemma ControlCharIsSpace(a: string, c: char, b: string, charset: Charset)
    requires charset.isControl(c) && c != '\n' && c != '\t' && !charset.isControl(' ')
    ensures RemoveControlChars(a + [c] + b, charset) == RemoveControlChars(a + " " + b, charset)
    ensures NoControlChars(a, charset) ==> RemoveControlChars(a, charset) == a
  {
    assert forall i :: 0 <= i < |a| + 1 + |b| ==> i != |a| ==> (a + [c] + b)[i] == (a + " " + b)[i];
  }

  // ---- line wraps, by index ----

  function CharBefore(text: string, i: nat, previous: Option<char>): Option<char>
    requires i <= |text|
  {
    if i == 0 then previous else Some(text[i - 1])
  }

  /** The ASCII and full-width marks that end a sentence or a clause, the ideographic full stop, and newline. */
  const SENTENCE_ENDS := {'\n', '.', '!', '?', ';', ':', '\U{3002}', '\U{FF01}', '\U{FF1F}', '\U{FF1B}', '\U{FF1A}'}

  lemma SentenceEnds(c: char)
    ensures EndsSentence(c) <==> c in SENTENCE_ENDS
  {
  }

  /** A newline inside a sentence: the character before it ends none and the one behind is no white space. */
  ghost predicate LineGoesOn(text: string, i: nat, previous: Option<char>)
    requires i < |text|
  {
    && text[i] == '\n' && i + 1 < |text| && !IsSpace(text[i + 1])
    && CharBefore(text, i, previous).Some? && CharBefore(text, i, previous).value !in SENTENCE_ENDS
  }

  lemma GoesOnInTail(text: string, i: nat, previous: Option<char>)
    requires 1 <= i < |text|
    ensures LineGoesOn(text, i, previous) <==> LineGoesOn(text[1..], i - 1, Some(text[0]))
  {
    assert CharBefore(text, i, previous) == CharBefore(text[1..], i - 1, Some(text[0]));
  }

  /** Newlines become spaces exactly where a line goes on; nothing else changes. */
  lemma {:induction false} WrapsBecomeSpaces(text: string, previous: Option<char>)
    ensures |JoinWrapped(text, previous)| == |text|
    ensures forall i :: 0 <= i < |text| ==>
              JoinWrapped(text, previous)[i] == if LineGoesOn(text, i, previous) then ' ' else text[i]
  {
    if text != "" {
      var rest := JoinWrapped(text[1..], Some(text[0]));
      if previous.Some? {
        SentenceEnds(previous.value);
      }
      WrapsBecomeSpaces(text[1..], Some(text[0]));
      forall i | 1 <= i < |text|
        ensures rest[i - 1] == if LineGoesOn(text, i, previous) then ' ' else text[i]
      {
        GoesOnInTail(text, i, previous);
      }
    }
  }

  /** A hyphen and a newline between two word characters stand at `i`. */
  ghost predicate IsWrap(text: string, i: nat, charset: Charset) {
    && 1 <= i && i + 2 < |text| && text[i] == '-' && text[i + 1] == '\n'
    && charset.isWord(text[i - 1]) && charset.isWord(text[i + 2])
  }

  ghost predicate InWrap(text: string, i: nat, charset: Charset) {
    IsWrap(text, i, charset) || (i > 0 && IsWrap(text, i - 1, charset))
  }

  /** The places from `start` on that are in no wrap. */
  ghost function Outside(text: string, start: nat, charset: Charset): set<nat> {
    set i: nat | i < |text| && start <= i && !InWrap(text, i, charset)
  }

  lemma PicksCons(text: string, start: nat, joined: string, places: seq<nat>, charset: Charset)
    requires start < |text| && Picks(text, joined, places, Outside(text, start + 1, charset)) && !InWrap(text, start, charset)
    ensures Picks(text, [text[start]] + joined, [start] + places, Outside(text, start, charset))
  {
    assert forall k :: 0 <= k < |places| ==> places[k] in places;
    forall i: nat
      ensures i in [start] + places <==> i in Outside(text, start, charset)
    {
      assert i in [start] + places <==> i == start || i in places;
    }
  }

  lemma OutsideSkip(text: string, start: nat, charset: Charset)
    requires IsWrap(text, start, charset)
    ensures Outside(text, start, charset) == Outside(text, start + 2, charset)
  {
    assert InWrap(text, start, charset) && InWrap(text, start + 1, charset);
  }

  lemma {:induction false} JoinHyphensFrom(text: string, start: nat, charset: Charset) returns (places: seq<nat>)
    requires start <= |text| && (start > 0 ==> !IsWrap(text, start - 1, charset))
    ensures Picks(text, JoinHyphens(text[start..], CharBefore(text, start, None), charset), places, Outside(text, start, charset))
    decreases |text| - start
  {
    var rest := text[start..];
    if start == |text| {
      places := [];
    } else if IsWrap(text, start, charset) {
      assert rest[2..] == text[start + 2..] && CharBefore(text, start + 2, None) == Some('\n');
      places := JoinHyphensFrom(text, start + 2, charset);
      OutsideSkip(text, start, charset);
    } else {
      assert rest[1..] == text[start + 1..] && CharBefore(text, start + 1, None) == Some(text[start]);
      var more := JoinHyphensFrom(text, start + 1, charset);
      places := [start] + more;
      PicksCons(text, start, JoinHyphens(rest[1..], Some(text[start]), charset), more, charset);
    }
  }

  /** Joining hyphenated words removes exactly the wraps: what is left are all other characters, in order. */
  lemma WrapsAreRemoved(text: string, charset: Charset) returns (places: seq<nat>)
    ensures Picks(text, JoinHyphens(text, None, charset), places, Outside(text, 0, charset))
  {
    assert text[0..] == text;
    places := JoinHyphensFrom(text, 0, charset);
  }

  // ---- what a cleaned text holds ----

  lemma PreparedKeepsShown(section: Section, policy: Policy, charset: Charset)
    ensures !policy.repairPdfLineWraps ==> Ink(Prepared(section, policy, charset)) == Shown(section.text, policy, charset)
    ensures WithoutHyphens(Ink(Prepared(section, policy, charset))) == WithoutHyphens(Shown(section.text, policy, charset))
  {
    var p := (c: char) => !IsSpace(c) && !(policy.removeControlChars && charset.isControl(c));
    var t1 := if policy.removeControlChars then RemoveControlChars(section.text, charset) else section.text;
    if policy.removeControlChars {
      RemovalKeepsShown(section.text, charset, p);
    } else {
      InkIsOnly(section.text, p);
    }
    RepairLosesOnlyHyphens(t1, charset);
    NormalizeIsNormal(if policy.repairPdfLineWraps then RepairLineWraps(t1, charset) else t1);
  }

  /** The repeated lines that the policy means to remove. */
  function Banned(repeated: set<string>, policy: Policy): set<string> {
    if policy.removeRepeatedPageLines then repeated else {}
  }

  lemma {:induction false} NothingBanned(lines: seq<string>)
    ensures KeptLines(lines, {}) == lines
  {
    if lines != [] {
      NothingBanned(lines[..|lines| - 1]);
    }
  }

  /** What a cleaned text holds of its section: all lines together have the visible characters of the section
      that are no control characters, in order, up to hyphens that the line-wrap repair removed; and the
      cleaned text has those of the lines that are not repeated lines. */
  ghost predicate Holds(
    section: Section, text: string, removed: int, lines: seq<string>, repeated: set<string>, policy: Policy, charset: Charset)
  {
    && WithoutHyphens(Ink(Concat(lines))) == WithoutHyphens(Shown(section.text, policy, charset))
    && (!policy.repairPdfLineWraps ==> Ink(Concat(lines)) == Shown(section.text, policy, charset))
    && Ink(text) == Ink(Concat(KeptLines(lines, Banned(repeated, policy))))
    && removed == |lines| - |KeptLines(lines, Banned(repeated, policy))|
  }

  lemma CleanedTextHolds(section: Section, repeated: set<string>, policy: Policy, charset: Charset) returns (lines: seq<string>)
    ensures var (text, removed) := CleanedText(section, repeated, policy, charset);
            Holds(section, text, removed, lines, repeated, policy, charset)
    ensures Banned(repeated, policy) == {} ==>
              var text := CleanedText(section, repeated, policy, charset).0;
              && WithoutHyphens(Ink(text)) == WithoutHyphens(Shown(section.text, policy, charset))
              && (!policy.repairPdfLineWraps ==> Ink(text) == Shown(section.text, policy, charset))
  {
    var prepared := Prepared(section, policy, charset);
    lines := SplitLines(prepared);
    PreparedKeepsShown(section, policy, charset);
    RemovalKeepsOtherLines(prepared, repeated);
    if Banned(repeated, policy) == {} {
      NothingBanned(lines);
      NormalizeIsNormal(prepared);
    }
  }

  /** A normal text without control characters comes back as it is, if line wraps are not repaired and no
      repeated line is removed. */
  lemma NormalTextIsKept(section: Section, repeated: set<string>, policy: Policy, charset: Charset)
    requires Normal(section.text) && !policy.repairPdfLineWraps && Banned(repeated, policy) == {}
    requires policy.removeControlChars ==> NoControlChars(section.text, charset)
    ensures CleanedText(section, repeated, policy, charset) == (section.text, 0)
  {
    if policy.removeControlChars {
      assert RemoveControlChars(section.text, charset) == section.text;
    }
    NormalIffFixed(section.text);
  }

  /** So it is for every section that the cleaner returns. */
  lemma {:induction false} OutputHolds(
    sections: seq<Section>, repeated: set<string>, policy: Policy, charset: Charset, k: nat)
    returns (i: nat, removed: int, lines: seq<string>)
    requires k < |Kept(Verdicts(sections, repeated, policy, charset))|
    ensures i < |sections|
    ensures Holds(sections[i], Kept(Verdicts(sections, repeated, policy, charset))[k].text, removed, lines, repeated, policy, charset)
  {
    i := KeptSectionIsCleaned(sections, repeated, policy, charset, k);
    lines := CleanedTextHolds(sections[i], repeated, policy, charset);
    removed := CleanedText(sections[i], repeated, policy, charset).1;
  }

  // ---- kept lines, in order ----

  /** The places of the lines whose canonical form is no repeated line. */
  ghost function KeptPlaces(lines: seq<string>, repeated: set<string>): set<nat> {
    set i: nat | i < |lines| && Canonical(lines[i]) !in repeated
  }

  lemma KeptPlacesSnoc(lines: seq<string>, line: string, repeated: set<string>)
    ensures KeptPlaces(lines + [line], repeated)
         == KeptPlaces(lines, repeated) + if Canonical(line) in repeated then {} else {|lines|}
  {
    var longer := lines + [line];
    forall i: nat
      ensures i in KeptPlaces(longer, repeated) <==>
              i in KeptPlaces(lines, repeated) || (i == |lines| && Canonical(line) !in repeated)
    {
      assert i < |lines| ==> longer[i] == lines[i];
    }
  }

  /** The kept lines are exactly those whose canonical form is no repeated line, in order. */
  lemma {:induction false} KeptInOrder(lines: seq<string>, repeated: set<string>) returns (places: seq<nat>)
    ensures Picks(lines, KeptLines(lines, repeated), places, KeptPlaces(lines, repeated))
  {
    if lines == [] {
      places := [];
    } else {
      var before, last := lines[..|lines| - 1], lines[|lines| - 1];
      var earlier := KeptInOrder(before, repeated);
      assert lines == before + [last];
      KeptPlacesSnoc(before, last, repeated);
      PicksSnoc(before, last, KeptLines(before, repeated), earlier, KeptPlaces(before, repeated));
      places := earlier + if Canonical(last) in repeated then [] else [|before|];
    }
  }

  // ---- which sections are dropped ----

  lemma StripOfCleaned(section: Section, repeated: set<string>, policy: Policy, charset: Charset)
    ensures var text := CleanedText(section, repeated, policy, charset).0; Strip(text) == text && (Ink(text) == "" <==> text == "")
  {
    var prepared := Prepared(section, policy, charset);
    var kept := KeptLines(SplitLines(prepared), repeated);
    NormalizeIsNormal(prepared);
    NormalizeIsNormal(Join("\n", kept));
    var text := CleanedText(section, repeated, policy, charset).0;
    StripOfStripped(text);
    InkEmpty(text);
  }

  /** A section is dropped exactly if its cleaned text is empty and such sections are to go, or short noise is to
      go and the text scores at least 0.95, or is short and scores at least the limit. */
  lemma DroppedIff(section: Section, repeated: set<string>, policy: Policy, charset: Charset)
    ensures var text, verdict := CleanedText(section, repeated, policy, charset).0, VerdictOn(section, repeated, policy, charset);
            var score := NoiseScore(text, charset);
            var empty := policy.dropEmptySections && Ink(text) == "";
            var short := policy.dropShortNoiseSections && |text| < policy.minTextChars && score >= policy.maxSymbolRatio;
            && (verdict.Drop? <==> empty || short || (policy.dropShortNoiseSections && score >= 0.95))
            && (verdict.Drop? ==> (verdict.reason == Empty <==> empty) && (verdict.reason == ShortNoise <==> short && !empty))
  {
    StripOfCleaned(section, repeated, policy, charset);
  }

  /** The entry of a dropped section has its id and pages, the first 160 characters of the cleaned text and
      the score. */
  lemma DroppedEntry(section: Section, repeated: set<string>, policy: Policy, charset: Charset)
    requires VerdictOn(section, repeated, policy, charset).Drop?
    ensures var text, verdict := CleanedText(section, repeated, policy, charset).0, VerdictOn(section, repeated, policy, charset);
            && verdict.sectionId == section.sectionId && verdict.score == NoiseScore(text, charset)
            && verdict.startPage == StartPage(section) && verdict.endPage == EndPage(section)
            && verdict.preview <= text && |verdict.preview| == if |text| < 160 then |text| else 160
  {
  }

  const ADDED_KEYS := {"cleaning_version", "cleaning_applied", "noise_score"}

  /** A kept section differs from the input in its text and in what the cleaner adds to the metadata. */
  lemma KeptEntry(section: Section, repeated: set<string>, policy: Policy, charset: Charset)
    requires VerdictOn(section, repeated, policy, charset).Keep?
    ensures var (text, removed) := CleanedText(section, repeated, policy, charset);
            var kept := VerdictOn(section, repeated, policy, charset).section;
            && kept == section.(text := text, metadata := kept.metadata)
            && kept.metadata.Keys
               == section.metadata.Keys + ADDED_KEYS + (if removed == 0 then {} else {"removed_repeated_lines"})
            && kept.metadata["cleaning_version"] == Words(policy.cleaningVersion)
            && kept.metadata["cleaning_applied"] == Flag(true)
            && (removed != 0 ==> kept.metadata["removed_repeated_lines"] == Number(removed))
            && kept.metadata["noise_score"] == Fraction(Round4(NoiseScore(text, charset)))
            && forall key | key in section.metadata && key !in ADDED_KEYS && key != "removed_repeated_lines" ::
                 kept.metadata[key] == section.metadata[key]
  {
  }

  lemma Round4Lemma(x: real) returns (n: int)
    ensures Round4(x) == n as real / 10000.0
    ensures -0.5 <= n as real - 10000.0 * x <= 0.5
    ensures n as real - 10000.0 * x == 0.5 || n as real - 10000.0 * x == -0.5 ==> n % 2 == 0
  {
    var scaled := x * 10000.0;
    var floor := scaled.Floor;
    var rest := scaled - floor as real;
    n := if rest < 0.5 || (rest == 0.5 && floor % 2 == 0) then floor else floor + 1;
  }

  // ---- the noise score, by counting places ----

  /** The punctuation characters are the 32 of ASCII. */
  lemma PunctuationIs(c: char)
    ensures IsPunctuation(c) <==> c in {
              '!', '\"', '#', '$', '%', '&', '\'', '(', ')', '*', '+', ',', '-', '.', '/', ':',
              ';', '<', '=', '>', '?', '@', '[', '\\', ']', '^', '_', '`', '{', '|', '}', '~'}
  {
  }

  /** The places of the elements that meet `p`. */
  function PlacesOf<T>(s: seq<T>, p: T -> bool): set<nat> {
    set i: nat | i < |s| && p(s[i])
  }

  lemma {:induction false} CountInk(s: string, p: char -> bool, q: char -> bool)
    requires forall c :: q(c) <==> p(c) && !IsSpace(c)
    ensures Count(Ink(s), p) == |PlacesOf(s, q)|
    decreases |s|
  {
    if s == "" {
      assert PlacesOf(s, q) == {};
    } else {
      var before, last := s[..|s| - 1], s[|s| - 1];
      assert s == before + [last];
      CountInk(before, p, q);
      PlacesSnoc(before, last, q);
      InkConcat(before, [last]);
      assert [last][1..] == "" && Ink([last]) == if IsSpace(last) then "" else [last];
      CountConcat(Ink(before), Ink([last]), p);
      assert Count([last], p) == if p(last) then 1 else 0;
    }
  }

  lemma PlacesSnoc<T>(s: seq<T>, c: T, p: T -> bool)
    ensures |PlacesOf(s + [c], p)| == |PlacesOf(s, p)| + if p(c) then 1 else 0
  {
    var longer := s + [c];
    assert forall i: nat :: i < |s| ==> longer[i] == s[i];
    assert PlacesOf(longer, p) == PlacesOf(s, p) + if p(c) then {|s|} else {};
  }

  lemma {:induction false} CountConcat(s: string, t: string, p: char -> bool)
    ensures Count(s + t, p) == Count(s, p) + Count(t, p)
  {
    if s == "" {
      assert s + t == t;
    } else {
      assert (s + t)[1..] == s[1..] + t;
      CountConcat(s[1..], t, p);
    }
  }

  lemma InkCount(s: string, q: char -> bool)
    requires forall c :: q(c) <==> !IsSpace(c)
    ensures |Ink(s)| == |PlacesOf(s, q)|
  {
    CountInk(s, _ => true, q);
    CountAll(Ink(s), _ => true);
  }

  function AtMostOne(x: real): real {
    if x <= 1.0 then x else 1.0
  }

  function OverZero(x: real): real {
    if x >= 0.0 then x else 0.0
  }

  /** The noise score of a stripped text in terms of the numbers of its visible characters, punctuation
      characters and alphanumeric characters. */
  lemma NoiseScoreIs(text: string, charset: Charset, visible: char -> bool, symbol: char -> bool, alnum: char -> bool)
    requires text != "" && Stripped(text)
    requires forall c :: visible(c) <==> !IsSpace(c)
    requires forall c :: symbol(c) <==> IsPunctuation(c)
    requires forall c :: alnum(c) <==> charset.isAlnum(c) && !IsSpace(c)
    ensures |PlacesOf(text, visible)| > 0
    ensures var n := |PlacesOf(text, visible)| as real;
            NoiseScore(text, charset)
            == AtMostOne(0.6 * (|PlacesOf(text, symbol)| as real / n)
                         + 0.3 * OverZero(1.0 - |text| as real / 20.0)
                         + 0.4 * OverZero(0.45 - |PlacesOf(text, alnum)| as real / n))
  {
    StripOfStripped(text);
    InkEmpty(text);
    InkCount(text, visible);
    CountInk(text, c => IsPunctuation(c), symbol);
    CountInk(text, charset.isAlnum, alnum);
    assert |Ink(text)| > 0;
    LengthPenalty(|text|);
  }

  lemma LengthPenalty(length: nat)
    ensures Positive((20 - length) as real / 20.0) == OverZero(1.0 - length as real / 20.0)
  {
  }

  // ---- repeated lines, by counting sections ----

  lemma {:induction false} PageCountIs(sections: seq<Section>, line: string, edgeLines: int, edge: Section -> bool)
    requires forall s :: edge(s) <==> IsEdgeLineOf(s, line, edgeLines)
    ensures PageCount(sections, line, edgeLines) == |PlacesOf(sections, edge)|
  {
    if sections == [] {
      assert PlacesOf(sections, edge) == {};
    } else {
      var before, last := sections[..|sections| - 1], sections[|sections| - 1];
      assert sections == before + [last];
      PageCountIs(before, line, edgeLines, edge);
      PlacesSnoc(before, last, edge);
    }
  }

  ghost predicate AreWords(words: seq<string>) {
    forall i :: 0 <= i < |words| ==> words[i] != "" && forall k :: 0 <= k < |words[i]| ==> !IsSpace(words[i][k])
  }

  lemma {:induction false} WordsInWord(word: string, rest: string, inWord: bool)
    requires forall k :: 0 <= k < |word| ==> !IsSpace(word[k])
    ensures WordCount(word + rest, inWord)
         == (if word != "" && !inWord then 1 else 0) + WordCount(rest, inWord || word != "")
    decreases |word|
  {
    if word == "" {
      assert word + rest == rest;
    } else {
      assert (word + rest)[1..] == word[1..] + rest;
      WordsInWord(word[1..], rest, true);
    }
  }

  lemma {:induction false} WordsCounted(words: seq<string>)
    requires AreWords(words)
    ensures WordCount(Join(" ", words), false) == |words|
  {
    if words != [] {
      var rest := Join(" ", words[1..]);
      WordsCounted(words[1..]);
      if |words| == 1 {
        WordsInWord(words[0], "", false);
        assert words[0] + "" == words[0];
      } else {
        WordsInWord(words[0], " " + rest, false);
        assert words[0] + " " + rest == words[0] + (" " + rest) && (" " + rest)[1..] == rest;
      }
    }
  }

  /** A line of words is a repeated line exactly if at least one and at least `repeated_line_min_pages` paged
      sections have it as an edge line, it has fewer than eight words, and it is at most 80 characters long. */
  lemma RepeatedIff(sections: seq<Section>, words: seq<string>, policy: Policy, edge: Section -> bool)
    requires AreWords(words)
    requires forall s :: edge(s) <==> StartPage(s).Some? && Join(" ", words) in EdgeLines(s.text, policy.repeatedLineEdgeLines)
    ensures var line, pages := Join(" ", words), |PlacesOf(sections, edge)|;
            IsRepeated(sections, line, policy)
            <==> pages >= 1 && pages >= policy.repeatedLineMinPages && |words| < 8 && |line| <= 80
  {
    WordsCounted(words);
    PageCountIs(sections, Join(" ", words), policy.repeatedLineEdgeLines, edge);
  }

  /** What a page entry of the metadata says when it is a number other than zero. */
  ghost predicate GivesPage(section: Section, key: string, page: int) {
    key in section.metadata && section.metadata[key] == Number(page) && page != 0
  }

  ghost predicate GivesNoPage(section: Section, key: string) {
    key in section.metadata ==> section.metadata[key] in {Nothing, Number(0), Words("")}
  }

  /** A value that is no page number but keeps the lone `page_number` from being asked for. */
  ghost predicate HidesPage(section: Section, key: string) {
    && key in section.metadata
    && var value := section.metadata[key]; value in {Flag(true), Other} || (value.Fraction? && value.fraction != 0.0)
  }

  /** A section is paged by its number, else by `start_page` and `end_page`, else by its `page_number`. */
  lemma StartPageLemma(section: Section, page: int)
    ensures section.pageNumber.Some? ==> StartPage(section) == EndPage(section) == section.pageNumber
    ensures section.pageNumber.None? && GivesPage(section, "start_page", page) ==> StartPage(section) == Some(page)
    ensures section.pageNumber.None? && GivesPage(section, "end_page", page) ==> EndPage(section) == Some(page)
    ensures section.pageNumber.None? && GivesNoPage(section, "start_page") ==>
              StartPage(section) == IntAt(section.metadata, "page_number")
    ensures section.pageNumber.None? && GivesNoPage(section, "end_page") ==>
              EndPage(section) == IntAt(section.metadata, "page_number")
    ensures section.pageNumber.None? && HidesPage(section, "start_page") ==> StartPage(section) == None
    ensures section.pageNumber.None? && HidesPage(section, "end_page") ==> EndPage(section) == None
  {
  }

  // ---- canonical lines, in order ----

  function Canonicals(lines: seq<string>): seq<string> {
    seq(|lines|, i requires 0 <= i < |lines| => Canonical(lines[i]))
  }

  ghost function InkedPlaces(canonicals: seq<string>): set<nat> {
    set i: nat | i < |canonicals| && canonicals[i] != ""
  }

  lemma {:induction false} NonEmptyCanonicalSnoc(lines: seq<string>, line: string)
    ensures NonEmptyCanonical(lines + [line]) == NonEmptyCanonical(lines) + if Canonical(line) == "" then [] else [Canonical(line)]
  {
    if lines == [] {
      assert [] + [line] == [line] && [line][1..] == [];
    } else {
      var head := if Canonical(lines[0]) == "" then [] else [Canonical(lines[0])];
      var last := if Canonical(line) == "" then [] else [Canonical(line)];
      assert (lines + [line])[1..] == lines[1..] + [line];
      NonEmptyCanonicalSnoc(lines[1..], line);
      assert head + (NonEmptyCanonical(lines[1..]) + last) == (head + NonEmptyCanonical(lines[1..])) + last;
    }
  }

  lemma CanonicalsSnoc(lines: seq<string>, line: string)
    ensures Canonicals(lines + [line]) == Canonicals(lines) + [Canonical(line)]
  {
  }

  lemma InkedSnoc(canonicals: seq<string>, c: string)
    ensures InkedPlaces(canonicals + [c]) == InkedPlaces(canonicals) + if c == "" then {} else {|canonicals|}
  {
    var longer := canonicals + [c];
    assert forall i: nat :: i < |canonicals| ==> longer[i] == canonicals[i];
  }

  /** The nonempty canonical lines of a text are those of its lines, in order. */
  lemma {:induction false} NonEmptyInOrder(lines: seq<string>) returns (places: seq<nat>)
    ensures Picks(Canonicals(lines), NonEmptyCanonical(lines), places, InkedPlaces(Canonicals(lines)))
  {
    if lines == [] {
      places := [];
    } else {
      var before, last := lines[..|lines| - 1], lines[|lines| - 1];
      var earlier := NonEmptyInOrder(before);
      assert lines == before + [last];
      NonEmptyCanonicalSnoc(before, last);
      CanonicalsSnoc(before, last);
      InkedSnoc(Canonicals(before), Canonical(last));
      PicksSnoc(Canonicals(before), Canonical(last), NonEmptyCanonical(before), earlier, InkedPlaces(Canonicals(before)));
      places := earlier + if Canonical(last) == "" then [] else [|before|];
    }
  }
}
