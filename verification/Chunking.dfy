/** The section-aware chunker: cut sections into paragraph units, then pack them greedily. */
module Chunking {
  import opened Common
  import opened Documents
  import opened Text

  datatype Document = Document(
    documentId: string, sourceUri: string, title: string, dataType: string, contentHash: string)

  datatype Unit = Unit(text: string, sectionId: string, startPage: Option<int>, endPage: Option<int>)

  datatype Chunk = Chunk(
    documentId: string, chunkId: string, chunkIndex: nat, text: string, dataType: string,
    contentHash: string, chunkerVersion: string, pages: Option<(int, int)>)

  // ---- cutting a text into units ----

  /** `paragraph[start : start + maxChars].strip()` for `start` advancing by `maxChars`. */
  function Cut(paragraph: string, start: nat, maxChars: int): seq<string>
    requires maxChars >= 1
    decreases |paragraph| - start
  {
    if start >= |paragraph| then []
    else [Strip(Window(paragraph, start, maxChars))] + Cut(paragraph, start + maxChars, maxChars)
  }

  function Window(s: string, start: nat, size: int): string
    requires start < |s| && size >= 1
  {
    if start + size <= |s| then s[start..start + size] else s[start..]
  }

  /** A paragraph that fits stays whole. */
  function CutIfOversized(paragraph: string, maxChars: int): seq<string>
    requires maxChars >= 1
  {
    if |paragraph| <= maxChars then [paragraph] else Cut(paragraph, 0, maxChars)
  }

  function CutOversized(paragraphs: seq<string>, maxChars: int): seq<string>
    requires maxChars >= 1
  {
    if paragraphs == [] then []
    else
      CutOversized(paragraphs[..|paragraphs| - 1], maxChars)
      + CutIfOversized(paragraphs[|paragraphs| - 1], maxChars)
  }

  function NonEmpty(pieces: seq<string>): seq<string> {
    if pieces == [] then []
    else (if pieces[0] == "" then [] else [pieces[0]]) + NonEmpty(pieces[1..])
  }

  /** `split_paragraphs(text) or [text.strip()]` */
  function ParagraphsOrText(text: string): seq<string> {
    if SplitParagraphs(text) == [] then [Strip(text)] else SplitParagraphs(text)
  }

  function Pieces(text: string, maxChars: int): seq<string>
    requires maxChars >= 1
  {
    NonEmpty(CutOversized(ParagraphsOrText(text), maxChars))
  }

  method CutParagraph(paragraph: string, maxChars: int) returns (pieces: seq<string>)
    requires maxChars >= 1
    ensures pieces == Cut(paragraph, 0, maxChars)
  {
    pieces := [];
    var start := 0;
    while start < |paragraph|
      invariant 0 <= start
      invariant pieces + Cut(paragraph, start, maxChars) == Cut(paragraph, 0, maxChars)
    {
      var piece := Strip(Window(paragraph, start, maxChars));
      ghost var rest := Cut(paragraph, start + maxChars, maxChars);
      assert Cut(paragraph, start, maxChars) == [piece] + rest;
      Associative(pieces, [piece], rest);
      pieces := pieces + [piece];
      start := start + maxChars;
    }
    assert pieces + [] == pieces;
  }

  lemma Associative<T>(a: seq<T>, b: seq<T>, c: seq<T>)
    ensures (a + b) + c == a + (b + c)
  {
  }

  /** `_split_large_text`: the pieces are the nonblank windows of the paragraphs, in order. */
  method SplitLargeText(text: string, maxChars: int) returns (pieces: seq<string>, ghost places: seq<Place>)
    requires maxChars >= 1
    ensures pieces == Pieces(text, maxChars)
    ensures ListsWindows(pieces, SplitParagraphs(text), maxChars, places)
  {
    var source := ParagraphsOrText(text);
    var paragraphs: seq<string> := [];
    for n := 0 to |source|
      invariant paragraphs == CutOversized(source[..n], maxChars)
    {
      var cut: seq<string>;
      if |source[n]| <= maxChars {
        cut := [source[n]];
      } else {
        cut := CutParagraph(source[n], maxChars);
      }
      CutOversizedStep(source, n, maxChars);
      paragraphs := paragraphs + cut;
    }
    assert source[..|source|] == source;
    pieces := NonEmpty(paragraphs);
    places := PiecesAreWindows(text, maxChars);
  }

  lemma CutOversizedStep(paragraphs: seq<string>, n: nat, maxChars: int)
    requires maxChars >= 1 && n < |paragraphs|
    ensures CutOversized(paragraphs[..n + 1], maxChars) ==
            CutOversized(paragraphs[..n], maxChars) + CutIfOversized(paragraphs[n], maxChars)
  {
    assert paragraphs[..n + 1][..n] == paragraphs[..n];
  }

  /** What a unit's text looks like: a paragraph within the limit. */
  ghost predicate WithinLimit(pieces: seq<string>, maxChars: int) {
    forall i :: 0 <= i < |pieces| ==> |pieces[i]| <= maxChars
  }

  ghost predicate ParagraphsOrEmpty(pieces: seq<string>) {
    forall i :: 0 <= i < |pieces| ==> pieces[i] == "" || IsParagraph(pieces[i])
  }

  lemma WindowLemma(paragraph: string, start: nat, maxChars: int)
    requires maxChars >= 1 && IsParagraph(paragraph) && start < |paragraph|
    ensures var piece := Strip(Window(paragraph, start, maxChars));
            |piece| <= maxChars && (piece == "" || IsParagraph(piece))
  {
    var w := Window(paragraph, start, maxChars);
    assert w == paragraph[start..start + |w|];
    CleanSlice(paragraph, start, start + |w|);
    StripToParagraph(w);
    var _, _ := StripSlice(w);
  }

  lemma CutStepKeepsInk(paragraph: string, start: nat, maxChars: int)
    requires maxChars >= 1 && start < |paragraph|
    ensures var next := start + maxChars;
            Ink(Concat(Cut(paragraph, start, maxChars)))
            == Ink(Window(paragraph, start, maxChars)) + Ink(Concat(Cut(paragraph, next, maxChars)))
  {
    var w := Window(paragraph, start, maxChars);
    var rest := Cut(paragraph, start + maxChars, maxChars);
    var _, _ := StripSlice(w);
    InkConcat(Strip(w), Concat(rest));
  }

  function WindowEnd(s: string, start: nat, size: int): (end: nat)
    requires start < |s| && size >= 1
    ensures start < end <= |s|
  {
    if start + size < |s| then start + size else |s|
  }

  lemma WindowAndRest(s: string, start: nat, size: int)
    requires start < |s| && size >= 1
    ensures s[start..] == Window(s, start, size) + s[WindowEnd(s, start, size)..]
  {
  }

  lemma {:induction false} CutKeepsInk(paragraph: string, start: nat, maxChars: int)
    requires maxChars >= 1 && start <= |paragraph|
    ensures Ink(Concat(Cut(paragraph, start, maxChars))) == Ink(paragraph[start..])
    decreases |paragraph| - start
  {
    if start == |paragraph| {
      assert Cut(paragraph, start, maxChars) == [] && paragraph[start..] == "";
    } else {
      var next := WindowEnd(paragraph, start, maxChars);
      CutStepKeepsInk(paragraph, start, maxChars);
      WindowAndRest(paragraph, start, maxChars);
      InkConcat(Window(paragraph, start, maxChars), paragraph[next..]);
      CutKeepsInk(paragraph, next, maxChars);
    }
  }

  lemma {:induction false} CutLemma(paragraph: string, start: nat, maxChars: int)
    requires maxChars >= 1 && IsParagraph(paragraph)
    ensures ParagraphsOrEmpty(Cut(paragraph, start, maxChars))
    ensures WithinLimit(Cut(paragraph, start, maxChars), maxChars)
    decreases |paragraph| - start
  {
    if start < |paragraph| {
      CutLemma(paragraph, start + maxChars, maxChars);
      WindowLemma(paragraph, start, maxChars);
      PieceCons(Strip(Window(paragraph, start, maxChars)), Cut(paragraph, start + maxChars, maxChars), maxChars);
    }
  }

  lemma PieceCons(first: string, rest: seq<string>, maxChars: int)
    requires first == "" || IsParagraph(first)
    requires |first| <= maxChars && ParagraphsOrEmpty(rest) && WithinLimit(rest, maxChars)
    ensures ParagraphsOrEmpty([first] + rest) && WithinLimit([first] + rest, maxChars)
  {
  }

  lemma {:induction false} ConcatAppend(a: seq<string>, b: seq<string>)
    ensures Concat(a + b) == Concat(a) + Concat(b)
  {
    if a == [] {
      assert a + b == b;
    } else {
      assert (a + b)[1..] == a[1..] + b;
      ConcatAppend(a[1..], b);
    }
  }

  lemma {:induction false} InkOfAppend(a: seq<string>, b: seq<string>)
    ensures Ink(Concat(a + b)) == Ink(Concat(a)) + Ink(Concat(b))
  {
    ConcatAppend(a, b);
    InkConcat(Concat(a), Concat(b));
  }

  lemma {:induction false} InkOfLast(parts: seq<string>)
    requires parts != []
    ensures Ink(Concat(parts)) == Ink(Concat(parts[..|parts| - 1])) + Ink(parts[|parts| - 1])
  {
    var before, last := parts[..|parts| - 1], parts[|parts| - 1];
    assert parts == before + [last];
    InkOfAppend(before, [last]);
    ConcatOne(last);
  }

  lemma CutIfOversizedLemma(paragraph: string, maxChars: int)
    requires maxChars >= 1 && (paragraph == "" || IsParagraph(paragraph))
    ensures ParagraphsOrEmpty(CutIfOversized(paragraph, maxChars))
    ensures WithinLimit(CutIfOversized(paragraph, maxChars), maxChars)
    ensures Ink(Concat(CutIfOversized(paragraph, maxChars))) == Ink(paragraph)
  {
    if |paragraph| <= maxChars {
      ConcatOne(paragraph);
    } else {
      CutLemma(paragraph, 0, maxChars);
      CutKeepsInk(paragraph, 0, maxChars);
      assert paragraph[0..] == paragraph;
    }
  }

  lemma {:induction false} CutOversizedLemma(paragraphs: seq<string>, maxChars: int)
    requires maxChars >= 1 && ParagraphsOrEmpty(paragraphs)
    ensures ParagraphsOrEmpty(CutOversized(paragraphs, maxChars))
    ensures WithinLimit(CutOversized(paragraphs, maxChars), maxChars)
  {
    if paragraphs != [] {
      var before, last := paragraphs[..|paragraphs| - 1], paragraphs[|paragraphs| - 1];
      CutOversizedLemma(before, maxChars);
      CutIfOversizedLemma(last, maxChars);
    }
  }

  lemma {:induction false} CutOversizedKeepsInk(paragraphs: seq<string>, maxChars: int)
    requires maxChars >= 1 && ParagraphsOrEmpty(paragraphs)
    ensures Ink(Concat(CutOversized(paragraphs, maxChars))) == Ink(Concat(paragraphs))
  {
    if paragraphs != [] {
      var before, last := paragraphs[..|paragraphs| - 1], paragraphs[|paragraphs| - 1];
      CutOversizedKeepsInk(before, maxChars);
      CutIfOversizedLemma(last, maxChars);
      InkOfAppend(CutOversized(before, maxChars), CutIfOversized(last, maxChars));
      InkOfLast(paragraphs);
    }
  }

  lemma {:induction false} NonEmptyLemma(pieces: seq<string>, maxChars: int)
    requires ParagraphsOrEmpty(pieces) && WithinLimit(pieces, maxChars)
    ensures AllParagraphs(NonEmpty(pieces)) && WithinLimit(NonEmpty(pieces), maxChars)
  {
    if pieces != [] {
      NonEmptyLemma(pieces[1..], maxChars);
      assert pieces[0] == "" ==> NonEmpty(pieces) == NonEmpty(pieces[1..]);
    }
  }

  lemma {:induction false} NonEmptyKeepsText(pieces: seq<string>)
    ensures Concat(NonEmpty(pieces)) == Concat(pieces)
  {
    if pieces != [] {
      NonEmptyKeepsText(pieces[1..]);
      if pieces[0] == "" {
        assert NonEmpty(pieces) == NonEmpty(pieces[1..]);
      } else {
      }
    }
  }

  /** Every piece is a paragraph of at most `maxChars` characters, and together the pieces
      hold the visible characters of the text. */
  lemma {:induction false} PiecesLemma(text: string, maxChars: int)
    requires maxChars >= 1
    ensures AllParagraphs(Pieces(text, maxChars)) && WithinLimit(Pieces(text, maxChars), maxChars)
    ensures Ink(Concat(Pieces(text, maxChars))) == Ink(text)
  {
    SplitParagraphsLemma(text);
    if SplitParagraphs(text) == [] {
      assert Concat([]) == "" && Ink("") == "";
      InkEmpty(text);
      assert Concat([Strip(text)]) == "";
    }
    CutOversizedLemma(ParagraphsOrText(text), maxChars);
    CutOversizedKeepsInk(ParagraphsOrText(text), maxChars);
    NonEmptyLemma(CutOversized(ParagraphsOrText(text), maxChars), maxChars);
    NonEmptyKeepsText(CutOversized(ParagraphsOrText(text), maxChars));
  }

  /** The pieces of a short text that is a join of paragraphs are those paragraphs. */
  lemma {:induction false} PiecesOfJoin(parts: seq<string>, maxChars: int)
    requires parts != [] && AllParagraphs(parts)
    requires maxChars >= 1 && WithinLimit(parts, maxChars)
    ensures Pieces(Join(PARAGRAPH_BREAK, parts), maxChars) == parts
  {
    SplitOfJoin(parts);
    NothingOversized(parts, maxChars);
    NonEmptyFixed(parts);
  }

  lemma {:induction false} NothingOversized(parts: seq<string>, maxChars: int)
    requires maxChars >= 1 && WithinLimit(parts, maxChars)
    ensures CutOversized(parts, maxChars) == parts
  {
    if parts != [] {
      var before, last := parts[..|parts| - 1], parts[|parts| - 1];
      NothingOversized(before, maxChars);
      assert CutIfOversized(last, maxChars) == [last];
      assert parts == before + [last];
    }
  }

  lemma {:induction false} NonEmptyFixed(parts: seq<string>)
    requires AllParagraphs(parts)
    ensures NonEmpty(parts) == parts
  {
    if parts != [] {
      NonEmptyFixed(parts[1..]);
    }
  }

  // ---- the pieces, read off the paragraphs by index ----

  /** Window `window` of paragraph `paragraph`. */
  datatype Place = Place(paragraph: nat, window: nat)

  ghost predicate IsWindow(paragraphs: seq<string>, place: Place, maxChars: int) {
    place.paragraph < |paragraphs| && place.window * maxChars < |paragraphs[place.paragraph]|
  }

  /** The characters from `window * maxChars` up to `(window + 1) * maxChars` or the end, stripped. */
  function WindowText(paragraphs: seq<string>, place: Place, maxChars: int): string
    requires maxChars >= 1 && IsWindow(paragraphs, place, maxChars)
  {
    var p, start := paragraphs[place.paragraph], place.window * maxChars;
    Strip(p[start..if start + maxChars <= |p| then start + maxChars else |p|])
  }

  ghost predicate IsInkedWindow(paragraphs: seq<string>, place: Place, maxChars: int)
    requires maxChars >= 1
  {
    IsWindow(paragraphs, place, maxChars) && WindowText(paragraphs, place, maxChars) != ""
  }

  predicate Earlier(a: Place, b: Place) {
    a.paragraph < b.paragraph || (a.paragraph == b.paragraph && a.window < b.window)
  }

  /** `places` lists, in order and each once, the windows from `first` on and before `end` that are not
      blank, and the pieces are their texts. */
  ghost predicate ListsBetween(
    pieces: seq<string>, paragraphs: seq<string>, maxChars: int, places: seq<Place>, first: Place, end: Place)
    requires maxChars >= 1
  {
    && |places| == |pieces|
    && (forall i :: 0 <= i < |places| ==>
          IsInkedWindow(paragraphs, places[i], maxChars) && pieces[i] == WindowText(paragraphs, places[i], maxChars))
    && (forall i, j :: 0 <= i < j < |places| ==> Earlier(places[i], places[j]))
    && (forall place :: place in places <==>
          IsInkedWindow(paragraphs, place, maxChars) && !Earlier(place, first) && Earlier(place, end))
  }

  ghost predicate ListsWindows(pieces: seq<string>, paragraphs: seq<string>, maxChars: int, places: seq<Place>)
    requires maxChars >= 1
  {
    ListsBetween(pieces, paragraphs, maxChars, places, Place(0, 0), Place(|paragraphs|, 0))
  }

  lemma ListsAppend(
    a: seq<string>, b: seq<string>, paragraphs: seq<string>, maxChars: int,
    p: seq<Place>, q: seq<Place>, first: Place, middle: Place, end: Place)
    requires maxChars >= 1 && !Earlier(middle, first) && !Earlier(end, middle)
    requires ListsBetween(a, paragraphs, maxChars, p, first, middle)
    requires ListsBetween(b, paragraphs, maxChars, q, middle, end)
    ensures ListsBetween(a + b, paragraphs, maxChars, p + q, first, end)
  {
    forall i, j | 0 <= i < |p| && 0 <= j < |q|
      ensures Earlier(p[i], q[j])
    {
      assert p[i] in p && q[j] in q;
    }
    forall place: Place
      ensures place in p + q <==> IsInkedWindow(paragraphs, place, maxChars) && !Earlier(place, first) && Earlier(place, end)
    {
      assert place in p + q <==> place in p || place in q;
    }
  }

  lemma ProductMono(a: nat, b: nat, maxChars: int)
    requires a <= b && maxChars >= 0
    ensures a * maxChars <= b * maxChars
  {
  }

  /** Behind the end of the paragraph there is no window. */
  lemma NoWindowBehind(paragraphs: seq<string>, j: nat, k: nat, maxChars: int, place: Place)
    requires maxChars >= 1 && j < |paragraphs| && k * maxChars >= |paragraphs[j]|
    requires IsWindow(paragraphs, place, maxChars)
    ensures !(!Earlier(place, Place(j, k)) && Earlier(place, Place(j + 1, 0)))
  {
    if place.paragraph == j && place.window >= k {
      ProductMono(k, place.window, maxChars);
    }
  }

  /** The windows from `k` on are window `k` and those from `k + 1` on. */
  lemma OneWindow(paragraphs: seq<string>, j: nat, k: nat, maxChars: int) returns (places: seq<Place>)
    requires maxChars >= 1 && IsWindow(paragraphs, Place(j, k), maxChars)
    ensures ListsBetween(NonEmpty([WindowText(paragraphs, Place(j, k), maxChars)]), paragraphs, maxChars, places,
                         Place(j, k), Place(j, k + 1))
  {
    var piece := WindowText(paragraphs, Place(j, k), maxChars);
    places := if piece == "" then [] else [Place(j, k)];
    assert NonEmpty([piece]) == if piece == "" then [] else [piece];
    forall place: Place | !Earlier(place, Place(j, k)) && Earlier(place, Place(j, k + 1))
      ensures place == Place(j, k)
    {
    }
  }

  lemma WindowIsSlice(s: string, start: nat, size: int)
    requires start < |s| && size >= 1
    ensures Window(s, start, size) == s[start..if start + size <= |s| then start + size else |s|]
  {
    assert s[start..] == s[start..|s|];
  }

  lemma WindowIs(paragraphs: seq<string>, j: nat, k: nat, maxChars: int)
    requires maxChars >= 1 && IsWindow(paragraphs, Place(j, k), maxChars)
    ensures (k + 1) * maxChars == k * maxChars + maxChars
    ensures Cut(paragraphs[j], k * maxChars, maxChars)
         == [WindowText(paragraphs, Place(j, k), maxChars)] + Cut(paragraphs[j], (k + 1) * maxChars, maxChars)
  {
    assert (k + 1) * maxChars == k * maxChars + maxChars;
    WindowIsSlice(paragraphs[j], k * maxChars, maxChars);
  }

  lemma {:induction false} CutIsWindows(paragraphs: seq<string>, j: nat, k: nat, maxChars: int) returns (places: seq<Place>)
    requires maxChars >= 1 && j < |paragraphs|
    ensures ListsBetween(NonEmpty(Cut(paragraphs[j], k * maxChars, maxChars)), paragraphs, maxChars, places,
                         Place(j, k), Place(j + 1, 0))
    decreases |paragraphs[j]| - k * maxChars
  {
    if !IsWindow(paragraphs, Place(j, k), maxChars) {
      places := [];
      forall place | IsInkedWindow(paragraphs, place, maxChars)
        ensures !(!Earlier(place, Place(j, k)) && Earlier(place, Place(j + 1, 0)))
      {
        NoWindowBehind(paragraphs, j, k, maxChars, place);
      }
    } else {
      assert (k + 1) * maxChars == k * maxChars + maxChars;
      var rest := CutIsWindows(paragraphs, j, k + 1, maxChars);
      var one := OneWindow(paragraphs, j, k, maxChars);
      var first, cut := [WindowText(paragraphs, Place(j, k), maxChars)], Cut(paragraphs[j], (k + 1) * maxChars, maxChars);
      WindowIs(paragraphs, j, k, maxChars);
      NonEmptyAppend(first, cut);
      ListsAppend(NonEmpty(first), NonEmpty(cut), paragraphs, maxChars, one, rest, Place(j, k), Place(j, k + 1), Place(j + 1, 0));
      places := one + rest;
    }
  }

  lemma ParagraphIsWindows(paragraphs: seq<string>, j: nat, maxChars: int) returns (places: seq<Place>)
    requires maxChars >= 1 && AllParagraphs(paragraphs) && j < |paragraphs|
    ensures ListsBetween(NonEmpty(CutIfOversized(paragraphs[j], maxChars)), paragraphs, maxChars, places,
                         Place(j, 0), Place(j + 1, 0))
  {
    var p := paragraphs[j];
    if |p| <= maxChars {
      assert p[0..|p|] == p && IsWindow(paragraphs, Place(j, 0), maxChars);
      StripOfStripped(p);
      places := [Place(j, 0)];
      assert NonEmpty([p]) == [p];
      forall place | IsInkedWindow(paragraphs, place, maxChars) && !Earlier(place, Place(j, 0)) && Earlier(place, Place(j + 1, 0))
        ensures place == Place(j, 0)
      {
        if place.window >= 1 {
          ProductMono(1, place.window, maxChars);
        }
      }
    } else {
      places := CutIsWindows(paragraphs, j, 0, maxChars);
    }
  }

  lemma {:induction false} NonEmptyAppend(a: seq<string>, b: seq<string>)
    ensures NonEmpty(a + b) == NonEmpty(a) + NonEmpty(b)
  {
    if a == [] {
      assert a + b == b;
    } else {
      assert (a + b)[1..] == a[1..] + b;
      NonEmptyAppend(a[1..], b);
    }
  }

  lemma {:induction false} PrefixIsWindows(paragraphs: seq<string>, n: nat, maxChars: int)
    returns (pieces: seq<string>, places: seq<Place>)
    requires maxChars >= 1 && AllParagraphs(paragraphs) && n <= |paragraphs|
    ensures pieces == NonEmpty(CutOversized(paragraphs[..n], maxChars))
    ensures ListsBetween(pieces, paragraphs, maxChars, places, Place(0, 0), Place(n, 0))
  {
    if n == 0 {
      pieces, places := [], [];
    } else {
      var a, p := PrefixIsWindows(paragraphs, n - 1, maxChars);
      var q := ParagraphIsWindows(paragraphs, n - 1, maxChars);
      var b := NonEmpty(CutIfOversized(paragraphs[n - 1], maxChars));
      CutOversizedStep(paragraphs, n - 1, maxChars);
      NonEmptyAppend(CutOversized(paragraphs[..n - 1], maxChars), CutIfOversized(paragraphs[n - 1], maxChars));
      ListsAppend(a, b, paragraphs, maxChars, p, q, Place(0, 0), Place(n - 1, 0), Place(n, 0));
      pieces, places := a + b, p + q;
    }
  }

  /** The pieces of a text are the nonblank windows of its paragraphs, in order: window `k` of a paragraph
      holds its characters from `k * maxChars` on, at most `maxChars` of them, stripped. */
  lemma PiecesAreWindows(text: string, maxChars: int) returns (places: seq<Place>)
    requires maxChars >= 1
    ensures ListsWindows(Pieces(text, maxChars), SplitParagraphs(text), maxChars, places)
  {
    var paragraphs := SplitParagraphs(text);
    SplitParagraphsLemma(text);
    if paragraphs == [] {
      assert Ink(Concat(paragraphs)) == "";
      InkEmpty(text);
      assert ParagraphsOrText(text) == [""] && CutOversized([""], maxChars) == [""] by {
        assert [""][..0] == [];
      }
      places := [];
    } else {
      var pieces;
      pieces, places := PrefixIsWindows(paragraphs, |paragraphs|, maxChars);
      assert paragraphs[..|paragraphs|] == paragraphs;
    }
  }

  ghost predicate Solid(s: string) {
    s != "" && forall i :: 0 <= i < |s| ==> !IsSpace(s[i])
  }

  /** Pieces of exactly `maxChars` characters but for the last, that make up the text in a row. */
  ghost predicate CutEvenly(pieces: seq<string>, s: string, maxChars: int) {
    && pieces != [] && Concat(pieces) == s
    && (forall k :: 0 <= k < |pieces| - 1 ==> |pieces[k]| == maxChars)
    && 1 <= |pieces[|pieces| - 1]| <= maxChars
  }

  lemma EvenlyCons(first: string, pieces: seq<string>, rest: string, maxChars: int)
    requires CutEvenly(pieces, rest, maxChars) && |first| == maxChars
    ensures CutEvenly([first] + pieces, first + rest, maxChars)
  {
    assert ([first] + pieces)[1..] == pieces;
  }

  lemma EvenlyOne(s: string, maxChars: int)
    requires 1 <= |s| <= maxChars
    ensures CutEvenly([s], s, maxChars)
  {
    ConcatOne(s);
  }

  lemma SolidWindow(s: string, start: nat, maxChars: int)
    requires maxChars >= 1 && Solid(s) && start < |s|
    ensures var w, rest := Window(s, start, maxChars), Cut(s, start + maxChars, maxChars);
            NonEmpty(Cut(s, start, maxChars)) == [w] + NonEmpty(rest)
  {
    var w, rest := Window(s, start, maxChars), Cut(s, start + maxChars, maxChars);
    StripOfStripped(w);
    assert Cut(s, start, maxChars) == [w] + rest;
    NonEmptyAppend([w], rest);
    assert NonEmpty([w]) == [w];
  }

  lemma {:induction false} SolidCut(s: string, start: nat, maxChars: int) returns (pieces: seq<string>)
    requires maxChars >= 1 && Solid(s) && start < |s|
    ensures pieces == NonEmpty(Cut(s, start, maxChars)) && CutEvenly(pieces, s[start..], maxChars)
    decreases |s| - start
  {
    SolidWindow(s, start, maxChars);
    var w := Window(s, start, maxChars);
    if start + maxChars < |s| {
      var rest := SolidCut(s, start + maxChars, maxChars);
      pieces := [w] + rest;
      WindowAndRest(s, start, maxChars);
      EvenlyCons(w, rest, s[start + maxChars..], maxChars);
    } else {
      pieces := [w];
      assert w == s[start..] && [w] + [] == [w];
      EvenlyOne(w, maxChars);
    }
  }

  /** A text without white space is cut into pieces of exactly `maxChars` characters but for the last, and
      the pieces in a row are the text. */
  lemma SolidTextIsCutEvenly(s: string, maxChars: int)
    requires maxChars >= 1 && Solid(s)
    ensures CutEvenly(Pieces(s, maxChars), s, maxChars)
  {
    assert IsParagraph(s);
    SplitOfJoin([s]);
    SplitsIntoItself(s, maxChars);
    if |s| <= maxChars {
      assert NonEmpty([s]) == [s];
      EvenlyOne(s, maxChars);
    } else {
      var _ := SolidCut(s, 0, maxChars);
      assert s[0..] == s;
    }
  }

  lemma SplitsIntoItself(s: string, maxChars: int)
    requires maxChars >= 1 && SplitParagraphs(s) == [s]
    ensures Pieces(s, maxChars) == NonEmpty(CutIfOversized(s, maxChars))
  {
    CutOversizedStep([s], 0, maxChars);
    assert [s][..1] == [s] && [s][..0] == [];
    assert CutOversized([], maxChars) + CutIfOversized(s, maxChars) == CutIfOversized(s, maxChars);
  }

  // ---- the units of a document ----

  /** `_section_page_range`: both ends are present or both are absent. */
  function SectionPageRange(section: Section): (range: (Option<int>, Option<int>))
    ensures range.0.Some? <==> range.1.Some?
  {
    if section.pageNumber.Some? then (section.pageNumber, section.pageNumber)
    else
      var start := IntAt(section.metadata, "start_page");
      var end := IntAt(section.metadata, "end_page");
      var page := IntAt(section.metadata, "page_number");
      if start.Some? || end.Some? then
        (if start.Some? then start else end, if end.Some? then end else start)
      else (page, page)
  }

  /** The range of a numbered section is its page; else it is what `start_page` and `end_page` say, each
      standing in for the other when only one is given; else it is the lone `page_number`, if any. */
  lemma SectionPageRangeLemma(section: Section)
    ensures var range := SectionPageRange(section);
            var start, end := IntAt(section.metadata, "start_page"), IntAt(section.metadata, "end_page");
            var lone := IntAt(section.metadata, "page_number");
            && (section.pageNumber.Some? ==> range == (section.pageNumber, section.pageNumber))
            && (section.pageNumber.None? && start.Some? ==> range.0 == start && range.1 == if end.Some? then end else start)
            && (section.pageNumber.None? && start.None? && end.Some? ==> range == (end, end))
            && (section.pageNumber.None? && start.None? && end.None? ==> range == (lone, lone))
            && (range.0.Some? && range.0.value > range.1.value ==> section.pageNumber.None? && range == (start, end))
  {
  }

  function UnitFor(section: Section, piece: string): Unit {
    Unit(piece, section.sectionId, SectionPageRange(section).0, SectionPageRange(section).1)
  }

  /** A unit holds the piece and the id of its section, starts on the first page of it and ends on the last. */
  lemma UnitLemma(section: Section, piece: string)
    ensures var unit := UnitFor(section, piece);
            var start, end := IntAt(section.metadata, "start_page"), IntAt(section.metadata, "end_page");
            && unit.text == piece && unit.sectionId == section.sectionId
            && (section.pageNumber.Some? ==> unit.startPage == unit.endPage == section.pageNumber)
            && (section.pageNumber.None? && start.Some? && end.Some? ==> unit.startPage == start && unit.endPage == end)
            && (section.pageNumber.None? && start.Some? && end.None? ==> unit.startPage == unit.endPage == start)
            && (section.pageNumber.None? && start.None? && end.Some? ==> unit.startPage == unit.endPage == end)
            && (section.pageNumber.None? && start.None? && end.None? ==>
                  unit.startPage == unit.endPage == IntAt(section.metadata, "page_number"))
  {
    SectionPageRangeLemma(section);
  }

  function UnitsForPieces(section: Section, pieces: seq<string>): seq<Unit> {
    seq(|pieces|, i requires 0 <= i < |pieces| => UnitFor(section, pieces[i]))
  }

  function UnitsOf(sections: seq<Section>, maxChars: int): seq<Unit>
    requires maxChars >= 1
  {
    if sections == [] then []
    else
      var last := sections[|sections| - 1];
      UnitsOf(sections[..|sections| - 1], maxChars) + UnitsForPieces(last, Pieces(last.text, maxChars))
  }

  /** The units stand section by section: behind those of the sections before, unit `k` of section `s` is made
      of piece `k` of its text. */
  lemma UnitAt(sections: seq<Section>, maxChars: int, s: nat, k: nat) returns (u: nat)
    requires maxChars >= 1 && s < |sections| && k < |Pieces(sections[s].text, maxChars)|
    ensures u == |UnitsOf(sections[..s], maxChars)| + k && u < |UnitsOf(sections, maxChars)|
    ensures UnitsOf(sections, maxChars)[u] == UnitFor(sections[s], Pieces(sections[s].text, maxChars)[k])
  {
    u := UnitIn(sections, maxChars, s, k);
    UnitsPrefix(sections, maxChars, s + 1, u);
  }

  lemma UnitIn(sections: seq<Section>, maxChars: int, s: nat, k: nat) returns (u: nat)
    requires maxChars >= 1 && s < |sections| && k < |Pieces(sections[s].text, maxChars)|
    ensures u == |UnitsOf(sections[..s], maxChars)| + k && u < |UnitsOf(sections[..s + 1], maxChars)|
    ensures UnitsOf(sections[..s + 1], maxChars)[u] == UnitFor(sections[s], Pieces(sections[s].text, maxChars)[k])
  {
    UnitsOfStep(sections, s, maxChars);
    u := UnitBehind(UnitsOf(sections[..s + 1], maxChars), UnitsOf(sections[..s], maxChars), sections[s],
                    Pieces(sections[s].text, maxChars), k);
  }

  lemma UnitBehind(units: seq<Unit>, earlier: seq<Unit>, section: Section, pieces: seq<string>, k: nat) returns (u: nat)
    requires units == earlier + UnitsForPieces(section, pieces) && k < |pieces|
    ensures u == |earlier| + k && u < |units| && units[u] == UnitFor(section, pieces[k])
  {
    u := |earlier| + k;
    UnitForPieceAt(earlier, section, pieces, u);
  }

  /** The units of the first `n` sections come first. */
  lemma {:induction false} UnitsPrefix(sections: seq<Section>, maxChars: int, n: nat, u: nat)
    requires maxChars >= 1 && n <= |sections| && u < |UnitsOf(sections[..n], maxChars)|
    ensures u < |UnitsOf(sections, maxChars)| && UnitsOf(sections, maxChars)[u] == UnitsOf(sections[..n], maxChars)[u]
    decreases |sections| - n
  {
    if n == |sections| {
      assert sections[..n] == sections;
    } else {
      assert sections[..n + 1][..n] == sections[..n];
      UnitsStartWith(sections[..n + 1], maxChars, u);
      UnitsPrefix(sections, maxChars, n + 1, u);
    }
  }

  /** Section `s` has as many units as its text has pieces. */
  lemma UnitCount(sections: seq<Section>, maxChars: int, s: nat)
    requires maxChars >= 1 && s < |sections|
    ensures |UnitsOf(sections[..s + 1], maxChars)| == |UnitsOf(sections[..s], maxChars)| + |Pieces(sections[s].text, maxChars)|
  {
    UnitsOfStep(sections, s, maxChars);
  }

  lemma UnitsOfStep(sections: seq<Section>, s: nat, maxChars: int)
    requires maxChars >= 1 && s < |sections|
    ensures UnitsOf(sections[..s + 1], maxChars)
         == UnitsOf(sections[..s], maxChars) + UnitsForPieces(sections[s], Pieces(sections[s].text, maxChars))
  {
    assert sections[..s + 1][..s] == sections[..s];
  }

  lemma UnitsStartWith(sections: seq<Section>, maxChars: int, u: nat)
    requires maxChars >= 1 && sections != []
    ensures var shorter := UnitsOf(sections[..|sections| - 1], maxChars);
            u < |shorter| ==> u < |UnitsOf(sections, maxChars)| && UnitsOf(sections, maxChars)[u] == shorter[u]
  {
  }

  method UnitsForSection(section: Section, maxChars: int) returns (units: seq<Unit>)
    requires maxChars >= 1
    ensures units == UnitsForPieces(section, Pieces(section.text, maxChars))
  {
    var pieces, _ := SplitLargeText(section.text, maxChars);
    units := [];
    for i := 0 to |pieces|
      invariant units == UnitsForPieces(section, pieces[..i])
    {
      UnitsForPiecesAppend(section, pieces, i);
      units := units + [UnitFor(section, pieces[i])];
    }
    assert pieces[..|pieces|] == pieces;
  }

  method SectionUnits(sections: seq<Section>, maxChars: int) returns (units: seq<Unit>)
    requires maxChars >= 1
    ensures units == UnitsOf(sections, maxChars)
  {
    units := [];
    for n := 0 to |sections|
      invariant units == UnitsOf(sections[..n], maxChars)
    {
      var own := UnitsForSection(sections[n], maxChars);
      assert sections[..n + 1][..n] == sections[..n];
      assert UnitsOf(sections[..n + 1], maxChars) == UnitsOf(sections[..n], maxChars) + own;
      units := units + own;
    }
    assert sections[..|sections|] == sections;
  }

  lemma UnitsForPiecesAppend(section: Section, pieces: seq<string>, i: nat)
    requires i < |pieces|
    ensures UnitsForPieces(section, pieces[..i + 1]) ==
            UnitsForPieces(section, pieces[..i]) + [UnitFor(section, pieces[i])]
  {
  }

  function Texts(units: seq<Unit>): (texts: seq<string>)
    ensures |texts| == |units| && forall i :: 0 <= i < |units| ==> texts[i] == units[i].text
  {
    seq(|units|, i requires 0 <= i < |units| => units[i].text)
  }

  function SectionTexts(sections: seq<Section>): (texts: seq<string>)
    ensures |texts| == |sections| && forall i :: 0 <= i < |sections| ==> texts[i] == sections[i].text
  {
    seq(|sections|, i requires 0 <= i < |sections| => sections[i].text)
  }

  lemma {:induction false} UnitsAreParagraphs(sections: seq<Section>, maxChars: int)
    requires maxChars >= 1
    ensures AllParagraphs(Texts(UnitsOf(sections, maxChars)))
    ensures WithinLimit(Texts(UnitsOf(sections, maxChars)), maxChars)
  {
    if sections != [] {
      var before, last := sections[..|sections| - 1], sections[|sections| - 1];
      PiecesLemma(last.text, maxChars);
      UnitsAreParagraphs(before, maxChars);
      UnitTextsAppend(sections, maxChars);
    }
  }

  lemma {:induction false} UnitInkStep(sections: seq<Section>, maxChars: int)
    requires maxChars >= 1 && sections != []
    ensures Ink(Concat(Texts(UnitsOf(sections, maxChars)))) ==
            Ink(Concat(Texts(UnitsOf(sections[..|sections| - 1], maxChars)))) + Ink(sections[|sections| - 1].text)
  {
    var before, last := sections[..|sections| - 1], sections[|sections| - 1];
    UnitTextsAppend(sections, maxChars);
    InkOfAppend(Texts(UnitsOf(before, maxChars)), Pieces(last.text, maxChars));
    PiecesLemma(last.text, maxChars);
  }

  lemma SectionInkStep(sections: seq<Section>)
    requires sections != []
    ensures Ink(Concat(SectionTexts(sections))) ==
            Ink(Concat(SectionTexts(sections[..|sections| - 1]))) + Ink(sections[|sections| - 1].text)
  {
    var before := sections[..|sections| - 1];
    var texts := SectionTexts(sections);
    assert texts[..|texts| - 1] == SectionTexts(before);
    InkOfLast(texts);
  }

  lemma {:induction false} UnitsKeepInk(sections: seq<Section>, maxChars: int)
    requires maxChars >= 1
    ensures Ink(Concat(Texts(UnitsOf(sections, maxChars)))) == Ink(Concat(SectionTexts(sections)))
  {
    if sections == [] {
      assert Texts(UnitsOf(sections, maxChars)) == [] == SectionTexts(sections);
    } else {
      UnitsKeepInk(sections[..|sections| - 1], maxChars);
      UnitInkStep(sections, maxChars);
      SectionInkStep(sections);
    }
  }

  /** The units are paragraphs within the limit and hold the visible characters of the sections. */
  lemma {:induction false} UnitsLemma(sections: seq<Section>, maxChars: int)
    requires maxChars >= 1
    ensures AllParagraphs(Texts(UnitsOf(sections, maxChars)))
    ensures WithinLimit(Texts(UnitsOf(sections, maxChars)), maxChars)
    ensures Ink(Concat(Texts(UnitsOf(sections, maxChars)))) == Ink(Concat(SectionTexts(sections)))
  {
    UnitsAreParagraphs(sections, maxChars);
    UnitsKeepInk(sections, maxChars);
  }

  lemma TextsAppend(a: seq<Unit>, b: seq<Unit>)
    ensures Texts(a + b) == Texts(a) + Texts(b)
  {
  }

  lemma TextsOfPieces(section: Section, pieces: seq<string>)
    ensures Texts(UnitsForPieces(section, pieces)) == pieces
  {
  }

  lemma UnitTextsAppend(sections: seq<Section>, maxChars: int)
    requires maxChars >= 1 && sections != []
    ensures Texts(UnitsOf(sections, maxChars)) ==
            Texts(UnitsOf(sections[..|sections| - 1], maxChars)) + Pieces(sections[|sections| - 1].text, maxChars)
  {
    var before, last := sections[..|sections| - 1], sections[|sections| - 1];
    TextsAppend(UnitsOf(before, maxChars), UnitsForPieces(last, Pieces(last.text, maxChars)));
    TextsOfPieces(last, Pieces(last.text, maxChars));
  }

  // ---- packing ----

  /** The length of a group once its texts are joined. */
  function Width(units: seq<Unit>): nat {
    if units == [] then 0
    else |units[0].text| + if |units| == 1 then 0 else 2 + Width(units[1..])
  }

  lemma {:induction false} WidthIsJoinedLength(units: seq<Unit>)
    ensures Width(units) == |Join(PARAGRAPH_BREAK, Texts(units))|
  {
    if |units| > 1 {
      assert Texts(units)[1..] == Texts(units[1..]);
      WidthIsJoinedLength(units[1..]);
    }
  }

  lemma {:induction false} WidthAppend(units: seq<Unit>, unit: Unit)
    ensures Width(units + [unit]) == |unit.text| + if units == [] then 0 else Width(units) + 2
  {
    if units != [] {
      assert (units + [unit])[1..] == units[1..] + [unit];
      WidthAppend(units[1..], unit);
    }
  }

  lemma {:induction false} WidthOfSlice(units: seq<Unit>, i: nat, j: nat)
    requires i <= j <= |units|
    ensures Width(units[i..j]) <= Width(units)
    decreases |units|
  {
    if j < |units| {
      var shorter := units[..|units| - 1];
      assert units == shorter + [units[|units| - 1]];
      WidthAppend(shorter, units[|units| - 1]);
      assert shorter[i..j] == units[i..j];
      WidthOfSlice(shorter, i, j);
    } else if i > 0 {
      assert units[1..][i - 1..j - 1] == units[i..j];
      WidthOfSlice(units[1..], i - 1, j - 1);
    } else {
      assert units[i..j] == units;
    }
  }

  /** How many units the first group takes: as many as fit, but at least one. */
  function FirstGroup(units: seq<Unit>, taken: nat, maxChars: int): (n: nat)
    requires taken <= |units|
    ensures taken <= n <= |units|
    decreases |units| - taken
  {
    if taken < |units| && Width(units[..taken + 1]) <= maxChars then FirstGroup(units, taken + 1, maxChars)
    else taken
  }

  /** Greedy packing, written as taking one longest group after another. */
  function Greedy(units: seq<Unit>, maxChars: int): seq<seq<Unit>> {
    if units == [] then []
    else
      var n := FirstGroup(units, 1, maxChars);
      [units[..n]] + Greedy(units[n..], maxChars)
  }

  predicate AllTextsNonEmpty(units: seq<Unit>) {
    forall i :: 0 <= i < |units| ==> units[i].text != ""
  }

  /** `_pack_units`. With nonempty texts the running count is the true joined length, and the
      groups are the greedy ones. */
  method PackUnits(units: seq<Unit>, maxChars: int) returns (groups: seq<seq<Unit>>)
    ensures Flatten(groups) == units
    ensures forall g :: 0 <= g < |groups| ==> groups[g] != []
    ensures AllTextsNonEmpty(units) ==> groups == Greedy(units, maxChars)
  {
    groups := [];
    var current: seq<Unit> := [];
    var currentChars := 0;
    for i := 0 to |units|
      invariant Flatten(groups) + current == units[..i]
      invariant forall g :: 0 <= g < |groups| ==> groups[g] != []
      invariant current == [] ==> i == 0 && groups == []
      invariant AllTextsNonEmpty(units) ==> currentChars == Width(current)
      invariant AllTextsNonEmpty(units) && i > 0 ==> Greedy(units[..i], maxChars) == groups + [current]
    {
      var unit := units[i];
      var nextChars := if current == [] then |unit.text| else currentChars + 2 + |unit.text|;
      WidthAppend(current, unit);
      assert units[..i + 1] == units[..i] + [unit];
      if AllTextsNonEmpty(units) {
        PackingStep(units, i, groups, current, maxChars);
      }
      if current != [] && nextChars > maxChars {
        FlattenAppend(groups, current);
        groups := groups + [current];
        current := [];
        currentChars := 0;
      }
      WidthAppend(current, unit);
      assert current == [] ==> current + [unit] == [unit];
      current := current + [unit];
      currentChars := if currentChars == 0 then |unit.text| else currentChars + 2 + |unit.text|;
    }
    assert units[..|units|] == units;
    if current != [] {
      FlattenAppend(groups, current);
      groups := groups + [current];
    }
  }

  lemma WidthIsPositive(group: seq<Unit>, units: seq<Unit>)
    requires AllTextsNonEmpty(units) && |group| <= |units| && group == units[|units| - |group|..]
    ensures group != [] ==> Width(group) > 0
  {
  }

  /** Appending a unit extends the last greedy group if it fits there, and starts a group if not. */
  lemma {:induction false} GreedyAppend(
    units: seq<Unit>, unit: Unit, groups: seq<seq<Unit>>, last: seq<Unit>, maxChars: int)
    requires if units == [] then groups == [] && last == [] else Greedy(units, maxChars) == groups + [last]
    ensures Greedy(units + [unit], maxChars) ==
            if units == [] || Width(last + [unit]) <= maxChars then groups + [last + [unit]]
            else groups + [last] + [[unit]]
    decreases |units|
  {
    var longer := units + [unit];
    if units == [] {
      assert longer[..1] == [unit] && longer[1..] == [] && last + [unit] == [unit];
    } else {
      var n := FirstGroup(units, 1, maxChars);
      FirstGroupAppend(units, unit, 1, maxChars);
      var rest := Greedy(units[n..], maxChars);
      if n < |units| {
        assert longer[..n] == units[..n] && longer[n..] == units[n..] + [unit];
        assert rest != [] && (groups + [last])[0] == units[..n];
        assert groups == [units[..n]] + groups[1..];
        assert rest == (groups + [last])[1..] == groups[1..] + [last];
        GreedyAppend(units[n..], unit, groups[1..], last, maxChars);
        assert Greedy(longer, maxChars) == [units[..n]] + Greedy(units[n..] + [unit], maxChars);
        assert [units[..n]] + (groups[1..] + [last] + [[unit]]) == groups + [last] + [[unit]];
        assert [units[..n]] + (groups[1..] + [last + [unit]]) == groups + [last + [unit]];
      } else {
        assert |groups + [last]| == 1 && (groups + [last])[0] == units[..n] == units;
        assert longer[..n] == units && longer[n..] == [unit];
        assert longer[..n + 1] == longer && longer[n + 1..] == [];
        assert [unit][..1] == [unit] && [unit][1..] == [];
        assert groups == [] && last == units;
      }
    }
  }

  lemma {:induction false} FirstGroupAppend(units: seq<Unit>, unit: Unit, taken: nat, maxChars: int)
    requires taken <= |units|
    ensures var n := FirstGroup(units, taken, maxChars);
            FirstGroup(units + [unit], taken, maxChars) ==
            if n == |units| && Width(units + [unit]) <= maxChars then n + 1 else n
    decreases |units| - taken
  {
    if taken < |units| {
      assert (units + [unit])[..taken + 1] == units[..taken + 1];
      if Width(units[..taken + 1]) <= maxChars {
        FirstGroupAppend(units, unit, taken + 1, maxChars);
      }
    } else {
      assert (units + [unit])[..taken + 1] == units + [unit];
    }
  }

  /** What one turn of the packing loop does to the greedy groups, for nonempty texts. */
  lemma PackingStep(units: seq<Unit>, i: nat, groups: seq<seq<Unit>>, current: seq<Unit>, maxChars: int)
    requires AllTextsNonEmpty(units) && i < |units| && Flatten(groups) + current == units[..i]
    requires if i == 0 then groups == [] && current == [] else Greedy(units[..i], maxChars) == groups + [current]
    ensures current != [] ==> Width(current) > 0
    ensures Greedy(units[..i + 1], maxChars) ==
            if i == 0 || Width(current + [units[i]]) <= maxChars then groups + [current + [units[i]]]
            else groups + [current] + [[units[i]]]
  {
    assert units[..i + 1] == units[..i] + [units[i]];
    WidthIsPositive(current, units[..i]);
    GreedyAppend(units[..i], units[i], groups, current, maxChars);
  }

  /** A group that fits and cannot take the next unit is the first greedy group. */
  lemma FirstGroupIs(group: seq<Unit>, rest: seq<Unit>, maxChars: int)
    requires group != [] && (|group| > 1 ==> Width(group) <= maxChars)
    requires rest != [] ==> Width(group + [rest[0]]) > maxChars
    ensures Greedy(group + rest, maxChars) == [group] + Greedy(rest, maxChars)
  {
    FirstGroupReaches(group, rest, 1, maxChars);
    assert (group + rest)[..|group|] == group;
    assert (group + rest)[|group|..] == rest;
  }

  lemma {:induction false} FirstGroupReaches(group: seq<Unit>, rest: seq<Unit>, taken: nat, maxChars: int)
    requires 1 <= taken <= |group| && (|group| > 1 ==> Width(group) <= maxChars)
    requires rest != [] ==> Width(group + [rest[0]]) > maxChars
    ensures FirstGroup(group + rest, taken, maxChars) == |group|
    decreases |group| - taken
  {
    if taken < |group| {
      assert (group + rest)[..taken + 1] == group[0..taken + 1];
      WidthOfSlice(group, 0, taken + 1);
      FirstGroupReaches(group, rest, taken + 1, maxChars);
    } else if rest != [] {
      assert (group + rest)[..taken + 1] == group + [rest[0]];
    }
  }

  // ---- greedy packing: bounds, maximality and optimality ----

  lemma {:induction false} FirstGroupFits(units: seq<Unit>, taken: nat, maxChars: int)
    requires taken <= |units| && Width(units[..taken]) <= maxChars
    ensures Width(units[..FirstGroup(units, taken, maxChars)]) <= maxChars
    decreases |units| - taken
  {
    if taken < |units| && Width(units[..taken + 1]) <= maxChars {
      FirstGroupFits(units, taken + 1, maxChars);
    }
  }

  lemma {:induction false} FirstGroupIsMaximal(units: seq<Unit>, taken: nat, maxChars: int)
    requires taken <= |units|
    ensures var n := FirstGroup(units, taken, maxChars);
            n < |units| ==> Width(units[..n + 1]) > maxChars
    decreases |units| - taken
  {
    if taken < |units| && Width(units[..taken + 1]) <= maxChars {
      FirstGroupIsMaximal(units, taken + 1, maxChars);
    }
  }

  /** The groups are a partition of the units, in order. */
  lemma {:induction false} GreedyPartitions(units: seq<Unit>, maxChars: int)
    ensures Flatten(Greedy(units, maxChars)) == units
    ensures forall g :: 0 <= g < |Greedy(units, maxChars)| ==> Greedy(units, maxChars)[g] != []
    decreases |units|
  {
    if units != [] {
      var n := FirstGroup(units, 1, maxChars);
      GreedyPartitions(units[n..], maxChars);
      assert units == units[..n] + units[n..];
    }
  }

  /** Groups fit when each single unit fits. */
  lemma {:induction false} GreedyFits(units: seq<Unit>, maxChars: int)
    requires forall i :: 0 <= i < |units| ==> |units[i].text| <= maxChars
    ensures AllFit(Greedy(units, maxChars), maxChars)
    decreases |units|
  {
    if units != [] {
      var n := FirstGroup(units, 1, maxChars);
      GreedyFits(units[n..], maxChars);
      assert units[..1][0] == units[0];
      FirstGroupFits(units, 1, maxChars);
    }
  }

  lemma GreedyLemma(units: seq<Unit>, maxChars: int)
    ensures Flatten(Greedy(units, maxChars)) == units
    ensures forall g :: 0 <= g < |Greedy(units, maxChars)| ==> Greedy(units, maxChars)[g] != []
    ensures WithinLimit(Texts(units), maxChars) ==> AllFit(Greedy(units, maxChars), maxChars)
  {
    GreedyPartitions(units, maxChars);
    if WithinLimit(Texts(units), maxChars) {
      assert forall i :: 0 <= i < |units| ==> Texts(units)[i] == units[i].text;
      GreedyFits(units, maxChars);
    }
  }

  /** Adjacent groups cannot be merged: even the first unit of the next group does not fit. */
  lemma {:induction false} GreedyIsMaximal(units: seq<Unit>, maxChars: int, g: nat)
    requires g + 1 < |Greedy(units, maxChars)|
    ensures Greedy(units, maxChars)[g + 1] != []
    ensures Width(Greedy(units, maxChars)[g] + [Greedy(units, maxChars)[g + 1][0]]) > maxChars
    decreases |units|
  {
    var n := FirstGroup(units, 1, maxChars);
    if g == 0 {
      FirstGroupIsMaximal(units, 1, maxChars);
      assert units[..n + 1] == units[..n] + [units[n]];
    } else {
      GreedyIsMaximal(units[n..], maxChars, g - 1);
    }
  }

  ghost predicate AllFit(groups: seq<seq<Unit>>, maxChars: int) {
    forall g :: 0 <= g < |groups| ==> Width(groups[g]) <= maxChars
  }

  lemma SliceOfSuffix<T>(s: seq<T>, k: nat, first: seq<T>, rest: seq<T>)
    requires k <= |s| && s[k..] == first + rest
    ensures k + |first| <= |s| && s[k..k + |first|] == first && s[k + |first|..] == rest
  {
    assert |s[k..]| == |s| - k;
    assert s[k..k + |first|] == s[k..][..|first|];
    assert s[k + |first|..] == s[k..][|first|..];
  }

  lemma SliceOfSlice<T>(s: seq<T>, k: nat, m: nat, i: nat, j: nat)
    requires k <= m <= |s| && i <= j <= m - k
    ensures s[k..m][i..j] == s[k + i..k + j]
  {
    var t := s[k..m];
    assert forall n :: 0 <= n < |t| ==> t[n] == s[k + n];
  }

  lemma WidthInside(units: seq<Unit>, j: nat, k: nat, m: nat, end: nat)
    requires k <= j <= end <= m <= |units|
    ensures Width(units[j..end]) <= Width(units[k..m])
  {
    SliceOfSlice(units, k, m, j - k, end - k);
    WidthOfSlice(units[k..m], j - k, end - k);
  }

  /** A first greedy group that starts no earlier than a fitting group ends no earlier. */
  lemma FirstGroupReachesFurther(units: seq<Unit>, j: nat, k: nat, m: nat, maxChars: int)
    requires k <= j < m <= |units| && Width(units[k..m]) <= maxChars
    ensures j + FirstGroup(units[j..], 1, maxChars) >= m
  {
    var n := FirstGroup(units[j..], 1, maxChars);
    FirstGroupIsMaximal(units[j..], 1, maxChars);
    if j + n + 1 <= |units| {
      assert units[j..][..n + 1] == units[j..j + n + 1];
    }
    if j + n + 1 <= m {
      WidthInside(units, j, k, m, j + n + 1);
    }
  }

  /** Starting later never needs more groups: the greedy packing of the units from `j` on is no
      longer than any fitting partition of the units from an earlier `k` on. */
  lemma {:induction false} GreedyStaysAhead(
    units: seq<Unit>, j: nat, k: nat, partition: seq<seq<Unit>>, maxChars: int)
    requires k <= j <= |units|
    requires Flatten(partition) == units[k..] && AllFit(partition, maxChars)
    ensures |Greedy(units[j..], maxChars)| <= |partition|
    decreases |partition|
  {
    if j < |units| {
      var first, rest := partition[0], partition[1..];
      var m := k + |first|;
      assert units[k..] == first + Flatten(rest);
      SliceOfSuffix(units, k, first, Flatten(rest));
      if m <= j {
        GreedyStaysAhead(units, j, m, rest, maxChars);
      } else {
        var n := FirstGroup(units[j..], 1, maxChars);
        FirstGroupReachesFurther(units, j, k, m, maxChars);
        assert units[j..][n..] == units[j + n..];
        GreedyStaysAhead(units, j + n, m, rest, maxChars);
      }
    }
  }

  /** Greedy packing is optimal: no partition of the units into contiguous groups whose joined
      texts fit has fewer groups. */
  lemma GreedyIsOptimal(units: seq<Unit>, partition: seq<seq<Unit>>, maxChars: int)
    requires Flatten(partition) == units
    requires forall g :: 0 <= g < |partition| ==> |Join(PARAGRAPH_BREAK, Texts(partition[g]))| <= maxChars
    ensures |Greedy(units, maxChars)| <= |partition|
  {
    forall g | 0 <= g < |partition|
      ensures Width(partition[g]) <= maxChars
    {
      WidthIsJoinedLength(partition[g]);
    }
    assert units[0..] == units;
    GreedyStaysAhead(units, 0, 0, partition, maxChars);
  }

  // ---- whole documents ----

  function GroupText(group: seq<Unit>): string {
    Join(PARAGRAPH_BREAK, Texts(group))
  }

  function ChunkTexts(sections: seq<Section>, maxChars: int): (texts: seq<string>)
    requires maxChars >= 1
    ensures |texts| == |Greedy(UnitsOf(sections, maxChars), maxChars)|
  {
    var groups := Greedy(UnitsOf(sections, maxChars), maxChars);
    seq(|groups|, g requires 0 <= g < |groups| => GroupText(groups[g]))
  }

  /** The first of source uri, title and id that is not empty. */
  function Fallback(document: Document): string {
    if document.sourceUri != "" then document.sourceUri
    else if document.title != "" then document.title
    else document.documentId
  }

  method ChunkDocument(document: Document, sections: seq<Section>, maxChars: int, chunkerVersion: string)
    returns (chunks: seq<Chunk>)
    requires maxChars >= 1
    ensures var groups := Greedy(UnitsOf(sections, maxChars), maxChars);
            if groups == [] then
              && |chunks| == 1
              && chunks[0] == Chunk(document.documentId, document.documentId + ":0", 0, chunks[0].text, document.dataType,
                                    document.contentHash, chunkerVersion, None)
              && (document.sourceUri != "" ==> chunks[0].text == document.sourceUri)
              && (document.sourceUri == "" && document.title != "" ==> chunks[0].text == document.title)
              && (document.sourceUri == "" && document.title == "" ==> chunks[0].text == document.documentId)
            else
              |chunks| == |groups|
              && forall g :: 0 <= g < |groups| ==>
                   && chunks[g] == Chunk(document.documentId, document.documentId + ":" + Decimal(g), g,
                                         ChunkTexts(sections, maxChars)[g], document.dataType,
                                         document.contentHash, chunkerVersion, PageRange(groups[g]))
    ensures |chunks| == |ProducedTexts(document, sections, maxChars)|
    ensures forall g :: 0 <= g < |chunks| ==> chunks[g].text == ProducedTexts(document, sections, maxChars)[g]
  {
    var units := SectionUnits(sections, maxChars);
    var packed := PackUnits(units, maxChars);
    UnitsLemma(sections, maxChars);
    assert AllTextsNonEmpty(units) by {
      assert forall i :: 0 <= i < |units| ==> Texts(units)[i] == units[i].text;
    }
    if packed != [] {
      chunks := seq(|packed|, g requires 0 <= g < |packed| =>
        Chunk(document.documentId, document.documentId + ":" + Decimal(g), g, GroupText(packed[g]),
              document.dataType, document.contentHash, chunkerVersion, PageRange(packed[g])));
    } else {
      chunks := [Chunk(document.documentId, document.documentId + ":0", 0, Fallback(document),
                       document.dataType, document.contentHash, chunkerVersion, None)];
    }
  }

  function GroupTexts(groups: seq<seq<Unit>>): seq<string> {
    if groups == [] then [] else [GroupText(groups[0])] + GroupTexts(groups[1..])
  }

  lemma {:induction false} GroupTextsAre(groups: seq<seq<Unit>>)
    ensures GroupTexts(groups) == seq(|groups|, g requires 0 <= g < |groups| => GroupText(groups[g]))
  {
    if groups != [] {
      GroupTextsAre(groups[1..]);
    }
  }

  lemma {:induction false} GroupedInk(groups: seq<seq<Unit>>)
    ensures Ink(Concat(GroupTexts(groups))) == Ink(Concat(Texts(Flatten(groups))))
  {
    if groups != [] {
      var first, rest := Texts(groups[0]), Texts(Flatten(groups[1..]));
      GroupedInk(groups[1..]);
      InkConcat(GroupText(groups[0]), Concat(GroupTexts(groups[1..])));
      assert Ink(PARAGRAPH_BREAK) == "" by { assert PARAGRAPH_BREAK[1..] == "\n"; }
      JoinKeepsInk(PARAGRAPH_BREAK, first);
      TextsAppend(groups[0], Flatten(groups[1..]));
      InkOfAppend(first, rest);
    }
  }

  /** Chunking conserves content within bounds: every chunk text is nonempty and at most
      `maxChars` long, and the chunks hold exactly the visible characters of the sections, in
      order. */
  lemma ChunkingConservesContent(sections: seq<Section>, maxChars: int)
    requires maxChars >= 1
    ensures forall c :: 0 <= c < |ChunkTexts(sections, maxChars)| ==> 0 < |ChunkTexts(sections, maxChars)[c]| <= maxChars
    ensures Ink(Concat(ChunkTexts(sections, maxChars))) == Ink(Concat(SectionTexts(sections)))
  {
    var units := UnitsOf(sections, maxChars);
    var groups := Greedy(units, maxChars);
    UnitsLemma(sections, maxChars);
    GreedyLemma(units, maxChars);
    GroupedInk(groups);
    GroupTextsAre(groups);
    assert ChunkTexts(sections, maxChars) == GroupTexts(groups);
    forall c | 0 <= c < |groups|
      ensures 0 < |GroupText(groups[c])| <= maxChars
    {
      WidthIsJoinedLength(groups[c]);
      GroupsAreParagraphs(units, groups, c);
      JoinIsNormal(Texts(groups[c]));
    }
  }

  /** The fallback chunk is used exactly when no section has a visible character. */
  lemma FallbackIffNoInk(sections: seq<Section>, maxChars: int)
    requires maxChars >= 1
    ensures ChunkTexts(sections, maxChars) == [] <==> Ink(Concat(SectionTexts(sections))) == ""
  {
    ChunkingConservesContent(sections, maxChars);
    var units := UnitsOf(sections, maxChars);
    UnitsLemma(sections, maxChars);
    if units != [] {
      var text := Texts(units)[0];
      InkConcat(text, Concat(Texts(units)[1..]));
    }
  }

  lemma {:induction false} FlattenContains<T>(groups: seq<seq<T>>, g: nat, i: nat)
    requires g < |groups| && i < |groups[g]|
    ensures groups[g][i] in Flatten(groups)
  {
    if g > 0 {
      FlattenContains(groups[1..], g - 1, i);
    }
  }

  lemma GroupsAreParagraphs(units: seq<Unit>, groups: seq<seq<Unit>>, g: nat)
    requires Flatten(groups) == units && AllParagraphs(Texts(units)) && g < |groups|
    ensures AllParagraphs(Texts(groups[g]))
  {
    forall i | 0 <= i < |groups[g]|
      ensures IsParagraph(Texts(groups[g])[i])
    {
      FlattenContains(groups, g, i);
      var k :| 0 <= k < |units| && units[k] == groups[g][i];
      assert IsParagraph(Texts(units)[k]);
    }
  }

  /** The texts that are joins of their own paragraphs, within the limit. */
  predicate Rechunkable(text: string, maxChars: int) {
    text != "" && |text| <= maxChars && Join(PARAGRAPH_BREAK, SplitParagraphs(text)) == text
  }

  lemma UnitsOfOneSection(section: Section, maxChars: int)
    requires maxChars >= 1
    ensures Texts(UnitsOf([section], maxChars)) == Pieces(section.text, maxChars)
  {
    assert [section][..0] == [] && UnitsOf([], maxChars) == [];
    UnitTextsAppend([section], maxChars);
    assert Texts([]) + Pieces(section.text, maxChars) == Pieces(section.text, maxChars);
  }

  /** Units whose joined text fits make one group. */
  lemma OneGroup(units: seq<Unit>, maxChars: int)
    requires units != [] && |GroupText(units)| <= maxChars
    ensures Greedy(units, maxChars) == [units]
  {
    WidthIsJoinedLength(units);
    FirstGroupIs(units, [], maxChars);
    assert units + [] == units;
  }

  lemma ChunkOfJoin(section: Section, parts: seq<string>, maxChars: int)
    requires parts != [] && AllParagraphs(parts) && maxChars >= 1
    requires section.text == Join(PARAGRAPH_BREAK, parts) && |section.text| <= maxChars
    ensures ChunkTexts([section], maxChars) == [section.text]
  {
    var units := UnitsOf([section], maxChars);
    PartsWithinJoin(parts);
    PiecesOfJoin(parts, maxChars);
    UnitsOfOneSection(section, maxChars);
    OneGroup(units, maxChars);
  }

  lemma RechunkableStays(section: Section, maxChars: int)
    requires maxChars >= 1 && Rechunkable(section.text, maxChars)
    ensures ChunkTexts([section], maxChars) == [section.text]
  {
    var parts := SplitParagraphs(section.text);
    SplitParagraphsLemma(section.text);
    assert parts == [] ==> section.text == Join(PARAGRAPH_BREAK, []);
    ChunkOfJoin(section, parts, maxChars);
  }

  lemma {:induction false} StaysIsRechunkable(section: Section, maxChars: int)
    requires maxChars >= 1 && ChunkTexts([section], maxChars) == [section.text]
    ensures Rechunkable(section.text, maxChars)
  {
    var units := UnitsOf([section], maxChars);
    var parts := Texts(units);
    ChunkingConservesContent([section], maxChars);
    assert ChunkTexts([section], maxChars)[0] == section.text;
    GreedyLemma(units, maxChars);
    FlattenOne(Greedy(units, maxChars));
    UnitsAreParagraphs([section], maxChars);
    SplitOfJoin(parts);
  }

  lemma FlattenOne<T>(groups: seq<seq<T>>)
    requires |groups| == 1
    ensures Flatten(groups) == groups[0]
  {
    assert groups[1..] == [] && groups[0] + [] == groups[0];
  }

  /** A section is chunked into one chunk with its own text if and only if its text is the join of its
      own paragraphs, nonempty and within the limit. */
  lemma {:induction false} RechunkingIff(section: Section, maxChars: int)
    requires maxChars >= 1
    ensures ChunkTexts([section], maxChars) == [section.text] <==> Rechunkable(section.text, maxChars)
  {
    if Rechunkable(section.text, maxChars) {
      RechunkableStays(section, maxChars);
    } else if ChunkTexts([section], maxChars) == [section.text] {
      StaysIsRechunkable(section, maxChars);
    }
  }

  lemma {:induction false} ChunksAreRechunkable(sections: seq<Section>, maxChars: int, c: nat)
    requires maxChars >= 1 && c < |ChunkTexts(sections, maxChars)|
    ensures Rechunkable(ChunkTexts(sections, maxChars)[c], maxChars)
  {
    var units := UnitsOf(sections, maxChars);
    var groups := Greedy(units, maxChars);
    ChunkingConservesContent(sections, maxChars);
    UnitsAreParagraphs(sections, maxChars);
    GreedyLemma(units, maxChars);
    GroupsAreParagraphs(units, groups, c);
    SplitOfJoin(Texts(groups[c]));
  }

  /** The texts of all chunks of a document, the fallback chunk included. */
  function ProducedTexts(document: Document, sections: seq<Section>, maxChars: int): seq<string>
    requires maxChars >= 1
  {
    if ChunkTexts(sections, maxChars) == [] then [Fallback(document)] else ChunkTexts(sections, maxChars)
  }

  /** Re-chunking is a fixed point: a section that holds the text of a produced chunk is chunked into
      one chunk with that same text, if and only if the chunk is no fallback or the fallback text
      happens to be the join of its own paragraphs, nonempty and within the limit. */
  lemma {:induction false} RechunkingIsIdentity(document: Document, sections: seq<Section>, maxChars: int, c: nat, section: Section)
    requires maxChars >= 1 && c < |ProducedTexts(document, sections, maxChars)|
    requires section.text == ProducedTexts(document, sections, maxChars)[c]
    ensures ChunkTexts([section], maxChars) == [section.text]
       <==> ChunkTexts(sections, maxChars) != [] || Rechunkable(Fallback(document), maxChars)
  {
    RechunkingIff(section, maxChars);
    if ChunkTexts(sections, maxChars) != [] {
      ChunksAreRechunkable(sections, maxChars, c);
    }
  }

  /** A title with a double space is such a fallback: it comes back with a single one. */
  lemma FallbackIsNotAlwaysKept(document: Document, section: Section, maxChars: int)
    requires maxChars >= 1 && document.sourceUri == "" && document.title == "a  b"
    requires section.text == Fallback(document)
    ensures ProducedTexts(document, [], maxChars) == ["a  b"]
    ensures ChunkTexts([section], maxChars) != [section.text]
  {
    assert UnitsOf([], maxChars) == [] && ChunkTexts([], maxChars) == [];
    RechunkingIff(section, maxChars);
    if Rechunkable("a  b", maxChars) {
      SplitParagraphsLemma("a  b");
      JoinIsNormal(SplitParagraphs("a  b"));
    }
    assert "a  b"[1] == ' ' && "a  b"[2] == ' ';
  }

  lemma {:induction false} PartsWithinJoin(parts: seq<string>)
    ensures WithinLimit(parts, |Join(PARAGRAPH_BREAK, parts)|)
  {
    if |parts| > 1 {
      PartsWithinJoin(parts[1..]);
      forall i | 0 <= i < |parts|
        ensures |parts[i]| <= |Join(PARAGRAPH_BREAK, parts)|
      {
        assert i > 0 ==> parts[i] == parts[1..][i - 1];
      }
    }
  }

  // ---- page ranges ----

  predicate Paged(unit: Unit) {
    unit.startPage.Some? && unit.endPage.Some?
  }

  /** Smallest start page and largest end page of the paged units, if there are any. */
  function PageRange(group: seq<Unit>): Option<(int, int)> {
    if group == [] then None
    else
      var rest := PageRange(group[1..]);
      if !Paged(group[0]) then rest
      else
        var start, end := group[0].startPage.value, group[0].endPage.value;
        match rest
        case None => Some((start, end))
        case Some((s, e)) => Some((if start <= s then start else s, if end >= e then end else e))
  }

  lemma {:induction false} PageRangeIsTight(group: seq<Unit>)
    ensures PageRange(group).None? <==> forall i :: 0 <= i < |group| ==> !Paged(group[i])
    ensures PageRange(group).Some? ==>
              && (forall i :: 0 <= i < |group| && Paged(group[i]) ==>
                    PageRange(group).value.0 <= group[i].startPage.value
                    && group[i].endPage.value <= PageRange(group).value.1)
              && (exists i :: 0 <= i < |group| && Paged(group[i]) && group[i].startPage.value == PageRange(group).value.0)
              && (exists i :: 0 <= i < |group| && Paged(group[i]) && group[i].endPage.value == PageRange(group).value.1)
  {
    if group != [] {
      PageRangeIsTight(group[1..]);
      assert forall i :: 0 < i < |group| ==> group[i] == group[1..][i - 1];
      assert forall i :: 0 <= i < |group[1..]| ==> group[1..][i] == group[i + 1];
    }
  }

  ghost predicate NoLater(a: Unit, b: Unit) {
    Paged(a) && Paged(b) ==> a.startPage.value <= b.startPage.value && a.endPage.value <= b.endPage.value
  }

  ghost predicate UnitsAscend(units: seq<Unit>) {
    forall i, j :: 0 <= i < j < |units| ==> NoLater(units[i], units[j])
  }

  ghost predicate SectionsAscend(sections: seq<Section>) {
    forall i, j :: 0 <= i < j < |sections| ==> NoLater(UnitFor(sections[i], ""), UnitFor(sections[j], ""))
  }

  /** Unit `u` is made from a piece of some section. */
  lemma {:induction false} UnitsComeFromSections(sections: seq<Section>, maxChars: int, u: nat) returns (s: nat, piece: string)
    requires maxChars >= 1 && u < |UnitsOf(sections, maxChars)|
    ensures s < |sections| && UnitsOf(sections, maxChars)[u] == UnitFor(sections[s], piece)
  {
    var before, last := sections[..|sections| - 1], sections[|sections| - 1];
    var earlier, pieces := UnitsOf(before, maxChars), Pieces(last.text, maxChars);
    assert UnitsOf(sections, maxChars) == earlier + UnitsForPieces(last, pieces);
    if u < |earlier| {
      s, piece := UnitsComeFromSections(before, maxChars, u);
    } else {
      s, piece := |sections| - 1, pieces[u - |earlier|];
      UnitForPieceAt(earlier, last, pieces, u);
    }
  }

  lemma UnitForPieceAt(earlier: seq<Unit>, section: Section, pieces: seq<string>, u: nat)
    requires |earlier| <= u < |earlier| + |pieces|
    ensures (earlier + UnitsForPieces(section, pieces))[u] == UnitFor(section, pieces[u - |earlier|])
  {
  }

  lemma {:induction false} EarlierUnitIsNoLater(before: seq<Section>, last: Section, maxChars: int, u: nat, piece: string)
    requires maxChars >= 1 && SectionsAscend(before + [last]) && u < |UnitsOf(before, maxChars)|
    ensures NoLater(UnitsOf(before, maxChars)[u], UnitFor(last, piece))
  {
    var s, p := UnitsComeFromSections(before, maxChars, u);
    var all := before + [last];
    assert all[s] == before[s] && all[|before|] == last;
  }

  lemma {:induction false} EarlierUnitsAreNoLater(before: seq<Section>, last: Section, maxChars: int, pieces: seq<string>)
    requires maxChars >= 1 && SectionsAscend(before + [last])
    ensures forall i, j :: 0 <= i < |UnitsOf(before, maxChars)| && 0 <= j < |pieces| ==>
              NoLater(UnitsOf(before, maxChars)[i], UnitsForPieces(last, pieces)[j])
  {
    forall i, j | 0 <= i < |UnitsOf(before, maxChars)| && 0 <= j < |pieces|
      ensures NoLater(UnitsOf(before, maxChars)[i], UnitsForPieces(last, pieces)[j])
    {
      EarlierUnitIsNoLater(before, last, maxChars, i, pieces[j]);
      UnitForPieceAt([], last, pieces, j);
      assert [] + UnitsForPieces(last, pieces) == UnitsForPieces(last, pieces);
    }
  }

  lemma AscendAppend(a: seq<Unit>, b: seq<Unit>)
    requires UnitsAscend(a) && UnitsAscend(b)
    requires forall i, j :: 0 <= i < |a| && 0 <= j < |b| ==> NoLater(a[i], b[j])
    ensures UnitsAscend(a + b)
  {
  }

  lemma PiecesAscend(section: Section, pieces: seq<string>)
    ensures UnitsAscend(UnitsForPieces(section, pieces))
  {
  }

  lemma {:induction false} AscendingSectionsGiveAscendingUnits(sections: seq<Section>, maxChars: int)
    requires maxChars >= 1 && SectionsAscend(sections)
    ensures UnitsAscend(UnitsOf(sections, maxChars))
  {
    if sections != [] {
      var before, last := sections[..|sections| - 1], sections[|sections| - 1];
      var pieces := Pieces(last.text, maxChars);
      assert before + [last] == sections;
      AscendingSectionsGiveAscendingUnits(before, maxChars);
      EarlierUnitsAreNoLater(before, last, maxChars, pieces);
      PiecesAscend(last, pieces);
      AscendAppend(UnitsOf(before, maxChars), UnitsForPieces(last, pieces));
    }
  }

  lemma {:induction false} GroupsInherit(groups: seq<seq<Unit>>, g: nat, h: nat, i: nat, j: nat)
    requires UnitsAscend(Flatten(groups)) && g < h < |groups| && i < |groups[g]| && j < |groups[h]|
    ensures NoLater(groups[g][i], groups[h][j])
  {
    var rest := Flatten(groups[1..]);
    if g == 0 {
      FlattenContains(groups[1..], h - 1, j);
      var k :| 0 <= k < |rest| && rest[k] == groups[h][j];
      assert Flatten(groups)[i] == groups[0][i] && Flatten(groups)[|groups[0]| + k] == rest[k];
    } else {
      assert forall k :: 0 <= k < |rest| ==> rest[k] == Flatten(groups)[|groups[0]| + k];
      GroupsInherit(groups[1..], g - 1, h - 1, i, j);
    }
  }

  /** Section page ranges that never go back give chunk page ranges that never go back. */
  lemma {:induction false} ChunkPagesAscend(sections: seq<Section>, maxChars: int, g: nat, h: nat)
    requires maxChars >= 1 && SectionsAscend(sections)
    requires g < h < |Greedy(UnitsOf(sections, maxChars), maxChars)|
    ensures var earlier := PageRange(Greedy(UnitsOf(sections, maxChars), maxChars)[g]);
            var later := PageRange(Greedy(UnitsOf(sections, maxChars), maxChars)[h]);
            earlier.Some? && later.Some? ==> earlier.value.0 <= later.value.0 && earlier.value.1 <= later.value.1
  {
    var groups := Greedy(UnitsOf(sections, maxChars), maxChars);
    AscendingSectionsGiveAscendingUnits(sections, maxChars);
    GreedyLemma(UnitsOf(sections, maxChars), maxChars);
    PageRangeIsTight(groups[g]);
    PageRangeIsTight(groups[h]);
    if PageRange(groups[g]).Some? && PageRange(groups[h]).Some? {
      var i :| 0 <= i < |groups[g]| && Paged(groups[g][i]) && groups[g][i].endPage.value == PageRange(groups[g]).value.1;
      var j :| 0 <= j < |groups[h]| && Paged(groups[h][j]) && groups[h][j].startPage.value == PageRange(groups[h]).value.0;
      GroupsInherit(groups, g, h, i, j);
    }
  }
}
