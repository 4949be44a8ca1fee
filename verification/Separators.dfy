/** Strings that are joined with a separator, and when the parts can be told apart again. */
module Separators {
  import opened Text

  predicate Free(s: string, separator: char) {
    forall i :: 0 <= i < |s| ==> s[i] != separator
  }

  predicate AllFree(parts: seq<string>, separator: char) {
    forall i :: 0 <= i < |parts| ==> Free(parts[i], separator)
  }

  function FirstIndex(s: string, separator: char): nat {
    if s == "" || s[0] == separator then 0 else 1 + FirstIndex(s[1..], separator)
  }

  function AfterLast(s: string, separator: char): nat {
    if s == "" || s[|s| - 1] == separator then |s| else AfterLast(s[..|s| - 1], separator)
  }

  lemma {:induction false} FirstIndexOf(a: string, r: string, separator: char)
    requires Free(a, separator)
    ensures FirstIndex(a + [separator] + r, separator) == |a|
  {
    if a != "" {
      assert (a + [separator] + r)[1..] == a[1..] + [separator] + r;
      FirstIndexOf(a[1..], r, separator);
    }
  }

  lemma {:induction false} AfterLastOf(r: string, a: string, separator: char)
    requires Free(a, separator)
    ensures AfterLast(r + [separator] + a, separator) == |r| + 1
  {
    if a != "" {
      var s := r + [separator] + a;
      assert s[..|s| - 1] == r + [separator] + a[..|a| - 1];
      AfterLastOf(r, a[..|a| - 1], separator);
    }
  }

  /** The first field is what comes before the first separator. */
  lemma FirstField(a: string, r: string, b: string, t: string, separator: char)
    requires Free(a, separator) && Free(b, separator)
    requires a + [separator] + r == b + [separator] + t
    ensures a == b && r == t
  {
    var s := a + [separator] + r;
    FirstIndexOf(a, r, separator);
    FirstIndexOf(b, t, separator);
    assert a == s[..|a|] && b == s[..|a|];
    assert r == s[|a| + 1..] && t == s[|a| + 1..];
  }

  /** The last field is what comes after the last separator. */
  lemma LastField(r: string, a: string, t: string, b: string, separator: char)
    requires Free(a, separator) && Free(b, separator)
    requires r + [separator] + a == t + [separator] + b
    ensures a == b && r == t
  {
    var s := r + [separator] + a;
    AfterLastOf(r, a, separator);
    AfterLastOf(t, b, separator);
    assert a == s[|r| + 1..] && b == s[|r| + 1..];
    assert r == s[..|r|] && t == s[..|r|];
  }

  lemma {:induction false} SingleIsShort(part: string, parts: seq<string>, separator: char)
    requires Free(part, separator) && |parts| > 1
    ensures part != Join([separator], parts)
  {
    var s := Join([separator], parts);
    assert s[|parts[0]|] == separator;
  }

  /** Nonempty lists of separator-free parts with the same join are the same. */
  lemma {:induction false} JoinInjective(parts: seq<string>, others: seq<string>, separator: char)
    requires parts != [] && others != [] && AllFree(parts, separator) && AllFree(others, separator)
    requires Join([separator], parts) == Join([separator], others)
    ensures parts == others
  {
    if |parts| == 1 && |others| > 1 {
      SingleIsShort(parts[0], others, separator);
    } else if |others| == 1 && |parts| > 1 {
      SingleIsShort(others[0], parts, separator);
    } else if |parts| > 1 {
      var rest, otherRest := Join([separator], parts[1..]), Join([separator], others[1..]);
      FirstField(parts[0], rest, others[0], otherRest, separator);
      JoinInjective(parts[1..], others[1..], separator);
      assert parts == [parts[0]] + parts[1..] && others == [others[0]] + others[1..];
    } else {
      assert parts == [parts[0]] && others == [others[0]];
    }
  }

  // ---- one part may hold the separator, but no two ----

  lemma {:induction false} JoinSnoc(parts: seq<string>, last: string, separator: char)
    requires parts != []
    ensures Join([separator], parts + [last]) == Join([separator], parts) + [separator] + last
  {
    assert (parts + [last])[1..] == parts[1..] + [last];
    if |parts| > 1 {
      JoinSnoc(parts[1..], last, separator);
    } else {
      assert parts == [parts[0]] && parts[1..] + [last] == [last];
    }
  }

  lemma {:induction false} LastPart(parts: seq<string>, separator: char)
    requires |parts| > 1
    ensures Join([separator], parts) == Join([separator], parts[..|parts| - 1]) + [separator] + parts[|parts| - 1]
  {
    var front, last := parts[..|parts| - 1], parts[|parts| - 1];
    assert front + [last] == parts;
    JoinSnoc(front, last, separator);
  }

  predicate FreeBut(parts: seq<string>, loose: nat, separator: char) {
    forall i :: 0 <= i < |parts| && i != loose ==> Free(parts[i], separator)
  }

  /** Lists of equal length that are joined alike are the same, even if one place may hold the
      separator. */
  lemma {:induction false} JoinInjectiveBut(parts: seq<string>, others: seq<string>, loose: nat, separator: char)
    requires loose < |parts| == |others| && FreeBut(parts, loose, separator) && FreeBut(others, loose, separator)
    requires Join([separator], parts) == Join([separator], others)
    ensures parts == others
    decreases |parts|
  {
    var last := |parts| - 1;
    if |parts| == 1 {
      assert parts == [parts[0]] && others == [others[0]];
    } else if loose > 0 {
      FirstField(parts[0], Join([separator], parts[1..]), others[0], Join([separator], others[1..]), separator);
      JoinInjectiveBut(parts[1..], others[1..], loose - 1, separator);
      assert parts == [parts[0]] + parts[1..] && others == [others[0]] + others[1..];
    } else {
      LastPart(parts, separator);
      LastPart(others, separator);
      LastField(Join([separator], parts[..last]), parts[last], Join([separator], others[..last]), others[last], separator);
      JoinInjectiveBut(parts[..last], others[..last], loose, separator);
      assert parts == parts[..last] + [parts[last]] && others == others[..last] + [others[last]];
    }
  }

  /** Each part followed by the separator. */
  function Terminated(parts: seq<string>, separator: char): string {
    if parts == [] then "" else parts[0] + [separator] + Terminated(parts[1..], separator)
  }

  lemma {:induction false} JoinWithFront(front: seq<string>, parts: seq<string>, separator: char)
    requires parts != []
    ensures Join([separator], front + parts) == Terminated(front, separator) + Join([separator], parts)
  {
    if front == [] {
      assert front + parts == parts;
    } else {
      assert (front + parts)[1..] == front[1..] + parts;
      JoinWithFront(front[1..], parts, separator);
    }
  }

  /** For any two places of a list, whatever stands elsewhere, there are different values whose
      joins are equal: the text between the places can be moved across. */
  lemma PairCollides(front: seq<string>, x: string, middle: seq<string>, y: string, back: seq<string>, separator: char)
    ensures var m := Terminated(middle, separator);
            Join([separator], front + [x] + middle + ["w" + [separator] + m + y] + back)
            == Join([separator], front + [x + [separator] + m + "w"] + middle + [y] + back)
  {
    var m := Terminated(middle, separator);
    var a, b := ["w" + [separator] + m + y] + back, [y] + back;
    JoinSplit(front, x, middle, "w" + [separator] + m + y, back, separator);
    JoinSplit(front, x + [separator] + m + "w", middle, y, back, separator);
    if back == [] {
      assert Join([separator], a) == ("w" + [separator] + m) + Join([separator], b);
    } else {
      assert a[1..] == back && b[1..] == back;
      assert Join([separator], a) == ("w" + [separator] + m) + Join([separator], b);
    }
    var tail := Join([separator], b);
    assert x + [separator] + m + (("w" + [separator] + m) + tail) == (x + [separator] + m + "w") + [separator] + m + tail;
  }

  lemma JoinSplit(front: seq<string>, x: string, middle: seq<string>, y: string, back: seq<string>, separator: char)
    ensures Join([separator], front + [x] + middle + [y] + back)
         == Terminated(front, separator) + (x + [separator] + Terminated(middle, separator) + Join([separator], [y] + back))
  {
    var tail := [y] + back;
    PartsRegrouped(front, x, middle, y, back);
    JoinWithFront(front, [x] + (middle + tail), separator);
    FirstOfMany(x, middle + tail, separator);
    JoinWithFront(middle, tail, separator);
    var m, j := Terminated(middle, separator), Join([separator], tail);
    assert x + [separator] + (m + j) == x + [separator] + m + j;
  }

  lemma PartsRegrouped<T>(front: seq<T>, x: T, middle: seq<T>, y: T, back: seq<T>)
    ensures front + [x] + middle + [y] + back == front + ([x] + (middle + ([y] + back)))
  {
  }

  lemma FirstOfMany(x: string, rest: seq<string>, separator: char)
    requires rest != []
    ensures Join([separator], [x] + rest) == x + [separator] + Join([separator], rest)
  {
    assert ([x] + rest)[1..] == rest;
  }

  // ---- a free text between two fields ----

  /** `a` and `b` are the same, or one of them followed by the separator begins the other. */
  predicate PrefixClash(a: string, b: string, separator: char) {
    a == b || a + [separator] <= b || b + [separator] <= a
  }

  predicate EndsWith(s: string, end: string) {
    |end| <= |s| && s[|s| - |end|..] == end
  }

  /** `a` and `b` are the same, or one of them behind the separator ends the other. */
  predicate SuffixClash(a: string, b: string, separator: char) {
    a == b || EndsWith(b, [separator] + a) || EndsWith(a, [separator] + b)
  }

  /** A left field, any text, and a right field. */
  function Framed(left: string, text: string, right: string, separator: char): string {
    left + [separator] + text + [separator] + right
  }

  lemma Framing(left: string, text: string, right: string, separator: char)
    ensures Framed(left, text, right, separator) == left + [separator] + (text + [separator] + right)
  {
  }

  lemma FramedClash(a: string, q: string, k: string, b: string, r: string, l: string, separator: char)
    requires Framed(a, q, k, separator) == Framed(b, r, l, separator)
    ensures PrefixClash(a, b, separator) && SuffixClash(k, l, separator)
  {
    Framing(a, q, k, separator);
    Framing(b, r, l, separator);
    LeftClash(a, q + [separator] + k, b, r + [separator] + l, separator);
    RightClash(a + [separator] + q, k, b + [separator] + r, l, separator);
  }

  lemma LeftClash(a: string, s: string, b: string, t: string, separator: char)
    requires a + [separator] + s == b + [separator] + t
    ensures PrefixClash(a, b, separator)
  {
    var whole := a + [separator] + s;
    assert whole[..|a|] == a && whole[..|b|] == b;
    assert whole[..|a| + 1] == a + [separator] && whole[..|b| + 1] == b + [separator];
    if |a| < |b| {
      assert b[..|a| + 1] == whole[..|b|][..|a| + 1] == whole[..|a| + 1];
    } else if |b| < |a| {
      assert a[..|b| + 1] == whole[..|a|][..|b| + 1] == whole[..|b| + 1];
    }
  }

  lemma RightClash(s: string, a: string, t: string, b: string, separator: char)
    requires s + [separator] + a == t + [separator] + b
    ensures SuffixClash(a, b, separator)
  {
    var whole := s + [separator] + a;
    var i, j := |s| + 1, |t| + 1;
    assert whole[i..] == a && whole[j..] == b;
    assert whole[i - 1..] == [separator] + a && whole[j - 1..] == [separator] + b;
    if i < j {
      assert a[|a| - (|b| + 1)..] == whole[i..][j - 1 - i..] == whole[j - 1..];
    } else if j < i {
      assert b[|b| - (|a| + 1)..] == whole[j..][i - 1 - j..] == whole[i - 1..];
    }
  }

  /** What has to follow `a` and the separator to reach the end of `b` and the separator. */
  function LeftGap(a: string, b: string, separator: char): string {
    if a + [separator] <= b then b[|a| + 1..] + [separator] else ""
  }

  lemma LeftGaps(a: string, b: string, separator: char)
    requires PrefixClash(a, b, separator)
    ensures a + [separator] + LeftGap(a, b, separator) == b + [separator] + LeftGap(b, a, separator)
  {
    if a + [separator] <= b {
      assert a + [separator] + b[|a| + 1..] == b;
      assert a + [separator] + (b[|a| + 1..] + [separator]) == b + [separator] + "";
    } else if b + [separator] <= a {
      assert b + [separator] + a[|b| + 1..] == a;
      assert b + [separator] + (a[|b| + 1..] + [separator]) == a + [separator] + "";
    }
  }

  function RightGap(a: string, b: string, separator: char): string {
    if EndsWith(b, [separator] + a) then [separator] + b[..|b| - |a| - 1] else ""
  }

  lemma Regroup(left: string, g: string, text: string, x: string, right: string)
    ensures left + (g + text + x) + right == (left + g) + text + (x + right)
  {
  }

  /** Two pairs of fields can frame the same text exactly when both the left fields and the right
      fields clash: for any `text` there are texts containing it that make the frames equal. */
  lemma ClashFrames(a: string, k: string, b: string, l: string, text: string, separator: char) returns (q: string, r: string)
    requires PrefixClash(a, b, separator) && SuffixClash(k, l, separator)
    ensures Framed(a, q, k, separator) == Framed(b, r, l, separator)
    ensures q == LeftGap(a, b, separator) + text + RightGap(k, l, separator)
    ensures r == LeftGap(b, a, separator) + text + RightGap(l, k, separator)
  {
    var g, h, x, y := LeftGap(a, b, separator), LeftGap(b, a, separator), RightGap(k, l, separator), RightGap(l, k, separator);
    q, r := g + text + x, h + text + y;
    LeftGaps(a, b, separator);
    Regroup(a + [separator], g, text, x, [separator] + k);
    Regroup(b + [separator], h, text, y, [separator] + l);
    assert Framed(a, q, k, separator) == (a + [separator]) + (g + text + x) + ([separator] + k);
    assert Framed(b, r, l, separator) == (b + [separator]) + (h + text + y) + ([separator] + l);
  }
}
