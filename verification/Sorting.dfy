/** Python's stable `sorted(..., key=score, reverse=True)`. */
module Sorting {

  datatype Scored<+T> = Scored(item: T, score: real)

  /** Put `x` behind every element that scores at least as much. */
  function InsertLast<T>(s: seq<Scored<T>>, x: Scored<T>): seq<Scored<T>> {
    if s == [] || s[|s| - 1].score >= x.score then s + [x]
    else InsertLast(s[..|s| - 1], x) + [s[|s| - 1]]
  }

  function SortDescending<T>(s: seq<Scored<T>>): seq<Scored<T>> {
    if s == [] then [] else InsertLast(SortDescending(s[..|s| - 1]), s[|s| - 1])
  }

  ghost predicate Descending<T>(s: seq<Scored<T>>) {
    forall i, j :: 0 <= i < j < |s| ==> s[i].score >= s[j].score
  }

  lemma InsertedMember<T>(s: seq<T>, x: T, t: seq<T>, i: nat)
    requires multiset(t) == multiset(s) + multiset{x} && i < |t|
    ensures t[i] == x || t[i] in s
  {
    assert t[i] in multiset(t);
  }

  lemma DescendingAppend<T>(s: seq<Scored<T>>, x: Scored<T>)
    requires Descending(s) && forall i :: 0 <= i < |s| ==> s[i].score >= x.score
    ensures Descending(s + [x])
  {
  }

  lemma {:induction false} InsertLastLemma<T>(s: seq<Scored<T>>, x: Scored<T>)
    requires Descending(s)
    ensures Descending(InsertLast(s, x))
    ensures multiset(InsertLast(s, x)) == multiset(s) + multiset{x}
  {
    if s != [] && s[|s| - 1].score < x.score {
      var before, last := s[..|s| - 1], s[|s| - 1];
      InsertLastLemma(before, x);
      assert s == before + [last];
      var t := InsertLast(before, x);
      forall i | 0 <= i < |t|
        ensures t[i].score >= last.score
      {
        InsertedMember(before, x, t, i);
      }
      DescendingAppend(t, last);
    } else {
      DescendingAppend(s, x);
    }
  }

  /** The result is a permutation of the input with nonincreasing scores. */
  lemma {:induction false} SortDescendingLemma<T>(s: seq<Scored<T>>)
    ensures Descending(SortDescending(s))
    ensures multiset(SortDescending(s)) == multiset(s)
    ensures |SortDescending(s)| == |s|
  {
    if s != [] {
      SortDescendingLemma(s[..|s| - 1]);
      InsertLastLemma(SortDescending(s[..|s| - 1]), s[|s| - 1]);
      assert s == s[..|s| - 1] + [s[|s| - 1]];
    }
    assert |multiset(SortDescending(s))| == |multiset(s)|;
  }

  function Filter<T>(s: seq<Scored<T>>, keep: Scored<T> -> bool): seq<Scored<T>> {
    if s == [] then []
    else Filter(s[..|s| - 1], keep) + if keep(s[|s| - 1]) then [s[|s| - 1]] else []
  }

  lemma FilterSnoc<T>(s: seq<Scored<T>>, x: Scored<T>, keep: Scored<T> -> bool)
    ensures Filter(s + [x], keep) == Filter(s, keep) + if keep(x) then [x] else []
  {
    assert (s + [x])[..|s|] == s;
  }

  lemma {:induction false} FilterOfInsertLast<T>(s: seq<Scored<T>>, x: Scored<T>, keep: Scored<T> -> bool)
    requires keep(x) ==> forall i :: 0 <= i < |s| && keep(s[i]) ==> s[i].score >= x.score
    ensures Filter(InsertLast(s, x), keep) == Filter(s, keep) + if keep(x) then [x] else []
  {
    if s == [] || s[|s| - 1].score >= x.score {
      FilterSnoc(s, x, keep);
    } else {
      var before, last := s[..|s| - 1], s[|s| - 1];
      assert forall i :: 0 <= i < |before| ==> before[i] == s[i];
      FilterOfInsertLast(before, x, keep);
      FilterSnoc(InsertLast(before, x), last, keep);
      if keep(x) {
        assert Filter(s, keep) == Filter(before, keep);
      } else {
        assert Filter(InsertLast(before, x), keep) == Filter(before, keep);
      }
    }
  }

  lemma {:induction false} FilterMember<T>(s: seq<Scored<T>>, keep: Scored<T> -> bool, i: nat)
    requires i < |s| && keep(s[i])
    ensures s[i] in Filter(s, keep)
  {
    if i < |s| - 1 {
      FilterMember(s[..|s| - 1], keep, i);
    }
  }

  /** Sorting is stable: any part of the input that is already in descending order keeps its
      order, and so do, in particular, the elements of one score. */
  lemma {:induction false} SortKeepsDescendingParts<T>(s: seq<Scored<T>>, keep: Scored<T> -> bool)
    requires Descending(Filter(s, keep))
    ensures Filter(SortDescending(s), keep) == Filter(s, keep)
  {
    if s != [] {
      var before, x := s[..|s| - 1], s[|s| - 1];
      var sorted := SortDescending(before);
      var part := Filter(before, keep);
      assert part == Filter(s, keep)[..|part|];
      SortKeepsDescendingParts(before, keep);
      if keep(x) {
        forall i | 0 <= i < |sorted| && keep(sorted[i])
          ensures sorted[i].score >= x.score
        {
          FilterMember(sorted, keep, i);
          var j :| 0 <= j < |part| && part[j] == sorted[i];
          assert Filter(s, keep)[j] == part[j] && Filter(s, keep)[|part|] == x;
        }
      }
      FilterOfInsertLast(sorted, x, keep);
    }
  }

  /** `a` comes before `b`: it scores more, or as much and stood earlier. */
  ghost predicate Ahead<T>(a: Scored<T>, b: Scored<T>, position: T -> int) {
    a.score > b.score || (a.score == b.score && position(a.item) < position(b.item))
  }

  ghost predicate AheadInOrder<T>(s: seq<Scored<T>>, position: T -> int) {
    forall i, j :: 0 <= i < j < |s| ==> Ahead(s[i], s[j], position)
  }

  lemma {:induction false} InsertLastIsAhead<T>(s: seq<Scored<T>>, x: Scored<T>, position: T -> int)
    requires AheadInOrder(s, position)
    requires forall i :: 0 <= i < |s| ==> position(s[i].item) < position(x.item)
    ensures AheadInOrder(InsertLast(s, x), position)
    ensures multiset(InsertLast(s, x)) == multiset(s) + multiset{x}
  {
    if s != [] && s[|s| - 1].score < x.score {
      var before, last := s[..|s| - 1], s[|s| - 1];
      var t := InsertLast(before, x);
      InsertLastIsAhead(before, x, position);
      assert s == before + [last];
      forall i | 0 <= i < |t|
        ensures Ahead(t[i], last, position)
      {
        InsertedMember(before, x, t, i);
      }
    }
  }

  lemma PlacedBelow<T>(s: seq<Scored<T>>, t: seq<Scored<T>>, position: T -> int)
    requires multiset(s) == multiset(t) && forall i :: 0 <= i < |s| ==> position(s[i].item) == i
    ensures forall i :: 0 <= i < |t| ==> position(t[i].item) < |s|
  {
    forall i | 0 <= i < |t|
      ensures position(t[i].item) < |s|
    {
      assert t[i] in multiset(s);
    }
  }

  /** When `position` gives each element its place in the input, the result is in the strict
      order of score first and place second. */
  lemma {:induction false} SortIsAhead<T>(s: seq<Scored<T>>, position: T -> int)
    requires forall i :: 0 <= i < |s| ==> position(s[i].item) == i
    ensures AheadInOrder(SortDescending(s), position)
    ensures multiset(SortDescending(s)) == multiset(s)
  {
    if s != [] {
      var before, x := s[..|s| - 1], s[|s| - 1];
      var sorted := SortDescending(before);
      SortIsAhead(before, position);
      PlacedBelow(before, sorted, position);
      InsertLastIsAhead(sorted, x, position);
      assert s == before + [x];
    }
  }
}
