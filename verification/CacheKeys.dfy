/** Search cache keys, and when two searches share one. */
module CacheKeys {
  import opened Retrieval
  import opened Separators
  import opened QdrantFilters
  import Text

  // ---- sorting strings ----

  /** The order of strings by code points. */
  predicate StringLeq(a: string, b: string) {
    a == "" || (b != "" && (a[0] < b[0] || (a[0] == b[0] && StringLeq(a[1..], b[1..]))))
  }

  lemma {:induction false} StringLeqTotal(a: string, b: string)
    ensures StringLeq(a, b) || StringLeq(b, a)
    ensures StringLeq(a, b) && StringLeq(b, a) ==> a == b
  {
    if a != "" && b != "" && a[0] == b[0] {
      StringLeqTotal(a[1..], b[1..]);
      assert a == [a[0]] + a[1..] && b == [b[0]] + b[1..];
    }
  }

  lemma {:induction false} StringLeqTransitive(a: string, b: string, c: string)
    requires StringLeq(a, b) && StringLeq(b, c)
    ensures StringLeq(a, c)
  {
    if a != "" && a[0] == b[0] == c[0] {
      StringLeqTransitive(a[1..], b[1..], c[1..]);
    }
  }

  function InsertString(s: seq<string>, x: string): seq<string> {
    if s == [] || StringLeq(s[|s| - 1], x) then s + [x] else InsertString(s[..|s| - 1], x) + [s[|s| - 1]]
  }

  /** `sorted(strings)` */
  function SortStrings(s: seq<string>): seq<string> {
    if s == [] then [] else InsertString(SortStrings(s[..|s| - 1]), s[|s| - 1])
  }

  ghost predicate Ascending(s: seq<string>) {
    forall i, j :: 0 <= i < j < |s| ==> StringLeq(s[i], s[j])
  }

  lemma {:induction false} InsertStringMembers(s: seq<string>, x: string)
    ensures multiset(InsertString(s, x)) == multiset(s) + multiset{x}
  {
    if s != [] && !StringLeq(s[|s| - 1], x) {
      InsertStringMembers(s[..|s| - 1], x);
      assert s == s[..|s| - 1] + [s[|s| - 1]];
    }
  }

  lemma {:induction false} InsertStringAscends(s: seq<string>, x: string)
    requires Ascending(s)
    ensures Ascending(InsertString(s, x))
  {
    if s == [] || StringLeq(s[|s| - 1], x) {
      forall y | y in multiset(s)
        ensures StringLeq(y, x)
      {
        LastIsGreatest(s, y);
        StringLeqTransitive(y, s[|s| - 1], x);
      }
    } else {
      var before, last := s[..|s| - 1], s[|s| - 1];
      InsertStringAscends(before, x);
      InsertStringMembers(before, x);
      StringLeqTotal(x, last);
      assert s == before + [last];
      forall y | y in multiset(before) + multiset{x}
        ensures StringLeq(y, last)
      {
        if y != x {
          LastIsGreatest(s, y);
        }
      }
    }
  }

  lemma {:induction false} SortStringsLemma(s: seq<string>)
    ensures Ascending(SortStrings(s))
    ensures multiset(SortStrings(s)) == multiset(s)
  {
    if s != [] {
      SortStringsLemma(s[..|s| - 1]);
      InsertStringAscends(SortStrings(s[..|s| - 1]), s[|s| - 1]);
      InsertStringMembers(SortStrings(s[..|s| - 1]), s[|s| - 1]);
      assert s == s[..|s| - 1] + [s[|s| - 1]];
    }
  }

  /** A multiset has only one ascending order. */
  lemma {:induction false} AscendingUnique(s: seq<string>, t: seq<string>)
    requires Ascending(s) && Ascending(t) && multiset(s) == multiset(t)
    ensures s == t
  {
    SameLength(s, t);
    if s != [] {
      var x, y := s[|s| - 1], t[|t| - 1];
      assert x in multiset(t) && y in multiset(s);
      LastIsGreatest(s, y);
      LastIsGreatest(t, x);
      StringLeqTotal(x, y);
      DropEqualLast(s, t);
      AscendingUnique(s[..|s| - 1], t[..|t| - 1]);
      assert s == s[..|s| - 1] + [x] && t == t[..|t| - 1] + [y];
    }
  }

  lemma SameLength<T>(s: seq<T>, t: seq<T>)
    requires multiset(s) == multiset(t)
    ensures |s| == |t|
  {
    assert |multiset(s)| == |s| && |multiset(t)| == |t|;
  }

  lemma DropEqualLast<T>(s: seq<T>, t: seq<T>)
    requires s != [] && t != [] && multiset(s) == multiset(t) && s[|s| - 1] == t[|t| - 1]
    ensures multiset(s[..|s| - 1]) == multiset(t[..|t| - 1])
  {
    assert s == s[..|s| - 1] + [s[|s| - 1]] && t == t[..|t| - 1] + [t[|t| - 1]];
    assert multiset(s[..|s| - 1]) == multiset(s) - multiset{s[|s| - 1]};
  }

  lemma LastIsGreatest(s: seq<string>, x: string)
    requires Ascending(s) && s != [] && x in multiset(s)
    ensures StringLeq(x, s[|s| - 1])
  {
    StringLeqTotal(x, x);
    var i :| 0 <= i < |s| && s[i] == x;
  }

  // ---- the key of a search ----

  datatype SearchRequest = SearchRequest(
    projectId: string, userId: string, query: string, kbIds: seq<string>, includeShared: bool)

  /** What is searched for, and in which version of the project's collection. */
  datatype Plan = Plan(request: SearchRequest, version: string)

  function KbPart(r: SearchRequest): string {
    Text.Join(",", SortStrings(r.kbIds))
  }

  function SharedPart(r: SearchRequest): string {
    if r.includeShared then "True" else "False"
  }

  /** `_make_search_cache_key`. The joined components stand for their SHA-256 digest, which is taken
      to be free of collisions; so does `fingerprint` for the retrieval settings. */
  function SearchKey(plan: Plan, fingerprint: string): string {
    var r := plan.request;
    Text.Join("|", [r.projectId, r.userId, r.query, KbPart(r), SharedPart(r), plan.version, fingerprint])
  }

  /** The same ids up to order; no id at all and one empty id count as the same. */
  predicate SameKbIds(a: seq<string>, b: seq<string>) {
    multiset(a) == multiset(b) || (a in [[], [""]] && b in [[], [""]])
  }

  lemma {:induction false} JoinFree(parts: seq<string>, glue: char, separator: char)
    requires AllFree(parts, separator) && glue != separator
    ensures Free(Text.Join([glue], parts), separator)
  {
    if |parts| > 1 {
      JoinFree(parts[1..], glue, separator);
    }
  }

  lemma SortedFree(ids: seq<string>, separator: char)
    requires AllFree(ids, separator)
    ensures AllFree(SortStrings(ids), separator)
  {
    SortStringsLemma(ids);
    forall i | 0 <= i < |SortStrings(ids)|
      ensures Free(SortStrings(ids)[i], separator)
    {
      assert SortStrings(ids)[i] in multiset(ids);
    }
  }

  lemma JoinedKbIds(a: seq<string>, b: seq<string>)
    requires AllFree(a, ',') && AllFree(b, ',')
    ensures Text.Join(",", SortStrings(a)) == Text.Join(",", SortStrings(b)) <==> SameKbIds(a, b)
  {
    SortOfTrivial(a);
    SortOfTrivial(b);
    EmptyJoin(SortStrings(a));
    EmptyJoin(SortStrings(b));
    if Text.Join(",", SortStrings(a)) == Text.Join(",", SortStrings(b)) && SortStrings(a) != [] && SortStrings(b) != [] {
      SameJoin(a, b);
    }
    if multiset(a) == multiset(b) {
      SameSorted(a, b);
    }
  }

  lemma SameSorted(a: seq<string>, b: seq<string>)
    requires multiset(a) == multiset(b)
    ensures SortStrings(a) == SortStrings(b)
  {
    SortStringsLemma(a);
    SortStringsLemma(b);
    AscendingUnique(SortStrings(a), SortStrings(b));
  }

  lemma SameJoin(a: seq<string>, b: seq<string>)
    requires AllFree(a, ',') && AllFree(b, ',') && SortStrings(a) != [] && SortStrings(b) != []
    requires Text.Join(",", SortStrings(a)) == Text.Join(",", SortStrings(b))
    ensures multiset(a) == multiset(b)
  {
    SortedFree(a, ',');
    SortedFree(b, ',');
    JoinInjective(SortStrings(a), SortStrings(b), ',');
    SortStringsLemma(a);
    SortStringsLemma(b);
  }

  lemma SortOfTrivial(ids: seq<string>)
    ensures SortStrings(ids) == [] <==> ids == []
    ensures SortStrings(ids) == [""] <==> ids == [""]
  {
    SortStringsLemma(ids);
    assert |multiset(SortStrings(ids))| == |SortStrings(ids)| && |multiset(ids)| == |ids|;
    if SortStrings(ids) == [""] {
      assert ids[0] in multiset(SortStrings(ids));
    }
    if ids == [""] {
      assert SortStrings(ids)[0] in multiset(ids);
    }
  }

  lemma EmptyJoin(parts: seq<string>)
    ensures Text.Join(",", parts) == "" <==> parts in [[], [""]]
  {
    if |parts| > 1 {
      assert |Text.Join(",", parts)| >= 1;
    } else if |parts| == 1 {
      assert parts == [parts[0]];
    }
  }

  /** What stands behind the query in a key, but for the fingerprint. */
  function Tail(plan: Plan): string {
    KbPart(plan.request) + "|" + SharedPart(plan.request) + "|" + plan.version
  }

  lemma KeyIsFramed(plan: Plan, fingerprint: string)
    ensures SearchKey(plan, fingerprint)
         == plan.request.projectId + "|" + Framed(plan.request.userId, plan.request.query, Tail(plan), '|')
            + "|" + fingerprint
  {
    var r := plan.request;
    var s, v := SharedPart(r), plan.version;
    var tail := [KbPart(r), s, v, fingerprint];
    var p := [r.projectId, r.userId, r.query] + tail;
    assert p == [r.projectId, r.userId, r.query, KbPart(r), s, v, fingerprint];
    assert p[1..] == [r.userId, r.query] + tail && p[1..][1..] == [r.query] + tail && p[1..][1..][1..] == tail;
    assert tail[1..] == [s, v, fingerprint] && [s, v, fingerprint][1..] == [v, fingerprint];
    assert [v, fingerprint][1..] == [fingerprint];
    assert Text.Join("|", [v, fingerprint]) == v + "|" + fingerprint;
    assert Text.Join("|", [s, v, fingerprint]) == s + "|" + (v + "|" + fingerprint);
    assert Text.Join("|", tail) == KbPart(r) + "|" + (s + "|" + (v + "|" + fingerprint));
    TailAndFingerprint(KbPart(r), s, v, fingerprint);
    assert Text.Join("|", [r.query] + tail) == r.query + "|" + Text.Join("|", tail);
    assert Text.Join("|", [r.userId, r.query] + tail) == r.userId + "|" + Text.Join("|", [r.query] + tail);
    assert Text.Join("|", p) == r.projectId + "|" + Text.Join("|", p[1..]);
    Regrouped(r.projectId, r.userId, r.query, Tail(plan), fingerprint);
  }

  lemma TailAndFingerprint(k: string, s: string, v: string, f: string)
    ensures k + "|" + (s + "|" + (v + "|" + f)) == (k + "|" + s + "|" + v) + "|" + f
  {
  }

  lemma Regrouped(p: string, u: string, q: string, tail: string, f: string)
    ensures p + "|" + (u + "|" + (q + "|" + (tail + "|" + f))) == p + "|" + Framed(u, q, tail, '|') + "|" + f
  {
    assert u + "|" + (q + "|" + (tail + "|" + f)) == Framed(u, q, tail, '|') + ("|" + f);
  }

  /** Within a project keys are equal exactly when the settings are and user, query and tail make the
      same text. The fingerprint is a hexadecimal digest and holds no separator. */
  lemma SameProjectKeys(plan: Plan, fingerprint: string, other: Plan, otherFingerprint: string)
    requires plan.request.projectId == other.request.projectId
    requires Free(fingerprint, '|') && Free(otherFingerprint, '|')
    ensures SearchKey(plan, fingerprint) == SearchKey(other, otherFingerprint)
       <==> && fingerprint == otherFingerprint
            && Framed(plan.request.userId, plan.request.query, Tail(plan), '|')
               == Framed(other.request.userId, other.request.query, Tail(other), '|')
  {
    var x := Framed(plan.request.userId, plan.request.query, Tail(plan), '|');
    var y := Framed(other.request.userId, other.request.query, Tail(other), '|');
    var start := plan.request.projectId + "|";
    KeyIsFramed(plan, fingerprint);
    KeyIsFramed(other, otherFingerprint);
    if SearchKey(plan, fingerprint) == SearchKey(other, otherFingerprint) {
      LastField(start + x, fingerprint, start + y, otherFingerprint, '|');
      assert x == (start + x)[|start|..] && y == (start + y)[|start|..];
    }
  }

  // ---- equal keys, equal meaning ----

  function FilterOf(r: SearchRequest): RetrievalFilter {
    FromScope(r.projectId, r.userId, r.kbIds, r.includeShared)
  }

  /** A search sees the payloads of its project, of its user and, if it includes them, of shared ones, and of
      the knowledge bases it names. */
  lemma FilterOfMeaning(r: SearchRequest, fields: map<string, Value>)
    ensures InScope(FilterOf(r), fields)
       <==> && HasWord(fields, "project_id", r.projectId)
            && (HasWord(fields, "user_id", r.userId) || (r.includeShared && HasWord(fields, "user_id", "__shared__")))
            && ((exists i :: 0 <= i < |r.kbIds| && Text.Strip(r.kbIds[i]) != "") ==>
                  exists i :: 0 <= i < |r.kbIds| && Text.Strip(r.kbIds[i]) != "" && HasWord(fields, "kb_id", Text.Strip(r.kbIds[i])))
  {
    FromScopeMeaning(r.projectId, r.userId, r.kbIds, r.includeShared, fields);
  }

  predicate SameMembers(a: seq<string>, b: seq<string>) {
    (forall i :: 0 <= i < |a| ==> a[i] in b) && (forall i :: 0 <= i < |b| ==> b[i] in a)
  }

  /** The same project, allowed users and knowledge bases. */
  predicate SameScope(r: SearchRequest, s: SearchRequest) {
    && r.projectId == s.projectId
    && SameMembers(AllowedUserIds(FilterOf(r)), AllowedUserIds(FilterOf(s)))
    && SameMembers(NormalizeIds(r.kbIds), NormalizeIds(s.kbIds))
  }

  function ScopeFields(r: SearchRequest, userId: string): map<string, Value> {
    map["project_id" := Words(r.projectId), "user_id" := Words(userId)]
  }

  lemma ScopesShareMembers(r: SearchRequest, s: SearchRequest)
    requires forall fields :: InScope(FilterOf(r), fields) ==> InScope(FilterOf(s), fields)
    ensures r.projectId == s.projectId
    ensures forall i :: 0 <= i < |AllowedUserIds(FilterOf(r))| ==> AllowedUserIds(FilterOf(r))[i] in AllowedUserIds(FilterOf(s))
    ensures NormalizeIds(r.kbIds) == [] ==> NormalizeIds(s.kbIds) == []
    ensures NormalizeIds(s.kbIds) != [] ==>
              forall i :: 0 <= i < |NormalizeIds(r.kbIds)| ==> NormalizeIds(r.kbIds)[i] in NormalizeIds(s.kbIds)
  {
    var users, ids := AllowedUserIds(FilterOf(r)), NormalizeIds(r.kbIds);
    forall i | 0 <= i < |users|
      ensures r.projectId == s.projectId && users[i] in AllowedUserIds(FilterOf(s))
    {
      var fields := ScopeFields(r, users[i]);
      if ids != [] {
        fields := fields["kb_id" := Words(ids[0])];
      }
      assert InScope(FilterOf(r), fields);
      assert InScope(FilterOf(s), fields);
    }
    assert users[0] == r.userId;
    if ids == [] {
      assert InScope(FilterOf(r), ScopeFields(r, r.userId));
      assert InScope(FilterOf(s), ScopeFields(r, r.userId));
    }
    forall i | 0 <= i < |ids| && NormalizeIds(s.kbIds) != []
      ensures ids[i] in NormalizeIds(s.kbIds)
    {
      var fields := ScopeFields(r, r.userId)["kb_id" := Words(ids[i])];
      assert InScope(FilterOf(r), fields);
      assert InScope(FilterOf(s), fields);
    }
  }

  lemma ScopeCovers(r: SearchRequest, s: SearchRequest, fields: map<string, Value>)
    requires SameScope(r, s) && InScope(FilterOf(r), fields)
    ensures InScope(FilterOf(s), fields)
  {
    var a, b := NormalizeIds(r.kbIds), NormalizeIds(s.kbIds);
    if b != [] {
      assert b[0] in a;
    }
  }

  /** Two searches admit the same payloads exactly when they have the same scope. */
  lemma SameScopeIff(r: SearchRequest, s: SearchRequest)
    ensures SameScope(r, s) <==> forall fields :: InScope(FilterOf(r), fields) <==> InScope(FilterOf(s), fields)
  {
    if forall fields :: InScope(FilterOf(r), fields) <==> InScope(FilterOf(s), fields) {
      ScopesShareMembers(r, s);
      ScopesShareMembers(s, r);
      assert SameScope(r, s);
    }
    if SameScope(r, s) {
      forall fields
        ensures InScope(FilterOf(r), fields) <==> InScope(FilterOf(s), fields)
      {
        if InScope(FilterOf(r), fields) {
          ScopeCovers(r, s, fields);
        }
        if InScope(FilterOf(s), fields) {
          ScopeCovers(s, r, fields);
        }
      }
    }
  }

  /** The same scope means the same user: the shared user aside, a search allows only its own. */
  lemma SameScopeSameUser(r: SearchRequest, s: SearchRequest)
    requires SameScope(r, s)
    ensures r.userId == s.userId
  {
    assert AllowedUserIds(FilterOf(r))[0] == r.userId && AllowedUserIds(FilterOf(s))[0] == s.userId;
  }

  /** The users and the tails of two searches are such that queries can make their keys equal. */
  predicate Clash(plan: Plan, other: Plan) {
    PrefixClash(plan.request.userId, other.request.userId, '|') && SuffixClash(Tail(plan), Tail(other), '|')
  }

  function Asking(plan: Plan, query: string): Plan {
    plan.(request := plan.request.(query := query))
  }

  predicate NonBlank(query: string) {
    Text.Strip(query) != ""
  }

  /** Two searches of a project can share a key exactly when they clash: for some nonblank queries
      their keys are equal. */
  lemma SharedKeyIffClash(plan: Plan, other: Plan, fingerprint: string)
    requires plan.request.projectId == other.request.projectId && Free(fingerprint, '|')
    ensures Clash(plan, other) <==>
            exists q, r :: NonBlank(q) && NonBlank(r)
                           && SearchKey(Asking(plan, q), fingerprint) == SearchKey(Asking(other, r), fingerprint)
  {
    if Clash(plan, other) {
      var q, r := ClashingQueries(plan, other, fingerprint);
    }
    forall q, r | SearchKey(Asking(plan, q), fingerprint) == SearchKey(Asking(other, r), fingerprint)
      ensures Clash(plan, other)
    {
      SameProjectKeys(Asking(plan, q), fingerprint, Asking(other, r), fingerprint);
      FramedClash(plan.request.userId, q, Tail(plan), other.request.userId, r, Tail(other), '|');
    }
  }

  /** In particular two users whose searches are otherwise the same can share a key exactly when the
      users are the same or one user id followed by the separator begins the other. */
  lemma UsersShareKeysIff(plan: Plan, user: string, otherUser: string, fingerprint: string)
    requires Free(fingerprint, '|')
    ensures var one := plan.(request := plan.request.(userId := user));
            var two := plan.(request := plan.request.(userId := otherUser));
            PrefixClash(user, otherUser, '|') <==>
            exists q, r :: NonBlank(q) && NonBlank(r)
                           && SearchKey(Asking(one, q), fingerprint) == SearchKey(Asking(two, r), fingerprint)
  {
    var one, two := plan.(request := plan.request.(userId := user)), plan.(request := plan.request.(userId := otherUser));
    assert Tail(one) == Tail(two);
    SharedKeyIffClash(one, two, fingerprint);
  }

  lemma ClashingQueries(plan: Plan, other: Plan, fingerprint: string) returns (q: string, r: string)
    requires plan.request.projectId == other.request.projectId && Free(fingerprint, '|') && Clash(plan, other)
    ensures NonBlank(q) && NonBlank(r)
    ensures SearchKey(Asking(plan, q), fingerprint) == SearchKey(Asking(other, r), fingerprint)
    ensures plan.request.userId == other.request.userId && q == r ==> Tail(plan) == Tail(other)
  {
    var u, w := plan.request.userId, other.request.userId;
    q, r := ClashFrames(u, Tail(plan), w, Tail(other), "n", '|');
    PaddedIsNonBlank(LeftGap(u, w, '|'), RightGap(Tail(plan), Tail(other), '|'));
    PaddedIsNonBlank(LeftGap(w, u, '|'), RightGap(Tail(other), Tail(plan), '|'));
    SameProjectKeys(Asking(plan, q), fingerprint, Asking(other, r), fingerprint);
    if u == w && q == r {
      assert |LeftGap(u, w, '|')| == |LeftGap(w, u, '|')| == 0;
      assert |q| == 1 + |RightGap(Tail(plan), Tail(other), '|')| && |r| == 1 + |RightGap(Tail(other), Tail(plan), '|')|;
    }
  }

  lemma PaddedIsNonBlank(left: string, right: string)
    ensures NonBlank(left + "n" + right)
  {
    var s := left + "n" + right;
    Text.InkConcat(left + "n", right);
    Text.InkConcat(left, "n");
    assert Text.Ink("n") == "n" + Text.Ink("") == "n";
    assert |Text.Ink(s)| > 0;
    Text.InkEmpty(s);
  }

  /** Searches whose keys are equal ask the same thing. */
  predicate Compatible(plan: Plan, other: Plan) {
    Clash(plan, other) ==>
      Tail(plan) == Tail(other) && plan.version == other.version && SameScope(plan.request, other.request)
  }

  /** Compatible searches with equal keys have the same query, version and scope. */
  lemma EqualKeysEqualMeaning(plan: Plan, other: Plan, fingerprint: string)
    requires plan.request.projectId == other.request.projectId && Free(fingerprint, '|') && Compatible(plan, other)
    requires SearchKey(plan, fingerprint) == SearchKey(other, fingerprint)
    ensures plan.request.query == other.request.query && plan.version == other.version
    ensures forall fields :: InScope(FilterOf(plan.request), fields) <==> InScope(FilterOf(other.request), fields)
  {
    var r, s := plan.request, other.request;
    SameProjectKeys(plan, fingerprint, other, fingerprint);
    FramedClash(r.userId, r.query, Tail(plan), s.userId, s.query, Tail(other), '|');
    SameScopeSameUser(r, s);
    SameScopeIff(r, s);
    FramedText(r.userId, r.query, s.query, Tail(plan));
  }

  lemma FramedText(left: string, q: string, r: string, right: string)
    requires Framed(left, q, right, '|') == Framed(left, r, right, '|')
    ensures q == r
  {
    var s, n := Framed(left, q, right, '|'), |left| + 1;
    assert |s| == n + |q| + 1 + |right| && |s| == n + |r| + 1 + |right|;
    assert s[n..n + |q|] == q && s[n..n + |r|] == r;
  }

  /** Compatibility is exact: equal keys mean the same query, version and scope, for all nonblank
      queries of the two searches, if and only if the searches are compatible. */
  lemma KeysAreFaithfulIff(plan: Plan, other: Plan, fingerprint: string)
    requires plan.request.projectId == other.request.projectId && Free(fingerprint, '|')
    ensures Compatible(plan, other) <==>
            forall q, r :: NonBlank(q) && NonBlank(r)
                           && SearchKey(Asking(plan, q), fingerprint) == SearchKey(Asking(other, r), fingerprint) ==>
              q == r && plan.version == other.version && SameScope(plan.request, other.request)
  {
    if Compatible(plan, other) {
      forall q, r | SearchKey(Asking(plan, q), fingerprint) == SearchKey(Asking(other, r), fingerprint)
        ensures q == r && plan.version == other.version && SameScope(plan.request, other.request)
      {
        EqualKeysEqualMeaning(Asking(plan, q), Asking(other, r), fingerprint);
        SameScopeIff(Asking(plan, q).request, Asking(other, r).request);
      }
    } else {
      var q, r := ClashingQueries(plan, other, fingerprint);
      if q == r && SameScope(plan.request, other.request) {
        SameScopeSameUser(plan.request, other.request);
      }
    }
  }

  // ---- which searches are compatible ----

  /** No knowledge base id holds a comma or the field separator, and the version holds no separator. */
  predicate WellFormed(plan: Plan) {
    Free(plan.version, '|') && AllFree(plan.request.kbIds, '|') && AllFree(plan.request.kbIds, ',')
  }

  lemma KbPartFree(r: SearchRequest)
    requires AllFree(r.kbIds, '|')
    ensures Free(KbPart(r), '|')
  {
    SortedFree(r.kbIds, '|');
    JoinFree(SortStrings(r.kbIds), ',', '|');
  }

  lemma ClashOfFree(a: string, b: string)
    requires Free(a, '|') && Free(b, '|')
    ensures PrefixClash(a, b, '|') ==> a == b
    ensures SuffixClash(a, b, '|') ==> a == b
  {
    if a + "|" <= b {
      HoldsSeparator(b, |a|);
    }
    if b + "|" <= a {
      HoldsSeparator(a, |b|);
    }
    if EndsWith(b, ['|'] + a) {
      EndHoldsSeparator(b, a);
    }
    if EndsWith(a, ['|'] + b) {
      EndHoldsSeparator(a, b);
    }
  }

  lemma HoldsSeparator(s: string, i: nat)
    requires i < |s| && s[i] == '|'
    ensures !Free(s, '|')
  {
  }

  lemma EndHoldsSeparator(s: string, end: string)
    requires EndsWith(s, ['|'] + end)
    ensures !Free(s, '|')
  {
    assert s[|s| - |end| - 1] == s[|s| - |end| - 1..][0];
  }

  lemma ClashEnds(a: string, b: string) returns (x: string, y: string)
    requires SuffixClash(a, b, '|')
    ensures x + "|" + a == y + "|" + b
  {
    if EndsWith(b, ['|'] + a) {
      x, y := "w|" + b[..|b| - |a| - 1], "w";
      assert b == b[..|b| - |a| - 1] + (['|'] + a);
    } else if EndsWith(a, ['|'] + b) {
      x, y := "w", "w|" + a[..|a| - |b| - 1];
      assert a == a[..|a| - |b| - 1] + (['|'] + b);
    } else {
      x, y := "w", "w";
    }
  }

  lemma TailsOfWellFormed(plan: Plan, other: Plan)
    requires WellFormed(plan) && WellFormed(other) && SuffixClash(Tail(plan), Tail(other), '|')
    ensures KbPart(plan.request) == KbPart(other.request)
    ensures plan.request.includeShared == other.request.includeShared && plan.version == other.version
  {
    var k, l := KbPart(plan.request), KbPart(other.request);
    var s, t := SharedPart(plan.request), SharedPart(other.request);
    var x, y := ClashEnds(Tail(plan), Tail(other));
    KbPartFree(plan.request);
    KbPartFree(other.request);
    LastThreeFields(x, k, s, plan.version, y, l, t, other.version);
    assert s[0] == t[0];
  }

  lemma LastThreeFields(x: string, k: string, s: string, v: string, y: string, l: string, t: string, w: string)
    requires Free(k, '|') && Free(s, '|') && Free(v, '|') && Free(l, '|') && Free(t, '|') && Free(w, '|')
    requires x + "|" + (k + "|" + s + "|" + v) == y + "|" + (l + "|" + t + "|" + w)
    ensures k == l && s == t && v == w
  {
    assert x + "|" + (k + "|" + s + "|" + v) == x + "|" + k + "|" + s + "|" + v;
    assert y + "|" + (l + "|" + t + "|" + w) == y + "|" + l + "|" + t + "|" + w;
    LastField(x + "|" + k + "|" + s, v, y + "|" + l + "|" + t, w, '|');
    LastField(x + "|" + k, s, y + "|" + l, t, '|');
    LastField(x, k, y, l, '|');
  }

  predicate UsersDoNotClash(plan: Plan, other: Plan) {
    PrefixClash(plan.request.userId, other.request.userId, '|') && Tail(plan) == Tail(other) ==>
      plan.request.userId == other.request.userId
  }

  /** With the other fields free of separators, two searches of one project are compatible exactly if
      neither user id followed by the separator begins the other, or the users are the same; this
      makes no difference if their knowledge bases, sharing or versions differ. */
  lemma CompatibleIffUsers(plan: Plan, other: Plan)
    requires WellFormed(plan) && WellFormed(other) && plan.request.projectId == other.request.projectId
    ensures Compatible(plan, other) <==> UsersDoNotClash(plan, other)
  {
    var r, s := plan.request, other.request;
    if SuffixClash(Tail(plan), Tail(other), '|') {
      TailsOfWellFormed(plan, other);
      JoinedKbIds(r.kbIds, s.kbIds);
      SameKbIdsSameMembers(r.kbIds, s.kbIds);
      SameKbIdsSameMembers(s.kbIds, r.kbIds);
      if SameScope(r, s) {
        SameScopeSameUser(r, s);
      }
    }
  }

  lemma {:induction false} NormalizedMembers(ids: seq<string>, x: string)
    ensures x in NormalizeIds(ids) <==> x != "" && exists i :: 0 <= i < |ids| && Text.Strip(ids[i]) == x
  {
    if ids != [] {
      NormalizedMembers(ids[1..], x);
      assert ids == [ids[0]] + ids[1..];
      if exists i :: 0 <= i < |ids| && Text.Strip(ids[i]) == x {
        var i :| 0 <= i < |ids| && Text.Strip(ids[i]) == x;
        assert i > 0 ==> ids[1..][i - 1] == ids[i];
      }
      if exists i :: 0 <= i < |ids[1..]| && Text.Strip(ids[1..][i]) == x {
        var i :| 0 <= i < |ids[1..]| && Text.Strip(ids[1..][i]) == x;
        assert ids[i + 1] == ids[1..][i];
      }
    }
  }

  lemma SameKbIdsSameMembers(a: seq<string>, b: seq<string>)
    requires SameKbIds(a, b)
    ensures forall i :: 0 <= i < |NormalizeIds(a)| ==> NormalizeIds(a)[i] in NormalizeIds(b)
  {
    forall n | 0 <= n < |NormalizeIds(a)|
      ensures NormalizeIds(a)[n] in NormalizeIds(b)
    {
      var x := NormalizeIds(a)[n];
      NormalizedMembers(a, x);
      NormalizedMembers(b, x);
      var i :| 0 <= i < |a| && Text.Strip(a[i]) == x;
      assert Text.Strip("") == "";
      assert a[i] in multiset(b);
      var j :| 0 <= j < |b| && b[j] == a[i];
    }
  }

  /** Two searches share a cache key exactly when they agree on project, user, query, sharing,
      version and settings, and on the knowledge base ids up to order, if no project or user id
      holds the separator either. The query may contain anything. */
  lemma SearchKeyInjective(plan: Plan, fingerprint: string, other: Plan, otherFingerprint: string)
    requires WellFormed(plan) && WellFormed(other) && Free(fingerprint, '|') && Free(otherFingerprint, '|')
    requires Free(plan.request.projectId, '|') && Free(plan.request.userId, '|')
    requires Free(other.request.projectId, '|') && Free(other.request.userId, '|')
    ensures var r, s := plan.request, other.request;
            SearchKey(plan, fingerprint) == SearchKey(other, otherFingerprint)
            <==> && r.projectId == s.projectId && r.userId == s.userId && r.query == s.query
                 && r.includeShared == s.includeShared && plan.version == other.version && fingerprint == otherFingerprint
                 && SameKbIds(r.kbIds, s.kbIds)
  {
    var r, s := plan.request, other.request;
    JoinedKbIds(r.kbIds, s.kbIds);
    if SearchKey(plan, fingerprint) == SearchKey(other, otherFingerprint) {
      KeyIsFramed(plan, fingerprint);
      KeyIsFramed(other, otherFingerprint);
      var x, y := Framed(r.userId, r.query, Tail(plan), '|'), Framed(s.userId, s.query, Tail(other), '|');
      LastField(r.projectId + "|" + x, fingerprint, s.projectId + "|" + y, otherFingerprint, '|');
      FirstField(r.projectId, x, s.projectId, y, '|');
      FramedClash(r.userId, r.query, Tail(plan), s.userId, s.query, Tail(other), '|');
      ClashOfFree(r.userId, s.userId);
      TailsOfWellFormed(plan, other);
      FramedText(r.userId, r.query, s.query, Tail(plan));
    }
  }

  // ---- searches that are not compatible ----

  /** A separator inside a user id: the users `u|x` and `u` share keys, so one gets the answers of the
      other, although each may see payloads that the other may not. */
  lemma UserSeparatorSharesKey(plan: Plan, fingerprint: string, fields: map<string, Value>)
    requires plan.request.kbIds == []
    requires "project_id" in fields && fields["project_id"] == Words(plan.request.projectId)
    requires "user_id" in fields && fields["user_id"] == Words("u|x")
    ensures var r := plan.request;
            var one := plan.(request := r.(userId := "u|x", query := "q"));
            var two := plan.(request := r.(userId := "u", query := "x|q"));
            && SearchKey(one, fingerprint) == SearchKey(two, fingerprint) && !Compatible(one, two)
            && InScope(FilterOf(one.request), fields) && !InScope(FilterOf(two.request), fields)
  {
    var r := plan.request;
    var one, two := plan.(request := r.(userId := "u|x", query := "q")), plan.(request := r.(userId := "u", query := "x|q"));
    KeyIsFramed(one, fingerprint);
    KeyIsFramed(two, fingerprint);
    assert Framed("u|x", "q", Tail(one), '|') == Framed("u", "x|q", Tail(two), '|') by {
      assert "u|x" + ['|'] + "q" == "u" + ['|'] + "x|q";
    }
    assert "u" + ['|'] <= "u|x" && Tail(one) == Tail(two);
    assert AllowedUserIds(FilterOf(one.request))[0] == "u|x";
  }

  /** A comma inside a knowledge base id: `["a,b"]` and `["a", "b"]` share a key, but a payload of
      knowledge base `a` is in the scope of the second search only. */
  lemma CommaSharesKey(plan: Plan, fingerprint: string, fields: map<string, Value>)
    requires "project_id" in fields && fields["project_id"] == Words(plan.request.projectId)
    requires "user_id" in fields && fields["user_id"] == Words(plan.request.userId)
    requires "kb_id" in fields && fields["kb_id"] == Words("a")
    ensures var one := plan.(request := plan.request.(kbIds := ["a,b"]));
            var two := plan.(request := plan.request.(kbIds := ["a", "b"]));
            && SearchKey(one, fingerprint) == SearchKey(two, fingerprint) && !Compatible(one, two)
            && !InScope(FilterOf(one.request), fields) && InScope(FilterOf(two.request), fields)
  {
    var one, two := plan.(request := plan.request.(kbIds := ["a,b"])), plan.(request := plan.request.(kbIds := ["a", "b"]));
    CommaJoins();
    assert Tail(one) == Tail(two);
    assert NormalizeIds(two.request.kbIds)[0] == "a";
  }

  lemma CommaJoins()
    ensures Text.Join(",", SortStrings(["a,b"])) == Text.Join(",", SortStrings(["a", "b"]))
  {
    var one, two := ["a,b"], ["a", "b"];
    assert two[..1] == ["a"] && ["a"][..0] == [] && one[..0] == [];
    assert SortStrings(["a"]) == ["a"];
    assert SortStrings(one) == one && SortStrings(two) == two;
    assert Text.Join(",", two[1..]) == "b";
    assert Text.Join(",", two) == "a" + "," + "b" == "a,b";
  }

}
