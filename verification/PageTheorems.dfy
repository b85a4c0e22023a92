/**
  What a stored page promises: the revisions stored with it are exactly those its citations name,
  its citations come in the order of their titles, and neither the order in which revisions arrive
  nor the sort that is used matters, unless different revisions have the same timestamp.
 */
module PageTheorems {
  import opened Wrappers
  import opened CitationParser
  import opened History
  import opened Ordered
  import opened Dump

  // ---- No orphan, no dangling reference ----

  predicate NamedBy(c: Citation, id: nat) {
    c.added == id || c.removed == Some(id)
  }

  lemma PageNames(d: Discovered, id: nat)
    ensures id in Referenced(d) <==> exists i :: 0 <= i < |InTitleOrder(d)| && NamedBy(InTitleOrder(d)[i], id)
  {
    StringLessIsTotal();
    var keys := SortedKeys(StringLess, d.Keys);
    var listed := InTitleOrder(d);
    assert listed == ValuesAt(d, keys);
    if id in Referenced(d) {
      var k :| k in d && NamedBy(d[k], id);
      assert k in keys;
      var i :| 0 <= i < |keys| && keys[i] == k;
      assert NamedBy(listed[i], id);
    }
    if i :| 0 <= i < |listed| && NamedBy(listed[i], id) {
      assert keys[i] in d && d[keys[i]] == listed[i];
    }
  }

  lemma StoryNames(h: Chronicle, k: string, first: nat, last: nat, id: nat)
    requires first < |h| && k in h[first].citations && NamedBy(StoryAt(h, k, first, last), id)
    ensures exists i :: 0 <= i < |h| && h[i].revision.id == id
  {
    if h[first].revision.id != id {
      assert h[last + 1].revision.id == id;
    }
  }

  /** Every revision a citation names has arrived, so every lookup by id succeeds. */
  lemma SummaryNamesArrivals(env: Environment, h: Chronicle)
    requires ValidEnvironment(env)
    ensures Referenced(Summary(env.sort(h))) <= RevisionsById(h).Keys
  {
    var s := env.sort(h);
    SortKeepsRevisions(h, s);
    forall id | id in Referenced(Summary(s)) ensures id in RevisionsById(h) {
      var d := Summary(s);
      var k :| k in d && NamedBy(d[k], id);
      StoryNames(s, k, First(s, k), Last(s, k), id);
    }
  }

  /** The revisions stored with a page are exactly those its citations name, each as it arrived. */
  lemma StoredExactly(env: Environment, page: Page, h: Chronicle, id: nat)
    requires ValidEnvironment(env) && page.citations == []
    ensures var call := Finished(env, page, h);
            && (id in call.revisions
                <==> exists i :: 0 <= i < |call.page.citations| && NamedBy(call.page.citations[i], id))
            && (id in call.revisions ==> call.revisions[id] == RevisionsById(h)[id] && call.revisions[id].id == id)
  {
    var d, call := Summary(env.sort(h)), Finished(env, page, h);
    assert call.page.citations == InTitleOrder(d) by {
      assert [] + InTitleOrder(d) == InTitleOrder(d);
    }
    assert id in call.revisions <==> id in Referenced(d) by {
      SummaryNamesArrivals(env, h);
    }
    PageNames(d, id);
  }

  /** The citations come in the order of their titles: one for each, none twice. */
  lemma {:induction false} TitleOrder(d: Discovered, titles: seq<string>)
    requires Ascending(StringLess, titles) && forall k :: k in titles <==> k in d
    ensures InTitleOrder(d) == ValuesAt(d, titles)
  {
    StringLessIsTotal();
    SortedKeysUnique(StringLess, titles, d.Keys);
  }

  // ---- Time ----

  /** Not later: a revision without a timestamp counts as one of the epoch. */
  predicate NotLater(a: RevisionCitations, b: RevisionCitations) {
    match (a.revision.timestamp, b.revision.timestamp)
    case (Some(s), Some(t)) => s.seconds < t.seconds || (s.seconds == t.seconds && s.nanos <= t.nanos)
    case (None, Some(t)) => 0 < t.seconds || (t.seconds == 0 && 0 <= t.nanos)
    case (Some(s), None) => s.seconds < 0 || (s.seconds == 0 && s.nanos <= 0)
    case (None, None) => true
  }

  /** The sort runs from the oldest revision to the newest. */
  lemma OldestFirst(env: Environment, h: Chronicle, i: nat, j: nat)
    requires ValidEnvironment(env) && i < j < |env.sort(h)|
    ensures NotLater(env.sort(h)[i], env.sort(h)[j])
  {
    assert SortOf(h, env.sort(h));
    assert !Earlier(env.sort(h)[j], env.sort(h)[i]);
  }

  /** `a` has the title and its description, and no revision that has the title is older. */
  ghost predicate BroughtBy(h: Chronicle, k: string, c: Citation, a: RevisionCitations) {
    && a in h && a.revision.id == c.added && k in a.citations && c.content == a.citations[k]
    && forall x :: x in h && k in x.citations ==> NotLater(a, x)
  }

  /** `b` does not have the title, and no revision that has it is newer. */
  ghost predicate GoneWith(h: Chronicle, k: string, c: Citation, b: RevisionCitations) {
    && b in h && c.removed == Some(b.revision.id) && k !in b.citations
    && forall x :: x in h && k in x.citations ==> NotLater(x, b)
  }

  /** `z` has the title, and no revision at all is newer. */
  ghost predicate StillIn(h: Chronicle, k: string, z: RevisionCitations) {
    && z in h && k in z.citations && forall x :: x in h ==> NotLater(x, z)
  }

  /** The citation of a title, as time tells it. */
  ghost predicate InTime(h: Chronicle, k: string, c: Citation) {
    && (exists a :: BroughtBy(h, k, c, a))
    && (c.removed.None? ==> exists z :: StillIn(h, k, z))
    && (c.removed.Some? ==> exists b :: GoneWith(h, k, c, b))
  }

  lemma InOrder(env: Environment, h: Chronicle, x: RevisionCitations) returns (i: nat)
    requires ValidEnvironment(env) && x in h
    ensures i < |env.sort(h)| && env.sort(h)[i] == x
  {
    var s := env.sort(h);
    SameElements(s, h);
    i :| 0 <= i < |s| && s[i] == x;
  }

  lemma SortedNotLater(env: Environment, h: Chronicle, i: nat, j: nat)
    requires ValidEnvironment(env) && i <= j < |env.sort(h)|
    ensures NotLater(env.sort(h)[i], env.sort(h)[j])
  {
    if i < j {
      OldestFirst(env, h, i, j);
    }
  }

  /** What the closed form says of a title of the sorted revisions, and that they are those that arrived. */
  lemma SortedStory(env: Environment, h: Chronicle, k: string) returns (s: Chronicle, first: nat, last: nat)
    requires ValidEnvironment(env) && k in Titles(h)
    ensures s == env.sort(h) && first <= last < |s| && k in s[first].citations && k in s[last].citations
    ensures forall i :: 0 <= i < first ==> k !in s[i].citations
    ensures forall i :: last < i < |s| ==> k !in s[i].citations
    ensures forall i :: 0 <= i < |s| ==> s[i] in h
    ensures k in Summary(s) && Summary(s)[k].added == s[first].revision.id
    ensures Summary(s)[k].content == s[first].citations[k]
    ensures Summary(s)[k].removed == if last == |s| - 1 then None else Some(s[last + 1].revision.id)
  {
    s := env.sort(h);
    SortedArrived(env, h);
    first, last := StoryMeans(s, k);
  }

  lemma StoryMeans(s: Chronicle, k: string) returns (first: nat, last: nat)
    requires k in Titles(s)
    ensures first <= last < |s| && k in s[first].citations && k in s[last].citations
    ensures forall i :: 0 <= i < first ==> k !in s[i].citations
    ensures forall i :: last < i < |s| ==> k !in s[i].citations
    ensures k in Summary(s) && Summary(s)[k].added == s[first].revision.id
    ensures Summary(s)[k].content == s[first].citations[k]
    ensures Summary(s)[k].removed == if last == |s| - 1 then None else Some(s[last + 1].revision.id)
  {
    first, last := First(s, k), Last(s, k);
    SummaryMeans(s, k, first, last);
  }

  lemma SortedArrived(env: Environment, h: Chronicle)
    requires ValidEnvironment(env)
    ensures forall i :: 0 <= i < |env.sort(h)| ==> env.sort(h)[i] in h
    ensures Titles(env.sort(h)) == Titles(h)
  {
    var s := env.sort(h);
    SortKeepsRevisions(h, s);
    forall i | 0 <= i < |s| ensures s[i] in h {
      assert s[i] in multiset(s);
    }
  }

  lemma StoryAdded(env: Environment, h: Chronicle, k: string)
    requires ValidEnvironment(env) && k in Titles(h)
    ensures k in Summary(env.sort(h)) && exists a :: BroughtBy(h, k, Summary(env.sort(h))[k], a)
  {
    var s, first, last := SortedStory(env, h, k);
    NoneOlder(env, h, k, first);
    assert BroughtBy(h, k, Summary(s)[k], s[first]);
  }

  lemma StoryEnds(env: Environment, h: Chronicle, k: string)
    requires ValidEnvironment(env) && k in Titles(h)
    ensures k in Summary(env.sort(h))
    ensures var c := Summary(env.sort(h))[k];
            if c.removed.None? then exists z :: StillIn(h, k, z) else exists b :: GoneWith(h, k, c, b)
  {
    var s, first, last := SortedStory(env, h, k);
    if last == |s| - 1 {
      NoneNewer(env, h);
      assert StillIn(h, k, s[last]);
    } else {
      NoneLater(env, h, k, last + 1);
      assert GoneWith(h, k, Summary(s)[k], s[last + 1]);
    }
  }

  /**
    The story of a title in time, over the revisions as they arrived: it is added by the oldest
    revision that has it, and removed by one that does not and is no older than any that has it,
    unless a newest revision has it.
   */
  lemma StoryInTime(env: Environment, h: Chronicle, k: string)
    requires ValidEnvironment(env) && k in Titles(h)
    ensures k in Summary(env.sort(h)) && InTime(h, k, Summary(env.sort(h))[k])
  {
    StoryAdded(env, h, k);
    StoryEnds(env, h, k);
  }

  lemma NoneOlder(env: Environment, h: Chronicle, k: string, n: nat)
    requires ValidEnvironment(env) && n < |env.sort(h)|
    requires forall i :: 0 <= i < n ==> k !in env.sort(h)[i].citations
    ensures forall x :: x in h && k in x.citations ==> NotLater(env.sort(h)[n], x)
  {
    forall x | x in h && k in x.citations ensures NotLater(env.sort(h)[n], x) {
      var i := InOrder(env, h, x);
      SortedNotLater(env, h, n, i);
    }
  }

  lemma NoneLater(env: Environment, h: Chronicle, k: string, n: nat)
    requires ValidEnvironment(env) && n < |env.sort(h)|
    requires forall i :: n < i < |env.sort(h)| ==> k !in env.sort(h)[i].citations
    ensures forall x :: x in h && k in x.citations ==> NotLater(x, env.sort(h)[n])
  {
    forall x | x in h && k in x.citations ensures NotLater(x, env.sort(h)[n]) {
      var i := InOrder(env, h, x);
      SortedNotLater(env, h, i, n);
    }
  }

  lemma NoneNewer(env: Environment, h: Chronicle)
    requires ValidEnvironment(env) && env.sort(h) != []
    ensures forall x :: x in h ==> NotLater(x, env.sort(h)[|env.sort(h)| - 1])
  {
    forall x | x in h ensures NotLater(x, env.sort(h)[|env.sort(h)| - 1]) {
      var i := InOrder(env, h, x);
      SortedNotLater(env, h, i, |env.sort(h)| - 1);
    }
  }

  lemma {:induction false} KeptArrived(h: Chronicle, id: nat)
    ensures id in RevisionsById(h) ==> exists i :: 0 <= i < |h| && h[i].revision.id == id
  {
    if h != [] {
      var init, last := h[..|h| - 1], h[|h| - 1];
      KeptArrived(init, id);
      assert forall i :: 0 <= i < |init| ==> init[i] == h[i];
      assert last == h[|h| - 1];
    }
  }

  /** Of the revisions with an id the first to arrive is kept. */
  lemma {:induction false} FirstKept(h: Chronicle, i: nat)
    requires i < |h| && forall j :: 0 <= j < i ==> h[j].revision.id != h[i].revision.id
    ensures h[i].revision.id in RevisionsById(h) && RevisionsById(h)[h[i].revision.id] == h[i].revision
    decreases |h|
  {
    var init := h[..|h| - 1];
    if i < |init| {
      FirstKept(init, i);
    } else {
      KeptArrived(init, h[i].revision.id);
      assert forall j :: 0 <= j < |init| ==> init[j] == h[j];
    }
  }

  /** The revision stored under an id that a citation names is the first that arrived with it. */
  lemma StoredAsArrived(env: Environment, page: Page, h: Chronicle, i: nat)
    requires i < |h| && forall j :: 0 <= j < i ==> h[j].revision.id != h[i].revision.id
    ensures var id := h[i].revision.id;
            id in Finished(env, page, h).revisions ==> Finished(env, page, h).revisions[id] == h[i].revision
  {
    FirstKept(h, i);
  }

  /** A character at which `a` ends or is smaller, after a common beginning. */
  predicate SmallerAt(a: string, b: string, n: nat) {
    n <= |a| && n < |b| && a[..n] == b[..n] && (n == |a| || a[n] < b[n])
  }

  ghost predicate Smaller(a: string, b: string) {
    exists n: nat :: SmallerAt(a, b, n)
  }

  lemma {:induction false} StringLessMeans(a: string, b: string)
    ensures StringLess(a, b) <==> Smaller(a, b)
  {
    if a != "" && b != "" && a[0] == b[0] {
      StringLessMeans(a[1..], b[1..]);
      if n: nat :| SmallerAt(a[1..], b[1..], n) {
        assert a[..n + 1] == [a[0]] + a[1..][..n] && b[..n + 1] == [b[0]] + b[1..][..n];
        assert SmallerAt(a, b, n + 1);
      }
      if n: nat :| SmallerAt(a, b, n) {
        assert n > 0;
        assert a[1..][..n - 1] == a[..n][1..] && b[1..][..n - 1] == b[..n][1..];
        assert SmallerAt(a[1..], b[1..], n - 1);
      }
    } else {
      assert StringLess(a, b) <==> SmallerAt(a, b, 0);
      forall n: nat | SmallerAt(a, b, n) ensures n == 0 {
        if n > 0 {
          CommonStart(a, b, n);
        }
      }
    }
  }

  lemma CommonStart(a: string, b: string, n: nat)
    requires 0 < n <= |a| && n <= |b| && a[..n] == b[..n]
    ensures a[0] == b[0]
  {
    assert a[0] == a[..n][0];
    assert b[0] == b[..n][0];
  }

  /** A page's citations come title by title, each title smaller than the next, character by character. */
  lemma CitationsAscend(d: Discovered) returns (titles: seq<string>)
    ensures |titles| == |d| == |InTitleOrder(d)| && forall k :: k in titles <==> k in d
    ensures forall i :: 0 <= i < |titles| ==> InTitleOrder(d)[i] == d[titles[i]]
    ensures forall i, j :: 0 <= i < j < |titles| ==> Smaller(titles[i], titles[j])
  {
    StringLessIsTotal();
    titles := SortedKeys(StringLess, d.Keys);
    SortedKeysAscend(StringLess, d.Keys);
    SmallerTitles(titles);
  }

  /**
    A stored page has one citation for each title that a revision of it has, in the ascending order of
    the titles, and each citation is as time tells it.
   */
  lemma PageInTime(env: Environment, page: Page, h: Chronicle) returns (titles: seq<string>)
    requires ValidEnvironment(env) && page.citations == []
    ensures var told := Finished(env, page, h).page;
            && told.title == page.title && told.id == page.id && |told.citations| == |titles|
            && forall i :: 0 <= i < |titles| ==> InTime(h, titles[i], told.citations[i])
    ensures forall k :: k in titles <==> exists i :: 0 <= i < |h| && k in h[i].citations
    ensures forall i, j :: 0 <= i < j < |titles| ==> Smaller(titles[i], titles[j])
  {
    var d := Summary(env.sort(h));
    var told := Finished(env, page, h).page;
    assert told.citations == InTitleOrder(d) by {
      assert [] + InTitleOrder(d) == InTitleOrder(d);
    }
    SortKeepsRevisions(h, env.sort(h));
    titles := CitationsAscend(d);
    forall i | 0 <= i < |titles| ensures InTime(h, titles[i], told.citations[i]) {
      assert titles[i] in titles;
      StoryInTime(env, h, titles[i]);
    }
  }

  lemma SmallerTitles(titles: seq<string>)
    requires Ascending(StringLess, titles)
    ensures forall i, j :: 0 <= i < j < |titles| ==> Smaller(titles[i], titles[j])
  {
    forall i, j | 0 <= i < j < |titles| ensures Smaller(titles[i], titles[j]) {
      StringLessMeans(titles[i], titles[j]);
    }
  }

  /** The revisions of a page are written in the order of their ids, the smallest first. */
  lemma IdsAscend(m: map<nat, Revision>) returns (ids: seq<nat>)
    ensures |ids| == |m| == |InIdOrder(m)| && forall id :: id in ids <==> id in m
    ensures forall i :: 0 <= i < |ids| ==> InIdOrder(m)[i] == m[ids[i]]
    ensures forall i, j :: 0 <= i < j < |ids| ==> ids[i] < ids[j]
  {
    NatLessIsTotal();
    ids := SortedKeys(NatLess, m.Keys);
    SortedKeysAscend(NatLess, m.Keys);
  }

  // ---- Order independence ----

  /** Revisions with equal timestamps are the same revision. */
  ghost predicate NoTies(h: Chronicle) {
    forall a, b :: a in h && b in h && TimeOf(a) == TimeOf(b) ==> a == b
  }

  ghost predicate IdsIdentify(h: Chronicle) {
    forall a, b :: a in h && b in h && a.revision.id == b.revision.id ==> a.revision == b.revision
  }

  lemma SameElements(a: Chronicle, b: Chronicle)
    requires multiset(a) == multiset(b)
    ensures forall x :: x in a <==> x in b
  {
    forall x ensures x in a <==> x in b {
      assert x in a <==> x in multiset(a);
      assert x in b <==> x in multiset(b);
    }
  }

  lemma SameHead(a: Chronicle, b: Chronicle)
    requires multiset(a) == multiset(b) && Chronological(a) && Chronological(b) && NoTies(a) && a != []
    ensures b != [] && a[0] == b[0]
  {
    SameElements(a, b);
    assert a[0] in b;
    assert b[0] in a;
    var i :| 0 <= i < |b| && b[i] == a[0];
    var j :| 0 <= j < |a| && a[j] == b[0];
    assert !Earlier(a[0], b[0]) && !Earlier(b[0], a[0]);
  }

  lemma SameTail(a: Chronicle, b: Chronicle)
    requires multiset(a) == multiset(b) && a != [] && b != [] && a[0] == b[0]
    ensures multiset(a[1..]) == multiset(b[1..])
  {
    assert a == [a[0]] + a[1..] && b == [b[0]] + b[1..];
    assert multiset(a[1..]) == multiset(a) - multiset{a[0]};
    assert multiset(b[1..]) == multiset(b) - multiset{b[0]};
  }

  lemma {:induction false} SortedAlike(a: Chronicle, b: Chronicle)
    requires multiset(a) == multiset(b) && Chronological(a) && Chronological(b) && NoTies(a)
    ensures a == b
    decreases |a|
  {
    if a != [] {
      SameHead(a, b);
      SameTail(a, b);
      SortedAlike(a[1..], b[1..]);
      assert a == [a[0]] + a[1..] && b == [b[0]] + b[1..];
    } else {
      assert |multiset(a)| == |a| && |multiset(b)| == |b|;
    }
  }

  lemma Updated(s: Chronicle, i: nat, x: RevisionCitations)
    requires i < |s|
    ensures multiset(s[i := x]) == multiset(s) - multiset{s[i]} + multiset{x}
  {
    assert s == s[..i] + [s[i]] + s[i + 1..];
    assert s[i := x] == s[..i] + [x] + s[i + 1..];
  }

  lemma SwapKeeps(s: Chronicle, i: nat, j: nat)
    requires i < j < |s|
    ensures multiset(s[i := s[j]][j := s[i]]) == multiset(s)
  {
    var u := s[i := s[j]];
    Updated(s, i, s[j]);
    Updated(u, j, s[i]);
    assert s[i] in multiset(s);
  }

  lemma SameTimes(s: Chronicle, t: Chronicle)
    requires Chronological(s) && |t| == |s| && forall k :: 0 <= k < |s| ==> TimeOf(t[k]) == TimeOf(s[k])
    ensures Chronological(t)
  {
    forall k, l | 0 <= k < l < |t| ensures !Earlier(t[l], t[k]) {
      assert !Earlier(s[l], s[k]);
    }
  }

  lemma SwapTied(s: Chronicle, i: nat, j: nat)
    requires Chronological(s) && i < j < |s| && TimeOf(s[i]) == TimeOf(s[j])
    ensures SortOf(s, s[i := s[j]][j := s[i]])
  {
    var t := s[i := s[j]][j := s[i]];
    SwapKeeps(s, i, j);
    forall k | 0 <= k < |s| ensures TimeOf(t[k]) == TimeOf(s[k]) {
    }
    SameTimes(s, t);
  }

  /** The sort has only one possible result exactly when no two different revisions share a timestamp. */
  lemma SortDeterminedExactly(env: Environment, h: Chronicle)
    requires ValidEnvironment(env)
    ensures (forall s, t :: SortOf(h, s) && SortOf(h, t) ==> s == t) <==> NoTies(h)
  {
    if NoTies(h) {
      forall a, b | SortOf(h, a) && SortOf(h, b) ensures a == b {
        SameElements(h, a);
        SortedAlike(a, b);
      }
    } else {
      assert SortOf(h, env.sort(h));
      var t := AnotherSort(h, env.sort(h));
    }
  }

  lemma AnotherSort(h: Chronicle, s: Chronicle) returns (t: Chronicle)
    requires SortOf(h, s) && !NoTies(h)
    ensures SortOf(h, t) && t != s
  {
    SameElements(h, s);
    var a, b :| a in h && b in h && TimeOf(a) == TimeOf(b) && a != b;
    var i :| 0 <= i < |s| && s[i] == a;
    var j :| 0 <= j < |s| && s[j] == b;
    var k, l := if i < j then i else j, if i < j then j else i;
    t := s[k := s[l]][l := s[k]];
    SwapTied(s, k, l);
    assert t[k] != s[k];
  }

  lemma {:induction false} RevisionsByIdMeans(h: Chronicle, rc: RevisionCitations)
    requires IdsIdentify(h) && rc in h
    ensures rc.revision.id in RevisionsById(h) && RevisionsById(h)[rc.revision.id] == rc.revision
  {
    var init, last := h[..|h| - 1], h[|h| - 1];
    assert forall x :: x in init ==> x in h;
    if rc in init {
      RevisionsByIdMeans(init, rc);
    } else {
      assert rc == last;
      if last.revision.id in RevisionsById(init) {
        var x := EarlierWithId(init, last.revision.id);
        RevisionsByIdMeans(init, x);
      }
    }
  }

  lemma {:induction false} EarlierWithId(h: Chronicle, id: nat) returns (rc: RevisionCitations)
    requires id in RevisionsById(h)
    ensures rc in h && rc.revision.id == id
  {
    if h[|h| - 1].revision.id == id {
      rc := h[|h| - 1];
    } else {
      rc := EarlierWithId(h[..|h| - 1], id);
    }
  }

  /** What is stored for a page depends neither on the order of arrival nor on the sort. */
  lemma OrderIndependence(env: Environment, env': Environment, page: Page, h: Chronicle, h': Chronicle)
    requires ValidEnvironment(env) && ValidEnvironment(env')
    requires multiset(h) == multiset(h') && NoTies(h) && IdsIdentify(h)
    ensures Finished(env, page, h) == Finished(env', page, h')
  {
    var s, s' := env.sort(h), env'.sort(h');
    assert SortOf(h, s) && SortOf(h', s');
    SameElements(h, s);
    SortedAlike(s, s');
    SameElements(h, h');
    var r, r' := RevisionsById(h), RevisionsById(h');
    forall id | id in r || id in r' ensures id in r && id in r' && r[id] == r'[id] {
      var rc := EarlierWithId(if id in r then h else h', id);
      RevisionsByIdMeans(h, rc);
      RevisionsByIdMeans(h', rc);
    }
    assert r == r';
  }

  /** Nothing promises that tied revisions keep the order in which they appear, and it matters. */
  lemma TiesAreNotResolved(c: ExtractedCitation) returns (h: Chronicle, s: Chronicle)
    ensures |h| == 2 && TimeOf(h[0]) == TimeOf(h[1])
    ensures SortOf(h, h) && SortOf(h, s)
    ensures "t" in Summary(h) && Summary(h)["t"].removed == Some(1)
    ensures "t" in Summary(s) && Summary(s)["t"].removed == None
  {
    var with := RevisionCitations(Revision(0, None, None, None), map["t" := c]);
    var without := RevisionCitations(Revision(1, None, None, None), map[]);
    h, s := [with, without], [without, with];
    PairOfTied(with, without);
    PairOfTied(without, with);
    assert multiset([without, with]) == multiset([with, without]);
    LastSays(h, "t");
    FirstSays(s, "t");
  }

  lemma PairOfTied(a: RevisionCitations, b: RevisionCitations)
    requires TimeOf(a) == TimeOf(b)
    ensures Chronological([a, b])
  {}

  lemma LastSays(h: Chronicle, k: string)
    requires |h| == 2 && k in h[0].citations && k !in h[1].citations
    ensures k in Summary(h) && Summary(h)[k].removed == Some(h[1].revision.id)
  {
    SummaryMeans(h, k, 0, 0);
  }

  lemma FirstSays(h: Chronicle, k: string)
    requires |h| == 2 && k !in h[0].citations && k in h[1].citations
    ensures k in Summary(h) && Summary(h)[k].removed == None
  {
    SummaryMeans(h, k, 1, 1);
  }

  // ---- There are sorts ----

  function Inserted(rc: RevisionCitations, s: Chronicle): Chronicle {
    if s == [] || Earlier(rc, s[0]) then [rc] + s else [s[0]] + Inserted(rc, s[1..])
  }

  /** Insertion sort: one that does keep the order of tied revisions. */
  function InsertionSort(h: Chronicle): Chronicle {
    if h == [] then [] else Inserted(h[|h| - 1], InsertionSort(h[..|h| - 1]))
  }

  lemma {:induction false} InsertedKeeps(rc: RevisionCitations, s: Chronicle)
    ensures multiset(Inserted(rc, s)) == multiset(s) + multiset{rc}
  {
    if s != [] && !Earlier(rc, s[0]) {
      InsertedKeeps(rc, s[1..]);
      assert s == [s[0]] + s[1..];
    }
  }

  lemma {:induction false} InsertedSorts(rc: RevisionCitations, s: Chronicle)
    requires Chronological(s)
    ensures Chronological(Inserted(rc, s))
    ensures forall x :: x in Inserted(rc, s) ==> x == rc || x in s
  {
    if s == [] || Earlier(rc, s[0]) {
      forall i | 0 <= i < |s| ensures !Earlier(s[i], rc) {
        assert i > 0 ==> !Earlier(s[i], s[0]);
      }
    } else {
      InsertedSorts(rc, s[1..]);
      var t := Inserted(rc, s[1..]);
      forall i | 0 <= i < |t| ensures !Earlier(t[i], s[0]) {
        assert t[i] in t;
        if t[i] != rc {
          var j :| 0 <= j < |s[1..]| && s[1..][j] == t[i];
          assert s[j + 1] == t[i];
        }
      }
    }
  }

  lemma {:induction false} InsertionSortSorts(h: Chronicle)
    ensures SortOf(h, InsertionSort(h))
  {
    if h != [] {
      var init, last := h[..|h| - 1], h[|h| - 1];
      InsertionSortSorts(init);
      InsertedSorts(last, InsertionSort(init));
      InsertedKeeps(last, InsertionSort(init));
      assert h == init + [last];
    }
  }

  /** What is asked of the environment can be had. */
  lemma EnvironmentsExist(env: Environment)
    ensures ValidEnvironment(env.(sort := h => InsertionSort(h)))
  {
    forall h ensures SortOf(h, InsertionSort(h)) {
      InsertionSortSorts(h);
    }
  }
}
