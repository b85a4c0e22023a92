/**
  Pages one after another. The citations parsed last are never cleared, so a revision without a
  text takes over those of the revision before it, even across pages and runs. A dump means the
  same after anything else exactly when its first revision has a text.
 */
module CarryOver {
  import opened Wrappers
  import opened CitationParser
  import opened History
  import opened Dump
  import opened Document
  import opened Decoding

  predicate HasText(f: Forest) {
    LastText(RevisionFields(f, false), "text").Some?
  }

  /** The first revision in document order, if there is any. */
  function FirstRevision(f: Forest): Option<Forest> {
    match f
    case Empty => None
    case Text(_, rest) => FirstRevision(rest)
    case Element(name, kids, rest) =>
      if name == "revision" then Some(kids)
      else if FirstRevision(kids).Some? then FirstRevision(kids)
      else FirstRevision(rest)
  }

  /** What a caller can see before the call: the dump's first revision, if any, has a text. */
  predicate StartsWithText(f: Forest) {
    FirstRevision(f).Some? ==> HasText(FirstRevision(f).value)
  }

  /** Whatever was parsed before, the dump means the same. */
  ghost predicate Independent(env: Environment, f: Forest) {
    forall c, d :: DumpMeaning(env, f, c) == DumpMeaning(env, f, d)
  }

  // ---- Without a revision, nothing is taken over ----

  lemma {:induction false} NoRevisionNoArrival(env: Environment, f: Forest, c: Carried)
    requires FirstRevision(f).None?
    ensures Arrivals(env, f, c) == []
  {
    match f
    case Empty =>
    case Text(_, rest) => NoRevisionNoArrival(env, rest, c);
    case Element(_, kids, rest) =>
      NoRevisionNoArrival(env, kids, c);
      NoRevisionNoArrival(env, rest, c);
  }

  lemma {:induction false} NoRevisionNoCarry(env: Environment, f: Forest, c: Carried)
    requires FirstRevision(f).None?
    ensures DumpCarried(env, f, c) == c
  {
    match f
    case Empty =>
    case Text(_, rest) => NoRevisionNoCarry(env, rest, c);
    case Element(_, kids, rest) =>
      NoRevisionNoArrival(env, kids, c);
      NoRevisionNoCarry(env, kids, c);
      NoRevisionNoCarry(env, rest, c);
  }

  // ---- A first text makes the rest independent ----

  lemma {:induction false} PageIndependent(env: Environment, f: Forest, c: Carried, d: Carried)
    requires FirstRevision(f).Some? && HasText(FirstRevision(f).value)
    ensures Arrivals(env, f, c) == Arrivals(env, f, d) != []
  {
    match f
    case Text(_, rest) => PageIndependent(env, rest, c, d);
    case Element(name, kids, rest) =>
      if name == "revision" {
        assert RevisionMeaning(env, kids, c) == RevisionMeaning(env, kids, d);
      } else if FirstRevision(kids).Some? {
        PageIndependent(env, kids, c, d);
      } else {
        NoRevisionNoArrival(env, kids, c);
        NoRevisionNoArrival(env, kids, d);
        PageIndependent(env, rest, c, d);
      }
  }

  /** Two runs over the same content store the same; without a revision in it, they keep what they carry. */
  ghost predicate Same(env: Environment, f: Forest, c: Carried, d: Carried) {
    && DumpMeaning(env, f, c) == DumpMeaning(env, f, d)
    && if FirstRevision(f).Some? then DumpCarried(env, f, c) == DumpCarried(env, f, d)
       else DumpCarried(env, f, c) == c && DumpCarried(env, f, d) == d
  }

  lemma FirstAlone(name: string, kids: Forest, rest: Forest)
    requires name != "revision"
    ensures FirstRevision(Element(name, kids, Empty)) == FirstRevision(kids)
    ensures FirstRevision(Element(name, kids, rest))
         == if FirstRevision(kids).Some? then FirstRevision(kids) else FirstRevision(rest)
  {
    assert FirstRevision(Empty) == None;
  }

  lemma SameOn(env: Environment, name: string, kids: Forest, rest: Forest, c: Carried, d: Carried)
    requires Same(env, Element(name, kids, Empty), c, d)
    requires name != "revision" && (FirstRevision(kids).Some? || Same(env, rest, c, d))
    ensures Same(env, Element(name, kids, rest), c, d)
  {
    FirstAlone(name, kids, rest);
    CarriedFirst(env, name, kids, rest, c);
    CarriedFirst(env, name, kids, rest, d);
    assert DumpMeaning(env, Element(name, kids, rest), c) == DumpMeaning(env, Element(name, kids, rest), d) by {
      CallsFirst(env, name, kids, rest, c);
      CallsFirst(env, name, kids, rest, d);
    }
  }

  lemma SameArrivals(env: Environment, kids: Forest, c: Carried, d: Carried)
    requires StartsWithText(kids)
    ensures Arrivals(env, kids, c) == Arrivals(env, kids, d)
    ensures Arrivals(env, kids, c) == [] <==> FirstRevision(kids).None?
  {
    if FirstRevision(kids).Some? {
      PageIndependent(env, kids, c, d);
    } else {
      NoRevisionNoArrival(env, kids, c);
      NoRevisionNoArrival(env, kids, d);
    }
  }

  lemma SamePage(env: Environment, kids: Forest, c: Carried, d: Carried)
    requires StartsWithText(kids)
    ensures Same(env, Element("page", kids, Empty), c, d)
  {
    SameArrivals(env, kids, c, d);
    FirstAlone("page", kids, Empty);
    CarriedAlone(env, "page", kids, c);
    CarriedAlone(env, "page", kids, d);
    SamePageMeaning(env, kids, c, d);
  }

  lemma SamePageMeaning(env: Environment, kids: Forest, c: Carried, d: Carried)
    requires Arrivals(env, kids, c) == Arrivals(env, kids, d)
    ensures DumpMeaning(env, Element("page", kids, Empty), c) == DumpMeaning(env, Element("page", kids, Empty), d)
  {
    assert PageMeaning(env, kids, c) == PageMeaning(env, kids, d);
    CallsFirst(env, "page", kids, Empty, c);
    CallsFirst(env, "page", kids, Empty, d);
  }

  lemma SameInside(env: Environment, name: string, kids: Forest, c: Carried, d: Carried)
    requires name !in {"page", "revision"} && Same(env, kids, c, d)
    ensures Same(env, Element(name, kids, Empty), c, d)
  {
    FirstAlone(name, kids, Empty);
    CarriedAlone(env, name, kids, c);
    CarriedAlone(env, name, kids, d);
    CallsFirst(env, name, kids, Empty, c);
    CallsFirst(env, name, kids, Empty, d);
  }

  lemma {:induction false} DumpIndependent(env: Environment, open: bool, f: Forest, c: Carried, d: Carried)
    requires Valid(Outside, open, f) && StartsWithText(f)
    ensures Same(env, f, c, d)
    decreases f
  {
    match f
    case Empty =>
    case Text(_, rest) => DumpIndependent(env, open, rest, c, d);
    case Element(name, kids, rest) =>
      if name == "page" {
        SamePage(env, kids, c, d);
      } else {
        DumpIndependent(env, open || name == "contributor", kids, c, d);
        SameInside(env, name, kids, c, d);
      }
      if FirstRevision(kids).None? {
        DumpIndependent(env, open, rest, c, d);
      }
      SameOn(env, name, kids, rest, c, d);
  }

  // ---- Without one, an unknown title carried on shows up ----

  lemma {:induction false} LongerThanAll(s: set<string>) returns (n: nat)
    ensures forall t :: t in s ==> |t| < n
    decreases |s|
  {
    if s == {} {
      n := 0;
    } else {
      var t :| t in s;
      var m := LongerThanAll(s - {t});
      n := if m <= |t| then |t| + 1 else m;
    }
  }

  lemma TitlesAppend(a: Chronicle, b: Chronicle)
    ensures Titles(a + b) == Titles(a) + Titles(b)
  {
    forall k | k in Titles(a + b) ensures k in Titles(a) + Titles(b) {
      var i :| 0 <= i < |a + b| && k in (a + b)[i].citations;
      assert i < |a| ==> k in a[i].citations;
      assert i >= |a| ==> k in b[i - |a|].citations;
    }
    forall k | k in Titles(a) ensures k in Titles(a + b) {
      var i :| 0 <= i < |a| && k in a[i].citations;
      assert (a + b)[i] == a[i];
    }
    forall k | k in Titles(b) ensures k in Titles(a + b) {
      var i :| 0 <= i < |b| && k in b[i].citations;
      assert (a + b)[|a| + i] == b[i];
    }
  }

  /** Two histories of the same revisions, the second with one more citation carried into it. */
  ghost predicate Shows(h: Chronicle, k: Chronicle, x: string, e: ExtractedCitation) {
    && Titles(h) <= Titles(k)
    && (CarriedOn(h, map[]) == CarriedOn(k, map[x := e])
        || (CarriedOn(h, map[]) == map[] && CarriedOn(k, map[x := e]) == map[x := e]))
  }

  lemma ShowsAppend(h: Chronicle, k: Chronicle, i: Chronicle, j: Chronicle, x: string, e: ExtractedCitation)
    requires Shows(h, k, x, e)
    requires if CarriedOn(h, map[]) == CarriedOn(k, map[x := e]) then i == j else Shows(i, j, x, e)
    ensures Shows(h + i, k + j, x, e)
    ensures x in Titles(k) || x in Titles(j) ==> x in Titles(k + j)
  {
    TitlesAppend(h, i);
    TitlesAppend(k, j);
    CarriedAppend(h, i, map[]);
    CarriedAppend(k, j, map[x := e]);
  }

  lemma CarriedAppend(a: Chronicle, b: Chronicle, c: Carried)
    ensures CarriedOn(a + b, c) == CarriedOn(b, CarriedOn(a, c))
  {
    if b == [] {
      assert a + b == a;
    }
  }

  /** What a revision shows of the citations carried into it. */
  lemma RevisionShows(env: Environment, kids: Forest, x: string, e: ExtractedCitation)
    ensures var h, k := [RevisionMeaning(env, kids, map[])], [RevisionMeaning(env, kids, map[x := e])];
            && Shows(h, k, x, e)
            && (!HasText(kids) ==> x in Titles(k))
            && (CarriedOn(h, map[]) == CarriedOn(k, map[x := e]) <==> HasText(kids))
  {
    var h, k := [RevisionMeaning(env, kids, map[])], [RevisionMeaning(env, kids, map[x := e])];
    assert k[0].citations == if HasText(kids) then h[0].citations else map[x := e];
    assert !HasText(kids) ==> h[0].citations == map[] && x in k[0].citations && x !in h[0].citations;
    assert HasText(kids) ==> h == k;
  }

  /** The leading revisions without a text show what was carried on, and only they do. */
  lemma {:induction false} CarriedShows(env: Environment, f: Forest, x: string, e: ExtractedCitation)
    ensures Shows(Arrivals(env, f, map[]), Arrivals(env, f, map[x := e]), x, e)
    ensures FirstRevision(f).Some? && !HasText(FirstRevision(f).value) ==> x in Titles(Arrivals(env, f, map[x := e]))
  {
    match f
    case Empty =>
    case Text(_, rest) => CarriedShows(env, rest, x, e);
    case Element(name, kids, rest) =>
      if name == "revision" {
        RevisionShows(env, kids, x, e);
      } else {
        CarriedShows(env, kids, x, e);
      }
      CarriedShows(env, rest, x, e);
      var one := Element(name, kids, Empty);
      ArrivalsFirst(env, name, kids, rest, map[]);
      ArrivalsFirst(env, name, kids, rest, map[x := e]);
      var h, k := Arrivals(env, one, map[]), Arrivals(env, one, map[x := e]);
      ShowsAppend(h, k, Arrivals(env, rest, CarriedOn(h, map[])), Arrivals(env, rest, CarriedOn(k, map[x := e])), x, e);
      if name != "revision" && FirstRevision(kids).None? {
        NoRevisionNoArrival(env, kids, map[]);
        NoRevisionNoArrival(env, kids, map[x := e]);
      }
  }

  /** A page has one citation for each title of its revisions. */
  lemma CitationCount(env: Environment, page: Page, h: Chronicle)
    requires ValidEnvironment(env)
    ensures |Finished(env, page, h).page.citations| == |page.citations| + |Titles(h)|
  {
    SortKeepsRevisions(h, env.sort(h));
    var d := Summary(env.sort(h));
    assert d.Keys == Titles(h);
    assert |InTitleOrder(d)| == |d| == |d.Keys|;
  }

  lemma MoreTitlesDiffer(env: Environment, page: Page, h: Chronicle, k: Chronicle, x: string)
    requires ValidEnvironment(env) && Titles(h) <= Titles(k) && x in Titles(k) && x !in Titles(h)
    ensures Finished(env, page, h) != Finished(env, page, k)
  {
    CitationCount(env, page, h);
    CitationCount(env, page, k);
    Fewer(Titles(h), Titles(k), x);
  }

  lemma Fewer(a: set<string>, b: set<string>, x: string)
    requires a <= b && x in b && x !in a
    ensures |a| < |b|
  {
    assert |b - a| == |b| - |a|;
    assert x in b - a;
  }

  lemma {:induction false} SamePageCount(env: Environment, f: Forest, c: Carried, d: Carried)
    ensures |DumpMeaning(env, f, c)| == |DumpMeaning(env, f, d)|
  {
    match f
    case Empty =>
    case Text(_, rest) => SamePageCount(env, rest, c, d);
    case Element(name, kids, rest) =>
      SamePageCount(env, kids, c, d);
      if name == "page" {
        SamePageCount(env, rest, CarriedOn(Arrivals(env, kids, c), c), CarriedOn(Arrivals(env, kids, d), d));
      } else {
        SamePageCount(env, rest, DumpCarried(env, kids, c), DumpCarried(env, kids, d));
      }
  }

  lemma PageDependent(env: Environment, kids: Forest, e: ExtractedCitation) returns (c: Carried)
    requires ValidEnvironment(env) && FirstRevision(kids).Some? && !StartsWithText(kids)
    ensures PageMeaning(env, kids, map[]) != PageMeaning(env, kids, c)
  {
    var h := Arrivals(env, kids, map[]);
    var n := LongerThanAll(Titles(h));
    var x := seq(n, _ => 'x');
    c := map[x := e];
    CarriedShows(env, kids, x, e);
    MoreTitlesDiffer(env, PageRecord(PageFields(kids, false, false)), h, Arrivals(env, kids, c), x);
  }

  lemma {:induction false} DumpDependent(env: Environment, open: bool, f: Forest, e: ExtractedCitation)
    returns (c: Carried)
    requires ValidEnvironment(env) && Valid(Outside, open, f) && !StartsWithText(f)
    ensures DumpMeaning(env, f, map[]) != DumpMeaning(env, f, c)
    decreases f
  {
    match f
    case Text(_, rest) => c := DumpDependent(env, open, rest, e);
    case Element(name, kids, rest) =>
      if FirstRevision(kids).Some? && name == "page" {
        c := PageDependent(env, kids, e);
        assert DumpMeaning(env, f, map[])[0] != DumpMeaning(env, f, c)[0];
      } else if FirstRevision(kids).Some? {
        c := DumpDependent(env, open || name == "contributor", kids, e);
        SamePageCount(env, kids, map[], c);
        var n := |DumpMeaning(env, kids, c)|;
        assert DumpMeaning(env, f, map[])[..n] == DumpMeaning(env, kids, map[]);
        assert DumpMeaning(env, f, c)[..n] == DumpMeaning(env, kids, c);
      } else {
        c := DumpDependent(env, open, rest, e);
        var one := Element(name, kids, Empty);
        NoRevisionNoCarry(env, one, map[]);
        NoRevisionNoCarry(env, one, c);
        DumpIndependent(env, open, one, map[], c);
        CallsFirst(env, name, kids, rest, map[]);
        CallsFirst(env, name, kids, rest, c);
        var head := DumpMeaning(env, one, c);
        assert DumpMeaning(env, f, map[])[|head|..] == DumpMeaning(env, rest, map[]);
        assert DumpMeaning(env, f, c)[|head|..] == DumpMeaning(env, rest, c);
      }
  }

  /** A dump means the same after anything else exactly when its first revision, if any, has a text. */
  lemma IndependentExactly(env: Environment, f: Forest)
    requires ValidEnvironment(env) && Valid(Outside, false, f)
    ensures Independent(env, f) <==> StartsWithText(f)
  {
    if StartsWithText(f) {
      forall c, d ensures DumpMeaning(env, f, c) == DumpMeaning(env, f, d) {
        DumpIndependent(env, false, f, c, d);
      }
    } else {
      var c := DumpDependent(env, false, f, ExtractedCitation(None, None, []));
    }
  }

  /** Two dumps read in a row store what each stores alone, once the second starts with a text. */
  lemma Compositional(env: Environment, a: Forest, b: Forest, carried: Carried)
    requires Valid(Outside, false, b) && StartsWithText(b)
    ensures DumpMeaning(env, Append(a, b), carried) == DumpMeaning(env, a, carried) + DumpMeaning(env, b, map[])
  {
    MeaningAppend(env, a, b, carried);
    DumpIndependent(env, false, b, DumpCarried(env, a, carried), map[]);
  }
}
