/**
  SAX decoding undoes serialisation: the handlers, run over the events of a dump, arrive at what
  the dump means.
 */
module Decoding {
  import opened Wrappers
  import opened Numbers
  import opened History
  import opened Dump
  import opened Document

  // ---- Runs ----

  lemma RunOn(env: Environment, m: Machine, a: seq<Event>, n: Machine, b: seq<Event>)
    requires Run(env, m, a) == Ok(n)
    ensures Run(env, m, a + b) == Run(env, n, b)
  {
    RunAppend(env, m, a, b);
  }

  lemma RunStops(env: Environment, m: Machine, a: seq<Event>, b: seq<Event>)
    requires Run(env, m, a) == Err
    ensures Run(env, m, a + b) == Err
  {
    RunAppend(env, m, a, b);
  }

  lemma RunOne(env: Environment, m: Machine, e: Event)
    ensures Run(env, m, [e]) == Step(env, m, e)
  {
    assert [e][1..] == [];
    if Step(env, m, e).Ok? {
      assert Run(env, Step(env, m, e).value, []) == Step(env, m, e);
    }
  }

  lemma RunWithin(env: Environment, m: Machine, name: string, events: seq<Event>, n: Machine)
    requires Run(env, StartStep(m, name), events) == Ok(n)
    ensures Run(env, m, Within(name, events)) == EndStep(env, n, name)
  {
    var tail := events + [End(name)];
    assert Within(name, events) == [Start(name)] + tail;
    RunOn(env, StartStep(m, name), events, n, [End(name)]);
    RunOne(env, n, End(name));
    assert ([Start(name)] + tail)[1..] == tail;
  }

  lemma RunWithinStops(env: Environment, m: Machine, name: string, events: seq<Event>)
    requires Run(env, StartStep(m, name), events) == Err
    ensures Run(env, m, Within(name, events)) == Err
  {
    var tail := events + [End(name)];
    assert Within(name, events) == [Start(name)] + tail;
    RunStops(env, StartStep(m, name), events, [End(name)]);
    assert ([Start(name)] + tail)[1..] == tail;
  }

  /** Character data that is not listened to changes nothing. */
  lemma RunText(env: Environment, m: Machine, text: string, events: seq<Event>)
    requires !m.shouldStore
    ensures Run(env, m, [Characters(text)] + events) == Run(env, m, events)
  {
    assert ([Characters(text)] + events)[1..] == events;
  }

  // ---- Fields ----

  /** However the character data is cut up, it is collected whole. */
  lemma {:induction false} ChunksCollected(env: Environment, m: Machine, f: Forest)
    requires m.shouldStore && TextOnly(f)
    ensures Run(env, m, Events(f)) == Ok(m.(textBuf := m.textBuf + CharsOf(f)))
    decreases f
  {
    match f
    case Empty =>
      assert m.textBuf + "" == m.textBuf;
    case Text(text, rest) =>
      assert Events(f)[1..] == Events(rest);
      ChunksCollected(env, m.(textBuf := m.textBuf + text), rest);
      assert (m.textBuf + text) + CharsOf(rest) == m.textBuf + CharsOf(f);
  }

  /** A field element amounts to its end, with its whole text in the buffer. */
  lemma FieldRun(env: Environment, m: Machine, name: string, kids: Forest)
    requires name !in STRUCTURE && !m.shouldStore && StoresText(m, name) && TextOnly(kids)
    ensures Run(env, m, Within(name, Events(kids)))
         == match FieldStep(env, m.(textBuf := CharsOf(kids), shouldStore := true), name)
            case Err => Err
            case Ok(n) => Ok(n.(shouldStore := false))
  {
    var s := StartStep(m, name);
    ChunksCollected(env, s, kids);
    assert "" + CharsOf(kids) == CharsOf(kids);
    RunWithin(env, m, name, Events(kids), s.(textBuf := CharsOf(kids)));
  }

  /** The content of a field has nothing else to tell. */
  lemma {:induction false} TextIsSilent(f: Forest, inRevision: bool, inContributor: bool)
    requires TextOnly(f)
    ensures PageFields(f, inRevision, inContributor) == [] == RevisionFields(f, inContributor)
    ensures !HasContributor(f)
  {
    if f.Text? {
      TextIsSilent(f.rest, inRevision, inContributor);
    }
  }

  // ---- Telling fields one stretch after the other ----

  lemma {:induction false} LastTextAppend(a: seq<Field>, b: seq<Field>, name: string)
    ensures LastText(a + b, name) == if LastText(b, name).Some? then LastText(b, name) else LastText(a, name)
    decreases |b|
  {
    if b == [] {
      assert a + b == a;
    } else {
      assert (a + b)[..|a + b| - 1] == a + b[..|b| - 1];
      LastTextAppend(a, b[..|b| - 1], name);
    }
  }

  lemma TellPageAppend(page: Page, a: seq<Field>, b: seq<Field>)
    ensures TellPage(TellPage(page, a), b) == TellPage(page, a + b)
  {
    LastTextAppend(a, b, "title");
    LastTextAppend(a, b, "id");
  }

  lemma TellRevisionAppend(env: Environment, r: Revision, a: seq<Field>, b: seq<Field>)
    ensures TellRevision(env, TellRevision(env, r, a), b) == TellRevision(env, r, a + b)
  {
    LastTextAppend(a, b, "id");
    LastTextAppend(a, b, "parentid");
    LastTextAppend(a, b, "username");
    LastTextAppend(a, b, "timestamp");
  }

  lemma CitationsAppend(env: Environment, a: seq<Field>, b: seq<Field>, carried: Carried)
    ensures CitationsAfter(env, b, CitationsAfter(env, a, carried)) == CitationsAfter(env, a + b, carried)
  {
    LastTextAppend(a, b, "text");
  }

  lemma FieldsOkAppend(env: Environment, a: seq<Field>, b: seq<Field>)
    ensures FieldsOk(env, a + b) <==> FieldsOk(env, a) && FieldsOk(env, b)
  {
    if FieldsOk(env, a + b) {
      assert forall i :: 0 <= i < |a| ==> (a + b)[i] == a[i];
      assert forall i :: 0 <= i < |b| ==> (a + b)[|a| + i] == b[i];
    }
  }

  /** What an element tells comes before what follows it tells. */
  lemma ElementFirst(name: string, kids: Forest, rest: Forest, inRevision: bool, inContributor: bool)
    ensures var one, after := Element(name, kids, Empty), inContributor && !Closes(name, kids);
            && PageFields(Element(name, kids, rest), inRevision, inContributor)
               == PageFields(one, inRevision, inContributor) + PageFields(rest, inRevision, after)
            && RevisionFields(Element(name, kids, rest), inContributor)
               == RevisionFields(one, inContributor) + RevisionFields(rest, after)
            && (Closes(name, kids) <==> HasContributor(one))
  {
    ElementAlone(name, kids, inRevision, inContributor);
  }

  /** An element alone tells itself if it is a field, and what is in it otherwise. */
  lemma ElementAlone(name: string, kids: Forest, inRevision: bool, inContributor: bool)
    ensures var one, inside := Element(name, kids, Empty), inContributor || name == "contributor";
            && PageFields(one, inRevision, inContributor)
               == OwnPageField(name, kids, inRevision, inContributor)
                  + PageFields(kids, inRevision || name == "revision", inside)
            && RevisionFields(one, inContributor)
               == OwnRevisionField(name, kids, inContributor) + RevisionFields(kids, inside)
  {
    var inside := inContributor || name == "contributor";
    NoMore(OwnPageField(name, kids, inRevision, inContributor)
           + PageFields(kids, inRevision || name == "revision", inside));
    NoMore(OwnRevisionField(name, kids, inContributor) + RevisionFields(kids, inside));
  }

  /** A field alone tells itself, */
  lemma FieldAlone(name: string, kids: Forest, inRevision: bool, inContributor: bool)
    requires TextOnly(kids)
    ensures var one := Element(name, kids, Empty);
            && PageFields(one, inRevision, inContributor) == OwnPageField(name, kids, inRevision, inContributor)
            && RevisionFields(one, inContributor) == OwnRevisionField(name, kids, inContributor)
            && HasContributor(one) == (name == "contributor")
  {
    ElementAlone(name, kids, inRevision, inContributor);
    TextIsSilent(kids, inRevision || name == "revision", inContributor || name == "contributor");
    NoMore(OwnPageField(name, kids, inRevision, inContributor));
    NoMore(OwnRevisionField(name, kids, inContributor));
  }

  /** and an element that is no field tells what is in it. */
  lemma OtherAlone(name: string, kids: Forest, inRevision: bool, inContributor: bool)
    requires name !in PAGE_FIELDS
    ensures var one, inside := Element(name, kids, Empty), inContributor || name == "contributor";
            && PageFields(one, inRevision, inContributor) == PageFields(kids, inRevision || name == "revision", inside)
            && (name !in REVISION_FIELDS ==> RevisionFields(one, inContributor) == RevisionFields(kids, inside))
            && HasContributor(one) == Closes(name, kids)
  {
    ElementAlone(name, kids, inRevision, inContributor);
  }

  lemma NoMore(a: seq<Field>)
    ensures a + [] == a
  {
  }

  // ---- A revision ----

  /** Inside a revision, between two of its elements; `open` says that a contributor is around. */
  ghost predicate InsideRevision(m: Machine, open: bool) {
    m.inPage && m.inRevision && !m.shouldStore && (m.inContributor ==> open)
  }

  /** The machine, told fields of the page and of the revision. */
  ghost function RevisionTold(env: Environment, m: Machine, page: seq<Field>, revision: seq<Field>,
                              inContributor: bool, t: string): Machine {
    m.(page := TellPage(m.page, page),
       revision := TellRevision(env, m.revision, revision),
       carried := CitationsAfter(env, revision, m.carried),
       inContributor := inContributor,
       textBuf := t)
  }

  lemma RevisionToldTwice(env: Environment, m: Machine, p1: seq<Field>, r1: seq<Field>, c1: bool, t1: string,
                          p2: seq<Field>, r2: seq<Field>, c2: bool, t2: string)
    ensures RevisionTold(env, RevisionTold(env, m, p1, r1, c1, t1), p2, r2, c2, t2)
         == RevisionTold(env, m, p1 + p2, r1 + r2, c2, t2)
  {
    TellPageAppend(m.page, p1, p2);
    TellRevisionAppend(env, m.revision, r1, r2);
    CitationsAppend(env, r1, r2, m.carried);
  }

  lemma OneField(env: Environment, f: Field, name: string)
    ensures LastText([f], name) == if f.name == name then Some(f.text) else None
    ensures FieldsOk(env, [f]) <==> FieldOk(env, f)
  {
    assert [f][0] == f;
    assert [f][..0] == [];
  }

  /** Telling one field sets it and nothing else. */
  lemma TellOne(env: Environment, page: Page, r: Revision, carried: Carried, f: Field)
    ensures FieldsOk(env, [f]) <==> FieldOk(env, f)
    ensures TellPage(page, [f])
         == if f.name == "title" then page.(title := f.text)
            else if f.name == "id" then page.(id := IdValue(f.text)) else page
    ensures TellRevision(env, r, [f])
         == if f.name == "id" then r.(id := IdValue(f.text))
            else if f.name == "parentid" then r.(parentId := Some(IdValue(f.text)))
            else if f.name == "username" then r.(user := Some(f.text))
            else if f.name == "timestamp" then r.(timestamp := Some(env.timestampOf(f.text))) else r
    ensures f.name != "text" ==> CitationsAfter(env, [f], carried) == carried
    ensures f.name == "text" && env.parse(f.text).Ok? ==> CitationsAfter(env, [f], carried) == env.parse(f.text).value
  {
    OneField(env, f, "title");
    OneField(env, f, "id");
    OneField(env, f, "parentid");
    OneField(env, f, "username");
    OneField(env, f, "timestamp");
    OneField(env, f, "text");
  }

  lemma ToldNothing(env: Environment, m: Machine, t: string)
    ensures RevisionTold(env, m, [], [], m.inContributor, t) == m.(textBuf := t)
    ensures TellPage(m.page, []) == m.page
    ensures FieldsOk(env, [])
  {}

  /** A field heard in a revision: the page's title, or a field of the revision, or a contributor's id. */
  lemma RevisionFieldRun(env: Environment, m: Machine, name: string, kids: Forest)
    requires InsideRevision(m, true) && Heard(InRevision, name) && TextOnly(kids)
    ensures Run(env, m, Within(name, Events(kids)))
         == var page := OwnPageField(name, kids, true, m.inContributor);
            var own := OwnRevisionField(name, kids, m.inContributor);
            if FieldsOk(env, own) then Ok(RevisionTold(env, m, page, own, m.inContributor, CharsOf(kids))) else Err
  {
    FieldRun(env, m, name, kids);
    TellOne(env, m.page, m.revision, m.carried, Field(name, CharsOf(kids)));
  }

  /** What the content of a revision does: it tells its fields, and contributors in it clear the flag. */
  ghost predicate RevisionReads(env: Environment, m: Machine, f: Forest, events: seq<Event>, t: string) {
    Run(env, m, events)
    == if FieldsOk(env, RevisionFields(f, m.inContributor)) then
         Ok(RevisionTold(env, m, PageFields(f, true, m.inContributor), RevisionFields(f, m.inContributor),
                         m.inContributor && !HasContributor(f), t))
       else Err
  }

  lemma {:induction false} RevisionRun(env: Environment, m: Machine, open: bool, f: Forest) returns (t: string)
    requires InsideRevision(m, open) && Valid(InRevision, open, f)
    ensures RevisionReads(env, m, f, Events(f), t)
    decreases f, 0
  {
    match f
    case Empty =>
      ToldNothing(env, m, m.textBuf);
      t := m.textBuf;
    case Text(text, rest) =>
      RunText(env, m, text, Events(rest));
      t := RevisionRun(env, m, open, rest);
    case Element(name, kids, rest) =>
      var u := RevisionElementRun(env, m, open, name, kids);
      t := RevisionRest(env, m, open, name, kids, rest, u);
  }

  lemma {:induction false} RevisionRest(env: Environment, m: Machine, open: bool, name: string, kids: Forest,
                                        rest: Forest, u: string) returns (t: string)
    requires InsideRevision(m, open) && Valid(InRevision, open, Element(name, kids, rest))
    requires RevisionReads(env, m, Element(name, kids, Empty), Within(name, Events(kids)), u)
    ensures RevisionReads(env, m, Element(name, kids, rest), Within(name, Events(kids)) + Events(rest), t)
    decreases rest, 1
  {
    var one := Element(name, kids, Empty);
    var c := m.inContributor && !HasContributor(one);
    var p1, r1 := PageFields(one, true, m.inContributor), RevisionFields(one, m.inContributor);
    var p2, r2 := PageFields(rest, true, c), RevisionFields(rest, c);
    ElementFirst(name, kids, rest, true, m.inContributor);
    FieldsOkAppend(env, r1, r2);
    t := "";
    if FieldsOk(env, r1) {
      var n := RevisionTold(env, m, p1, r1, c, u);
      RunOn(env, m, Within(name, Events(kids)), n, Events(rest));
      t := RevisionRun(env, n, open, rest);
      RevisionToldTwice(env, m, p1, r1, c, u, p2, r2, c && !HasContributor(rest), t);
    } else {
      RunStops(env, m, Within(name, Events(kids)), Events(rest));
    }
  }

  lemma {:induction false} RevisionElementRun(env: Environment, m: Machine, open: bool, name: string, kids: Forest)
    returns (t: string)
    requires InsideRevision(m, open) && Valid(InRevision, open, Element(name, kids, Empty))
    ensures RevisionReads(env, m, Element(name, kids, Empty), Within(name, Events(kids)), t)
    decreases kids, 1
  {
    if Heard(InRevision, name) {
      RevisionFieldReads(env, m, name, kids);
      t := CharsOf(kids);
    } else {
      t := RevisionRun(env, StartStep(m, name), open || name == "contributor", kids);
      RevisionReadsAround(env, m, name, kids, t);
    }
  }

  lemma RevisionFieldReads(env: Environment, m: Machine, name: string, kids: Forest)
    requires InsideRevision(m, true) && Heard(InRevision, name) && TextOnly(kids)
    ensures RevisionReads(env, m, Element(name, kids, Empty), Within(name, Events(kids)), CharsOf(kids))
  {
    RevisionFieldRun(env, m, name, kids);
    FieldAlone(name, kids, true, m.inContributor);
  }

  /** An element that is not heard does what its content does; a contributor clears the flag in the end. */
  lemma RevisionReadsAround(env: Environment, m: Machine, name: string, kids: Forest, t: string)
    requires InsideRevision(m, true) && !Heard(InRevision, name) && name !in {"page", "revision"}
    requires RevisionReads(env, StartStep(m, name), kids, Events(kids), t)
    ensures RevisionReads(env, m, Element(name, kids, Empty), Within(name, Events(kids)), t)
  {
    var s := StartStep(m, name);
    OtherAlone(name, kids, true, m.inContributor);
    if FieldsOk(env, RevisionFields(kids, s.inContributor)) {
      var n := Run(env, s, Events(kids)).value;
      RunWithin(env, m, name, Events(kids), n);
      assert EndStep(env, n, name) == Ok(n.(inContributor := n.inContributor && name != "contributor"));
    } else {
      RunWithinStops(env, m, name, Events(kids));
    }
  }

  // ---- A page ----

  /** Inside a page and outside its revisions, between two elements. */
  ghost predicate InsidePage(m: Machine, open: bool) {
    m.inPage && !m.inRevision && !m.shouldStore && m.revision == EMPTY_REVISION && (m.inContributor ==> open)
  }

  /** The machine, told fields of the page and some more revisions of it. */
  function PageTold(m: Machine, fields: seq<Field>, h: Chronicle, inContributor: bool, t: string): Machine {
    m.(page := TellPage(m.page, fields),
       arrived := m.arrived + h,
       carried := CarriedOn(h, m.carried),
       inContributor := inContributor,
       textBuf := t)
  }

  lemma PageToldTwice(m: Machine, f1: seq<Field>, h1: Chronicle, c1: bool, t1: string,
                      f2: seq<Field>, h2: Chronicle, c2: bool, t2: string)
    ensures PageTold(PageTold(m, f1, h1, c1, t1), f2, h2, c2, t2) == PageTold(m, f1 + f2, h1 + h2, c2, t2)
  {
    TellPageAppend(m.page, f1, f2);
    assert (m.arrived + h1) + h2 == m.arrived + (h1 + h2);
    assert h2 == [] ==> h1 + h2 == h1;
  }

  /** What the content of a page does: it tells its fields and its revisions. */
  ghost predicate PageReads(env: Environment, m: Machine, f: Forest, events: seq<Event>, t: string) {
    Run(env, m, events)
    == if PageOk(env, f, m.inContributor) then
         Ok(PageTold(m, PageFields(f, false, m.inContributor), Arrivals(env, f, m.carried),
                     m.inContributor && !HasContributor(f), t))
       else Err
  }

  lemma {:induction false} PageRun(env: Environment, m: Machine, open: bool, f: Forest) returns (t: string)
    requires InsidePage(m, open) && Valid(InPage, open, f)
    ensures PageReads(env, m, f, Events(f), t)
    decreases f, 0
  {
    match f
    case Empty =>
      t := m.textBuf;
      ToldNothing(env, m, t);
      assert m.arrived + [] == m.arrived;
    case Text(text, rest) =>
      RunText(env, m, text, Events(rest));
      t := PageRun(env, m, open, rest);
    case Element(name, kids, rest) =>
      var u := PageElementRun(env, m, open, name, kids);
      t := PageRest(env, m, open, name, kids, rest, u);
  }

  /** What an element says of the page's history comes before what follows it says. */
  lemma ArrivalsFirst(env: Environment, name: string, kids: Forest, rest: Forest, carried: Carried)
    ensures var h := Arrivals(env, Element(name, kids, Empty), carried);
            && Arrivals(env, Element(name, kids, rest), carried) == h + Arrivals(env, rest, CarriedOn(h, carried))
            && h == if name == "revision" then [RevisionMeaning(env, kids, carried)] else Arrivals(env, kids, carried)
  {
    var h := if name == "revision" then [RevisionMeaning(env, kids, carried)] else Arrivals(env, kids, carried);
    assert h + [] == h;
  }

  lemma {:induction false} PageRest(env: Environment, m: Machine, open: bool, name: string, kids: Forest, rest: Forest,
                                    u: string) returns (t: string)
    requires InsidePage(m, open) && Valid(InPage, open, Element(name, kids, rest))
    requires PageReads(env, m, Element(name, kids, Empty), Within(name, Events(kids)), u)
    ensures PageReads(env, m, Element(name, kids, rest), Within(name, Events(kids)) + Events(rest), t)
    decreases rest, 1
  {
    var one := Element(name, kids, Empty);
    var c := m.inContributor && !HasContributor(one);
    ElementFirst(name, kids, rest, false, m.inContributor);
    ArrivalsFirst(env, name, kids, rest, m.carried);
    assert PageOk(env, Element(name, kids, rest), m.inContributor)
        == (PageOk(env, one, m.inContributor) && PageOk(env, rest, c));
    t := "";
    if PageOk(env, one, m.inContributor) {
      var p1, h1 := PageFields(one, false, m.inContributor), Arrivals(env, one, m.carried);
      var n := PageTold(m, p1, h1, c, u);
      RunOn(env, m, Within(name, Events(kids)), n, Events(rest));
      t := PageRun(env, n, open, rest);
      PageToldTwice(m, p1, h1, c, u, PageFields(rest, false, c), Arrivals(env, rest, n.carried),
                    c && !HasContributor(rest), t);
    } else {
      RunStops(env, m, Within(name, Events(kids)), Events(rest));
    }
  }

  lemma {:induction false} PageElementRun(env: Environment, m: Machine, open: bool, name: string, kids: Forest)
    returns (t: string)
    requires InsidePage(m, open) && Valid(InPage, open, Element(name, kids, Empty))
    ensures PageReads(env, m, Element(name, kids, Empty), Within(name, Events(kids)), t)
    decreases kids, 1
  {
    ArrivalsFirst(env, name, kids, Empty, m.carried);
    if name == "revision" {
      t := RevisionWhole(env, m, kids);
    } else if Heard(InPage, name) {
      PageFieldRun(env, m, name, kids);
      t := CharsOf(kids);
    } else {
      var s := StartStep(m, name);
      OtherAlone(name, kids, false, m.inContributor);
      t := PageRun(env, s, open || name == "contributor", kids);
      if PageOk(env, kids, s.inContributor) {
        RunWithin(env, m, name, Events(kids), Run(env, s, Events(kids)).value);
      } else {
        RunWithinStops(env, m, name, Events(kids));
      }
    }
  }

  /** A whole revision: one more arrival, or no parse if it has a bad field. */
  lemma RevisionWhole(env: Environment, m: Machine, kids: Forest) returns (t: string)
    requires InsidePage(m, false) && Valid(InRevision, false, kids)
    ensures PageReads(env, m, Element("revision", kids, Empty), Within("revision", Events(kids)), t)
  {
    OtherAlone("revision", kids, false, false);
    ArrivalsFirst(env, "revision", kids, Empty, m.carried);
    var one := Element("revision", kids, Empty);
    assert PageOk(env, one, false) <==> FieldsOk(env, RevisionFields(kids, false));
    var s := StartStep(m, "revision");
    t := RevisionRun(env, s, false, kids);
    if FieldsOk(env, RevisionFields(kids, false)) {
      RunWithin(env, m, "revision", Events(kids), Run(env, s, Events(kids)).value);
    } else {
      RunWithinStops(env, m, "revision", Events(kids));
    }
  }

  /** A field heard in a page: its title, or an id that is not a contributor's. */
  lemma PageFieldRun(env: Environment, m: Machine, name: string, kids: Forest)
    requires InsidePage(m, true) && Heard(InPage, name) && TextOnly(kids)
    ensures PageReads(env, m, Element(name, kids, Empty), Within(name, Events(kids)), CharsOf(kids))
  {
    FieldAlone(name, kids, false, m.inContributor);
    NothingArrives(env, kids, m.carried, m.inContributor);
    FieldRun(env, m, name, kids);
    TellOne(env, m.page, m.revision, m.carried, Field(name, CharsOf(kids)));
    ToldNothing(env, m, "");
    ArrivalsFirst(env, name, kids, Empty, m.carried);
    assert m.arrived + [] == m.arrived;
  }

  lemma {:induction false} NothingArrives(env: Environment, f: Forest, carried: Carried, inContributor: bool)
    requires TextOnly(f)
    ensures Arrivals(env, f, carried) == [] && PageOk(env, f, inContributor)
  {
    if f.Text? {
      NothingArrives(env, f.rest, carried, inContributor);
    }
  }

  // ---- A dump ----

  /** Outside every page, between two elements. */
  ghost predicate InsideDump(m: Machine, open: bool) {
    && !m.inPage && !m.inRevision && !m.shouldStore && (m.inContributor ==> open)
    && m.arrived == [] && m.page == EMPTY_PAGE && m.revision == EMPTY_REVISION
  }

  /** The machine, some stored pages later. */
  function DumpTold(m: Machine, calls: seq<StoreCall>, carried: Carried, inContributor: bool, t: string): Machine {
    m.(calls := m.calls + calls, carried := carried, inContributor := inContributor, textBuf := t)
  }

  /** What the content of a dump does: it stores its pages. */
  ghost predicate DumpReads(env: Environment, m: Machine, f: Forest, events: seq<Event>, t: string) {
    Run(env, m, events)
    == if DumpOk(env, f) then
         Ok(DumpTold(m, DumpMeaning(env, f, m.carried), DumpCarried(env, f, m.carried),
                     m.inContributor && !HasContributor(f), t))
       else Err
  }

  lemma {:induction false} DumpRun(env: Environment, m: Machine, open: bool, f: Forest) returns (t: string)
    requires InsideDump(m, open) && Valid(Outside, open, f)
    ensures DumpReads(env, m, f, Events(f), t)
    decreases f, 0
  {
    match f
    case Empty =>
      t := m.textBuf;
      assert m.calls + [] == m.calls;
    case Text(text, rest) =>
      RunText(env, m, text, Events(rest));
      t := DumpRun(env, m, open, rest);
    case Element(name, kids, rest) =>
      var u := DumpElementRun(env, m, open, name, kids);
      t := DumpRest(env, m, open, name, kids, rest, u);
  }

  lemma CarriedFirst(env: Environment, name: string, kids: Forest, rest: Forest, carried: Carried)
    ensures var one := Element(name, kids, Empty);
            && DumpCarried(env, Element(name, kids, rest), carried)
               == DumpCarried(env, rest, DumpCarried(env, one, carried))
            && (DumpOk(env, Element(name, kids, rest)) <==> DumpOk(env, one) && DumpOk(env, rest))
            && (HasContributor(Element(name, kids, rest)) <==> HasContributor(one) || HasContributor(rest))
  {
  }

  lemma CarriedAlone(env: Environment, name: string, kids: Forest, carried: Carried)
    ensures DumpCarried(env, Element(name, kids, Empty), carried)
         == if name == "page" then CarriedOn(Arrivals(env, kids, carried), carried) else DumpCarried(env, kids, carried)
  {
    var after := if name == "page" then CarriedOn(Arrivals(env, kids, carried), carried)
                 else DumpCarried(env, kids, carried);
    assert DumpCarried(env, Empty, after) == after;
  }

  /** The pages of an element come before those of what follows it. */
  lemma CallsFirst(env: Environment, name: string, kids: Forest, rest: Forest, carried: Carried)
    ensures var one, after := Element(name, kids, Empty), DumpCarried(env, Element(name, kids, Empty), carried);
            && DumpMeaning(env, Element(name, kids, rest), carried)
               == DumpMeaning(env, one, carried) + DumpMeaning(env, rest, after)
            && DumpMeaning(env, one, carried)
               == (if name == "page" then [PageMeaning(env, kids, carried)] else DumpMeaning(env, kids, carried))
  {
    var calls := if name == "page" then [PageMeaning(env, kids, carried)] else DumpMeaning(env, kids, carried);
    assert calls + [] == calls;
  }

  lemma {:induction false} DumpRest(env: Environment, m: Machine, open: bool, name: string, kids: Forest, rest: Forest,
                                    u: string) returns (t: string)
    requires InsideDump(m, open) && Valid(Outside, open, Element(name, kids, rest))
    requires DumpReads(env, m, Element(name, kids, Empty), Within(name, Events(kids)), u)
    ensures DumpReads(env, m, Element(name, kids, rest), Within(name, Events(kids)) + Events(rest), t)
    decreases rest, 1
  {
    var one := Element(name, kids, Empty);
    CallsFirst(env, name, kids, rest, m.carried);
    CarriedFirst(env, name, kids, rest, m.carried);
    t := "";
    if DumpOk(env, one) {
      var calls := DumpMeaning(env, one, m.carried);
      var n := DumpTold(m, calls, DumpCarried(env, one, m.carried), m.inContributor && !HasContributor(one), u);
      RunOn(env, m, Within(name, Events(kids)), n, Events(rest));
      t := DumpRun(env, n, open, rest);
      Assoc(m.calls, calls, DumpMeaning(env, rest, n.carried));
    } else {
      RunStops(env, m, Within(name, Events(kids)), Events(rest));
    }
  }

  lemma {:induction false} DumpElementRun(env: Environment, m: Machine, open: bool, name: string, kids: Forest)
    returns (t: string)
    requires InsideDump(m, open) && Valid(Outside, open, Element(name, kids, Empty))
    ensures DumpReads(env, m, Element(name, kids, Empty), Within(name, Events(kids)), t)
    decreases kids, 1
  {
    CallsFirst(env, name, kids, Empty, m.carried);
    if name == "page" {
      t := PageWhole(env, m, kids);
    } else {
      var s := StartStep(m, name);
      t := DumpRun(env, s, open || name == "contributor", kids);
      if DumpOk(env, kids) {
        RunWithin(env, m, name, Events(kids), Run(env, s, Events(kids)).value);
      } else {
        RunWithinStops(env, m, name, Events(kids));
      }
    }
  }

  /** A whole page: one more stored page, or no parse if it has a bad field. */
  lemma PageWhole(env: Environment, m: Machine, kids: Forest) returns (t: string)
    requires InsideDump(m, false) && Valid(InPage, false, kids)
    ensures DumpReads(env, m, Element("page", kids, Empty), Within("page", Events(kids)), t)
  {
    CallsFirst(env, "page", kids, Empty, m.carried);
    var s := StartStep(m, "page");
    t := PageRun(env, s, false, kids);
    if PageOk(env, kids, false) {
      assert [] + Arrivals(env, kids, m.carried) == Arrivals(env, kids, m.carried);
      RunWithin(env, m, "page", Events(kids), Run(env, s, Events(kids)).value);
    } else {
      RunWithinStops(env, m, "page", Events(kids));
    }
  }

  /**
    Over the events of a dump, the handlers store what the dump means, and abort exactly when an id
    that is told is not a number or a text does not parse. They end as they began, whatever was read before.
   */
  lemma DecodingIsMeaning(env: Environment, f: Forest, carried: Carried, textBuf: string) returns (t: string)
    requires Valid(Outside, false, f)
    ensures Run(env, Begin(carried, textBuf), Events(f))
         == if DumpOk(env, f) then
              Ok(Begin(DumpCarried(env, f, carried), t).(calls := DumpMeaning(env, f, carried)))
            else Err
  {
    t := DumpRun(env, Begin(carried, textBuf), false, f);
    assert [] + DumpMeaning(env, f, carried) == DumpMeaning(env, f, carried);
  }

  // ---- Contributors ----

  /** Without a contributor inside it, a contributor tells no id. */
  lemma {:induction false} ContributorTellsNoId(kids: Forest, inRevision: bool)
    requires !HasContributor(kids)
    ensures forall i :: 0 <= i < |PageFields(kids, inRevision, true)| ==>
              PageFields(kids, inRevision, true)[i].name != "id"
    ensures forall i :: 0 <= i < |RevisionFields(kids, true)| ==> RevisionFields(kids, true)[i].name != "id"
  {
    match kids
    case Empty =>
    case Text(_, rest) => ContributorTellsNoId(rest, inRevision);
    case Element(name, inner, rest) =>
      ContributorTellsNoId(inner, inRevision || name == "revision");
      ContributorTellsNoId(inner, inRevision);
      ContributorTellsNoId(rest, inRevision);
  }

  lemma {:induction false} NotNamed(fields: seq<Field>, name: string)
    requires forall i :: 0 <= i < |fields| ==> fields[i].name != name
    ensures LastText(fields, name).None?
  {
    if fields != [] {
      NotNamed(fields[..|fields| - 1], name);
    }
  }

  lemma {:induction false} ContributorNeverAborts(env: Environment, kids: Forest)
    requires Valid(InPage, true, kids) && !HasContributor(kids)
    ensures PageOk(env, kids, true)
  {
    match kids
    case Empty =>
    case Text(_, rest) => ContributorNeverAborts(env, rest);
    case Element(name, inner, rest) =>
      ContributorNeverAborts(env, rest);
      if Heard(InPage, name) {
        NothingArrives(env, inner, map[], true);
      } else {
        ContributorNeverAborts(env, inner);
      }
  }

  lemma {:induction false} NoRevisionInContributor(env: Environment, kids: Forest, carried: Carried)
    requires Valid(InPage, true, kids)
    ensures Arrivals(env, kids, carried) == []
  {
    match kids
    case Empty =>
    case Text(_, rest) => NoRevisionInContributor(env, rest, carried);
    case Element(name, inner, rest) =>
      NoRevisionInContributor(env, rest, carried);
      if Heard(InPage, name) {
        NothingArrives(env, inner, carried, true);
      } else {
        NoRevisionInContributor(env, inner, carried);
      }
  }

  /**
    A contributor that stands in a page, outside its revisions, leaves the page's id and revisions as
    they are, whatever ids it holds and whether or not they are numbers.
   */
  lemma ContributorInPage(env: Environment, m: Machine, kids: Forest) returns (n: Machine)
    requires InsidePage(m, false) && Valid(InPage, true, kids) && !HasContributor(kids)
    ensures Run(env, m, Within("contributor", Events(kids))) == Ok(n)
    ensures n.page.id == m.page.id && n.arrived == m.arrived && n.carried == m.carried && InsidePage(n, false)
  {
    var one := Element("contributor", kids, Empty);
    var t := PageElementRun(env, m, false, "contributor", kids);
    ContributorNeverAborts(env, kids);
    NoRevisionInContributor(env, kids, m.carried);
    ArrivalsFirst(env, "contributor", kids, Empty, m.carried);
    assert PageOk(env, one, false);
    ElementAlone("contributor", kids, false, false);
    ContributorTellsNoId(kids, false);
    NotNamed(PageFields(one, false, false), "id");
    n := PageTold(m, PageFields(one, false, false), [], false, t);
    assert m.arrived + [] == m.arrived;
  }

  lemma {:induction false} FieldsAppend(f: Forest, g: Forest, inRevision: bool, inContributor: bool)
    ensures PageFields(Append(f, g), inRevision, inContributor)
         == PageFields(f, inRevision, inContributor) + PageFields(g, inRevision, inContributor && !HasContributor(f))
    ensures RevisionFields(Append(f, g), inContributor)
         == RevisionFields(f, inContributor) + RevisionFields(g, inContributor && !HasContributor(f))
  {
    match f
    case Empty =>
    case Text(_, rest) => FieldsAppend(rest, g, inRevision, inContributor);
    case Element(name, kids, rest) =>
      var after := inContributor && !Closes(name, kids);
      var one := Element(name, kids, Empty);
      FieldsAppend(rest, g, inRevision, after);
      ElementFirst(name, kids, rest, inRevision, inContributor);
      ElementFirst(name, kids, Append(rest, g), inRevision, inContributor);
      assert (after && !HasContributor(rest)) == (inContributor && !HasContributor(f));
      Assoc(PageFields(one, inRevision, inContributor), PageFields(rest, inRevision, after),
                  PageFields(g, inRevision, after && !HasContributor(rest)));
      Assoc(RevisionFields(one, inContributor), RevisionFields(rest, after),
                  RevisionFields(g, after && !HasContributor(rest)));
  }

  /**
    An id in a contributor is taken for the page's or the revision's own exactly if another
    contributor has ended before it in the same contributor.
   */
  lemma ContributorIdExactly(before: Forest, text: string)
    ensures var own := if HasContributor(before) then [Field("id", text)] else [];
            var kids := Append(before, Element("id", Text(text, Empty), Empty));
            && PageFields(kids, false, true) == PageFields(before, false, true) + own
            && RevisionFields(kids, true) == RevisionFields(before, true) + own
  {
    var id := Element("id", Text(text, Empty), Empty);
    FieldsAppend(before, id, false, true);
    assert text + "" == text;
    var kids, flag := Text(text, Empty), !HasContributor(before);
    ElementAlone("id", kids, false, flag);
    TextIsSilent(kids, false, flag);
    assert CharsOf(kids) == text;
    assert PageFields(id, false, flag) == OwnPageField("id", kids, false, flag);
    assert RevisionFields(id, flag) == OwnRevisionField("id", kids, flag);
  }

  lemma {:induction false} NotNested(f: Forest)
    requires !Nested(f, true)
    ensures !HasContributor(f) && !Nested(f, false)
  {
    match f
    case Empty =>
    case Text(_, rest) => NotNested(rest);
    case Element(_, kids, rest) =>
      NotNested(kids);
      NotNested(rest);
  }

  /** More is told than stands outside contributors, and strictly more exactly if an id leaks. */
  lemma {:induction false} PageLeaksTell(f: Forest, inRevision: bool, within: bool, begun: bool)
    requires begun ==> within
    ensures var told, placed := PageFields(f, inRevision, begun), PageFieldsByPlace(f, inRevision, within);
            if PageLeaks(f, inRevision, within, begun) then |told| > |placed| else told == placed
  {
    match f
    case Empty =>
    case Text(_, rest) => PageLeaksTell(rest, inRevision, within, begun);
    case Element(name, kids, rest) =>
      PageLeaksTell(kids, inRevision || name == "revision", within || name == "contributor",
                    begun || name == "contributor");
      PageLeaksTell(rest, inRevision, within, begun && !Closes(name, kids));
  }

  lemma {:induction false} RevisionLeaksTell(f: Forest, within: bool, begun: bool)
    requires begun ==> within
    ensures var told, placed := RevisionFields(f, begun), RevisionFieldsByPlace(f, within);
            if RevisionLeaks(f, within, begun) then |told| > |placed| else told == placed
  {
    match f
    case Empty =>
    case Text(_, rest) => RevisionLeaksTell(rest, within, begun);
    case Element(name, kids, rest) =>
      RevisionLeaksTell(kids, within || name == "contributor", begun || name == "contributor");
      RevisionLeaksTell(rest, within, begun && !Closes(name, kids));
  }

  /**
    The fields of a page and of a revision are those that stand where they should, exactly if no id in
    a contributor has an end tag as the last tag of a contributor before it.
   */
  lemma FieldsByPlaceExactly(f: Forest)
    ensures PageFields(f, false, false) == PageFieldsByPlace(f, false, false) <==> !PageLeaks(f, false, false, false)
    ensures RevisionFields(f, false) == RevisionFieldsByPlace(f, false) <==> !RevisionLeaks(f, false, false)
  {
    PageLeaksTell(f, false, false, false);
    RevisionLeaksTell(f, false, false);
  }

  lemma {:induction false} NoLeak(f: Forest, inRevision: bool, within: bool)
    requires !Nested(f, within)
    ensures !PageLeaks(f, inRevision, within, within) && !RevisionLeaks(f, within, within)
  {
    match f
    case Empty =>
    case Text(_, rest) => NoLeak(rest, inRevision, within);
    case Element(name, kids, rest) =>
      if within {
        NotNested(kids);
      }
      NoLeak(kids, inRevision || name == "revision", within || name == "contributor");
      NoLeak(rest, inRevision, within);
  }

  /** As long as no contributor stands in another one, the fields are told by where they stand. */
  lemma FieldsToldByPlace(f: Forest, inRevision: bool, within: bool)
    requires !Nested(f, within)
    ensures PageFields(f, inRevision, within) == PageFieldsByPlace(f, inRevision, within)
    ensures RevisionFields(f, within) == RevisionFieldsByPlace(f, within)
  {
    NoLeak(f, inRevision, within);
    PageLeaksTell(f, inRevision, within, within);
    RevisionLeaksTell(f, within, within);
  }

  lemma PageIdTold(text: string)
    ensures PageRecord([Field("id", text)]).id == IdValue(text)
  {
    assert [Field("id", text)][0] == Field("id", text);
  }

  lemma IdFive()
    ensures IdValue("5") == 5
  {
    StolOfDecimal(5);
    assert Decimal(5) == "5";
  }

  /** The content of a contributor that has ended inside itself before its id. */
  function ClosedEarly(id: Forest): Forest {
    Element("contributor", Empty, id)
  }

  lemma ClosedEarlyTells(text: string)
    ensures PageFields(ClosedEarly(Element("id", Text(text, Empty), Empty)), false, true) == [Field("id", text)]
  {
    var nested := Element("contributor", Empty, Empty);
    ContributorIdExactly(nested, text);
    assert PageFields(nested, false, true) == [];
  }

  /** A page whose id is a contributor's: the parser keeps a flag, not a depth. */
  lemma NestedContributor()
    ensures var page := Element("contributor", ClosedEarly(Element("id", Text("5", Empty), Empty)), Empty);
            Valid(InPage, false, page) && PageRecord(PageFields(page, false, false)).id == 5
  {
    ClosedEarlyTells("5");
    ElementAlone("contributor", ClosedEarly(Element("id", Text("5", Empty), Empty)), false, false);
    PageIdTold("5");
    IdFive();
  }

  // ---- Dumps one after the other ----

  /** Two dumps in a row: the second one starts from the citations the first one carries on. */
  lemma {:induction false} MeaningAppend(env: Environment, a: Forest, b: Forest, carried: Carried)
    ensures DumpMeaning(env, Append(a, b), carried)
         == DumpMeaning(env, a, carried) + DumpMeaning(env, b, DumpCarried(env, a, carried))
  {
    match a
    case Empty =>
      assert [] + DumpMeaning(env, b, carried) == DumpMeaning(env, b, carried);
    case Text(_, rest) => MeaningAppend(env, rest, b, carried);
    case Element(name, kids, rest) =>
      var one := Element(name, kids, Empty);
      var after := DumpCarried(env, one, carried);
      MeaningAppend(env, rest, b, after);
      CallsFirst(env, name, kids, rest, carried);
      CallsFirst(env, name, kids, Append(rest, b), carried);
      CarriedFirst(env, name, kids, rest, carried);
      Assoc(DumpMeaning(env, one, carried), DumpMeaning(env, rest, after),
                 DumpMeaning(env, b, DumpCarried(env, rest, after)));
  }
}
