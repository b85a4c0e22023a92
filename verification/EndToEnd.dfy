/**
  The parts together: the dump parser with the wikitext parser inside it.
 */
module EndToEnd {
  import opened Wrappers
  import opened Numbers
  import opened CitationParser
  import opened CitationMeaning
  import opened History
  import opened Dump
  import opened Document
  import opened Decoding
  import opened PageTheorems
  import opened Streaming
  import opened CarryOver

  /** An environment whose citation parser is the real one. */
  function WithParser(env: Environment, filter: Filter, ignoreInvalid: bool): Environment {
    env.(parse := text => ParseOf(text, filter, ignoreInvalid))
  }

  // ---- Pages that only grow ----

  /** Each text of a history, oldest first, is the beginning of the next. */
  predicate OnlyGrows(texts: seq<string>) {
    forall i :: 0 < i < |texts| ==> texts[i - 1] <= texts[i]
  }

  /** The revisions have the citations their texts parse to. */
  ghost predicate ParsedFrom(h: Chronicle, texts: seq<string>, filter: Filter, ignoreInvalid: bool) {
    && |h| == |texts|
    && forall i :: 0 <= i < |h| ==> ParseOf(texts[i], filter, ignoreInvalid) == Ok(h[i].citations)
  }

  /** Every revision has the citations of the one before it, unchanged. */
  ghost predicate CitationsGrow(h: Chronicle) {
    forall i :: 0 < i < |h| ==> Extends(h[i - 1].citations, h[i].citations)
  }

  lemma TextGrows(a: string, b: string, filter: Filter, ignoreInvalid: bool,
                                     m: map<string, ExtractedCitation>, n: map<string, ExtractedCitation>)
    requires a <= b
    ensures ParseOf(a, filter, ignoreInvalid) == Ok(m) && ParseOf(b, filter, ignoreInvalid) == Ok(n) ==> Extends(m, n)
  {
    ParseExtends(a, b, filter, ignoreInvalid);
  }

  lemma {:induction false} Persists(h: Chronicle, k: string, i: nat, j: nat)
    requires CitationsGrow(h) && i <= j < |h| && k in h[i].citations
    ensures k in h[j].citations && h[j].citations[k] == h[i].citations[k]
    decreases j
  {
    if i < j {
      Persists(h, k, i, j - 1);
      assert Extends(h[j - 1].citations, h[j].citations);
    }
  }

  lemma TextsGrow(h: Chronicle, texts: seq<string>, filter: Filter, ignoreInvalid: bool)
    requires OnlyGrows(texts)
    ensures ParsedFrom(h, texts, filter, ignoreInvalid) ==> CitationsGrow(h)
  {
    if ParsedFrom(h, texts, filter, ignoreInvalid) {
      forall i | 0 < i < |h| ensures Extends(h[i - 1].citations, h[i].citations) {
        TextGrows(texts[i - 1], texts[i], filter, ignoreInvalid, h[i - 1].citations, h[i].citations);
      }
    }
  }

  /**
    If every revision of a page only adds text at the end, no citation is ever marked as removed,
    and every revision that has a citation describes it as the page does.
   */
  lemma GrowingPagesKeepCitations(h: Chronicle, texts: seq<string>, filter: Filter,
                                                     ignoreInvalid: bool, k: string)
    requires OnlyGrows(texts) && k in Titles(h)
    ensures ParsedFrom(h, texts, filter, ignoreInvalid) ==>
              && Summary(h)[k].removed.None?
              && forall i :: 0 <= i < |h| && k in h[i].citations ==> h[i].citations[k] == Summary(h)[k].content
  {
    TextsGrow(h, texts, filter, ignoreInvalid);
    if CitationsGrow(h) {
      GrowingCitationsStay(h, k);
    }
  }

  lemma GrowingCitationsStay(h: Chronicle, k: string)
    requires CitationsGrow(h) && k in Titles(h)
    ensures Summary(h)[k].removed.None?
    ensures forall i :: 0 <= i < |h| && k in h[i].citations ==> h[i].citations[k] == Summary(h)[k].content
  {
    var first, last := First(h, k), Last(h, k);
    Persists(h, k, first, |h| - 1);
    assert last == |h| - 1;
    assert Summary(h)[k] == Story(h, k);
    forall i | 0 <= i < |h| && k in h[i].citations ensures h[i].citations[k] == h[first].citations[k] {
      assert first <= i;
      Persists(h, k, first, i);
    }
  }

  // ---- What a run stores ----

  /** A citation of some stored page names the revision. */
  predicate NamedInRun(calls: seq<StoreCall>, id: nat) {
    exists i :: 0 <= i < |calls| && NamedByPage(calls[i].page, id)
  }

  predicate NamedByPage(page: Page, id: nat) {
    exists j :: 0 <= j < |page.citations| && NamedBy(page.citations[j], id)
  }

  /** With every page are stored exactly the revisions that its citations name. */
  ghost predicate StoredAsNamed(calls: seq<StoreCall>) {
    forall i, id :: 0 <= i < |calls| ==> (id in calls[i].revisions <==> NamedByPage(calls[i].page, id))
  }

  lemma FinishedAsNamed(env: Environment, page: Page, h: Chronicle)
    requires ValidEnvironment(env) && page.citations == []
    ensures StoredAsNamed([Finished(env, page, h)])
  {
    var call := Finished(env, page, h);
    forall id ensures id in call.revisions <==> NamedByPage(call.page, id) {
      StoredExactly(env, page, h, id);
    }
  }

  lemma FieldKeepsPageEmpty(env: Environment, m: Machine, name: string)
    requires m.page.citations == []
    ensures FieldStep(env, m, name).Ok? ==> FieldStep(env, m, name).value.page.citations == []
  {}

  /** A page has no citations before its end. */
  lemma StepKeepsPageEmpty(env: Environment, m: Machine, e: Event)
    requires m.page.citations == [] && Step(env, m, e).Ok?
    ensures Step(env, m, e).value.page.citations == []
  {
    if e.End? {
      FieldKeepsPageEmpty(env, m, e.name);
    }
  }

  lemma {:induction false} RunStoresAsNamed(env: Environment, m: Machine, events: seq<Event>)
    requires ValidEnvironment(env) && m.page.citations == [] && StoredAsNamed(m.calls)
    requires Run(env, m, events).Ok?
    ensures StoredAsNamed(Run(env, m, events).value.calls)
    decreases |events|
  {
    if events != [] {
      StepCalls(env, m, events[0]);
      StepKeepsPageEmpty(env, m, events[0]);
      FinishedAsNamed(env, m.page, m.arrived);
      RunStoresAsNamed(env, Step(env, m, events[0]).value, events[1..]);
    }
  }

  /**
    Over a whole run, whatever its events, the revisions stored are exactly those that the citations
    of the stored pages name: no orphan, no dangling reference.
   */
  lemma RunStoresExactly(env: Environment, carried: map<string, ExtractedCitation>, textBuf: string,
                         events: seq<Event>, id: nat)
    requires ValidEnvironment(env)
    ensures var r := Run(env, Begin(carried, textBuf), events);
            r.Ok? ==> (id in RevisionsOf(r.value.calls) <==> NamedInRun(r.value.calls, id))
  {
    var r := Run(env, Begin(carried, textBuf), events);
    if r.Ok? {
      RunStoresAsNamed(env, Begin(carried, textBuf), events);
      StoredByACall(r.value.calls, id);
    }
  }

  // ---- Ids ----

  /** Printed ids below 2^63 are recovered as the numbers they are, for revisions, parents and pages. */
  lemma {:induction false} IdsRecovered(env: Environment, fields: seq<Field>, n: nat)
    requires n < TWO_63
    ensures FieldOk(env, Field("id", Decimal(n)))
    ensures LastText(fields, "id") == Some(Decimal(n)) ==> RecordOf(env, fields).id == PageRecord(fields).id == n
    ensures LastText(fields, "parentid") == Some(Decimal(n)) ==> RecordOf(env, fields).parentId == Some(n)
  {
    StolOfDecimal(n);
  }

  // ---- Dumps that always decode ----

  /** Every id that a dump tells is a number: the dump decodes with a citation parser that never throws. */
  predicate IdsOk(env: Environment, f: Forest) {
    DumpOk(env.(parse := _ => Ok(map[])), f)
  }

  /** The environments accept the same fields. */
  ghost predicate SameFields(d: Environment, e: Environment) {
    forall f :: FieldOk(d, f) <==> FieldOk(e, f)
  }

  lemma SameFieldsOk(d: Environment, e: Environment, fields: seq<Field>)
    requires SameFields(d, e)
    ensures FieldsOk(d, fields) <==> FieldsOk(e, fields)
  {
  }

  lemma {:induction false} SamePageOk(d: Environment, e: Environment, f: Forest, inContributor: bool)
    requires SameFields(d, e)
    ensures PageOk(d, f, inContributor) <==> PageOk(e, f, inContributor)
  {
    match f
    case Empty =>
    case Text(_, rest) => SamePageOk(d, e, rest, inContributor);
    case Element(name, kids, rest) =>
      SameFieldsOk(d, e, OwnPageField(name, kids, false, inContributor));
      SameFieldsOk(d, e, RevisionFields(kids, false));
      SamePageOk(d, e, kids, inContributor || name == "contributor");
      SamePageOk(d, e, rest, inContributor && !Closes(name, kids));
  }

  lemma {:induction false} SameDumpOk(d: Environment, e: Environment, f: Forest)
    requires SameFields(d, e)
    ensures DumpOk(d, f) <==> DumpOk(e, f)
  {
    match f
    case Empty =>
    case Text(_, rest) => SameDumpOk(d, e, rest);
    case Element(name, kids, rest) =>
      SamePageOk(d, e, kids, false);
      SameDumpOk(d, e, kids);
      SameDumpOk(d, e, rest);
  }

  /** With invalid identifiers ignored, nothing in the texts of a dump can abort a run: only its ids can. */
  lemma LenientRunsNeedIdsOnly(env: Environment, filter: Filter, f: Forest)
    ensures DumpOk(WithParser(env, filter, true), f) <==> IdsOk(env, f)
  {
    var d, e := WithParser(env, filter, true), env.(parse := _ => Ok(map[]));
    forall f: Field ensures FieldOk(d, f) <==> FieldOk(e, f) {
      ModesAgree(f.text, filter);
    }
    SameDumpOk(d, e, f);
  }

  // ---- One page, element by element ----

  /** An element that holds a text. */
  function Leaf(name: string, text: string, rest: Forest): Forest {
    Element(name, Text(text, Empty), rest)
  }

  lemma LeafTells(name: string, text: string, rest: Forest, inRevision: bool, inContributor: bool)
    requires name != "contributor" && name != "revision"
    ensures PageFields(Leaf(name, text, rest), inRevision, inContributor)
         == (if name == "title" || (name == "id" && !inRevision && !inContributor) then [Field(name, text)] else [])
            + PageFields(rest, inRevision, inContributor)
    ensures RevisionFields(Leaf(name, text, rest), inContributor)
         == (if name in {"id", "parentid", "username", "text", "timestamp"} && !(name == "id" && inContributor)
             then [Field(name, text)] else [])
            + RevisionFields(rest, inContributor)
  {
    var kids := Text(text, Empty);
    assert CharsOf(kids) == text by {
      assert text + "" == text;
    }
    FieldAlone(name, kids, inRevision, inContributor);
    ElementFirst(name, kids, rest, inRevision, inContributor);
  }

  /** The text of a revision, which arrives in two pieces. */
  function TextLeaf(text: string, more: string): Forest {
    Element("text", Text(text, Text(more, Empty)), Empty)
  }

  lemma TextLeafTells(text: string, more: string)
    ensures PageFields(TextLeaf(text, more), true, false) == []
    ensures RevisionFields(TextLeaf(text, more), false) == [Field("text", text + more)]
  {
    var kids := Text(text, Text(more, Empty));
    assert CharsOf(Text(more, Empty)) == more by {
      assert more + "" == more;
    }
    assert CharsOf(kids) == text + more;
    FieldAlone("text", kids, true, false);
  }

  /** A revision as the export writes it. */
  function RevisionBody(rid: nat, parent: nat, stamp: string, user: string, contributor: string,
                        text: string, more: string): Forest
  {
    Leaf("id", Decimal(rid), Leaf("parentid", Decimal(parent), Leaf("timestamp", stamp,
      Element("contributor", Leaf("username", user, Leaf("id", contributor, Empty)), TextLeaf(text, more)))))
  }

  /** A page with one revision. */
  function PageBody(title: string, pid: nat, revision: Forest): Forest {
    Leaf("title", title, Leaf("id", Decimal(pid), Element("revision", revision, Empty)))
  }

  lemma ContributorTells(user: string, contributor: string, rest: Forest)
    ensures var f := Element("contributor", Leaf("username", user, Leaf("id", contributor, Empty)), rest);
            && RevisionFields(f, false) == [Field("username", user)] + RevisionFields(rest, false)
            && PageFields(f, true, false) == PageFields(rest, true, false)
  {
    var kids := Leaf("username", user, Leaf("id", contributor, Empty));
    LeafTells("id", contributor, Empty, true, true);
    LeafTells("username", user, Leaf("id", contributor, Empty), true, true);
    ElementAlone("contributor", kids, true, false);
    ElementFirst("contributor", kids, rest, true, false);
  }

  lemma RevisionBodyTells(rid: nat, parent: nat, stamp: string, user: string, contributor: string,
                          text: string, more: string)
    ensures var f := RevisionBody(rid, parent, stamp, user, contributor, text, more);
            && RevisionFields(f, false)
               == FiveFields(Decimal(rid), Decimal(parent), stamp, user, text + more)
            && PageFields(f, true, false) == []
  {
    var rest := TextLeaf(text, more);
    var f3 := Element("contributor", Leaf("username", user, Leaf("id", contributor, Empty)), rest);
    var f2 := Leaf("timestamp", stamp, f3);
    var f1 := Leaf("parentid", Decimal(parent), f2);
    TextLeafTells(text, more);
    ContributorTells(user, contributor, rest);
    LeafTells("timestamp", stamp, f3, true, false);
    LeafTells("parentid", Decimal(parent), f2, true, false);
    LeafTells("id", Decimal(rid), f1, true, false);
  }

  lemma FirstTold(env: Environment, r: Revision, f: Field, rest: seq<Field>)
    ensures var n := if f.name == "id" then r.(id := IdValue(f.text))
                     else if f.name == "parentid" then r.(parentId := Some(IdValue(f.text)))
                     else if f.name == "username" then r.(user := Some(f.text))
                     else if f.name == "timestamp" then r.(timestamp := Some(env.timestampOf(f.text))) else r;
            TellRevision(env, r, [f] + rest) == TellRevision(env, n, rest)
  {
    TellOne(env, EMPTY_PAGE, r, map[], f);
    TellRevisionAppend(env, r, [f], rest);
  }

  function FiveFields(id: string, parent: string, stamp: string, user: string, text: string): seq<Field> {
    [Field("id", id), Field("parentid", parent), Field("timestamp", stamp), Field("username", user),
     Field("text", text)]
  }

  /** What five fields of a revision say. */
  lemma FiveFieldsSay(env: Environment, id: string, parent: string, stamp: string, user: string, text: string)
    ensures RecordOf(env, FiveFields(id, parent, stamp, user, text))
         == Revision(IdValue(id), Some(IdValue(parent)), Some(user), Some(env.timestampOf(stamp)))
  {
    var a, b, c := Field("id", id), Field("parentid", parent), Field("timestamp", stamp);
    var d, e := Field("username", user), Field("text", text);
    var r1 := EMPTY_REVISION.(id := IdValue(id));
    var r2 := r1.(parentId := Some(IdValue(parent)));
    var r3 := r2.(timestamp := Some(env.timestampOf(stamp)));
    var r4 := r3.(user := Some(user));
    FirstTold(env, EMPTY_REVISION, a, [b, c, d, e]);
    FirstTold(env, r1, b, [c, d, e]);
    FirstTold(env, r2, c, [d, e]);
    FirstTold(env, r3, d, [e]);
    FirstTold(env, r4, e, []);
    assert [a] + [b, c, d, e] == FiveFields(id, parent, stamp, user, text);
    assert [b] + [c, d, e] == [b, c, d, e];
    assert [c] + [d, e] == [c, d, e];
    assert [d] + [e] == [d, e];
    assert [e] + [] == [e];
    assert TellRevision(env, r4, []) == r4;
  }

  lemma FiveFieldsOk(env: Environment, id: string, parent: string, stamp: string, user: string, text: string)
    requires IdOf(id).Ok? && IdOf(parent).Ok? && env.parse(text).Ok?
    ensures FieldsOk(env, FiveFields(id, parent, stamp, user, text))
  {
  }

  lemma FiveFieldsCite(env: Environment, id: string, parent: string, stamp: string, user: string, text: string,
                       carried: Carried)
    requires env.parse(text).Ok?
    ensures CitationsAfter(env, FiveFields(id, parent, stamp, user, text), carried) == env.parse(text).value
  {
    var fields := FiveFields(id, parent, stamp, user, text);
    assert fields[|fields| - 1] == Field("text", text);
  }

  lemma TwoFields(title: string, pid: nat)
    requires pid < 9223372036854775808
    ensures PageRecord([Field("title", title), Field("id", Decimal(pid))]) == Page(title, pid, [])
  {
    var env := Environment(_ => Err, _ => Timestamp(0, 0), h => h);
    var a, b := Field("title", title), Field("id", Decimal(pid));
    StolOfDecimal(pid);
    TellOne(env, EMPTY_PAGE, EMPTY_REVISION, map[], a);
    TellOne(env, EMPTY_PAGE.(title := title), EMPTY_REVISION, map[], b);
    TellPageAppend(EMPTY_PAGE, [a], [b]);
    assert [a] + [b] == [a, b];
  }

  /** What the body of a revision means: its id, parent, time and user, and the citations of its text. */
  lemma RevisionBodyMeans(env: Environment, rid: nat, parent: nat, stamp: string, user: string, contributor: string,
                          text: string, more: string, carried: Carried)
    requires rid < 9223372036854775808 && parent < 9223372036854775808 && env.parse(text + more).Ok?
    ensures var f := RevisionBody(rid, parent, stamp, user, contributor, text, more);
            && RevisionMeaning(env, f, carried)
               == RevisionCitations(Revision(rid, Some(parent), Some(user), Some(env.timestampOf(stamp))),
                                    env.parse(text + more).value)
            && FieldsOk(env, RevisionFields(f, false)) && Valid(InRevision, false, f)
  {
    RevisionBodyTells(rid, parent, stamp, user, contributor, text, more);
    FiveFieldsSay(env, Decimal(rid), Decimal(parent), stamp, user, text + more);
    StolOfDecimal(rid);
    StolOfDecimal(parent);
    FiveFieldsOk(env, Decimal(rid), Decimal(parent), stamp, user, text + more);
    FiveFieldsCite(env, Decimal(rid), Decimal(parent), stamp, user, text + more, carried);
    RevisionBodyValid(rid, parent, stamp, user, contributor, text, more);
  }

  lemma LeafValid(w: Where, open: bool, name: string, text: string, rest: Forest)
    requires name !in STRUCTURE && Valid(w, open, rest)
    ensures Valid(w, open, Leaf(name, text, rest))
  {
    var kids := Text(text, Empty);
    assert TextOnly(kids) && Valid(w, open, kids);
  }

  lemma RevisionBodyValid(rid: nat, parent: nat, stamp: string, user: string, contributor: string,
                          text: string, more: string)
    ensures Valid(InRevision, false, RevisionBody(rid, parent, stamp, user, contributor, text, more))
  {
    var rest := TextLeaf(text, more);
    var kids := Leaf("username", user, Leaf("id", contributor, Empty));
    var f3 := Element("contributor", kids, rest);
    var f2 := Leaf("timestamp", stamp, f3);
    var f1 := Leaf("parentid", Decimal(parent), f2);
    assert TextOnly(Text(text, Text(more, Empty)));
    LeafValid(InRevision, true, "id", contributor, Empty);
    LeafValid(InRevision, true, "username", user, Leaf("id", contributor, Empty));
    LeafValid(InRevision, false, "timestamp", stamp, f3);
    LeafValid(InRevision, false, "parentid", Decimal(parent), f2);
    LeafValid(InRevision, false, "id", Decimal(rid), f1);
  }

  lemma PageBodyTells(env: Environment, title: string, pid: nat, revision: Forest, carried: Carried)
    requires PageFields(revision, true, false) == []
    ensures var f := PageBody(title, pid, revision);
            && PageFields(f, false, false) == [Field("title", title), Field("id", Decimal(pid))]
            && Arrivals(env, f, carried) == [RevisionMeaning(env, revision, carried)]
  {
    var f2 := Element("revision", revision, Empty);
    var f1 := Leaf("id", Decimal(pid), f2);
    ElementAlone("revision", revision, false, false);
    LeafTells("id", Decimal(pid), f2, false, false);
    LeafTells("title", title, f1, false, false);
    PageBodyArrives(env, title, pid, revision, carried);
  }

  lemma LeafOk(env: Environment, name: string, text: string, rest: Forest)
    requires name == "title" || (name == "id" && IdOf(text).Ok?)
    requires PageOk(env, rest, false)
    ensures PageOk(env, Leaf(name, text, rest), false)
  {
    var kids := Text(text, Empty);
    assert CharsOf(kids) == text by {
      assert text + "" == text;
    }
    OneField(env, Field(name, text), name);
    NothingArrives(env, kids, map[], false);
  }

  lemma PageBodyOk(env: Environment, title: string, pid: nat, revision: Forest)
    requires pid < 9223372036854775808 && Valid(InRevision, false, revision)
    requires FieldsOk(env, RevisionFields(revision, false))
    ensures PageOk(env, PageBody(title, pid, revision), false) && Valid(InPage, false, PageBody(title, pid, revision))
  {
    var f2 := Element("revision", revision, Empty);
    var f1 := Leaf("id", Decimal(pid), f2);
    StolOfDecimal(pid);
    LeafOk(env, "id", Decimal(pid), f2);
    LeafOk(env, "title", title, f1);
    LeafValid(InPage, false, "id", Decimal(pid), f2);
    LeafValid(InPage, false, "title", title, f1);
  }

  lemma PageBodyArrives(env: Environment, title: string, pid: nat, revision: Forest, carried: Carried)
    ensures Arrivals(env, PageBody(title, pid, revision), carried) == [RevisionMeaning(env, revision, carried)]
  {
    var f2 := Element("revision", revision, Empty);
    var f1 := Leaf("id", Decimal(pid), f2);
    ArrivalsFirst(env, "revision", revision, Empty, carried);
    ArrivalsFirst(env, "id", Text(Decimal(pid), Empty), f2, carried);
    ArrivalsFirst(env, "title", Text(title, Empty), f1, carried);
    NothingArrives(env, Text(Decimal(pid), Empty), carried, false);
    NothingArrives(env, Text(title, Empty), carried, false);
  }

  /** A page whose only revision has citations: all are added by it, none is removed, and it is stored. */
  lemma OneRevision(env: Environment, page: Page, rc: RevisionCitations)
    requires ValidEnvironment(env) && page.citations == []
    ensures var call := Finished(env, page, [rc]);
            && call.page.title == page.title && call.page.id == page.id
            && |call.page.citations| == |rc.citations|
            && (forall c :: c in call.page.citations ==> c.added == rc.revision.id && c.removed == None)
            && call.revisions == if rc.citations == map[] then map[] else map[rc.revision.id := rc.revision]
  {
    OneCounts(env, page, rc);
    OneAdds(env, page, rc);
    OneStores(env, page, rc);
  }

  lemma OneAdds(env: Environment, page: Page, rc: RevisionCitations)
    requires ValidEnvironment(env) && page.citations == []
    ensures forall c :: c in Finished(env, page, [rc]).page.citations ==> c.added == rc.revision.id && c.removed == None
  {
    var told := Finished(env, page, [rc]).page;
    var titles := PageInTime(env, page, [rc]);
    forall i | 0 <= i < |told.citations|
      ensures told.citations[i].added == rc.revision.id && told.citations[i].removed == None
    {
      OnlyOne(rc, titles[i], told.citations[i]);
    }
  }

  lemma OnlyOne(rc: RevisionCitations, k: string, c: Citation)
    requires InTime([rc], k, c)
    ensures c.added == rc.revision.id && c.removed == None
  {
    var a :| BroughtBy([rc], k, c, a);
    assert a == rc;
    forall b ensures !GoneWith([rc], k, c, b) {
    }
  }

  lemma OneStores(env: Environment, page: Page, rc: RevisionCitations)
    requires ValidEnvironment(env) && page.citations == []
    ensures Finished(env, page, [rc]).revisions
         == if rc.citations == map[] then map[] else map[rc.revision.id := rc.revision]
  {
    var stored := Finished(env, page, [rc]).revisions;
    forall id ensures id in stored <==> rc.citations != map[] && id == rc.revision.id {
      OneNames(env, page, rc, id);
    }
    StoredAsArrived(env, page, [rc], 0);
    OnlyKey(stored, rc.revision, rc.citations != map[]);
  }

  lemma OnlyKey(m: map<nat, Revision>, r: Revision, any: bool)
    requires forall id :: id in m <==> any && id == r.id
    requires r.id in m ==> m[r.id] == r
    ensures m == if any then map[r.id := r] else map[]
  {
  }

  lemma OneNames(env: Environment, page: Page, rc: RevisionCitations, id: nat)
    requires ValidEnvironment(env) && page.citations == []
    ensures id in Finished(env, page, [rc]).revisions <==> rc.citations != map[] && id == rc.revision.id
  {
    var cs := Finished(env, page, [rc]).page.citations;
    OneAdds(env, page, rc);
    NamesOne(cs, rc.revision.id, id);
    OneCounts(env, page, rc);
    NoKeys(rc.citations);
    StoredExactly(env, page, [rc], id);
  }

  lemma NamesOne(cs: seq<Citation>, rid: nat, id: nat)
    requires forall c :: c in cs ==> c.added == rid && c.removed == None
    ensures (exists i :: 0 <= i < |cs| && NamedBy(cs[i], id)) <==> cs != [] && id == rid
  {
    forall i | 0 <= i < |cs| ensures NamedBy(cs[i], id) <==> id == rid {
      assert cs[i] in cs;
    }
    if cs != [] && id == rid {
      assert NamedBy(cs[0], id);
    }
  }

  lemma NoKeys(m: map<string, ExtractedCitation>)
    ensures |m| == 0 <==> m == map[]
  {
    if |m| == 0 {
      assert m.Keys == {};
    }
  }

  lemma OneCounts(env: Environment, page: Page, rc: RevisionCitations)
    requires ValidEnvironment(env) && page.citations == []
    ensures |Finished(env, page, [rc]).page.citations| == |rc.citations|
  {
    CitationCount(env, page, [rc]);
    OneTitles(rc);
  }

  lemma OneTitles(rc: RevisionCitations)
    ensures Titles([rc]) == rc.citations.Keys
  {
    assert [rc][..0] == [];
  }

  /**
    One page of a dump, from its tags to what is stored: whatever was read before, the page has its
    title and id, the revision its id, parent, user and time, and the citations are those of the text.
    What the contributor's id is does not matter.
   */
  lemma OnePage(env: Environment, title: string, pid: nat, rid: nat, parent: nat, stamp: string, user: string,
                contributor: string, text: string, more: string, carried: Carried, textBuf: string) returns (m: Machine)
    requires ValidEnvironment(env) && env.parse(text + more).Ok?
    requires pid < 9223372036854775808 && rid < 9223372036854775808 && parent < 9223372036854775808
    ensures var revision := RevisionBody(rid, parent, stamp, user, contributor, text, more);
            var dump := Element("page", PageBody(title, pid, revision), Empty);
            Run(env, Begin(carried, textBuf), Events(dump)) == Ok(m)
    ensures |m.calls| == 1 && m.calls[0].page.title == title && m.calls[0].page.id == pid
    ensures var stored := Revision(rid, Some(parent), Some(user), Some(env.timestampOf(stamp)));
            var citations := env.parse(text + more).value;
            && m.calls[0].revisions == (if citations == map[] then map[] else map[rid := stored])
            && |m.calls[0].page.citations| == |citations|
    ensures forall c :: c in m.calls[0].page.citations ==> c.added == rid && c.removed == None
  {
    var revision := RevisionBody(rid, parent, stamp, user, contributor, text, more);
    var page := PageBody(title, pid, revision);
    var dump := Element("page", page, Empty);
    RevisionBodyTells(rid, parent, stamp, user, contributor, text, more);
    RevisionBodyMeans(env, rid, parent, stamp, user, contributor, text, more, carried);
    PageBodyTells(env, title, pid, revision, carried);
    PageBodyOk(env, title, pid, revision);
    TwoFields(title, pid);
    var rc := RevisionMeaning(env, revision, carried);
    CallsFirst(env, "page", page, Empty, carried);
    assert DumpMeaning(env, dump, carried) == [Finished(env, Page(title, pid, []), [rc])];
    var t := DecodingIsMeaning(env, dump, carried, textBuf);
    m := Run(env, Begin(carried, textBuf), Events(dump)).value;
    OneRevision(env, Page(title, pid, []), rc);
  }

  // ---- What each field says ----

  /** Without fields a revision and a page have nothing but their defaults. */
  lemma NothingTold(env: Environment)
    ensures RecordOf(env, []) == Revision(id := 0, parentId := None, user := None, timestamp := None)
    ensures PageRecord([]) == Page(title := "", id := 0, citations := [])
  {}

  /** One more field of a revision or a page says what its name says, and nothing else changes. */
  lemma OneMoreTold(env: Environment, fields: seq<Field>, name: string, text: string)
    ensures var r, p, more := RecordOf(env, fields), PageRecord(fields), fields + [Field(name, text)];
            var id := if Stol(text).Some? then (Stol(text).value % 18446744073709551616) as nat else 0;
            && RecordOf(env, more)
               == (if name == "id" then r.(id := id)
                   else if name == "parentid" then r.(parentId := Some(id))
                   else if name == "username" then r.(user := Some(text))
                   else if name == "timestamp" then r.(timestamp := Some(env.timestampOf(text)))
                   else r)
            && PageRecord(more)
               == (if name == "title" then p.(title := text) else if name == "id" then p.(id := id) else p)
  {
    var f := Field(name, text);
    TellRevisionAppend(env, EMPTY_REVISION, fields, [f]);
    TellPageAppend(EMPTY_PAGE, fields, [f]);
    TellOne(env, PageRecord(fields), RecordOf(env, fields), map[], f);
    assert IdValue(text) == if Stol(text).Some? then (Stol(text).value % 18446744073709551616) as nat else 0;
  }
}
