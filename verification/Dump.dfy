/**
  The events a dump is made of, and what the handlers do to the parser's state, as a machine:
  the specification that the class in `DumpParser` is proved against.
 */
module Dump {
  import opened Wrappers
  import opened Numbers
  import opened CitationParser
  import opened History
  import opened Ordered

  datatype Event = Start(name: string) | End(name: string) | Characters(text: string) | Problem

  datatype Page = Page(title: string, id: nat, citations: seq<Citation>)

  const EMPTY_PAGE := Page("", 0, [])
  const EMPTY_REVISION := Revision(0, None, None, None)
  const REVISION_FIELDS := {"id", "parentid", "username", "text", "timestamp"}
  const PAGE_FIELDS := {"title", "id"}

  /** One call of `Store`: a finished page and the revisions its citations name. */
  datatype StoreCall = StoreCall(page: Page, revisions: map<nat, Revision>)

  /** The code the parser calls but does not contain. */
  datatype Environment = Environment(
    parse: string -> Result<map<string, ExtractedCitation>>,
    timestampOf: string -> Timestamp,
    sort: Chronicle -> Chronicle)

  // ---- Chronological order ----

  function TimeOf(rc: RevisionCitations): Timestamp {
    rc.revision.timestamp.GetOr(Timestamp(0, 0))
  }

  /** The comparator given to the sort. */
  predicate Earlier(a: RevisionCitations, b: RevisionCitations) {
    var s, t := TimeOf(a), TimeOf(b);
    if s.seconds == t.seconds then s.nanos < t.nanos else s.seconds < t.seconds
  }

  predicate Chronological(h: Chronicle) {
    forall i, j :: 0 <= i < j < |h| ==> !Earlier(h[j], h[i])
  }

  ghost predicate SortOf(h: Chronicle, s: Chronicle) {
    Chronological(s) && multiset(s) == multiset(h)
  }

  /** All that `std::ranges::sort` promises: nothing is said of revisions with equal timestamps. */
  ghost predicate ValidEnvironment(env: Environment) {
    forall h :: SortOf(h, env.sort(h))
  }

  // ---- The machine ----

  datatype Machine = Machine(
    inPage: bool, inRevision: bool, inContributor: bool, shouldStore: bool, textBuf: string,
    arrived: Chronicle, carried: map<string, ExtractedCitation>,
    page: Page, revision: Revision, calls: seq<StoreCall>)

  /** The state a run starts in. The citations parsed last and the text buffer survive from earlier. */
  function Begin(carried: map<string, ExtractedCitation>, textBuf: string): Machine {
    Machine(false, false, false, false, textBuf, [], carried, EMPTY_PAGE, EMPTY_REVISION, [])
  }

  predicate StoresText(m: Machine, name: string) {
    (m.inPage && name in PAGE_FIELDS) || (m.inRevision && name in REVISION_FIELDS)
  }

  function StartStep(m: Machine, name: string): Machine {
    var n := m.(textBuf := "");
    if name == "page" then n.(inPage := true)
    else if name == "revision" then n.(inRevision := true)
    else if name == "contributor" then n.(inContributor := true)
    else if StoresText(m, name) then n.(shouldStore := true)
    else n
  }

  function CharactersStep(m: Machine, text: string): Machine {
    if m.shouldStore then m.(textBuf := m.textBuf + text) else m
  }

  /** `static_cast<uint64_t>(std::stol(text))`, or Err where `std::stol` throws. */
  function IdOf(text: string): Result<nat> {
    match Stol(text)
    case None => Err
    case Some(n) => Ok(AsUint64(n))
  }

  function FieldStep(env: Environment, m: Machine, name: string): Result<Machine> {
    if m.inPage && name == "title" then
      Ok(m.(page := m.page.(title := m.textBuf)))
    else if m.inPage && !m.inRevision && !m.inContributor && name == "id" then
      match IdOf(m.textBuf)
      case Err => Err
      case Ok(id) => Ok(m.(page := m.page.(id := id)))
    else if m.inRevision && !m.inContributor && name == "id" then
      match IdOf(m.textBuf)
      case Err => Err
      case Ok(id) => Ok(m.(revision := m.revision.(id := id)))
    else if m.inRevision && name == "parentid" then
      match IdOf(m.textBuf)
      case Err => Err
      case Ok(id) => Ok(m.(revision := m.revision.(parentId := Some(id))))
    else if m.inRevision && name == "username" then
      Ok(m.(revision := m.revision.(user := Some(m.textBuf))))
    else if m.inRevision && name == "text" then
      match env.parse(m.textBuf)
      case Err => Err
      case Ok(citations) => Ok(m.(carried := citations))
    else if m.inRevision && name == "timestamp" then
      Ok(m.(revision := m.revision.(timestamp := Some(env.timestampOf(m.textBuf)))))
    else Ok(m)
  }

  function RevisionStep(m: Machine): Machine {
    m.(inRevision := false,
       arrived := m.arrived + [RevisionCitations(m.revision, m.carried)],
       revision := EMPTY_REVISION)
  }

  /** The page's revisions by id, as they arrived; the first with an id stays. */
  function RevisionsById(h: Chronicle): (r: map<nat, Revision>)
    ensures forall i :: 0 <= i < |h| ==> h[i].revision.id in r
    ensures forall id :: id in r ==> r[id].id == id
  {
    if h == [] then map[]
    else
      var r, last := RevisionsById(h[..|h| - 1]), h[|h| - 1].revision;
      if last.id in r then r else r[last.id := last]
  }

  /** Sorting neither loses nor invents a revision. */
  lemma {:induction false} SortKeepsRevisions(arrived: Chronicle, h: Chronicle)
    requires SortOf(arrived, h)
    ensures forall i :: 0 <= i < |h| ==> h[i].revision.id in RevisionsById(arrived)
    ensures Titles(h) == Titles(arrived)
  {
    assert forall rc :: rc in multiset(h) <==> rc in multiset(arrived);
    forall i | 0 <= i < |h|
      ensures h[i].revision.id in RevisionsById(arrived) && h[i].citations.Keys <= Titles(arrived)
    {
      assert h[i] in multiset(h);
      var j :| 0 <= j < |arrived| && arrived[j] == h[i];
    }
    forall i | 0 <= i < |arrived| ensures arrived[i].citations.Keys <= Titles(h) {
      assert arrived[i] in multiset(arrived);
      var j :| 0 <= j < |h| && h[j] == arrived[i];
    }
  }

  /** The citations of a page, in the order of their titles. */
  ghost function InTitleOrder(d: Discovered): seq<Citation> {
    StringLessIsTotal();
    SortedValues(StringLess, d)
  }

  /** What is stored for a page whose revisions arrived as `h`. */
  ghost function Finished(env: Environment, page: Page, h: Chronicle): StoreCall {
    var d := Summary(env.sort(h));
    StoreCall(page.(citations := page.citations + InTitleOrder(d)), StoredFor(d, RevisionsById(h)))
  }

  ghost function PageStep(env: Environment, m: Machine): Machine {
    m.(inPage := false, calls := m.calls + [Finished(env, m.page, m.arrived)], page := EMPTY_PAGE, arrived := [])
  }

  ghost function EndedStep(env: Environment, m: Machine, name: string): Result<Machine> {
    if name == "page" then Ok(PageStep(env, m))
    else if name == "revision" then Ok(RevisionStep(m))
    else if name == "contributor" then Ok(m.(inContributor := false))
    else FieldStep(env, m, name)
  }

  ghost function EndStep(env: Environment, m: Machine, name: string): Result<Machine> {
    match EndedStep(env, m, name)
    case Err => Err
    case Ok(n) => Ok(n.(shouldStore := false))
  }

  ghost function Step(env: Environment, m: Machine, e: Event): Result<Machine> {
    match e
    case Start(name) => Ok(StartStep(m, name))
    case End(name) => EndStep(env, m, name)
    case Characters(text) => Ok(CharactersStep(m, text))
    case Problem => Err
  }

  ghost function Run(env: Environment, m: Machine, events: seq<Event>): Result<Machine>
    decreases |events|
  {
    if events == [] then Ok(m)
    else
      match Step(env, m, events[0])
      case Err => Err
      case Ok(n) => Run(env, n, events[1..])
  }

  ghost function Then(env: Environment, r: Result<Machine>, events: seq<Event>): Result<Machine> {
    match r
    case Err => Err
    case Ok(m) => Run(env, m, events)
  }

  /** Events in two parts are handled one part after the other. */
  lemma {:induction false} RunAppend(env: Environment, m: Machine, a: seq<Event>, b: seq<Event>)
    ensures Run(env, m, a + b) == Then(env, Run(env, m, a), b)
    decreases |a|
  {
    if a == [] {
      assert a + b == b;
    } else {
      assert (a + b)[1..] == a[1..] + b;
      match Step(env, m, a[0])
      case Err =>
      case Ok(n) => RunAppend(env, n, a[1..], b);
    }
  }

  // ---- The two sinks ----

  /** `stored_pages_` */
  function PagesOf(calls: seq<StoreCall>): seq<Page> {
    if calls == [] then [] else PagesOf(calls[..|calls| - 1]) + [calls[|calls| - 1].page]
  }

  /** `stored_revisions_`: inserting a range never replaces an entry. */
  function RevisionsOf(calls: seq<StoreCall>): map<nat, Revision> {
    if calls == [] then map[] else calls[|calls| - 1].revisions + RevisionsOf(calls[..|calls| - 1])
  }

  /** The revisions in the order in which the streaming parser writes them. */
  ghost function RevisionStream(calls: seq<StoreCall>): seq<Revision> {
    if calls == [] then []
    else RevisionStream(calls[..|calls| - 1]) + InIdOrder(calls[|calls| - 1].revisions)
  }

  ghost function InIdOrder(revisions: map<nat, Revision>): (r: seq<Revision>)
    ensures |r| == |revisions|
  {
    NatLessIsTotal();
    SortedValues(NatLess, revisions)
  }
}
