/**
  Dumps as trees, their serialisation as parser events, and what a tree means: its pages, their
  titles and ids, and their revisions, read off the tree without a state or a buffer.
 */
module Document {
  import opened Wrappers
  import opened CitationParser
  import opened History
  import opened Dump

  // ---- Trees ----

  /** Content of an element: character data, in any number of chunks, and elements. */
  datatype Forest =
    | Empty
    | Text(text: string, rest: Forest)
    | Element(name: string, kids: Forest, rest: Forest)

  /** The elements that change the parser's flags. */
  const STRUCTURE := {"page", "revision", "contributor"}

  /** Where some content stands. */
  datatype Where = Outside | InPage | InRevision

  /** The elements whose character data the parser collects. */
  predicate Heard(w: Where, name: string) {
    (w != Outside && name in PAGE_FIELDS) || (w == InRevision && name in REVISION_FIELDS)
  }

  predicate TextOnly(f: Forest) {
    match f
    case Empty => true
    case Text(_, rest) => TextOnly(rest)
    case Element(_, _, _) => false
  }

  predicate HasContributor(f: Forest) {
    match f
    case Empty => false
    case Text(_, rest) => HasContributor(rest)
    case Element(name, kids, rest) => name == "contributor" || HasContributor(kids) || HasContributor(rest)
  }

  /**
    Fields hold character data only, pages stand outside pages, revisions in pages outside revisions,
    and neither inside a contributor. Contributors, unknown elements and elements named like a field
    that is not heard stand anywhere and hold anything; `open` says that a contributor is around.
   */
  predicate Valid(w: Where, open: bool, f: Forest)
    decreases f
  {
    match f
    case Empty => true
    case Text(_, rest) => Valid(w, open, rest)
    case Element(name, kids, rest) =>
      && Valid(w, open, rest)
      && if name == "page" then w == Outside && !open && Valid(InPage, false, kids)
         else if name == "revision" then w == InPage && !open && Valid(InRevision, false, kids)
         else if name == "contributor" then Valid(w, true, kids)
         else if Heard(w, name) then TextOnly(kids)
         else Valid(w, open, kids)
  }

  // ---- Serialisation ----

  function Within(name: string, events: seq<Event>): seq<Event> {
    [Start(name)] + events + [End(name)]
  }

  function Events(f: Forest): seq<Event> {
    match f
    case Empty => []
    case Text(text, rest) => [Characters(text)] + Events(rest)
    case Element(name, kids, rest) => Within(name, Events(kids)) + Events(rest)
  }

  /** Two dumps in a row. */
  function Append(f: Forest, g: Forest): Forest {
    match f
    case Empty => g
    case Text(text, rest) => Text(text, Append(rest, g))
    case Element(name, kids, rest) => Element(name, kids, Append(rest, g))
  }

  // ---- Fields ----

  datatype Field = Field(name: string, text: string)

  /** The character data directly in some content. */
  function CharsOf(f: Forest): string {
    match f
    case Empty => ""
    case Text(text, rest) => text + CharsOf(rest)
    case Element(_, _, rest) => CharsOf(rest)
  }

  /** The text of the last field with the name. */
  function LastText(fields: seq<Field>, name: string): Option<string> {
    if fields == [] then None
    else if fields[|fields| - 1].name == name then Some(fields[|fields| - 1].text)
    else LastText(fields[..|fields| - 1], name)
  }

  /** An element that is, or holds, a contributor. */
  predicate Closes(name: string, kids: Forest) {
    name == "contributor" || HasContributor(kids)
  }

  function OwnPageField(name: string, kids: Forest, inRevision: bool, inContributor: bool): seq<Field> {
    if name == "title" || (name == "id" && !inRevision && !inContributor) then [Field(name, CharsOf(kids))] else []
  }

  /**
    What some content of a page tells about the page: a title wherever it stands, an id only outside
    revisions and contributors. Once a contributor inside a contributor has ended, the outer one no
    longer counts.
   */
  function PageFields(f: Forest, inRevision: bool, inContributor: bool): seq<Field> {
    match f
    case Empty => []
    case Text(_, rest) => PageFields(rest, inRevision, inContributor)
    case Element(name, kids, rest) =>
      OwnPageField(name, kids, inRevision, inContributor)
      + PageFields(kids, inRevision || name == "revision", inContributor || name == "contributor")
      + PageFields(rest, inRevision, inContributor && !Closes(name, kids))
  }

  function OwnRevisionField(name: string, kids: Forest, inContributor: bool): seq<Field> {
    if name in REVISION_FIELDS && !(name == "id" && inContributor) then [Field(name, CharsOf(kids))] else []
  }

  /** What some content of a revision tells about it: every field, but no id of a contributor. */
  function RevisionFields(f: Forest, inContributor: bool): seq<Field> {
    match f
    case Empty => []
    case Text(_, rest) => RevisionFields(rest, inContributor)
    case Element(name, kids, rest) =>
      OwnRevisionField(name, kids, inContributor)
      + RevisionFields(kids, inContributor || name == "contributor")
      + RevisionFields(rest, inContributor && !Closes(name, kids))
  }

  /** A contributor stands in another one. */
  predicate Nested(f: Forest, within: bool) {
    match f
    case Empty => false
    case Text(_, rest) => Nested(rest, within)
    case Element(name, kids, rest) =>
      || (name == "contributor" && within)
      || Nested(kids, within || name == "contributor")
      || Nested(rest, within)
  }

  /** The fields of the page by where they stand: no id within a revision or a contributor. */
  function PageFieldsByPlace(f: Forest, inRevision: bool, within: bool): seq<Field> {
    match f
    case Empty => []
    case Text(_, rest) => PageFieldsByPlace(rest, inRevision, within)
    case Element(name, kids, rest) =>
      OwnPageField(name, kids, inRevision, within)
      + PageFieldsByPlace(kids, inRevision || name == "revision", within || name == "contributor")
      + PageFieldsByPlace(rest, inRevision, within)
  }

  /** The fields of the revision by where they stand: no id within a contributor. */
  function RevisionFieldsByPlace(f: Forest, within: bool): seq<Field> {
    match f
    case Empty => []
    case Text(_, rest) => RevisionFieldsByPlace(rest, within)
    case Element(name, kids, rest) =>
      OwnRevisionField(name, kids, within)
      + RevisionFieldsByPlace(kids, within || name == "contributor")
      + RevisionFieldsByPlace(rest, within)
  }

  /**
    An id stands in a contributor, outside every revision, and the last tag of a contributor before it
    is an end tag. `within` says that a contributor is around, `begun` that the last such tag, if any,
    was a start tag.
   */
  predicate PageLeaks(f: Forest, inRevision: bool, within: bool, begun: bool) {
    match f
    case Empty => false
    case Text(_, rest) => PageLeaks(rest, inRevision, within, begun)
    case Element(name, kids, rest) =>
      || (name == "id" && !inRevision && within && !begun)
      || PageLeaks(kids, inRevision || name == "revision", within || name == "contributor",
                   begun || name == "contributor")
      || PageLeaks(rest, inRevision, within, begun && !Closes(name, kids))
  }

  /** Likewise for an id in a revision. */
  predicate RevisionLeaks(f: Forest, within: bool, begun: bool) {
    match f
    case Empty => false
    case Text(_, rest) => RevisionLeaks(rest, within, begun)
    case Element(name, kids, rest) =>
      || (name == "id" && within && !begun)
      || RevisionLeaks(kids, within || name == "contributor", begun || name == "contributor")
      || RevisionLeaks(rest, within, begun && !Closes(name, kids))
  }

  // ---- Records ----

  function IdValue(text: string): nat {
    if IdOf(text).Ok? then IdOf(text).value else 0
  }

  /** A page, told some more fields: the last of a kind counts. */
  function TellPage(page: Page, fields: seq<Field>): Page {
    var title, id := LastText(fields, "title"), LastText(fields, "id");
    page.(title := title.GetOr(page.title), id := if id.Some? then IdValue(id.value) else page.id)
  }

  /** A revision, told some more fields. */
  function TellRevision(env: Environment, revision: Revision, fields: seq<Field>): Revision {
    var id, parent := LastText(fields, "id"), LastText(fields, "parentid");
    var user, timestamp := LastText(fields, "username"), LastText(fields, "timestamp");
    Revision(
      if id.Some? then IdValue(id.value) else revision.id,
      if parent.Some? then Some(IdValue(parent.value)) else revision.parentId,
      if user.Some? then user else revision.user,
      if timestamp.Some? then Some(env.timestampOf(timestamp.value)) else revision.timestamp)
  }

  function PageRecord(fields: seq<Field>): Page {
    TellPage(EMPTY_PAGE, fields)
  }

  function RecordOf(env: Environment, fields: seq<Field>): Revision {
    TellRevision(env, EMPTY_REVISION, fields)
  }

  type Carried = map<string, ExtractedCitation>

  /** The citations of a revision's last text; without a text, those parsed before. */
  function CitationsAfter(env: Environment, fields: seq<Field>, carried: Carried): Carried {
    match LastText(fields, "text")
    case None => carried
    case Some(text) => if env.parse(text).Ok? then env.parse(text).value else map[]
  }

  // ---- Pages and dumps ----

  function RevisionMeaning(env: Environment, kids: Forest, carried: Carried): RevisionCitations {
    var fields := RevisionFields(kids, false);
    RevisionCitations(RecordOf(env, fields), CitationsAfter(env, fields, carried))
  }

  function CarriedOn(h: Chronicle, carried: Carried): Carried {
    if h == [] then carried else h[|h| - 1].citations
  }

  /** The revisions of a page, in document order, however deep they stand. */
  function Arrivals(env: Environment, f: Forest, carried: Carried): Chronicle {
    match f
    case Empty => []
    case Text(_, rest) => Arrivals(env, rest, carried)
    case Element(name, kids, rest) =>
      var h := if name == "revision" then [RevisionMeaning(env, kids, carried)] else Arrivals(env, kids, carried);
      h + Arrivals(env, rest, CarriedOn(h, carried))
  }

  /** What a page means: its fields and the history of its revisions. */
  ghost function PageMeaning(env: Environment, kids: Forest, carried: Carried): StoreCall {
    Finished(env, PageRecord(PageFields(kids, false, false)), Arrivals(env, kids, carried))
  }

  /** The citations carried on from a dump to whatever the same parser reads next. */
  function DumpCarried(env: Environment, f: Forest, carried: Carried): Carried {
    match f
    case Empty => carried
    case Text(_, rest) => DumpCarried(env, rest, carried)
    case Element(name, kids, rest) =>
      DumpCarried(env, rest, if name == "page" then CarriedOn(Arrivals(env, kids, carried), carried)
                             else DumpCarried(env, kids, carried))
  }

  /** What a dump means: one stored page for each page element, in document order. */
  ghost function DumpMeaning(env: Environment, f: Forest, carried: Carried): seq<StoreCall> {
    match f
    case Empty => []
    case Text(_, rest) => DumpMeaning(env, rest, carried)
    case Element(name, kids, rest) =>
      if name == "page" then
        [PageMeaning(env, kids, carried)]
        + DumpMeaning(env, rest, CarriedOn(Arrivals(env, kids, carried), carried))
      else
        DumpMeaning(env, kids, carried) + DumpMeaning(env, rest, DumpCarried(env, kids, carried))
  }

  // ---- What can go wrong ----

  predicate FieldOk(env: Environment, f: Field) {
    && (f.name in {"id", "parentid"} ==> IdOf(f.text).Ok?)
    && (f.name == "text" ==> env.parse(f.text).Ok?)
  }

  predicate FieldsOk(env: Environment, fields: seq<Field>) {
    forall i :: 0 <= i < |fields| ==> FieldOk(env, fields[i])
  }

  predicate PageOk(env: Environment, f: Forest, inContributor: bool) {
    match f
    case Empty => true
    case Text(_, rest) => PageOk(env, rest, inContributor)
    case Element(name, kids, rest) =>
      && FieldsOk(env, OwnPageField(name, kids, false, inContributor))
      && (if name == "revision" then FieldsOk(env, RevisionFields(kids, false))
          else PageOk(env, kids, inContributor || name == "contributor"))
      && PageOk(env, rest, inContributor && !Closes(name, kids))
  }

  /** Every id that is told is a number and every text parses. */
  predicate DumpOk(env: Environment, f: Forest) {
    match f
    case Empty => true
    case Text(_, rest) => DumpOk(env, rest)
    case Element(name, kids, rest) =>
      && (if name == "page" then PageOk(env, kids, false) else DumpOk(env, kids))
      && DumpOk(env, rest)
  }
}
