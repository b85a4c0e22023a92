/**
  The dump parser: the two-phase pass over a page's revisions and the handlers around it.
 */
module DumpParser {
  import opened Wrappers
  import opened CitationParser
  import opened History
  import opened Ordered
  import opened Dump
  import opened Framing
  import opened Sinks

  class DumpParser {
    const env: Environment
    const codec: Codec
    const streaming: bool

    var inPage: bool
    var inRevision: bool
    var inContributor: bool
    var shouldStore: bool
    var textBuf: string
    var citationsByRevision: Chronicle
    var currentCitations: RevisionCitations
    var currentPage: Page
    var currentRevision: Revision
    var currentPageRevisions: map<nat, Revision>
    var revisionsToStore: map<nat, Revision>

    /** Takes the finished pages. */
    var sink: PageSink

    ghost function State(): Machine
      reads this, sink
    {
      Machine(inPage, inRevision, inContributor, shouldStore, textBuf, citationsByRevision,
              currentCitations.citations, currentPage, currentRevision, sink.calls)
    }

    /** What holds between two events. */
    ghost predicate Valid()
      reads this, sink, sink.pageWriter, sink.revisionWriter
    {
      && ValidEnvironment(env)
      && currentPageRevisions == RevisionsById(citationsByRevision)
      && revisionsToStore == map[]
      && sink.Valid()
    }

    constructor (env: Environment, codec: Codec, streaming: bool)
      requires ValidEnvironment(env)
      ensures Valid() && fresh(sink) && fresh(sink.pageWriter) && fresh(sink.revisionWriter)
      ensures this.env == env && this.codec == codec && this.streaming == streaming
      ensures State() == Begin(map[], "") && sink.pagesWritten == sink.revisionsWritten == 0
    {
      this.env, this.codec, this.streaming := env, codec, streaming;
      inPage, inRevision, inContributor, shouldStore, textBuf := false, false, false, false, "";
      citationsByRevision, currentCitations := [], RevisionCitations(EMPTY_REVISION, map[]);
      currentPage, currentRevision := EMPTY_PAGE, EMPTY_REVISION;
      currentPageRevisions, revisionsToStore := map[], map[];
      sink := new PageSink(codec, streaming, 0, 0);
    }

    // ---- The history of one page ----

    /**
      Marks the known citations that the revision lacks as removed in it, clears the mark of those
      that are back, and takes the known ones out of the revision's citations. Counts and store stay
      exact throughout.
     */
    method CheckExistingCitations(revision: RevisionCitations, discovered: Discovered, refCount: map<nat, int>)
      returns (revision': RevisionCitations, discovered': Discovered, refCount': map<nat, int>)
      requires Balanced(discovered, refCount, revisionsToStore, currentPageRevisions)
      requires revision.revision.id in currentPageRevisions
      modifies `revisionsToStore
      ensures Balanced(discovered', refCount', revisionsToStore, currentPageRevisions)
      ensures discovered' == Rechecked(discovered, revision)
      ensures revision' == Unknown(discovered, revision)
    {
      revision', discovered', refCount' := revision, discovered, refCount;
      var rest := discovered.Keys;
      while rest != {}
        invariant rest <= discovered.Keys
        invariant discovered' == PartlyRechecked(discovered, revision, rest)
        invariant revision' == PartlyUnknown(discovered, revision, rest)
        invariant Balanced(discovered', refCount', revisionsToStore, currentPageRevisions)
        decreases rest
      {
        var key := LeastString(rest);
        RecheckedOne(discovered, revision, rest, key);
        var present := key in revision'.citations;
        if present {
          revision' := revision'.(citations := revision'.citations - {key});
        }
        discovered', refCount' := CheckOne(key, present, revision'.revision.id, discovered', refCount');
        rest := rest - {key};
      }
    }

    /** The body of the loop: one known citation against a revision that has it or not. */
    method CheckOne(key: string, present: bool, id: nat, discovered: Discovered, refCount: map<nat, int>)
      returns (discovered': Discovered, refCount': map<nat, int>)
      requires Balanced(discovered, refCount, revisionsToStore, currentPageRevisions)
      requires key in discovered && id in currentPageRevisions
      modifies `revisionsToStore
      ensures Balanced(discovered', refCount', revisionsToStore, currentPageRevisions)
      ensures discovered' == discovered[key := Recheck(discovered[key], present, id)]
    {
      discovered', refCount' := discovered, refCount;
      var citation := discovered[key];
      if present {
        if citation.removed.Some? {
          var removed := citation.removed.value;
          MarkBack(discovered, key, refCount, revisionsToStore, currentPageRevisions);
          refCount' := refCount[removed := refCount[removed] - 1];
          if refCount'[removed] <= 0 {
            revisionsToStore := revisionsToStore - {removed};
          }
          discovered' := discovered[key := citation.(removed := None)];
        }
      } else {
        if citation.removed.None? {
          MarkRemoved(discovered, key, refCount, revisionsToStore, currentPageRevisions, id);
          discovered' := discovered[key := citation.(removed := Some(id))];
          revisionsToStore := Kept(revisionsToStore, currentPageRevisions, id);
          refCount' := Counted(refCount, id);
        }
      }
      assert discovered' == discovered[key := Recheck(citation, present, id)];
    }

    /** Adds the citations not known yet, as added in the revision, in whatever order they come. */
    method AddNewCitations(citations: RevisionCitations, discovered: Discovered, refCount: map<nat, int>)
      returns (discovered': Discovered, refCount': map<nat, int>)
      requires Balanced(discovered, refCount, revisionsToStore, currentPageRevisions)
      requires citations.revision.id in currentPageRevisions
      modifies `revisionsToStore
      ensures Balanced(discovered', refCount', revisionsToStore, currentPageRevisions)
      ensures discovered' == Extended(discovered, citations)
    {
      discovered', refCount' := discovered, refCount;
      var rest := citations.citations.Keys;
      ExtendedEnds(discovered, citations);
      while rest != {}
        invariant rest <= citations.citations.Keys
        invariant discovered' == PartlyExtended(discovered, citations, rest)
        invariant Balanced(discovered', refCount', revisionsToStore, currentPageRevisions)
        decreases rest
      {
        var key :| key in rest;
        ExtendedOne(discovered, citations, rest, key);
        if key !in discovered' {
          discovered', refCount' :=
            AddOne(key, citations.citations[key], citations.revision.id, discovered', refCount');
        }
        rest := rest - {key};
      }
    }

    /** The body of the loop: one citation that is not known yet. */
    method AddOne(key: string, content: ExtractedCitation, id: nat, discovered: Discovered, refCount: map<nat, int>)
      returns (discovered': Discovered, refCount': map<nat, int>)
      requires Balanced(discovered, refCount, revisionsToStore, currentPageRevisions)
      requires key !in discovered && id in currentPageRevisions
      modifies `revisionsToStore
      ensures Balanced(discovered', refCount', revisionsToStore, currentPageRevisions)
      ensures discovered' == discovered[key := Citation(id, None, content)]
    {
      AddNew(discovered, key, content, refCount, revisionsToStore, currentPageRevisions, id);
      revisionsToStore := Kept(revisionsToStore, currentPageRevisions, id);
      refCount' := Counted(refCount, id);
      discovered' := discovered[key := Citation(id, None, content)];
    }

    /**
      Sorts the page's revisions, runs the two phases over them and copies the citations into the
      page. Afterwards the revisions are in order, each left with only the citations new in it.
     */
    method MakePageCitationList()
      requires ValidEnvironment(env) && revisionsToStore == map[]
      requires currentPageRevisions == RevisionsById(citationsByRevision)
      modifies `citationsByRevision, `currentPage, `revisionsToStore
      ensures StoreCall(currentPage, revisionsToStore) == Finished(env, old(currentPage), old(citationsByRevision))
      ensures OnlyNewLeft(env.sort(old(citationsByRevision)), |citationsByRevision|, citationsByRevision)
    {
      ghost var arrived := citationsByRevision;
      citationsByRevision := env.sort(citationsByRevision);
      ghost var h := citationsByRevision;
      SortKeepsRevisions(arrived, h);
      var discovered: Discovered := map[];
      var refCount: map<nat, int> := map[];
      NothingBalances(currentPageRevisions);
      for i := 0 to |citationsByRevision|
        invariant OnlyNewLeft(h, i, citationsByRevision)
        invariant discovered == Summary(h[..i]) && currentPage == old(currentPage)
        invariant Balanced(discovered, refCount, revisionsToStore, currentPageRevisions)
      {
        OnlyNewStep(h, i, citationsByRevision);
        SummaryGrows(h, i);
        var citations;
        citations, discovered, refCount := CheckThenAdd(citationsByRevision[i], discovered, refCount);
        citationsByRevision := citationsByRevision[i := citations];
      }
      assert h[..|h|] == h;
      CopyCitations(discovered);
    }

    /** The body of the loop: both phases for one revision. */
    method CheckThenAdd(citations: RevisionCitations, discovered: Discovered, refCount: map<nat, int>)
      returns (citations': RevisionCitations, discovered': Discovered, refCount': map<nat, int>)
      requires Balanced(discovered, refCount, revisionsToStore, currentPageRevisions)
      requires citations.revision.id in currentPageRevisions
      modifies `revisionsToStore
      ensures Balanced(discovered', refCount', revisionsToStore, currentPageRevisions)
      ensures citations' == Unknown(discovered, citations)
      ensures discovered' == Extended(Rechecked(discovered, citations), citations')
    {
      citations', discovered', refCount' := CheckExistingCitations(citations, discovered, refCount);
      discovered', refCount' := AddNewCitations(citations', discovered', refCount');
    }

    /** Appends the citations to the page in the order of their keys. */
    method CopyCitations(discovered: Discovered)
      modifies `currentPage
      ensures currentPage == old(currentPage).(citations := old(currentPage).citations + InTitleOrder(discovered))
    {
      StringLessIsTotal();
      var rest := discovered.Keys;
      ghost var before := currentPage.citations;
      while rest != {}
        invariant rest <= discovered.Keys
        invariant currentPage == old(currentPage).(citations := currentPage.citations)
        invariant currentPage.citations + SortedPart(StringLess, discovered, rest) == before + InTitleOrder(discovered)
        decreases rest
      {
        var key := LeastString(rest);
        PartStep(StringLess, discovered, rest, key);
        Assoc(currentPage.citations, [discovered[key]], SortedPart(StringLess, discovered, rest - {key}));
        currentPage := currentPage.(citations := currentPage.citations + [discovered[key]]);
        rest := rest - {key};
      }
      assert currentPage.citations + [] == currentPage.citations;
    }

    // ---- The handlers ----

    method OnStartElement(name: string)
      modifies `inPage, `inRevision, `inContributor, `shouldStore, `textBuf
      ensures State() == StartStep(old(State()), name)
    {
      textBuf := "";
      if name == "page" {
        inPage := true;
      } else if name == "revision" {
        inRevision := true;
      } else if name == "contributor" {
        inContributor := true;
      } else if (inPage && name == "title") || (inPage && name == "id") || (inRevision && name == "id")
                || (inRevision && name == "parentid") || (inRevision && name == "username")
                || (inRevision && name == "text") || (inRevision && name == "timestamp") {
        shouldStore := true;
      }
    }

    method OnCharacters(text: string)
      modifies `textBuf
      ensures State() == CharactersStep(old(State()), text)
    {
      if shouldStore {
        textBuf := textBuf + text;
      }
    }

    /** Gives false where the code throws. */
    method OnEndField(name: string) returns (ok: bool)
      modifies `currentPage, `currentRevision, `currentCitations
      ensures ok <==> FieldStep(env, old(State()), name).Ok?
      ensures ok ==> State() == FieldStep(env, old(State()), name).value
    {
      ok := true;
      if inPage && name == "title" {
        currentPage := currentPage.(title := textBuf);
      } else if inPage && !inRevision && !inContributor && name == "id" {
        var id := IdOf(textBuf);
        if id.Err? { return false; }
        currentPage := currentPage.(id := id.value);
      } else if inRevision && !inContributor && name == "id" {
        var id := IdOf(textBuf);
        if id.Err? { return false; }
        currentRevision := currentRevision.(id := id.value);
      } else if inRevision && name == "parentid" {
        var id := IdOf(textBuf);
        if id.Err? { return false; }
        currentRevision := currentRevision.(parentId := Some(id.value));
      } else if inRevision && name == "username" {
        currentRevision := currentRevision.(user := Some(textBuf));
      } else if inRevision && name == "text" {
        var citations := env.parse(textBuf);
        if citations.Err? { return false; }
        currentCitations := RevisionCitations(EMPTY_REVISION, citations.value);
      } else if inRevision && name == "timestamp" {
        currentRevision := currentRevision.(timestamp := Some(env.timestampOf(textBuf)));
      }
    }

    method OnEndRevision()
      requires currentPageRevisions == RevisionsById(citationsByRevision)
      modifies `inRevision, `currentCitations, `citationsByRevision, `currentPageRevisions, `currentRevision
      ensures currentPageRevisions == RevisionsById(citationsByRevision)
      ensures State() == RevisionStep(old(State()))
    {
      inRevision := false;
      currentCitations := currentCitations.(revision := currentRevision);
      ghost var before := citationsByRevision;
      citationsByRevision := citationsByRevision + [currentCitations];
      assert citationsByRevision[..|before|] == before;
      if currentRevision.id !in currentPageRevisions {
        currentPageRevisions := currentPageRevisions[currentRevision.id := currentRevision];
      }
      currentRevision := EMPTY_REVISION;
    }

    method OnEndPage()
      requires Valid()
      modifies this, sink, sink.pageWriter, sink.revisionWriter
      ensures Valid() && sink == old(sink)
      ensures State() == PageStep(env, old(State()))
    {
      inPage := false;
      FinishPage();
      ClearUp();
    }

    /** Builds the page's citations and hands the page over. */
    method FinishPage()
      requires ValidEnvironment(env) && revisionsToStore == map[] && sink.Valid()
      requires currentPageRevisions == RevisionsById(citationsByRevision)
      modifies `citationsByRevision, `currentPage, `revisionsToStore, sink, sink.pageWriter, sink.revisionWriter
      ensures sink.Valid() && sink == old(sink)
      ensures State() == old(State()).(
                page := currentPage, arrived := citationsByRevision,
                calls := old(sink.calls) + [Finished(env, old(currentPage), old(citationsByRevision))])
    {
      MakePageCitationList();
      StorePage();
    }

    method StorePage()
      requires sink.Valid()
      modifies sink, sink.pageWriter, sink.revisionWriter
      ensures sink.Valid()
      ensures State() == old(State()).(calls := old(sink.calls) + [StoreCall(currentPage, revisionsToStore)])
    {
      sink.Store(revisionsToStore, currentPage);
    }

    method ClearUp()
      modifies `currentPage, `currentPageRevisions, `citationsByRevision, `revisionsToStore
      ensures State() == old(State()).(page := EMPTY_PAGE, arrived := [])
      ensures currentPageRevisions == RevisionsById(citationsByRevision) && revisionsToStore == map[]
    {
      currentPage := EMPTY_PAGE;
      currentPageRevisions := map[];
      citationsByRevision := [];
      revisionsToStore := map[];
    }

    /** Gives false where the code throws; nothing is said of the state then. */
    method OnEndElement(name: string) returns (ok: bool)
      requires Valid()
      modifies this, sink, sink.pageWriter, sink.revisionWriter
      ensures sink == old(sink)
      ensures ok <==> EndStep(env, old(State()), name).Ok?
      ensures ok ==> Valid() && State() == EndStep(env, old(State()), name).value
    {
      ok := Dispatch(name);
      StopStoring();
    }

    method Dispatch(name: string) returns (ok: bool)
      requires Valid()
      modifies this, sink, sink.pageWriter, sink.revisionWriter
      ensures sink == old(sink)
      ensures ok <==> EndedStep(env, old(State()), name).Ok?
      ensures ok ==> Valid() && State() == EndedStep(env, old(State()), name).value
    {
      ok := true;
      if name == "page" {
        OnEndPage();
      } else if name == "revision" {
        OnEndRevision();
      } else if name == "contributor" {
        inContributor := false;
      } else {
        ok := OnEndField(name);
      }
    }

    method StopStoring()
      modifies `shouldStore
      ensures State() == old(State()).(shouldStore := false)
    {
      shouldStore := false;
    }

    /** One event of the SAX parser; warnings and errors throw. */
    method Handle(e: Event) returns (ok: bool)
      requires Valid()
      modifies this, sink, sink.pageWriter, sink.revisionWriter
      ensures sink == old(sink)
      ensures ok <==> Step(env, old(State()), e).Ok?
      ensures ok ==> Valid() && State() == Step(env, old(State()), e).value
    {
      match e {
        case Start(name) =>
          OnStartElement(name);
          ok := true;
        case End(name) =>
          ok := OnEndElement(name);
        case Characters(text) =>
          OnCharacters(text);
          ok := true;
        case Problem =>
          ok := false;
      }
    }

    /** Everything is reset but the citations parsed last and the text buffer. */
    method InitializeParser()
      modifies `revisionsToStore, `currentPage, `currentRevision, `currentPageRevisions, `citationsByRevision,
               `inPage, `inRevision, `inContributor, `shouldStore
      ensures State() == Begin(old(currentCitations.citations), old(textBuf)).(calls := sink.calls)
      ensures currentPageRevisions == map[] && revisionsToStore == map[]
    {
      revisionsToStore := map[];
      currentPage := EMPTY_PAGE;
      currentRevision := EMPTY_REVISION;
      currentPageRevisions := map[];
      citationsByRevision := [];
      inPage, inRevision, inContributor, shouldStore := false, false, false, false;
    }

    /** Feeds the events to the handlers until one throws. */
    method StartParser(events: seq<Event>) returns (ok: bool)
      requires ValidEnvironment(env) && sink.Valid() && sink.calls == []
      modifies this, sink, sink.pageWriter, sink.revisionWriter
      ensures sink == old(sink)
      ensures var r := Run(env, Begin(old(currentCitations.citations), old(textBuf)), events);
              && (ok <==> r.Ok?)
              && (ok ==> Valid() && State() == r.value)
    {
      InitializeParser();
      ghost var begin := State();
      for i := 0 to |events|
        invariant Valid() && sink == old(sink)
        invariant Run(env, begin, events) == Run(env, State(), events[i..])
      {
        assert events[i..][0] == events[i] && events[i..][1..] == events[i + 1..];
        ok := Handle(events[i]);
        if !ok {
          return;
        }
      }
      ok := true;
    }

    /** `DumpParser::ParseXML`: the pages, and the revisions their citations name. */
    method ParseXML(events: seq<Event>) returns (r: Result<(seq<Page>, map<nat, Revision>)>)
      requires ValidEnvironment(env) && !streaming
      modifies this
      ensures match Run(env, Begin(old(currentCitations.citations), old(textBuf)), events)
              case Err => r == Err
              case Ok(m) => r == Ok((PagesOf(m.calls), RevisionsOf(m.calls)))
                            && Valid() && currentCitations.citations == m.carried
    {
      sink := new PageSink(codec, false, 0, 0);
      var ok := StartParser(events);
      return if ok then Ok((sink.storedPages, sink.storedRevisions)) else Err;
    }

    /**
      `StreamingDumpParser::ParseXML`: the two streams afterwards, and the counts it returns. The
      counters are never reset, so the counts are those of the streams exactly in the first run of a parser.
     */
    method ParseToStreams(events: seq<Event>)
      returns (r: Result<(nat, nat)>, pages: seq<byte>, revisions: seq<byte>)
      requires ValidEnvironment(env) && streaming
      modifies this
      ensures match Run(env, Begin(old(currentCitations.citations), old(textBuf)), events)
              case Err => r == Err
              case Ok(m) =>
                && r.Ok?
                && Streamed(codec, m.calls, pages, revisions,
                            r.value.0 - old(sink.pagesWritten), r.value.1 - old(sink.revisionsWritten))
                && (r.value == (|PagesOf(m.calls)|, |RevisionStream(m.calls)|)
                    <==> old(sink.pagesWritten) == old(sink.revisionsWritten) == 0)
                && Valid() && currentCitations.citations == m.carried
    {
      sink := new PageSink(codec, true, sink.pagesWritten, sink.revisionsWritten);
      var ok := StartParser(events);
      pages, revisions := sink.pageWriter.output, sink.revisionWriter.output;
      r := if ok then Ok((sink.pagesWritten, sink.revisionsWritten)) else Err;
    }
  }

  /** The next key when a `std::map` is iterated. */
  method LeastString(keys: set<string>) returns (key: string)
    requires keys != {}
    ensures IsLeast(StringLess, key, keys)
  {
    StringLessIsTotal();
    LeastExists(StringLess, keys);
    key :| key in keys && forall k :: k in keys && k != key ==> StringLess(key, k);
  }

  /** The first `i` revisions are left with the citations new in them, the others are as they were. */
  ghost predicate OnlyNewLeft(h: Chronicle, i: nat, left: Chronicle) {
    && i <= |h| == |left|
    && (forall j :: 0 <= j < i ==> left[j] == Unknown(Summary(h[..j]), h[j]))
    && (forall j :: i <= j < |h| ==> left[j] == h[j])
  }

  lemma OnlyNewStep(h: Chronicle, i: nat, left: Chronicle)
    requires OnlyNewLeft(h, i, left) && i < |h|
    ensures left[i] == h[i]
    ensures OnlyNewLeft(h, i + 1, left[i := Unknown(Summary(h[..i]), h[i])])
  {}

  lemma SummaryGrows(h: Chronicle, i: nat)
    requires i < |h|
    ensures Extended(Rechecked(Summary(h[..i]), h[i]), Unknown(Summary(h[..i]), h[i])) == Summary(h[..i + 1])
  {
    SummaryStep(h[..i], h[i]);
    assert h[..i] + [h[i]] == h[..i + 1];
  }

  lemma NothingBalances(revisions: map<nat, Revision>)
    ensures Summary([]) == map[] && Balanced(map[], map[], map[], revisions)
  {
    forall id: nat ensures References(map[], id) == 0 {
      assert AddedBy(map[], id) == {} == RemovedBy(map[], id);
    }
  }
}
