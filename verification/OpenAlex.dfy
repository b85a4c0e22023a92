/**
  The OpenAlex snapshot processor: authors and institutions are written once, the first time they
  are met, whatever line or call that is in; both share one set of seen ids.
 */
module OpenAlex {
  import opened Wrappers
  import opened Numbers
  import opened CitationParser
  import opened Framing
  import History

  const OPENALEX_PREFIX := "https://openalex.org/"
  const PUBMED_PREFIX := "https://pubmed.ncbi.nlm.nih.gov/"
  const UNKNOWN := "UNKNOWN_"

  // ---- Input: a field is None when it is missing or not a string ----

  datatype AuthorJson = AuthorJson(
    id: Option<string>, displayName: Option<string>, orcid: Option<string>, ror: Option<string>)

  datatype InstitutionJson = InstitutionJson(
    id: Option<string>, displayName: Option<string>, ror: Option<string>)

  datatype Authorship = Authorship(author: AuthorJson, institutions: seq<InstitutionJson>)

  /** The publication date is what its text is parsed to, and the language what its code stands for. */
  datatype WorkJson = WorkJson(
    id: Option<string>, title: Option<string>, publicationDate: Option<History.Timestamp>, language: Option<nat>,
    oaStatus: Option<string>, oaUrl: Option<string>,
    authorships: seq<Authorship>, doi: Option<string>, pmid: Option<string>)

  datatype Line = EmptyLine | WorkLine(data: WorkJson) | NotJson

  // ---- Output ----

  datatype Record =
    | Author(id: string, name: Option<string>, orcid: Option<string>)
    | Institution(id: string, name: Option<string>, ror: Option<string>)

  datatype OaCategory = Unspecified | Diamond | Gold | Green | Hybrid | Bronze | Closed

  datatype Work = Work(
    id: string, title: Option<string>, publicationDate: Option<History.Timestamp>, language: Option<nat>,
    oaStatus: OaCategory, oaUrl: Option<string>,
    authorIds: seq<string>, institutionIds: seq<string>, doi: Option<string>, pmid: Option<nat>)

  // ---- Identifiers ----

  function TrimOpenAlexId(id: string): string {
    RemovePrefix(id, OPENALEX_PREFIX)
  }

  function ParsePubmedId(text: string): Option<nat> {
    match Stoul(RemovePrefix(text, PUBMED_PREFIX))
    case None => None
    case Some(n) => Some(AsUint32(n))
  }

  function StringToOaCategory(category: string): OaCategory {
    if category == "diamond" then Diamond
    else if category == "gold" then Gold
    else if category == "green" then Green
    else if category == "hybrid" then Hybrid
    else if category == "bronze" then Bronze
    else if category == "closed" then Closed
    else Unspecified
  }

  predicate IsAuthorEmpty(a: AuthorJson) {
    a.id.None? && a.displayName.None? && a.ror.None?
  }

  predicate IsInstitutionEmpty(i: InstitutionJson) {
    i.id.None? && i.displayName.None? && i.ror.None?
  }

  /** Err where the code reads a display name that is not there. */
  function GetAuthorId(a: AuthorJson): Result<string> {
    if a.id.Some? then Ok(TrimOpenAlexId(a.id.value))
    else if a.orcid.Some? then Ok(UNKNOWN + a.orcid.value)
    else if a.displayName.Some? then Ok(UNKNOWN + a.displayName.value)
    else Err
  }

  function GetInstitutionId(i: InstitutionJson): Result<string> {
    if i.id.Some? then Ok(TrimOpenAlexId(i.id.value))
    else if i.ror.Some? then Ok(UNKNOWN + i.ror.value)
    else if i.displayName.Some? then Ok(UNKNOWN + i.displayName.value)
    else Err
  }

  // ---- What is mentioned ----

  /** The author is empty, or there is an id, an ORCID or a name to identify it by. */
  predicate Identifiable(a: AuthorJson) {
    IsAuthorEmpty(a) || GetAuthorId(a).Ok?
  }

  predicate Identified(data: WorkJson) {
    AllIdentifiable(data.authorships)
  }

  predicate AllIdentifiable(ships: seq<Authorship>) {
    forall i :: 0 <= i < |ships| ==> Identifiable(ships[i].author)
  }

  function AuthorMention(a: AuthorJson): seq<Record> {
    if IsAuthorEmpty(a) || GetAuthorId(a).Err? then []
    else [Author(GetAuthorId(a).value, a.displayName, a.orcid)]
  }

  function AuthorMentions(ships: seq<Authorship>): seq<Record> {
    if ships == [] then []
    else AuthorMentions(ships[..|ships| - 1]) + AuthorMention(ships[|ships| - 1].author)
  }

  function InstitutionMention(i: InstitutionJson): seq<Record> {
    if IsInstitutionEmpty(i) then []
    else [Institution(GetInstitutionId(i).value, i.displayName, i.ror)]
  }

  function Affiliations(institutions: seq<InstitutionJson>): seq<Record> {
    if institutions == [] then []
    else Affiliations(institutions[..|institutions| - 1]) + InstitutionMention(institutions[|institutions| - 1])
  }

  /** Institutions are recorded for every authorship, also for that of an empty author. */
  function InstitutionMentions(ships: seq<Authorship>): seq<Record> {
    if ships == [] then []
    else InstitutionMentions(ships[..|ships| - 1]) + Affiliations(ships[|ships| - 1].institutions)
  }

  /** A work lists the institutions of its authors that are not empty. */
  function ListedInstitutions(ships: seq<Authorship>): seq<Record> {
    if ships == [] then []
    else
      ListedInstitutions(ships[..|ships| - 1])
      + if IsAuthorEmpty(ships[|ships| - 1].author) then [] else Affiliations(ships[|ships| - 1].institutions)
  }

  // ---- First occurrences ----

  function Ids(rs: seq<Record>): set<string> {
    if rs == [] then {} else Ids(rs[..|rs| - 1]) + {rs[|rs| - 1].id}
  }

  /** The mentions whose id has neither been seen before nor come earlier among them. */
  function Emit(mentions: seq<Record>, seen: set<string>): seq<Record> {
    if mentions == [] then []
    else
      var init, last := mentions[..|mentions| - 1], mentions[|mentions| - 1];
      Emit(init, seen) + if last.id in seen || last.id in Ids(init) then [] else [last]
  }

  function IdList(rs: seq<Record>): seq<string> {
    if rs == [] then [] else IdList(rs[..|rs| - 1]) + [rs[|rs| - 1].id]
  }

  /** The code reads id and open-access status without asking; a PubMed id must be a number. */
  predicate FieldsReadable(data: WorkJson) {
    && data.id.Some? && data.oaStatus.Some?
    && (data.pmid.Some? ==> ParsePubmedId(data.pmid.value).Some?)
  }

  function WorkOf(data: WorkJson): Work {
    Work(TrimOpenAlexId(data.id.GetOr("")), data.title, data.publicationDate, data.language,
         StringToOaCategory(data.oaStatus.GetOr("")), data.oaUrl,
         IdList(AuthorMentions(data.authorships)),
         IdList(Emit(ListedInstitutions(data.authorships), {})),
         if data.doi.Some? then Some(RemovePrefix(data.doi.value, DOI_PREFIX)) else None,
         if data.pmid.Some? then ParsePubmedId(data.pmid.value) else None)
  }

  // ---- Lines and runs ----

  /** A line is taken without an exception. */
  predicate LineOk(line: Line) {
    match line
    case EmptyLine => true
    case NotJson => false
    case WorkLine(data) => Identified(data) && FieldsReadable(data)
  }

  predicate LinesOk(lines: seq<Line>) {
    forall i :: 0 <= i < |lines| ==> LineOk(lines[i])
  }

  /** All mentions of a line; which kind comes first is for the compiler to choose. */
  function LineMentions(line: Line, authorsFirst: bool): seq<Record> {
    match line
    case EmptyLine => []
    case NotJson => []
    case WorkLine(data) =>
      var authors, institutions := AuthorMentions(data.authorships), InstitutionMentions(data.authorships);
      if authorsFirst then authors + institutions else institutions + authors
  }

  function Mentions(lines: seq<Line>, authorsFirst: nat -> bool): seq<Record> {
    if lines == [] then []
    else
      var n := |lines| - 1;
      Mentions(lines[..n], authorsFirst) + LineMentions(lines[n], authorsFirst(n))
  }

  function Works(lines: seq<Line>): seq<Work> {
    if lines == [] then []
    else
      var last := lines[|lines| - 1];
      Works(lines[..|lines| - 1]) + if last.WorkLine? then [WorkOf(last.data)] else []
  }

  /** The authors among some records, or the institutions. */
  function Only(rs: seq<Record>, authors: bool): seq<Record> {
    if rs == [] then []
    else Only(rs[..|rs| - 1], authors) + if rs[|rs| - 1].Author? == authors then [rs[|rs| - 1]] else []
  }

  // ---- The implementation ----

  class SnapshotProcessorImpl {
    var seenIds: set<string>

    constructor ()
      ensures seenIds == {}
    {
      seenIds := {};
    }

    /** Emits a record the first time its id is met. */
    method EmitNew(record: Record, emitted: seq<Record>, ghost mentions: seq<Record>, ghost before: set<string>)
      returns (emitted': seq<Record>)
      requires emitted == Emit(mentions, before) && seenIds == before + Ids(mentions)
      modifies this
      ensures emitted' == Emit(mentions + [record], before) && seenIds == before + Ids(mentions + [record])
    {
      EmitStep(mentions, record, before);
      emitted' := emitted;
      if record.id !in seenIds {
        seenIds := seenIds + {record.id};
        emitted' := emitted + [record];
      }
    }

    method ExtractAuthors(data: WorkJson) returns (r: Result<seq<Record>>)
      modifies this
      ensures r.Ok? <==> Identified(data)
      ensures r.Ok? ==> r.value == Emit(AuthorMentions(data.authorships), old(seenIds))
                        && seenIds == old(seenIds) + Ids(AuthorMentions(data.authorships))
    {
      var authors: seq<Record> := [];
      for i := 0 to |data.authorships|
        invariant authors == Emit(AuthorMentions(data.authorships[..i]), old(seenIds))
        invariant seenIds == old(seenIds) + Ids(AuthorMentions(data.authorships[..i]))
        invariant AllIdentifiable(data.authorships[..i])
      {
        var author := data.authorships[i].author;
        AuthorMentionsStep(data.authorships, i);
        if !IsAuthorEmpty(author) {
          var id := GetAuthorId(author);
          if id.Err? {
            return Err;
          }
          authors := EmitNew(Author(id.value, author.displayName, author.orcid), authors,
                             AuthorMentions(data.authorships[..i]), old(seenIds));
        }
      }
      assert data.authorships[..|data.authorships|] == data.authorships;
      r := Ok(authors);
    }

    method ExtractInstitutions(data: WorkJson) returns (institutions: seq<Record>)
      modifies this
      ensures institutions == Emit(InstitutionMentions(data.authorships), old(seenIds))
      ensures seenIds == old(seenIds) + Ids(InstitutionMentions(data.authorships))
    {
      institutions := [];
      for i := 0 to |data.authorships|
        invariant institutions == Emit(InstitutionMentions(data.authorships[..i]), old(seenIds))
        invariant seenIds == old(seenIds) + Ids(InstitutionMentions(data.authorships[..i]))
      {
        InstitutionMentionsStep(data.authorships, i);
        institutions := EmitAffiliations(data.authorships[i].institutions, institutions,
                                         InstitutionMentions(data.authorships[..i]), old(seenIds));
      }
      assert data.authorships[..|data.authorships|] == data.authorships;
    }

    /** The inner loop: the institutions of one authorship. */
    method EmitAffiliations(ins: seq<InstitutionJson>, emitted: seq<Record>,
                            ghost mentions: seq<Record>, ghost before: set<string>)
      returns (emitted': seq<Record>)
      requires emitted == Emit(mentions, before) && seenIds == before + Ids(mentions)
      modifies this
      ensures emitted' == Emit(mentions + Affiliations(ins), before)
      ensures seenIds == before + Ids(mentions + Affiliations(ins))
    {
      emitted' := emitted;
      assert mentions + Affiliations(ins[..0]) == mentions;
      for j := 0 to |ins|
        invariant emitted' == Emit(mentions + Affiliations(ins[..j]), before)
        invariant seenIds == before + Ids(mentions + Affiliations(ins[..j]))
      {
        AffiliationsStep(mentions, ins, j);
        if !IsInstitutionEmpty(ins[j]) {
          var id := GetInstitutionId(ins[j]).value;
          emitted' := EmitNew(Institution(id, ins[j].displayName, ins[j].ror), emitted',
                              mentions + Affiliations(ins[..j]), before);
        }
      }
      assert ins[..|ins|] == ins;
    }

    /** Two extractions in the order the compiler has chosen; the third does not touch the seen ids. */
    method ProcessLine(data: WorkJson, authorsFirst: bool) returns (r: Result<(seq<Record>, seq<Record>, Work)>)
      modifies this
      ensures r.Ok? <==> LineOk(WorkLine(data))
      ensures r.Ok? ==> var emitted := Emit(LineMentions(WorkLine(data), authorsFirst), old(seenIds));
                        r.value == (Only(emitted, true), Only(emitted, false), WorkOf(data))
      ensures r.Ok? ==> seenIds == old(seenIds) + Ids(LineMentions(WorkLine(data), authorsFirst))
    {
      MentionKinds(data.authorships);
      ghost var a, b := AuthorMentions(data.authorships), InstitutionMentions(data.authorships);
      var authors: Result<seq<Record>>;
      var institutions: seq<Record>;
      if authorsFirst {
        KindByKind(a, b, true, seenIds);
        authors := ExtractAuthors(data);
        institutions := ExtractInstitutions(data);
      } else {
        KindByKind(b, a, false, seenIds);
        institutions := ExtractInstitutions(data);
        authors := ExtractAuthors(data);
      }
      var work := ExtractWork(data);
      if authors.Err? || work.Err? {
        return Err;
      }
      r := Ok((authors.value, institutions, work.value));
    }

    /** The in-memory overload. */
    method ProcessWorksSnapshot(lines: seq<Line>, authorsFirst: nat -> bool)
      returns (r: Result<(seq<Record>, seq<Record>, seq<Work>)>)
      modifies this
      ensures r.Ok? <==> LinesOk(lines)
      ensures r.Ok? ==> Reached(lines, authorsFirst, old(seenIds), r.value.0, r.value.1, r.value.2, seenIds)
    {
      var authors: seq<Record>, institutions: seq<Record>, works: seq<Work> := [], [], [];
      for i := 0 to |lines|
        invariant LinesOk(lines[..i])
        invariant Reached(lines[..i], authorsFirst, old(seenIds), authors, institutions, works, seenIds)
      {
        LinesOkStep(lines, i);
        ReachedStep(lines, i, authorsFirst, old(seenIds), authors, institutions, works, seenIds);
        if lines[i].NotJson? {
          return Err;
        }
        if lines[i].WorkLine? {
          var line := ProcessLine(lines[i].data, authorsFirst(i));
          if line.Err? {
            return Err;
          }
          authors := authors + line.value.0;
          institutions := institutions + line.value.1;
          works := works + [line.value.2];
        }
      }
      assert lines[..|lines|] == lines;
      r := Ok((authors, institutions, works));
    }

    /** Processes one line and writes what it gives to the three streams. */
    method StreamLine(codec: RecordCodec, authors: MessageWriter, institutions: MessageWriter, works: MessageWriter,
                      data: WorkJson, authorsFirst: bool, counts: (nat, nat, nat),
                      ghost authorsSoFar: seq<Record>, ghost institutionsSoFar: seq<Record>,
                      ghost worksSoFar: seq<Work>)
      returns (r: Result<(nat, nat, nat)>)
      requires authors != institutions && authors != works && institutions != works
      requires WroteAll(codec, authors.output, institutions.output, works.output, counts,
                        authorsSoFar, institutionsSoFar, worksSoFar)
      modifies this, authors, institutions, works
      ensures r.Ok? <==> LineOk(WorkLine(data))
      ensures r.Ok? ==>
                var emitted := Emit(LineMentions(WorkLine(data), authorsFirst), old(seenIds));
                WroteAll(codec, authors.output, institutions.output, works.output, r.value,
                         authorsSoFar + Only(emitted, true), institutionsSoFar + Only(emitted, false),
                         worksSoFar + [WorkOf(data)])
      ensures r.Ok? ==> seenIds == old(seenIds) + Ids(LineMentions(WorkLine(data), authorsFirst))
    {
      var line := ProcessLine(data, authorsFirst);
      if line.Err? {
        return Err;
      }
      var written := WriteLine(codec, authors, institutions, works, line.value, counts,
                               authorsSoFar, institutionsSoFar, worksSoFar);
      r := Ok(written);
    }

    /** The streaming overload: the same records as frames, and how many there are. */
    method ProcessToStreams(codec: RecordCodec, lines: seq<Line>, authorsFirst: nat -> bool)
      returns (r: Result<(nat, nat, nat)>, authors: MessageWriter, institutions: MessageWriter, works: MessageWriter)
      modifies this
      ensures r.Ok? <==> LinesOk(lines)
      ensures r.Ok? ==>
                exists authorsSoFar, institutionsSoFar, worksSoFar ::
                  && Reached(lines, authorsFirst, old(seenIds), authorsSoFar, institutionsSoFar, worksSoFar, seenIds)
                  && WroteAll(codec, authors.output, institutions.output, works.output, r.value,
                              authorsSoFar, institutionsSoFar, worksSoFar)
    {
      authors := new MessageWriter();
      institutions := new MessageWriter();
      works := new MessageWriter();
      var counts := (0, 0, 0);
      ghost var authorsSoFar: seq<Record>, institutionsSoFar: seq<Record>, worksSoFar: seq<Work> := [], [], [];
      for i := 0 to |lines|
        invariant fresh(authors) && fresh(institutions) && fresh(works)
        invariant authors != institutions && authors != works && institutions != works
        invariant LinesOk(lines[..i])
        invariant Reached(lines[..i], authorsFirst, old(seenIds), authorsSoFar, institutionsSoFar, worksSoFar, seenIds)
        invariant WroteAll(codec, authors.output, institutions.output, works.output, counts,
                           authorsSoFar, institutionsSoFar, worksSoFar)
      {
        LinesOkStep(lines, i);
        ReachedStep(lines, i, authorsFirst, old(seenIds), authorsSoFar, institutionsSoFar, worksSoFar, seenIds);
        if lines[i].NotJson? {
          r := Err;
          return;
        }
        if lines[i].WorkLine? {
          ghost var emitted := Emit(LineMentions(lines[i], authorsFirst(i)), seenIds);
          var written := StreamLine(codec, authors, institutions, works, lines[i].data, authorsFirst(i), counts,
                                    authorsSoFar, institutionsSoFar, worksSoFar);
          if written.Err? {
            r := Err;
            return;
          }
          counts := written.value;
          authorsSoFar := authorsSoFar + Only(emitted, true);
          institutionsSoFar := institutionsSoFar + Only(emitted, false);
          worksSoFar := worksSoFar + [WorkOf(lines[i].data)];
        }
      }
      assert lines[..|lines|] == lines;
      r := Ok(counts);
    }
  }

  /** What a run over the lines must have given and seen, starting from the ids seen before. */
  ghost predicate Reached(lines: seq<Line>, authorsFirst: nat -> bool, before: set<string>,
                          authors: seq<Record>, institutions: seq<Record>, works: seq<Work>, now: set<string>) {
    var mentions := Mentions(lines, authorsFirst);
    var emitted := Emit(mentions, before);
    && authors == Only(emitted, true)
    && institutions == Only(emitted, false)
    && works == Works(lines)
    && now == before + Ids(mentions)
  }

  // ---- Output streams ----

  /** Protobuf's serialisation of the three message types. */
  datatype RecordCodec = RecordCodec(encodeRecord: Record -> Payload, encodeWork: Work -> Payload)

  ghost predicate Wrote(codec: RecordCodec, output: seq<byte>, count: nat, rs: seq<Record>) {
    output == Stream(codec.encodeRecord, rs) && count == |rs|
  }

  ghost predicate WroteWorks(codec: RecordCodec, output: seq<byte>, count: nat, works: seq<Work>) {
    output == Stream(codec.encodeWork, works) && count == |works|
  }

  /** The three streams hold the frames of the three lists, and the counts are their lengths. */
  ghost predicate WroteAll(codec: RecordCodec, authors: seq<byte>, institutions: seq<byte>, works: seq<byte>,
                           counts: (nat, nat, nat),
                           authorsSoFar: seq<Record>, institutionsSoFar: seq<Record>, worksSoFar: seq<Work>) {
    && Wrote(codec, authors, counts.0, authorsSoFar)
    && Wrote(codec, institutions, counts.1, institutionsSoFar)
    && WroteWorks(codec, works, counts.2, worksSoFar)
  }

  method WriteRecords(codec: RecordCodec, writer: MessageWriter, rs: seq<Record>, count: nat,
                      ghost written: seq<Record>)
    returns (count': nat)
    requires Wrote(codec, writer.output, count, written)
    modifies writer
    ensures Wrote(codec, writer.output, count', written + rs)
  {
    count' := count;
    assert written + rs[..0] == written;
    for i := 0 to |rs|
      invariant Wrote(codec, writer.output, count', written + rs[..i])
    {
      StreamStep(codec.encodeRecord, written + rs[..i], rs[i]);
      assert (written + rs[..i]) + [rs[i]] == written + rs[..i + 1];
      var _ := writer.WriteMessage(codec.encodeRecord(rs[i]));
      count' := count' + 1;
    }
    assert rs[..|rs|] == rs;
  }

  /** Writes what one line gave to the three streams. */
  method WriteLine(codec: RecordCodec, authors: MessageWriter, institutions: MessageWriter, works: MessageWriter,
                   line: (seq<Record>, seq<Record>, Work), counts: (nat, nat, nat),
                   ghost oldAuthors: seq<Record>, ghost oldInstitutions: seq<Record>, ghost oldWorks: seq<Work>)
    returns (counts': (nat, nat, nat))
    requires authors != institutions && authors != works && institutions != works
    requires WroteAll(codec, authors.output, institutions.output, works.output, counts,
                      oldAuthors, oldInstitutions, oldWorks)
    modifies authors, institutions, works
    ensures WroteAll(codec, authors.output, institutions.output, works.output, counts',
                     oldAuthors + line.0, oldInstitutions + line.1, oldWorks + [line.2])
  {
    var a := WriteRecords(codec, authors, line.0, counts.0, oldAuthors);
    var b := WriteRecords(codec, institutions, line.1, counts.1, oldInstitutions);
    StreamStep(codec.encodeWork, oldWorks, line.2);
    var _ := works.WriteMessage(codec.encodeWork(line.2));
    counts' := (a, b, counts.2 + 1);
  }

  method ExtractWork(data: WorkJson) returns (r: Result<Work>)
    ensures r == if LineOk(WorkLine(data)) then Ok(WorkOf(data)) else Err
  {
    if data.id.None? || data.oaStatus.None? {
      return Err;
    }
    var ids := ExtractIds(data);
    if ids.Err? {
      return Err;
    }
    if data.pmid.Some? && ParsePubmedId(data.pmid.value).None? {
      return Err;
    }
    r := Ok(Work(TrimOpenAlexId(data.id.value), data.title, data.publicationDate, data.language,
                 StringToOaCategory(data.oaStatus.value), data.oaUrl, ids.value.0, ids.value.1,
                 if data.doi.Some? then Some(RemovePrefix(data.doi.value, DOI_PREFIX)) else None,
                 if data.pmid.Some? then ParsePubmedId(data.pmid.value) else None));
  }

  /** The loop over the authorships: the ids of the authors, and those of their institutions, each once. */
  method ExtractIds(data: WorkJson) returns (r: Result<(seq<string>, seq<string>)>)
    ensures r.Ok? <==> Identified(data)
    ensures r.Ok? ==> r.value.0 == IdList(AuthorMentions(data.authorships))
    ensures r.Ok? ==> r.value.1 == IdList(Emit(ListedInstitutions(data.authorships), {}))
  {
    var authorIds: seq<string>, institutionIds: seq<string> := [], [];
    var seenInstitutionIds: set<string> := {};
    for i := 0 to |data.authorships|
      invariant authorIds == IdList(AuthorMentions(data.authorships[..i]))
      invariant Lists(ListedInstitutions(data.authorships[..i]), institutionIds, seenInstitutionIds)
      invariant AllIdentifiable(data.authorships[..i])
    {
      var author := data.authorships[i].author;
      AuthorMentionsStep(data.authorships, i);
      ListedInstitutionsStep(data.authorships, i);
      if !IsAuthorEmpty(author) {
        var id := GetAuthorId(author);
        if id.Err? {
          return Err;
        }
        IdListStep(AuthorMentions(data.authorships[..i]), AuthorMention(author)[0]);
        authorIds := authorIds + [id.value];
        institutionIds, seenInstitutionIds :=
          ListAffiliations(data.authorships[i].institutions, institutionIds, seenInstitutionIds,
                           ListedInstitutions(data.authorships[..i]));
      }
    }
    assert data.authorships[..|data.authorships|] == data.authorships;
    r := Ok((authorIds, institutionIds));
  }

  /** The ids listed and seen after some mentions. */
  ghost predicate Lists(mentions: seq<Record>, listed: seq<string>, seen: set<string>) {
    listed == IdList(Emit(mentions, {})) && seen == Ids(mentions)
  }

  /** The inner loop: the institutions of one author, each id once. */
  method ListAffiliations(ins: seq<InstitutionJson>, listed: seq<string>, seen: set<string>,
                          ghost mentions: seq<Record>)
    returns (listed': seq<string>, seen': set<string>)
    requires Lists(mentions, listed, seen)
    ensures Lists(mentions + Affiliations(ins), listed', seen')
  {
    listed', seen' := listed, seen;
    assert mentions + Affiliations(ins[..0]) == mentions;
    for j := 0 to |ins|
      invariant Lists(mentions + Affiliations(ins[..j]), listed', seen')
    {
      AffiliationsStep(mentions, ins, j);
      if !IsInstitutionEmpty(ins[j]) {
        listed', seen' := ListNew(GetInstitutionId(ins[j]).value, listed', seen',
                                  mentions + Affiliations(ins[..j]), InstitutionMention(ins[j])[0]);
      }
    }
    assert ins[..|ins|] == ins;
  }

  method ListNew(id: string, listed: seq<string>, seen: set<string>, ghost mentions: seq<Record>, ghost record: Record)
    returns (listed': seq<string>, seen': set<string>)
    requires Lists(mentions, listed, seen) && record.id == id
    ensures Lists(mentions + [record], listed', seen')
  {
    ListStep(mentions, record);
    listed', seen' := listed, seen;
    if id !in seen {
      seen' := seen + {id};
      listed' := listed + [id];
    }
  }

  // ---- One more item ----

  lemma AuthorMentionsStep(ships: seq<Authorship>, i: nat)
    requires i < |ships|
    ensures AuthorMentions(ships[..i + 1])
         == if AuthorMention(ships[i].author) == [] then AuthorMentions(ships[..i])
            else AuthorMentions(ships[..i]) + AuthorMention(ships[i].author)
    ensures AllIdentifiable(ships[..i + 1]) <==> AllIdentifiable(ships[..i]) && Identifiable(ships[i].author)
    ensures AllIdentifiable(ships) ==> Identifiable(ships[i].author)
  {
    assert ships[..i + 1][..i] == ships[..i];
    assert ships[..i + 1] == ships[..i] + [ships[i]];
  }

  lemma InstitutionMentionsStep(ships: seq<Authorship>, i: nat)
    requires i < |ships|
    ensures InstitutionMentions(ships[..i + 1]) == InstitutionMentions(ships[..i]) + Affiliations(ships[i].institutions)
  {
    assert ships[..i + 1][..i] == ships[..i];
  }

  lemma ListedInstitutionsStep(ships: seq<Authorship>, i: nat)
    requires i < |ships|
    ensures ListedInstitutions(ships[..i + 1])
         == if IsAuthorEmpty(ships[i].author) then ListedInstitutions(ships[..i])
            else ListedInstitutions(ships[..i]) + Affiliations(ships[i].institutions)
  {
    assert ships[..i + 1][..i] == ships[..i];
  }

  lemma AffiliationsStep(mentions: seq<Record>, ins: seq<InstitutionJson>, j: nat)
    requires j < |ins|
    ensures mentions + Affiliations(ins[..j + 1])
         == if IsInstitutionEmpty(ins[j]) then mentions + Affiliations(ins[..j])
            else mentions + Affiliations(ins[..j]) + InstitutionMention(ins[j])
  {
    assert ins[..j + 1][..j] == ins[..j];
    assert ins[..j + 1][j] == ins[j];
  }

  lemma EmitStep(mentions: seq<Record>, record: Record, seen: set<string>)
    ensures Ids(mentions + [record]) == Ids(mentions) + {record.id}
    ensures Emit(mentions + [record], seen)
         == if record.id in seen || record.id in Ids(mentions) then Emit(mentions, seen)
            else Emit(mentions, seen) + [record]
  {
    assert (mentions + [record])[..|mentions|] == mentions;
  }

  lemma ListStep(mentions: seq<Record>, record: Record)
    ensures Ids(mentions + [record]) == Ids(mentions) + {record.id}
    ensures IdList(Emit(mentions + [record], {}))
         == if record.id in Ids(mentions) then IdList(Emit(mentions, {})) else IdList(Emit(mentions, {})) + [record.id]
  {
    EmitStep(mentions, record, {});
    IdListStep(Emit(mentions, {}), record);
  }

  lemma IdListStep(rs: seq<Record>, r: Record)
    ensures IdList(rs + [r]) == IdList(rs) + [r.id]
  {
    assert (rs + [r])[..|rs|] == rs;
  }

  lemma {:induction false} IdsAppend(a: seq<Record>, b: seq<Record>)
    ensures Ids(a + b) == Ids(a) + Ids(b)
    decreases |b|
  {
    if b == [] {
      assert a + b == a;
    } else {
      var init := b[..|b| - 1];
      assert (a + b)[..|a + b| - 1] == a + init;
      IdsAppend(a, init);
    }
  }

  /** Emitting two stretches of mentions: the second goes on with the ids the first has seen. */
  lemma {:induction false} EmitAppend(a: seq<Record>, b: seq<Record>, seen: set<string>)
    ensures Emit(a + b, seen) == Emit(a, seen) + Emit(b, seen + Ids(a))
    decreases |b|
  {
    if b == [] {
      assert a + b == a;
    } else {
      var init, last := b[..|b| - 1], b[|b| - 1];
      assert (a + b)[..|a + b| - 1] == a + init;
      EmitAppend(a, init, seen);
      IdsAppend(a, init);
      Assoc(Emit(a, seen), Emit(init, seen + Ids(a)), [last]);
    }
  }

  lemma {:induction false} OnlyAppend(a: seq<Record>, b: seq<Record>, authors: bool)
    ensures Only(a + b, authors) == Only(a, authors) + Only(b, authors)
    decreases |b|
  {
    if b == [] {
      assert a + b == a;
    } else {
      var init := b[..|b| - 1];
      assert (a + b)[..|a + b| - 1] == a + init;
      OnlyAppend(a, init, authors);
    }
  }

  lemma {:induction false} OnlyOfKind(rs: seq<Record>, authors: bool)
    requires forall i :: 0 <= i < |rs| ==> rs[i].Author? == authors
    ensures Only(rs, authors) == rs && Only(rs, !authors) == []
  {
    if rs != [] {
      OnlyOfKind(rs[..|rs| - 1], authors);
    }
  }

  lemma {:induction false} EmitKeepsKind(rs: seq<Record>, authors: bool, seen: set<string>)
    requires forall i :: 0 <= i < |rs| ==> rs[i].Author? == authors
    ensures forall i :: 0 <= i < |Emit(rs, seen)| ==> Emit(rs, seen)[i].Author? == authors
  {
    if rs != [] {
      EmitKeepsKind(rs[..|rs| - 1], authors, seen);
    }
  }

  lemma {:induction false} MentionKinds(ships: seq<Authorship>)
    ensures forall i :: 0 <= i < |AuthorMentions(ships)| ==> AuthorMentions(ships)[i].Author?
    ensures forall i :: 0 <= i < |InstitutionMentions(ships)| ==> InstitutionMentions(ships)[i].Institution?
  {
    if ships != [] {
      MentionKinds(ships[..|ships| - 1]);
      AffiliationKinds(ships[|ships| - 1].institutions);
    }
  }

  lemma {:induction false} AffiliationKinds(ins: seq<InstitutionJson>)
    ensures forall i :: 0 <= i < |Affiliations(ins)| ==> Affiliations(ins)[i].Institution?
  {
    if ins != [] {
      AffiliationKinds(ins[..|ins| - 1]);
    }
  }

  /** Mentions of one kind and then of the other are emitted kind by kind. */
  lemma KindByKind(a: seq<Record>, b: seq<Record>, authors: bool, seen: set<string>)
    requires forall i :: 0 <= i < |a| ==> a[i].Author? == authors
    requires forall i :: 0 <= i < |b| ==> b[i].Author? != authors
    ensures Only(Emit(a + b, seen), authors) == Emit(a, seen)
    ensures Only(Emit(a + b, seen), !authors) == Emit(b, seen + Ids(a))
    ensures Ids(a + b) == Ids(a) + Ids(b)
  {
    var ea, eb := Emit(a, seen), Emit(b, seen + Ids(a));
    EmitAppend(a, b, seen);
    IdsAppend(a, b);
    EmitKeepsKind(a, authors, seen);
    EmitKeepsKind(b, !authors, seen + Ids(a));
    OnlyOfKind(ea, authors);
    OnlyOfKind(eb, !authors);
    OnlyAppend(ea, eb, authors);
    OnlyAppend(ea, eb, !authors);
  }

  lemma LinesOkStep(lines: seq<Line>, i: nat)
    requires i < |lines|
    ensures LinesOk(lines[..i + 1]) <==> LinesOk(lines[..i]) && LineOk(lines[i])
    ensures LinesOk(lines) ==> LineOk(lines[i])
  {
    assert lines[..i + 1] == lines[..i] + [lines[i]];
  }

  /** One more line: what the run has given grows by what the line gives after it. */
  lemma ReachedStep(lines: seq<Line>, i: nat, authorsFirst: nat -> bool, before: set<string>,
                    authors: seq<Record>, institutions: seq<Record>, works: seq<Work>, now: set<string>)
    requires i < |lines| && Reached(lines[..i], authorsFirst, before, authors, institutions, works, now)
    ensures var more := LineMentions(lines[i], authorsFirst(i));
            var emitted := Emit(more, now);
            var next := lines[..i + 1];
            if lines[i].WorkLine?
            then Reached(next, authorsFirst, before, authors + Only(emitted, true), institutions + Only(emitted, false),
                         works + [WorkOf(lines[i].data)], now + Ids(more))
            else Reached(next, authorsFirst, before, authors, institutions, works, now)
  {
    var mentions := Mentions(lines[..i], authorsFirst);
    var more := LineMentions(lines[i], authorsFirst(i));
    assert lines[..i + 1][..i] == lines[..i];
    EmitAppend(mentions, more, before);
    IdsAppend(mentions, more);
    OnlyAppend(Emit(mentions, before), Emit(more, now), true);
    OnlyAppend(Emit(mentions, before), Emit(more, now), false);
  }
}
