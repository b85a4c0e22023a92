# Citescoop, modelled and proved

A Dafny model of Citescoop, the library that extracts citations from Wikipedia dumps and reduces
OpenAlex snapshots, with proofs of what it promises. `dafny verify dfyconfig.toml` checks everything.

## What is modelled

- **Numerals** (`Numbers.dfy`): `std::stoi`, `std::stol`, `std::stoul` and the casts to unsigned types.
- **Wikitext** (`Wikitext.dfy`, `TemplatePrinter.dfy`, `WikitextMeaning.dfy`): the template grammar as an
  explicit recursive-descent parser with greedy pieces, lexemes and a white-space skipper. A printer of
  raw templates is its independent definition: what the grammar finds in a text is exactly what a
  decomposition of the text into junk and printed templates spells out, for every text.
- **Citations** (`CitationParser.dfy`, `CitationMeaning.dfy`): the loops that fill a citation message
  parameter by parameter, proved against a reading of each field by itself, and the map by title.
- **Framing** (`Framing.dfy`): length-prefixed messages, writer and reader, and streams of one type of message.
- **Page history** (`History.dfy`, `Dump.dfy`, `Sinks.dfy`, `DumpParser.dfy`, `PageTheorems.dfy`): the
  two-phase pass over a page's sorted revisions. Citations, reference counts and stored revisions are
  three mutable structures; they are proved to agree after every single update, and to arrive at a
  closed form that speaks only of the first and the last revision with a title.
- **The SAX handlers** (`Dump.dfy`, `DumpParser.dfy`, `Document.dfy`, `Decoding.dfy`, `CarryOver.dfy`):
  flags and a text buffer over a flat event stream, proved to recover what a document tree means, for
  fields in any order and number, any chunking, and contributors and unknown elements anywhere.
- **Streaming** (`Sinks.dfy`, `Streaming.dfy`): the second form of `Store`, which refines the first.
- **Whole runs with the real citation parser inside** (`EndToEnd.dfy`).
- **OpenAlex** (`OpenAlex.dfy`, `SnapshotTheorems.dfy`, `SnapshotFields.dfy`): the deduplicator, its one set of
  seen ids across kinds, lines and calls, the references of works, and what records and works take from the input. `Ordered.dfy` is the iteration order of `std::map`.

Conventions. An exception is an `Err`, or `false` from a handler; the state after one is left open.
Protobuf fields whose presence the code asks for are options; page title, page id and revision id are
plain values with protobuf's defaults. The sort, the timestamp parser, the evaluation order of tuple
arguments and protobuf's serialisation are parameters. Of the sort only what `std::ranges::sort` promises
is used: a sorted permutation, nothing about ties.

Every operation is also described once in literal keys, characters, prefixes and limits, without the functions
that compute it (`OneMoreValue`, `PageInTime`, `OnePage`, `FrameMeans`, `WorkOfLine` and their neighbours).

## Where code and documentation part

The model follows the code.

- A revision without a `text` element takes over the citations parsed last, even across pages and runs
  (src/extract/dump_parser.cc:238-246). `CarryOver.IndependentExactly` gives the exact condition.
- A test comment (test/src/extract/extractor_test.cc:133-134) expects tied revisions to keep their order of
  appearance. The sort does not promise it: `PageTheorems.TiesAreNotResolved` gives two revisions and two
  outcomes, and `PageTheorems.SortDeterminedExactly` says when the order is determined.
- The counters of the streaming parser are never reset: the counts returned are those of the streams
  exactly when the earlier counts are 0 (`DumpParser.DumpParser.ParseToStreams`). The library itself makes a
  new parser for each extraction (src/extract/textextractor_impl.cc:42, src/extract/bz2extractor_impl.cc:57).
- A contributor's id is meant not to be taken for the page's or the revision's (src/extract/dump_parser.cc:205),
  but contributors are a flag and not a depth: `Decoding.NestedContributor` gives a page where it is, and
  `Decoding.FieldsByPlaceExactly` says, for all content, exactly when it happens.
- Authors are documented to fall back to an ORCID (src/openalex/snapshot_processor_impl.h:123-132), but the
  emptiness test reads `ror`: an author known only by an ORCID is dropped, and one known only by a `ror`
  leads to the lookup of a name that is not there (`OrcidAloneIsEmpty`, `UndefinedLookupExactly`).
- The filter is documented to get a name with additional white space removed
  (include/citescoop/parser.h:44-49), but white space inside the name stays (`InnerSpaceStays`).
  `CitationMeaning.NormaliseExactly` says when the two agree.
- One reader stops at 2^31 - 1 bytes, so it does not get back every stream that one writer wrote:
  `Framing.OneReaderExactly`.

## Model

| member | source | states |
|---|---|---|
| Numbers.ScanOfDecimal | src/parser/parser_impl.cc:127-137 | a printed number is read back whole, whatever text follows it |
| Numbers.StoiOfDecimal | src/parser/parser_impl.cc:127-137 | identifiers are accepted exactly up to 2147483647, every larger decimal is rejected |
| Numbers.StolOfDecimal | src/extract/dump_parser.cc:207-213 | a page, revision or parent id below 2^63 survives printing, `std::stol` and the cast to `uint64_t` |
| Numbers.StoulOfDecimal | src/openalex/snapshot_processor_impl.h:107-110 | PubMed ids are accepted exactly below 2^64 |
| Numbers.NegativeWraps | src/parser/parser_impl.cc:198-199 | a negative identifier is accepted down to -2^31 and stored modulo 2^32 |
| Numbers.CharactersMean | src/parser/parser_impl.cc:127-137 | which characters are white space and which are digits, and what each digit is worth |
| Numbers.PlaceValue | src/parser/parser_impl.cc:127-137 | the first digit of a number counts as many times as its place says |
| Numbers.NumeralsMean | src/parser/parser_impl.cc:127-137 | a text that is white space, a sign or none, digits and some rest is read as that number by `stoi`, `stol` and `stoul`, each within its range |
| Numbers.NoNumeral | src/parser/parser_impl.cc:127-137 | any other text makes all three throw |
| TemplatePrinter.ParamRead | src/parser/parser_impl.cc:43-45 | a printed parameter, with or without a value, is read back up to the delimiter that follows it |
| TemplatePrinter.TemplateRead | src/parser/parser_impl.cc:42-48 | any printed template is read back, without leading white space, whatever text follows |
| TemplatePrinter.LexemeSource | src/parser/parser_impl.cc:42-44 | every lexeme match stands for raw text without a stop character, and stops at one or at the end |
| TemplatePrinter.TemplateSource | src/parser/parser_impl.cc:42-48 | conversely every match of the template rule is the print of a valid raw template: non-blank name without a bar, keys and values without their delimiters, beginning and ending in double braces |
| TemplatePrinter.StrippedMeans | src/parser/parser_impl.cc:42-48 | only leading white space is lost from name, keys and values |
| WikitextMeaning.JunkRead | src/parser/parser_impl.cc:50-54 | junk without double braces that does not end in a brace is skipped exactly |
| WikitextMeaning.JunkSource | src/parser/parser_impl.cc:50-51 | the skip stops at the first double braces, or the text has none |
| WikitextMeaning.PieceRead | src/parser/parser_impl.cc:53-54 | junk and a printed template in front of any text put that template in front of the list found |
| WikitextMeaning.PiecesRead | src/parser/parser_impl.cc:42-54 | round trip: a printed document gives its templates in order, then those of whatever text follows |
| WikitextMeaning.OneParameter | src/parser/parser_impl.cc:42-54 | junk, two braces, a name, a bar, a key, an equals sign, a value and two braces are that template, in front of those of whatever follows |
| WikitextMeaning.NothingFound | src/parser/parser_impl.cc:53-54 | no template is found if and only if none, after junk, starts the text: the first malformed one ends the search |
| WikitextMeaning.Decomposition | src/parser/parser_impl.cc:42-54 | every text is junk and printed templates, disjoint and in order, then a tail that none starts, and exactly those templates are found |
| WikitextMeaning.TemplatesExactly | src/parser/parser_impl.cc:42-54 | a list is what the grammar finds if and only if such a decomposition of the text spells it out, its delimiters and forbidden characters being given literally |
| WikitextMeaning.PrefixStable | src/parser/parser_impl.cc:42-54 | the list found in a text is a prefix of the list found in any longer text |
| WikitextMeaning.SixCharactersEach | src/parser/parser_impl.cc:46-54 | six times the number of templates is at most the length of the text |
| CitationParser.ParserImpl.HandlePmIdKey | src/parser/parser_impl.cc:211-226 | the identifiers are created in any case; a number is stored, otherwise the outcome is false or an exception as the option says |
| CitationParser.ParserImpl.HandlePmcIdKey | src/parser/parser_impl.cc:194-209 | the same for a PMC id, with or without its prefix |
| CitationParser.ParserImpl.CheckForIdentKey | src/parser/parser_impl.cc:139-169 | which keys are identifiers, what each sets and leaves alone, and when it throws |
| CitationParser.ParserImpl.CheckForUrlKey | src/parser/parser_impl.cc:171-192 | the two url keys append a url of their type, any other key appends nothing |
| CitationParser.ParserImpl.ApplyParam | src/parser/parser_impl.cc:100-107 | the effect of one valued parameter on the citation |
| CitationParser.OneMoreEntry | src/parser/parser_impl.cc:92-111 | applying one more parameter agrees with reading every field off the longer parameter list |
| CitationParser.ParserImpl.BuildCitation | src/parser/parser_impl.cc:92-111 | the loop builds the citation whose fields are read off the parameters one by one, or throws exactly on a bad number in strict mode |
| CitationMeaning.NoParam | src/parser/parser_impl.cc:92-111 | without parameters a citation has nothing set |
| CitationMeaning.OneMoreParam | src/parser/parser_impl.cc:92-111 | one more valued parameter throws if and only if strict parsing meets a `pmid` or `pmc` that is no number |
| CitationMeaning.OneMoreValue | src/parser/parser_impl.cc:139-226 | otherwise it sets what its key says, key by key: title, the url with its type, doi without its prefix, isbn, issn, pmid, pmc without its prefix, and nothing else |
| CitationParser.ParserImpl.Parse | src/parser/parser_impl.cc:65-90 | the loop over the templates found gives the map that `ParseMeans` characterises |
| CitationMeaning.OneMoreTemplate | src/parser/parser_impl.cc:76-83 | the filter sees the name without surrounding white space and in small letters; an accepted template adds its citation unless the title is there |
| CitationMeaning.OneTitle | src/parser/parser_impl.cc:65-111 | a text that is one template with one title gives that one citation, if the filter takes the name in small letters |
| CitationMeaning.LastValueMeans | src/parser/parser_impl.cc:101-108 | a text field takes its last valued occurrence |
| CitationMeaning.LastValueAbsent | src/parser/parser_impl.cc:101-108 | and is absent exactly when there is none |
| CitationMeaning.LastNumberMeans | src/parser/parser_impl.cc:194-226 | a number takes its last valid occurrence, an invalid one never erases it |
| CitationMeaning.LastNumberAbsent | src/parser/parser_impl.cc:194-226 | and is absent exactly when no occurrence is valid |
| CitationMeaning.UrlsInOrder | src/parser/parser_impl.cc:171-192 | urls keep every occurrence in order |
| CitationMeaning.RaisesExactly | src/parser/parser_impl.cc:76-83 | parsing is aborted if and only if strict mode meets a bad number in an accepted template |
| CitationMeaning.ParseMeans | src/parser/parser_impl.cc:65-90 | one entry per title among the accepted templates of the text, under its own title, from the first such template |
| CitationMeaning.ModesAgree | src/parser/parser_impl.cc:194-226 | ignoring invalid identifiers never raises, and where strict mode does not raise both modes give the same map, for every text and filter |
| CitationMeaning.ParseExtends | src/parser/parser_impl.cc:65-90 | a longer text keeps every citation of a text it starts with, unchanged |
| CitationMeaning.StrippedMeansTheSame | src/parser/parser_impl.cc:77-83 | white space in front of names, keys and values never matters to filter or citation |
| CitationMeaning.ParseOfPrinted | src/parser/parser_impl.cc:65-90 | printing raw templates among junk and parsing the text collects exactly those templates |
| CitationMeaning.TrimPadded | src/parser/parser_impl.cc:97-102 | trimming removes the padding around a text and nothing else |
| CitationMeaning.NormaliseMeans | src/parser/parser_impl.cc:77-81 | a name loses the white space around it and its capitals; everything else, white space inside it included, stays in its place |
| CitationMeaning.NormaliseExactly | src/parser/parser_impl.cc:77-81 | it also has additional white space removed, as documented, if and only if the white space inside it is single spaces |
| CitationMeaning.PmcIdOfDecimal | src/parser/parser_impl.cc:120-137 | PMC and PubMed ids are read exactly up to 2147483647, with or without the PMC prefix, and survive the unsigned cast |
| Framing.HeaderRoundTrip | include/citescoop/io.h:39-43 | every four-byte header is the layout of the size it is read as |
| Framing.FrameMeans | include/citescoop/io.h:74-86 | a frame is the size in four bytes, the most significant one first, and the payload |
| Framing.ReadOneMeans | include/citescoop/io.h:36-51 | what a read makes of four bytes and of what is behind them |
| Framing.MessageWriter.WriteMessage | include/citescoop/io.h:74-86 | appends size and payload, nothing else, and returns the payload size |
| Framing.MessageReader.ReadMessage | include/citescoop/io.h:36-51 | takes the sized stretch at the current position of the 2^31 - 1 bytes one coded stream gives; a negative or excessive limit means reading to their end |
| Framing.FramingIsInjective | include/citescoop/io.h:36-86 | two different lists never share an encoding |
| Framing.OneReaderRoundTrip | include/citescoop/io.h:30-51 | one reader gets back exactly what was written if and only if the frames have less than 2^31 bytes in all |
| Framing.OneReaderExactly | include/citescoop/io.h:30-51 | one reader gets all messages of a stream if and only if the stream has less than 2^31 bytes |
| Framing.StreamReadBack | include/citescoop/io.h:36-86 | messages of any type, written to a stream and read to its end, come back in order |
| Ordered.SortedKeysAscend | src/extract/dump_parser.cc:189-192 | the iteration order of a map is ascending |
| Ordered.SortedKeysUnique | src/extract/dump_parser.cc:189-192 | and there is only one such order |
| Ordered.StringLessIsTotal | src/extract/dump_parser.cc:179-192 | the order of the titles is a strict total order |
| PageTheorems.StringLessMeans | src/extract/dump_parser.cc:179-192 | a title is smaller than another if it ends, or has the smaller character, right after what they have in common |
| History.First | src/extract/dump_parser.cc:146-164 | the first revision with a title: it has it, and none before does |
| History.Last | src/extract/dump_parser.cc:113-144 | the last revision with a title: it has it, and none after does |
| History.SummaryMeans | src/extract/dump_parser.cc:113-193 | closed form: a title of any revision is in the summary; added and described by the first revision with it, removed by the one right after the last, not removed exactly when that is the final one, through any number of removals and returns |
| History.SummaryStep | src/extract/dump_parser.cc:182-186 | the two phases take the closed form of a history to that of the history with one more revision |
| History.ReferencesStep | src/extract/dump_parser.cc:127-140 | how changing one citation changes the number of citations naming a revision |
| History.MarkRemoved | src/extract/dump_parser.cc:135-141 | marking a citation as removed keeps counts and store exact |
| History.MarkBack | src/extract/dump_parser.cc:126-133 | clearing a mark keeps counts and store exact: the count was positive, and the revision is evicted exactly when it reaches zero |
| History.AddNew | src/extract/dump_parser.cc:152-161 | a new citation keeps counts and store exact |
| Dump.SortKeepsRevisions | src/extract/dump_parser.cc:138-157 | after sorting every revision id is still found among the page's revisions, so the lookups are defined |
| DumpParser.DumpParser.CheckExistingCitations | src/extract/dump_parser.cc:113-144 | every known citation is marked or cleared as its presence says, known titles leave the revision, counts and store stay exact at every iteration |
| DumpParser.DumpParser.AddNewCitations | src/extract/dump_parser.cc:146-164 | the unknown citations are added as of this revision, in any iteration order, counts and store exact at every iteration |
| DumpParser.DumpParser.MakePageCitationList | src/extract/dump_parser.cc:166-193 | page and stored revisions are those of the closed form over the sorted revisions; each revision is left with only the citations new in it |
| PageTheorems.OldestFirst | src/extract/dump_parser.cc:167-177 | the sort runs from the oldest revision to the newest, one without a timestamp counting as of the epoch |
| PageTheorems.PageInTime | src/extract/dump_parser.cc:113-193 | a stored page has one citation for each title of the revisions that arrived, in ascending order; each is added and described by an oldest revision that has it, and removed by one that lacks it and is no older than any that has it, unless a newest revision has it |
| PageTheorems.StoredAsArrived | src/extract/dump_parser.cc:238-246 | the revision stored under an id is the first that arrived with it |
| DumpParser.DumpParser.CopyCitations | src/extract/dump_parser.cc:188-192 | the citations are appended in the order of their titles |
| DumpParser.DumpParser.OnStartElement | src/extract/dump_parser.cc:41-58 | takes the machine to its next state, whose meaning `DecodingIsMeaning` states |
| DumpParser.DumpParser.OnCharacters | src/extract/dump_parser.cc:75-78 | likewise, for character data |
| DumpParser.DumpParser.OnEndField | src/extract/dump_parser.cc:202-223 | likewise, for the end of a field, and when it throws |
| DumpParser.DumpParser.OnEndRevision | src/extract/dump_parser.cc:238-246 | likewise, and the revisions by id stay those that arrived, first come first kept |
| DumpParser.DumpParser.OnEndPage | src/extract/dump_parser.cc:225-236 | stores the finished page and leaves every per-page structure empty again |
| DumpParser.DumpParser.OnEndElement | src/extract/dump_parser.cc:60-73 | dispatches the end of an element and stops storing text |
| DumpParser.DumpParser.Handle | src/extract/dump_parser.cc:41-90 | one event, with warnings and errors aborting the run |
| DumpParser.DumpParser.StartParser | src/extract/dump_parser.cc:98-102 | the handlers over all events from the initial state, until one throws |
| DumpParser.DumpParser.InitializeParser | src/extract/dump_parser.cc:104-111 | resets everything but the citations parsed last and the text buffer |
| DumpParser.DumpParser.ParseXML | src/extract/dump_parser.cc:34-39 | returns the pages and the merged revisions of the run, or nothing if a handler threw |
| DumpParser.DumpParser.ParseToStreams | src/extract/streaming_dump_parser.cc:27-36 | the two streams hold the frames of the run's pages and revisions; the counts go on from earlier runs, and are those of the streams if and only if the parser counted nothing before |
| Sinks.PageSink.StoreInMemory | src/extract/dump_parser.cc:92-96 | appends the page; the revisions already stored stay, and the new ids come from the page |
| Sinks.PageSink.StoreInStreams | src/extract/streaming_dump_parser.cc:38-48 | appends one page frame, and one frame per revision in the order of their ids, and counts them |
| Sinks.PageSink.Store | src/extract/dump_parser.h:54-61 | either way the sink holds exactly what the calls so far put there |
| PageTheorems.IdsAscend | src/extract/streaming_dump_parser.cc:44-47 | the revisions of a page are written from the smallest id to the largest |
| Streaming.PagesInOrder | src/extract/dump_parser.cc:92-96 | the pages kept are those of the calls, one by one |
| Streaming.FirstCallKept | src/extract/dump_parser.cc:92-96 | under an id the revision of the first call that has it is kept |
| Decoding.ChunksCollected | src/extract/dump_parser.cc:75-78 | character data is collected whole however it is cut up |
| Decoding.RevisionRun | src/extract/dump_parser.cc:202-223 | the content of a revision element is read as its last id, parent, user, timestamp and text, or aborts exactly when one is bad; which fields are told, `FieldsByPlaceExactly` states |
| Decoding.PageRun | src/extract/dump_parser.cc:202-246 | the content of a page element, contributors and unknown elements at any depth included, is read as its last title and id and its revisions in document order |
| Decoding.ContributorInPage | src/extract/dump_parser.cc:48-49 | a contributor outside every revision leaves the page's id and revisions as they are, whatever ids it holds and whether or not they are numbers |
| Decoding.FieldsByPlaceExactly | src/extract/dump_parser.cc:202-223 | the fields of a page or a revision are those that stand in no contributor (and in no revision for a page's id), if and only if no such id in a contributor has an end tag as the last contributor tag before it |
| Decoding.FieldsToldByPlace | src/extract/dump_parser.cc:202-223 | unless a contributor stands in a contributor, the fields of a page or a revision are those that stand in no contributor, and in no revision for a page's id |
| Decoding.NestedContributor | src/extract/dump_parser.cc:67-68 | a page that gets its contributor's id, because the parser keeps a flag and not a depth |
| Decoding.DecodingIsMeaning | src/extract/dump_parser.cc:41-246 | for every dump, any chunking, contributors and unknown elements anywhere, the run aborts exactly when an id that counts or a text is bad, and otherwise stores exactly the pages the tree means and ends in its initial per-page state |
| Decoding.MeaningAppend | src/extract/dump_parser.cc:225-246 | two dumps in a row mean the first and then the second with the citations carried on |
| CarryOver.IndependentExactly | src/extract/dump_parser.cc:238-246 | a dump means the same after anything else if and only if its first revision, if any, has a text |
| CarryOver.Compositional | src/extract/dump_parser.cc:225-246 | two page sequences in a row store the concatenation of what each stores alone once the second starts with a text |
| CarryOver.CitationCount | src/extract/dump_parser.cc:188-192 | a page has one citation for each title of its revisions |
| PageTheorems.StoredExactly | src/extract/dump_parser.cc:118-162 | the revisions stored with a page are exactly those its citations name as added or removed: no orphan, no dangling reference |
| PageTheorems.SummaryNamesArrivals | src/extract/dump_parser.cc:138-157 | every revision a citation names has arrived |
| PageTheorems.TitleOrder | src/extract/dump_parser.cc:188-192 | the citations come in the ascending order of the titles |
| PageTheorems.SortDeterminedExactly | src/extract/dump_parser.cc:167-177 | the sort has one possible result if and only if no two different revisions share a timestamp |
| PageTheorems.OrderIndependence | src/extract/dump_parser.cc:150-193 | without ties and with ids that identify revisions, what is stored depends neither on the order of arrival nor on the sort |
| PageTheorems.TiesAreNotResolved | src/extract/dump_parser.cc:167-177 | two tied revisions with two sorted orders of which only one marks the citation as removed |
| PageTheorems.EnvironmentsExist | src/extract/dump_parser.cc:167-177 | a sort as assumed exists |
| Streaming.InsertInIdOrder | src/extract/streaming_dump_parser.cc:44-47 | inserting a page's revisions in the order they are written gives its map back |
| Streaming.StreamingRefines | src/extract/streaming_dump_parser.cc:27-48 | on any events, the pages decoded from the format are those kept in memory, inserting the decoded revisions gives the map kept in memory, and the counts are the stream lengths; one reader gets all of a stream if and only if it has less than 2^31 bytes |
| Streaming.CountsExactly | src/extract/streaming_dump_parser.cc:44-47 | more revisions are written than kept in memory if and only if two pages store the same id |
| EndToEnd.GrowingPagesKeepCitations | src/extract/dump_parser.cc:113-193 | if every revision only adds text at the end, no citation is ever marked as removed and none changes |
| EndToEnd.OnePage | src/extract/dump_parser.cc:41-246 | from the tags of a page with one revision to what is stored: title, id, the revision with its id, parent, user and time, and the citations of a text in two pieces, whatever the contributor's id is and whatever came before |
| EndToEnd.NothingTold | src/extract/dump_parser.cc:225-246 | a page or revision without fields has only its defaults |
| EndToEnd.OneMoreTold | src/extract/dump_parser.cc:202-223 | one more field says what its name says, and nothing else changes |
| EndToEnd.RunStoresExactly | src/extract/dump_parser.cc:225-236 | over a whole run, whatever its events, the revisions stored are exactly those that the citations of the stored pages name |
| EndToEnd.IdsRecovered | src/extract/dump_parser.cc:205-213 | a printed page, revision or parent id below 2^63 is recovered as the number it is |
| EndToEnd.LenientRunsNeedIdsOnly | src/extract/dump_parser.cc:206-217 | with invalid identifiers ignored only the ids of a dump can abort a run |
| OpenAlex.SnapshotProcessorImpl.ExtractAuthors | src/openalex/snapshot_processor_impl.cc:156-188 | emits each author the first time its id is met, and has then seen exactly the ids mentioned |
| OpenAlex.SnapshotProcessorImpl.ExtractInstitutions | src/openalex/snapshot_processor_impl.cc:190-221 | likewise for institutions, of every authorship |
| OpenAlex.ExtractWork | src/openalex/snapshot_processor_impl.cc:98-154 | the author ids in order, the institution ids of the authors that are not empty once each, title, date, language, open-access status and url, the identifiers, or an exception |
| SnapshotFields.WorkOfLine | src/openalex/snapshot_processor_impl.cc:98-154 | the works of a run are those of its non-empty lines, in order, each with its line's id and doi without their prefixes, title, date, language, open-access category and url, and PubMed number |
| SnapshotFields.OneMoreAuthor | src/openalex/snapshot_processor_impl.cc:128-132 | one more authorship adds the id of its author, from OpenAlex id, ORCID or name, unless the author is empty |
| SnapshotFields.OneMoreInstitution | src/openalex/snapshot_processor_impl.cc:134-146 | one more institution of an author that is not empty adds its id, from OpenAlex id, ROR id or name, unless it is empty or listed |
| SnapshotFields.LineTaken | src/openalex/snapshot_processor_impl.cc:90-154 | which lines are taken and which make the run throw, field by field |
| SnapshotFields.AuthorIdMeans | src/openalex/snapshot_processor_impl.cc:254-265 | the id of an author is its OpenAlex id without the prefix, or the ORCID or the name after `UNKNOWN_` |
| SnapshotFields.InstitutionIdMeans | src/openalex/snapshot_processor_impl.cc:241-252 | likewise for an institution, with the ROR id in place of the ORCID |
| OpenAlex.SnapshotProcessorImpl.ProcessLine | src/openalex/snapshot_processor_impl.cc:90-96 | in either evaluation order, authors and institutions are the two kinds among what the line's mentions emit |
| OpenAlex.SnapshotProcessorImpl.ProcessWorksSnapshot | src/openalex/snapshot_processor_impl.cc:33-53 | a run gives the two kinds among what all its mentions emit, one work per line, and adds the mentioned ids to the seen ones |
| SnapshotFields.EmittedStands | src/openalex/snapshot_processor_impl.cc:156-221 | every record a run emits has the name and the ids of an author or institution on one of its lines, under an id not seen before |
| SnapshotFields.StandingIsSeen | src/openalex/snapshot_processor_impl.cc:156-221 | the id of every author and institution that is not empty was seen before the run or is emitted in it |
| SnapshotFields.NewAuthorEmitted | src/openalex/snapshot_processor_impl.cc:156-188 | an author that is the first of its line with an id new to the line is emitted under it, with its own name and ORCID |
| SnapshotFields.NewInstitutionEmitted | src/openalex/snapshot_processor_impl.cc:190-221 | likewise for an institution, with its own name and ROR id |
| OpenAlex.SnapshotProcessorImpl.ProcessToStreams | src/openalex/snapshot_processor_impl.cc:55-88 | the streaming overload writes the frames of the same lists and returns their lengths |
| OpenAlex.EmitAppend | src/openalex/snapshot_processor_impl.cc:161-186 | emission continues over two stretches of mentions |
| SnapshotTheorems.EmittedExactly | src/openalex/snapshot_processor_impl.cc:156-221 | a record is emitted if and only if it is the first mention of an id not seen before |
| SnapshotTheorems.EmittedInOrder | src/openalex/snapshot_processor_impl.cc:156-221 | emission follows the order of first mentions |
| SnapshotTheorems.SeenIsEmitted | src/openalex/snapshot_processor_impl.cc:165-166 | the seen ids are always the earlier ones and exactly those emitted since |
| SnapshotTheorems.EmittedOnce | src/openalex/snapshot_processor_impl.cc:161-218 | no id is emitted twice, across kinds, lines and calls |
| SnapshotTheorems.CallsCompose | src/openalex/snapshot_processor_impl.cc:41-50 | one call over two files gives and sees what two calls give and see |
| SnapshotTheorems.OrderShowsExactly | src/openalex/snapshot_processor_impl.cc:94-95 | the evaluation order shows if and only if a new id stands both for an author and for an institution of the line |
| SnapshotTheorems.OrderNeverShows | src/openalex/snapshot_processor_impl.cc:94-95 | with author and institution ids disjoint no choice of orders shows in a run |
| SnapshotTheorems.WorkNamesMentions | src/openalex/snapshot_processor_impl.cc:128-149 | the ids a work lists are those mentioned on its line, of the matching kind |
| SnapshotTheorems.WorkListsOnce | src/openalex/snapshot_processor_impl.cc:130-145 | a work lists each institution once |
| SnapshotTheorems.WorkResolves | src/openalex/snapshot_processor_impl.cc:90-221 | every id a work lists was seen before the run or emitted on its line or earlier, as the matching kind when the other kind does not use it |
| SnapshotTheorems.PubmedIdOfDecimal | src/openalex/snapshot_processor_impl.h:107-110 | every decimal below 2^64 is accepted and cut to 32 bits; it agrees with the citation parser exactly up to 2147483647 and from 2^64 on |
| SnapshotTheorems.SnapshotReadBack | src/openalex/snapshot_processor_impl.cc:55-88 | the three streams, read back, are the authors and institutions that the lines emit and one work per line, and the counts are their lengths |

## Left out

- bzip2 decompression, streams of the C++ library, and the forwarding classes (`TextExtractor`, `Bz2Extractor`, `Parser`, `SnapshotProcessor`): they add no property.
- libxml++: a run starts from its events; warnings and errors are one event that aborts.
- Decoding.DecodingIsMeaning: for trees whose pages do not stand in pages, revisions only in pages and not in revisions, neither in contributors, and whose fields hold character data only; contributors and all other elements stand anywhere and hold anything.
- Protobuf wire encoding and JSON parsing: payloads and records are values, with parsing assumed to undo serialising and single messages of less than 2^31 bytes.
- Timestamp texts: `TimeUtil::FromString` is a parameter of the environment.
- OpenAlex.ExtractWork: the publication date is given as what its text is parsed to, and the language as what the language table makes of its code.
- Exception messages.
- Boost.Parser itself: the grammar is modelled with its documented skipping rules, and one notion of white space (the ASCII one) serves skipper, trimming and numerals; lower-casing is ASCII.
- Framing.MessageReader.ReadMessage: does not model a payload that does not parse; the size must be there, because the code reads an uninitialised one otherwise.
- DumpParser.DumpParser.ParseXML: says nothing of the parser's state after an exception.
- PageTheorems.OrderIndependence: one direction; ties can be harmless, and the exact condition for the order itself is `SortDeterminedExactly`.
- Sinks.PageSink.Store: the two dynamic types are one class with a flag, and the two output streams are distinct objects; one stream given for both outputs is not modelled.
- Reference counts are unbounded integers; the code's are 32 bits wide.
- Integer widths of the written counters.
