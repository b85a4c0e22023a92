/**
  Where finished pages go. `Store` is virtual: the in-memory parser keeps pages and revisions, the
  streaming parser derived from it writes them to two streams. `streaming` says which it is.
 */
module Sinks {
  import opened Wrappers
  import opened History
  import opened Ordered
  import opened Dump
  import opened Framing

  /** Protobuf's serialisation of the two message types that are streamed. */
  datatype Codec = Codec(
    encodePage: Page -> Payload, encodeRevision: Revision -> Payload)

  ghost predicate InMemory(calls: seq<StoreCall>, pages: seq<Page>, revisions: map<nat, Revision>) {
    pages == PagesOf(calls) && revisions == RevisionsOf(calls)
  }

  ghost predicate Streamed(codec: Codec, calls: seq<StoreCall>, pages: seq<byte>, revisions: seq<byte>,
                           pageCount: int, revisionCount: int) {
    && pages == Stream(codec.encodePage, PagesOf(calls))
    && revisions == Stream(codec.encodeRevision, RevisionStream(calls))
    && pageCount == |PagesOf(calls)|
    && revisionCount == |RevisionStream(calls)|
  }

  class PageSink {
    const codec: Codec
    const streaming: bool

    var storedPages: seq<Page>
    var storedRevisions: map<nat, Revision>

    const pageWriter: MessageWriter
    const revisionWriter: MessageWriter
    var pagesWritten: nat
    var revisionsWritten: nat

    /** The calls of `Store` so far, and the counters before the first of them. */
    ghost var calls: seq<StoreCall>
    ghost const pagesBefore: nat
    ghost const revisionsBefore: nat

    /** The sink holds what the calls so far put there. */
    ghost predicate Valid()
      reads this, pageWriter, revisionWriter
    {
      && pageWriter != revisionWriter
      && (if streaming
          then Streamed(codec, calls, pageWriter.output, revisionWriter.output,
                        pagesWritten - pagesBefore, revisionsWritten - revisionsBefore)
          else InMemory(calls, storedPages, storedRevisions))
    }

    constructor (codec: Codec, streaming: bool, pagesWritten: nat, revisionsWritten: nat)
      ensures Valid() && calls == [] && fresh(pageWriter) && fresh(revisionWriter)
      ensures this.codec == codec && this.streaming == streaming
      ensures this.pagesWritten == pagesBefore == pagesWritten
      ensures this.revisionsWritten == revisionsBefore == revisionsWritten
    {
      this.codec, this.streaming := codec, streaming;
      storedPages, storedRevisions, calls := [], map[], [];
      this.pagesWritten, pagesBefore := pagesWritten, pagesWritten;
      this.revisionsWritten, revisionsBefore := revisionsWritten, revisionsWritten;
      pageWriter := new MessageWriter();
      revisionWriter := new MessageWriter();
    }

    /** Takes a finished page; which of the two ways is the dynamic type's choice. */
    method Store(revisions: map<nat, Revision>, page: Page)
      requires Valid()
      modifies this, pageWriter, revisionWriter
      ensures Valid() && calls == old(calls) + [StoreCall(page, revisions)]
    {
      if streaming {
        CallInMemory(calls, StoreCall(page, revisions));
        CallInStreams(codec, calls, StoreCall(page, revisions));
        StoreInStreams(revisions, page);
      } else {
        CallInMemory(calls, StoreCall(page, revisions));
        StoreInMemory(revisions, page);
        NeverReplaced(RevisionsOf(calls), revisions, storedRevisions);
      }
      calls := calls + [StoreCall(page, revisions)];
    }

    /** `DumpParser::Store` */
    method StoreInMemory(revisions: map<nat, Revision>, page: Page)
      modifies `storedPages, `storedRevisions
      ensures storedPages == old(storedPages) + [page]
      ensures forall id :: id in old(storedRevisions) ==>
                id in storedRevisions && storedRevisions[id] == old(storedRevisions)[id]
      ensures forall id :: id in revisions && id !in old(storedRevisions) ==>
                id in storedRevisions && storedRevisions[id] == revisions[id]
      ensures storedRevisions.Keys == old(storedRevisions.Keys) + revisions.Keys
    {
      storedPages := storedPages + [page];
      storedRevisions := revisions + storedRevisions;
    }

    /** `StreamingDumpParser::Store`: frames at the end of two streams, revisions in the order of their ids. */
    method StoreInStreams(revisions: map<nat, Revision>, page: Page)
      requires pageWriter != revisionWriter
      modifies `pagesWritten, `revisionsWritten, pageWriter, revisionWriter
      ensures pagesWritten == old(pagesWritten) + 1
      ensures revisionsWritten == old(revisionsWritten) + |revisions|
      ensures pageWriter.output == old(pageWriter.output) + Frame(codec.encodePage(page))
      ensures revisionWriter.output
           == old(revisionWriter.output) + Stream(codec.encodeRevision, InIdOrder(revisions))
    {
      var _ := pageWriter.WriteMessage(codec.encodePage(page));
      pagesWritten := pagesWritten + 1;
      WriteRevisions(revisions);
    }

    method WriteRevisions(revisions: map<nat, Revision>)
      modifies `revisionsWritten, revisionWriter
      ensures revisionsWritten == old(revisionsWritten) + |revisions|
      ensures revisionWriter.output == old(revisionWriter.output) + Stream(codec.encodeRevision, InIdOrder(revisions))
    {
      NatLessIsTotal();
      var rest := revisions.Keys;
      ghost var written: seq<Revision> := [];
      while rest != {}
        invariant rest <= revisions.Keys
        invariant written + SortedPart(NatLess, revisions, rest) == InIdOrder(revisions)
        invariant revisionWriter.output == old(revisionWriter.output) + Stream(codec.encodeRevision, written)
        invariant revisionsWritten == old(revisionsWritten) + |written|
        decreases rest
      {
        var id := LeastNat(rest);
        PartStep(NatLess, revisions, rest, id);
        Assoc(written, [revisions[id]], SortedPart(NatLess, revisions, rest - {id}));
        WriteRevision(revisions[id], old(revisionWriter.output), written);
        written := written + [revisions[id]];
        rest := rest - {id};
      }
      assert written + [] == written;
    }

    method WriteRevision(revision: Revision, ghost before: seq<byte>, ghost written: seq<Revision>)
      requires revisionWriter.output == before + Stream(codec.encodeRevision, written)
      modifies `revisionsWritten, revisionWriter
      ensures revisionsWritten == old(revisionsWritten) + 1
      ensures revisionWriter.output == before + Stream(codec.encodeRevision, written + [revision])
    {
      StreamStep(codec.encodeRevision, written, revision);
      Assoc(before, Stream(codec.encodeRevision, written), Frame(codec.encodeRevision(revision)));
      var _ := revisionWriter.WriteMessage(codec.encodeRevision(revision));
      revisionsWritten := revisionsWritten + 1;
    }

  }

  method LeastNat(keys: set<nat>) returns (key: nat)
    requires keys != {}
    ensures IsLeast(NatLess, key, keys)
  {
    NatLessIsTotal();
    LeastExists(NatLess, keys);
    key :| key in keys && forall k :: k in keys && k != key ==> NatLess(key, k);
  }

  /** Old entries stay and new ids come in: that is the merged map. */
  lemma NeverReplaced(before: map<nat, Revision>, revisions: map<nat, Revision>, after: map<nat, Revision>)
    requires forall id :: id in before ==> id in after && after[id] == before[id]
    requires forall id :: id in revisions && id !in before ==> id in after && after[id] == revisions[id]
    requires after.Keys == before.Keys + revisions.Keys
    ensures after == revisions + before
  {
    assert forall id :: id in after <==> id in before.Keys + revisions.Keys;
  }

  /** What one more call adds to memory, */
  lemma CallInMemory(calls: seq<StoreCall>, call: StoreCall)
    ensures PagesOf(calls + [call]) == PagesOf(calls) + [call.page]
    ensures RevisionsOf(calls + [call]) == call.revisions + RevisionsOf(calls)
    ensures RevisionStream(calls + [call]) == RevisionStream(calls) + InIdOrder(call.revisions)
  {
    assert (calls + [call])[..|calls|] == calls;
  }

  /** and what it adds to the streams. */
  lemma CallInStreams(codec: Codec, calls: seq<StoreCall>, call: StoreCall)
    ensures Stream(codec.encodePage, PagesOf(calls + [call]))
         == Stream(codec.encodePage, PagesOf(calls)) + Frame(codec.encodePage(call.page))
    ensures Stream(codec.encodeRevision, RevisionStream(calls + [call]))
         == Stream(codec.encodeRevision, RevisionStream(calls))
            + Stream(codec.encodeRevision, InIdOrder(call.revisions))
  {
    CallInMemory(calls, call);
    StreamStep(codec.encodePage, PagesOf(calls), call.page);
    StreamAppend(codec.encodeRevision, RevisionStream(calls), InIdOrder(call.revisions));
  }
}
