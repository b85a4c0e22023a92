/**
  The streaming parser refines the in-memory one: what its two streams hold, read back, is what the
  other keeps.
 */
module Streaming {
  import opened Wrappers
  import opened Numbers
  import opened CitationParser
  import opened History
  import opened Ordered
  import opened Dump
  import opened Framing
  import opened Sinks

  /** Protobuf's parsing, the other way round. */
  datatype Decoder = Decoder(decodePage: Payload -> Page, decodeRevision: Payload -> Revision)

  /** Inserting revisions one by one under their ids; an entry is never replaced. */
  function InsertAll(revisions: seq<Revision>): map<nat, Revision> {
    if revisions == [] then map[]
    else
      var m, last := InsertAll(revisions[..|revisions| - 1]), revisions[|revisions| - 1];
      if last.id in m then m else m[last.id := last]
  }

  // ---- The revisions of all pages ----

  /** Every revision is stored under its own id. */
  ghost predicate OwnIds(calls: seq<StoreCall>) {
    forall i :: 0 <= i < |calls| ==> OwnId(calls[i].revisions)
  }

  ghost predicate OwnId(revisions: map<nat, Revision>) {
    forall id :: id in revisions ==> revisions[id].id == id
  }

  lemma {:induction false} InsertAppend(a: seq<Revision>, b: seq<Revision>)
    ensures InsertAll(a + b) == InsertAll(b) + InsertAll(a)
  {
    if b == [] {
      assert a + b == a;
    } else {
      var init := b[..|b| - 1];
      assert (a + b)[..|a + b| - 1] == a + init;
      InsertAppend(a, init);
    }
  }

  function Listed(m: map<nat, Revision>, keys: seq<nat>): map<nat, Revision> {
    map k | k in m && k in keys :: m[k]
  }

  lemma ListedStep(m: map<nat, Revision>, keys: seq<nat>)
    requires keys != [] && keys[0] in m
    ensures Listed(m, keys) == Listed(m, keys[1..]) + map[keys[0] := m[keys[0]]]
  {
    assert forall k :: k in keys <==> k == keys[0] || k in keys[1..];
  }

  lemma InsertOne(r: Revision)
    ensures InsertAll([r]) == map[r.id := r]
  {
    assert [r][..0] == [];
  }

  lemma {:induction false} InsertListed(m: map<nat, Revision>, keys: seq<nat>)
    requires OwnId(m) && forall k :: k in keys ==> k in m
    ensures InsertAll(ValuesAt(m, keys)) == Listed(m, keys)
  {
    if keys != [] {
      var first := m[keys[0]];
      assert keys[0] in keys;
      InsertListed(m, keys[1..]);
      InsertAppend([first], ValuesAt(m, keys[1..]));
      InsertOne(first);
      ListedStep(m, keys);
    }
  }

  /** Inserting a page's revisions in the order of their ids gives the page's map back. */
  lemma InsertInIdOrder(m: map<nat, Revision>)
    requires OwnId(m)
    ensures InsertAll(InIdOrder(m)) == m
  {
    NatLessIsTotal();
    InsertListed(m, SortedKeys(NatLess, m.Keys));
  }

  lemma {:induction false} InsertStream(calls: seq<StoreCall>)
    requires OwnIds(calls)
    ensures InsertAll(RevisionStream(calls)) == RevisionsOf(calls)
  {
    if calls != [] {
      var init, last := calls[..|calls| - 1], calls[|calls| - 1].revisions;
      InsertStream(init);
      assert OwnId(last);
      InsertAppend(RevisionStream(init), InIdOrder(last));
      InsertInIdOrder(last);
    }
  }

  lemma FieldCalls(env: Environment, m: Machine, name: string)
    ensures FieldStep(env, m, name).Ok? ==> FieldStep(env, m, name).value.calls == m.calls
  {}

  lemma EndedCalls(env: Environment, m: Machine, name: string)
    requires EndedStep(env, m, name).Ok?
    ensures EndedStep(env, m, name).value.calls
         == if name == "page" then m.calls + [Finished(env, m.page, m.arrived)] else m.calls
  {
    if name != "page" && name != "revision" && name != "contributor" {
      FieldCalls(env, m, name);
    }
  }

  /** The only calls of `Store` are those at the end of a page. */
  lemma StepCalls(env: Environment, m: Machine, e: Event)
    requires Step(env, m, e).Ok?
    ensures Step(env, m, e).value.calls
         == if e == End("page") then m.calls + [Finished(env, m.page, m.arrived)] else m.calls
  {
    if e.End? {
      EndedCalls(env, m, e.name);
    }
  }

  lemma FinishedOwnId(env: Environment, page: Page, h: Chronicle)
    ensures OwnId(Finished(env, page, h).revisions)
  {}

  /** Every page the machine stores has its revisions under their own ids. */
  lemma {:induction false} RunOwnIds(env: Environment, m: Machine, events: seq<Event>)
    requires OwnIds(m.calls) && Run(env, m, events).Ok?
    ensures OwnIds(Run(env, m, events).value.calls)
    decreases |events|
  {
    if events != [] {
      StepCalls(env, m, events[0]);
      FinishedOwnId(env, m.page, m.arrived);
      RunOwnIds(env, Step(env, m, events[0]).value, events[1..]);
    }
  }

  /** Parsing undoes serialising for everything stored, in messages of less than 2^31 bytes. */
  ghost predicate Decodable(codec: Codec, decoder: Decoder, calls: seq<StoreCall>) {
    && Readable(codec.encodePage, decoder.decodePage, PagesOf(calls))
    && Readable(codec.encodeRevision, decoder.decodeRevision, RevisionStream(calls))
  }

  /** What the two streams and their counts tell of some calls of `Store`. */
  ghost predicate ReadBack(decoder: Decoder, calls: seq<StoreCall>, pages: seq<byte>, revisions: seq<byte>,
                           pageCount: int, revisionCount: int) {
    && ReadStream(decoder.decodePage, pages) == Some(PagesOf(calls)) && pageCount == |PagesOf(calls)|
    && ReadStream(decoder.decodeRevision, revisions).Some?
    && (var read := ReadStream(decoder.decodeRevision, revisions).value;
        InsertAll(read) == RevisionsOf(calls) && revisionCount == |read|)
    && (ReadThrough(pages) == ReadAll(pages) <==> |pages| <= INT_MAX)
    && (ReadThrough(revisions) == ReadAll(revisions) <==> |revisions| <= INT_MAX)
  }

  lemma StreamsReadBack(codec: Codec, decoder: Decoder, calls: seq<StoreCall>, pages: seq<byte>, revisions: seq<byte>,
                        pageCount: int, revisionCount: int)
    requires OwnIds(calls) && Decodable(codec, decoder, calls)
    requires Streamed(codec, calls, pages, revisions, pageCount, revisionCount)
    ensures ReadBack(decoder, calls, pages, revisions, pageCount, revisionCount)
  {
    StreamReadBack(codec.encodePage, decoder.decodePage, PagesOf(calls));
    StreamReadBack(codec.encodeRevision, decoder.decodeRevision, RevisionStream(calls));
    InsertStream(calls);
    OneReaderExactly(pages);
    OneReaderExactly(revisions);
  }

  /**
    The streaming parser refines the in-memory one, on any events: the pages read back are those
    kept in memory, and inserting the revisions read back, first come first kept, gives the map kept
    in memory. The counts are the lengths of the two streams. All of a stream comes back to one reader
    exactly if it has less than 2^31 bytes.
   */
  lemma StreamingRefines(env: Environment, codec: Codec, decoder: Decoder, carried: map<string, ExtractedCitation>,
                         textBuf: string, events: seq<Event>, m: Machine, pages: seq<byte>, revisions: seq<byte>,
                         pageCount: int, revisionCount: int)
    requires Run(env, Begin(carried, textBuf), events) == Ok(m)
    ensures Decodable(codec, decoder, m.calls)
            && Streamed(codec, m.calls, pages, revisions, pageCount, revisionCount) ==>
              ReadBack(decoder, m.calls, pages, revisions, pageCount, revisionCount)
  {
    if Decodable(codec, decoder, m.calls) && Streamed(codec, m.calls, pages, revisions, pageCount, revisionCount) {
      RunOwnIds(env, Begin(carried, textBuf), events);
      StreamsReadBack(codec, decoder, m.calls, pages, revisions, pageCount, revisionCount);
    }
  }

  // ---- The counts ----

  predicate Shares(calls: seq<StoreCall>, i: nat, j: nat) {
    i < j < |calls| && exists id :: id in calls[i].revisions && id in calls[j].revisions
  }

  ghost predicate SharedId(calls: seq<StoreCall>) {
    exists i: nat, j: nat :: Shares(calls, i, j)
  }

  lemma {:induction false} StoredByACall(calls: seq<StoreCall>, id: nat)
    ensures id in RevisionsOf(calls) <==> exists i :: 0 <= i < |calls| && id in calls[i].revisions
  {
    if calls != [] {
      var init := calls[..|calls| - 1];
      StoredByACall(init, id);
      assert forall i :: 0 <= i < |init| ==> init[i] == calls[i];
    }
  }

  lemma SharedIdStep(calls: seq<StoreCall>)
    requires calls != []
    ensures var init, last := calls[..|calls| - 1], calls[|calls| - 1].revisions;
            SharedId(calls) <==> SharedId(init) || last.Keys * RevisionsOf(init).Keys != {}
  {
    var n := |calls| - 1;
    var init, last := calls[..n], calls[n].revisions;
    if SharedId(init) {
      var i: nat, j: nat :| Shares(init, i, j);
      assert init[i] == calls[i] && init[j] == calls[j] && Shares(calls, i, j);
    }
    if id :| id in last.Keys * RevisionsOf(init).Keys {
      StoredByACall(init, id);
      var i :| 0 <= i < |init| && id in init[i].revisions;
      assert Shares(calls, i, n);
    }
    if SharedId(calls) {
      var i: nat, j: nat :| Shares(calls, i, j);
      if j < n {
        assert init[i] == calls[i] && init[j] == calls[j] && Shares(init, i, j);
      } else {
        var id :| id in calls[i].revisions && id in last;
        assert id in init[i].revisions;
        StoredByACall(init, id);
        assert id in last.Keys * RevisionsOf(init).Keys;
      }
    }
  }

  /**
    The number of revisions written exceeds the number kept in memory exactly when two pages store
    the same revision id.
   */
  lemma {:induction false} CountsExactly(calls: seq<StoreCall>)
    ensures |RevisionsOf(calls)| <= |RevisionStream(calls)|
    ensures |RevisionsOf(calls)| < |RevisionStream(calls)| <==> SharedId(calls)
  {
    if calls != [] {
      var init, last := calls[..|calls| - 1], calls[|calls| - 1].revisions;
      CountsExactly(init);
      SharedIdStep(calls);
      UnionSize(last, RevisionsOf(init));
    }
  }

  lemma UnionSize(a: map<nat, Revision>, b: map<nat, Revision>)
    ensures |a + b| + |a.Keys * b.Keys| == |a| + |b|
  {
    assert (a + b).Keys == a.Keys + b.Keys;
    assert |a.Keys + b.Keys| + |a.Keys * b.Keys| == |a.Keys| + |b.Keys|;
  }

  // ---- What is kept ----

  /** The pages kept are those of the calls, one by one. */
  lemma {:induction false} PagesInOrder(calls: seq<StoreCall>)
    ensures |PagesOf(calls)| == |calls| && forall i :: 0 <= i < |calls| ==> PagesOf(calls)[i] == calls[i].page
  {
    if calls != [] {
      PagesInOrder(calls[..|calls| - 1]);
    }
  }

  /** Under an id, the revision of the first call that has it is kept. */
  lemma {:induction false} FirstCallKept(calls: seq<StoreCall>, i: nat, id: nat)
    requires i < |calls| && id in calls[i].revisions && forall j :: 0 <= j < i ==> id !in calls[j].revisions
    ensures id in RevisionsOf(calls) && RevisionsOf(calls)[id] == calls[i].revisions[id]
    decreases |calls|
  {
    var init := calls[..|calls| - 1];
    if i < |init| {
      FirstCallKept(init, i, id);
    } else {
      StoredByACall(init, id);
      assert forall j :: 0 <= j < |init| ==> init[j] == calls[j];
    }
  }

  /** The revisions written for one more call come after those of the calls before. */
  lemma StreamGrows(calls: seq<StoreCall>, call: StoreCall)
    ensures RevisionStream([]) == []
    ensures RevisionStream(calls + [call]) == RevisionStream(calls) + InIdOrder(call.revisions)
  {
    CallInMemory(calls, call);
  }
}
