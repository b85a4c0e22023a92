/**
  What the snapshot processor promises over whole runs.
 */
module SnapshotTheorems {
  import opened Wrappers
  import opened Numbers
  import opened CitationParser
  import opened Framing
  import opened OpenAlex

  // ---- Emission ----

  /** Mention `i` is the first with its id, and the id has not been seen before. */
  ghost predicate FirstMention(mentions: seq<Record>, seen: set<string>, i: nat) {
    && i < |mentions| && mentions[i].id !in seen
    && forall j :: 0 <= j < i ==> mentions[j].id != mentions[i].id
  }

  lemma {:induction false} IdsMean(rs: seq<Record>, id: string)
    ensures id in Ids(rs) <==> exists i :: 0 <= i < |rs| && rs[i].id == id
  {
    if rs != [] {
      var init := rs[..|rs| - 1];
      IdsMean(init, id);
      assert forall i :: 0 <= i < |init| ==> init[i] == rs[i];
    }
  }

  lemma FirstMentionStep(mentions: seq<Record>, seen: set<string>)
    requires mentions != []
    ensures var n := |mentions| - 1;
            && (forall i: nat :: i < n ==> FirstMention(mentions, seen, i) == FirstMention(mentions[..n], seen, i))
            && (FirstMention(mentions, seen, n) <==> mentions[n].id !in seen && mentions[n].id !in Ids(mentions[..n]))
  {
    var n := |mentions| - 1;
    IdsMean(mentions[..n], mentions[n].id);
    assert forall i :: 0 <= i < n ==> mentions[..n][i] == mentions[i];
  }

  lemma EmittedLast(mentions: seq<Record>, seen: set<string>, r: Record)
    requires mentions != []
    ensures var n := |mentions| - 1;
            (exists i: nat :: FirstMention(mentions, seen, i) && mentions[i] == r)
            <==> (exists i: nat :: FirstMention(mentions[..n], seen, i) && mentions[..n][i] == r)
                 || (FirstMention(mentions, seen, n) && mentions[n] == r)
  {
    var n := |mentions| - 1;
    var init := mentions[..n];
    FirstMentionStep(mentions, seen);
    if i: nat :| FirstMention(init, seen, i) && init[i] == r {
      assert FirstMention(mentions, seen, i) && mentions[i] == r;
    }
    if i: nat :| FirstMention(mentions, seen, i) && mentions[i] == r {
      assert i < n ==> FirstMention(init, seen, i) && init[i] == r;
    }
  }

  /** A record is emitted exactly when it is some first mention. */
  lemma {:induction false} EmittedExactly(mentions: seq<Record>, seen: set<string>, r: Record)
    ensures r in Emit(mentions, seen) <==> exists i: nat :: FirstMention(mentions, seen, i) && mentions[i] == r
  {
    if mentions != [] {
      var n := |mentions| - 1;
      var init := mentions[..n];
      EmittedExactly(init, seen, r);
      FirstMentionStep(mentions, seen);
      EmittedLast(mentions, seen, r);
      assert r in Emit(mentions, seen)
        <==> r in Emit(init, seen) || (r == mentions[n] && FirstMention(mentions, seen, n));
    }
  }

  lemma SeenStep(seen: set<string>, mentioned: set<string>, emitted: set<string>, id: string)
    requires seen + mentioned == seen + emitted && seen !! emitted
    ensures id in seen || id in mentioned ==> seen + (mentioned + {id}) == seen + emitted
    ensures !(id in seen || id in mentioned) ==>
              seen + (mentioned + {id}) == seen + (emitted + {id}) && seen !! (emitted + {id})
  {}

  /** After a run the seen ids are the old ones and those of the records emitted in it. */
  lemma {:induction false} SeenIsEmitted(mentions: seq<Record>, seen: set<string>)
    ensures seen + Ids(mentions) == seen + Ids(Emit(mentions, seen))
    ensures seen !! Ids(Emit(mentions, seen))
    decreases |mentions|
  {
    if mentions != [] {
      var init, last := mentions[..|mentions| - 1], mentions[|mentions| - 1];
      var e := Emit(init, seen);
      SeenIsEmitted(init, seen);
      SeenStep(seen, Ids(init), Ids(e), last.id);
      assert Ids(e + [last]) == Ids(e) + {last.id} by { EmitStep(e, last, {}); }
      assert Emit(mentions, seen) == if last.id in seen || last.id in Ids(init) then e else e + [last] by {
        assert mentions == init + [last];
        EmitStep(init, last, seen);
      }
    }
  }

  /** No id is emitted twice. */
  lemma {:induction false} EmittedOnce(mentions: seq<Record>, seen: set<string>, i: nat, j: nat)
    requires i < j < |Emit(mentions, seen)|
    ensures Emit(mentions, seen)[i].id != Emit(mentions, seen)[j].id
    decreases |mentions|
  {
    var init, last := mentions[..|mentions| - 1], mentions[|mentions| - 1];
    var e := Emit(init, seen);
    if j < |e| {
      EmittedOnce(init, seen, i, j);
    } else {
      SeenIsEmitted(init, seen);
      IdsMean(e, e[i].id);
    }
  }

  /** Records are emitted in the order of their first mentions. */
  lemma {:induction false} EmittedInOrder(mentions: seq<Record>, seen: set<string>, i: nat, j: nat)
    returns (p: nat, q: nat)
    requires i < j < |Emit(mentions, seen)|
    ensures p < q && FirstMention(mentions, seen, p) && FirstMention(mentions, seen, q)
    ensures mentions[p] == Emit(mentions, seen)[i] && mentions[q] == Emit(mentions, seen)[j]
    decreases |mentions|
  {
    var n := |mentions| - 1;
    var init, last := mentions[..n], mentions[n];
    var e := Emit(init, seen);
    assert forall k :: 0 <= k < n ==> init[k] == mentions[k];
    if j < |e| {
      p, q := EmittedInOrder(init, seen, i, j);
    } else {
      assert e[i] in e;
      EmittedExactly(init, seen, e[i]);
      p :| FirstMention(init, seen, p) && init[p] == e[i];
      q := n;
      IdsMean(init, last.id);
    }
  }

  // ---- Runs ----

  /** The lines of a second call are evaluated as they would be as later lines of one long call. */
  ghost predicate GoesOn(first: nat -> bool, n: nat, second: nat -> bool) {
    forall i: nat :: second(i) == first(n + i)
  }

  lemma MentionsStep(lines: seq<Line>, line: Line, f: nat -> bool)
    ensures Mentions(lines + [line], f) == Mentions(lines, f) + LineMentions(line, f(|lines|))
  {
    assert (lines + [line])[..|lines|] == lines;
  }

  lemma {:induction false} MentionsAppend(a: seq<Line>, b: seq<Line>, f: nat -> bool, g: nat -> bool)
    requires GoesOn(f, |a|, g)
    ensures Mentions(a + b, f) == Mentions(a, f) + Mentions(b, g)
    decreases |b|
  {
    if b == [] {
      assert a + b == a;
      assert Mentions(b, g) == [];
    } else {
      var n := |b| - 1;
      var init, last := b[..n], b[n];
      var more := LineMentions(last, g(n));
      assert Mentions(a + b, f) == Mentions(a + init, f) + more by {
        assert a + b == (a + init) + [last];
        assert |a + init| == |a| + n;
        assert f(|a + init|) == g(n);
        MentionsStep(a + init, last, f);
      }
      assert Mentions(b, g) == Mentions(init, g) + more by {
        assert b == init + [last];
        MentionsStep(init, last, g);
      }
      MentionsAppend(a, init, f, g);
      Assoc(Mentions(a, f), Mentions(init, g), more);
    }
  }

  function WorkOn(line: Line): seq<Work> {
    if line.WorkLine? then [WorkOf(line.data)] else []
  }

  lemma WorksStep(lines: seq<Line>, line: Line)
    ensures Works(lines + [line]) == Works(lines) + WorkOn(line)
  {
    assert (lines + [line])[..|lines|] == lines;
  }

  lemma {:induction false} WorksAppend(a: seq<Line>, b: seq<Line>)
    ensures Works(a + b) == Works(a) + Works(b)
    decreases |b|
  {
    if b == [] {
      assert a + b == a;
    } else {
      var init, last := b[..|b| - 1], b[|b| - 1];
      assert a + b == (a + init) + [last] && b == init + [last];
      WorksStep(a + init, last);
      WorksStep(init, last);
      WorksAppend(a, init);
      Assoc(Works(a), Works(init), WorkOn(last));
    }
  }

  /** One call over a ++ b gives and sees what a call over a and then a call over b do. */
  lemma CallsCompose(a: seq<Line>, b: seq<Line>, f: nat -> bool, g: nat -> bool,
                     before: set<string>, between: set<string>, after: set<string>,
                     as1: seq<Record>, is1: seq<Record>, ws1: seq<Work>,
                     as2: seq<Record>, is2: seq<Record>, ws2: seq<Work>)
    requires GoesOn(f, |a|, g)
    requires Reached(a, f, before, as1, is1, ws1, between)
    requires Reached(b, g, between, as2, is2, ws2, after)
    ensures Reached(a + b, f, before, as1 + as2, is1 + is2, ws1 + ws2, after)
  {
    var x, y := Mentions(a, f), Mentions(b, g);
    MentionsAppend(a, b, f, g);
    WorksAppend(a, b);
    EmitAppend(x, y, before);
    IdsAppend(x, y);
    OnlyAppend(Emit(x, before), Emit(y, between), true);
    OnlyAppend(Emit(x, before), Emit(y, between), false);
  }

  // ---- Evaluation order ----

  /** The ids a line has both as an author and as an institution. */
  function Confused(ships: seq<Authorship>): set<string> {
    Ids(AuthorMentions(ships)) * Ids(InstitutionMentions(ships))
  }

  lemma {:induction false} SeenElsewhere(mentions: seq<Record>, seen: set<string>, more: set<string>)
    ensures Emit(mentions, seen) == Emit(mentions, seen + more) <==> Ids(mentions) * more <= seen
    ensures |Emit(mentions, seen + more)| <= |Emit(mentions, seen)|
    ensures Ids(mentions) * more <= seen || |Emit(mentions, seen + more)| < |Emit(mentions, seen)|
  {
    if mentions != [] {
      SeenElsewhere(mentions[..|mentions| - 1], seen, more);
    }
  }

  /**
    The order in which the tuple's arguments are evaluated shows exactly when some id is new and
    stands both for an author and for an institution of the line.
   */
  lemma OrderShowsExactly(data: WorkJson, seen: set<string>)
    ensures var x, y := Emit(LineMentions(WorkLine(data), true), seen), Emit(LineMentions(WorkLine(data), false), seen);
            (Only(x, true) == Only(y, true) && Only(x, false) == Only(y, false)) <==> Confused(data.authorships) <= seen
    ensures Ids(LineMentions(WorkLine(data), true)) == Ids(LineMentions(WorkLine(data), false))
  {
    var a, b := AuthorMentions(data.authorships), InstitutionMentions(data.authorships);
    MentionKinds(data.authorships);
    KindByKind(a, b, true, seen);
    KindByKind(b, a, false, seen);
    SeenElsewhere(a, seen, Ids(b));
    SeenElsewhere(b, seen, Ids(a));
  }

  function AllMentions(lines: seq<Line>, authors: bool): set<string> {
    if lines == [] then {}
    else
      AllMentions(lines[..|lines| - 1], authors)
      + match lines[|lines| - 1]
        case WorkLine(data) =>
          Ids(if authors then AuthorMentions(data.authorships) else InstitutionMentions(data.authorships))
        case EmptyLine => {}
        case NotJson => {}
  }

  lemma {:induction false} RunsAlike(lines: seq<Line>, f: nat -> bool, g: nat -> bool, seen: set<string>)
    requires AllMentions(lines, true) !! AllMentions(lines, false)
    ensures var x, y := Emit(Mentions(lines, f), seen), Emit(Mentions(lines, g), seen);
            Only(x, true) == Only(y, true) && Only(x, false) == Only(y, false)
    ensures Ids(Mentions(lines, f)) == Ids(Mentions(lines, g))
    decreases |lines|
  {
    if lines != [] {
      var n := |lines| - 1;
      var init, last := lines[..n], lines[n];
      RunsAlike(init, f, g, seen);
      var s := seen + Ids(Mentions(init, f));
      LineAlike(last, f(n), g(n), s);
      RunStep(lines, f, seen);
      RunStep(lines, g, seen);
    }
  }

  /** With author ids and institution ids disjoint, no choice of evaluation orders shows in a run. */
  lemma {:induction false} OrderNeverShows(lines: seq<Line>, f: nat -> bool, g: nat -> bool, before: set<string>,
                        authors: seq<Record>, institutions: seq<Record>, works: seq<Work>, now: set<string>)
    requires AllMentions(lines, true) !! AllMentions(lines, false)
    ensures Reached(lines, f, before, authors, institutions, works, now)
       <==> Reached(lines, g, before, authors, institutions, works, now)
  {
    RunsAlike(lines, f, g, before);
  }

  lemma LineAlike(line: Line, f: bool, g: bool, seen: set<string>)
    requires AllMentions([line], true) !! AllMentions([line], false)
    ensures var x, y := Emit(LineMentions(line, f), seen), Emit(LineMentions(line, g), seen);
            Only(x, true) == Only(y, true) && Only(x, false) == Only(y, false)
    ensures Ids(LineMentions(line, f)) == Ids(LineMentions(line, g))
  {
    if line.WorkLine? {
      assert [line][..0] == [];
      OrderShowsExactly(line.data, seen);
    }
  }

  lemma RunStep(lines: seq<Line>, f: nat -> bool, seen: set<string>)
    requires lines != []
    ensures var n := |lines| - 1;
            var before, more := Mentions(lines[..n], f), LineMentions(lines[n], f(n));
            var e, d := Emit(before, seen), Emit(more, seen + Ids(before));
            && Only(Emit(Mentions(lines, f), seen), true) == Only(e, true) + Only(d, true)
            && Only(Emit(Mentions(lines, f), seen), false) == Only(e, false) + Only(d, false)
            && Ids(Mentions(lines, f)) == Ids(before) + Ids(more)
  {
    var n := |lines| - 1;
    var before, more := Mentions(lines[..n], f), LineMentions(lines[n], f(n));
    EmitAppend(before, more, seen);
    IdsAppend(before, more);
    OnlyAppend(Emit(before, seen), Emit(more, seen + Ids(before)), true);
    OnlyAppend(Emit(before, seen), Emit(more, seen + Ids(before)), false);
  }

  // ---- Works ----

  lemma {:induction false} IdListMeans(rs: seq<Record>, id: string)
    ensures id in IdList(rs) <==> id in Ids(rs)
  {
    if rs != [] {
      IdListMeans(rs[..|rs| - 1], id);
    }
  }

  lemma {:induction false} ListedAreMentioned(ships: seq<Authorship>)
    ensures Ids(ListedInstitutions(ships)) <= Ids(InstitutionMentions(ships))
  {
    if ships != [] {
      var init, last := ships[..|ships| - 1], ships[|ships| - 1];
      ListedAreMentioned(init);
      assert ships[..|ships|] == ships;
      ListedInstitutionsStep(ships, |ships| - 1);
      IdsAppend(InstitutionMentions(init), Affiliations(last.institutions));
      IdsAppend(ListedInstitutions(init), Affiliations(last.institutions));
    }
  }

  /** Every id a work lists was mentioned on its line, as the kind it is listed as. */
  lemma WorkNamesMentions(data: WorkJson, id: string)
    ensures id in WorkOf(data).authorIds <==> id in Ids(AuthorMentions(data.authorships))
    ensures id in WorkOf(data).institutionIds <==> id in Ids(ListedInstitutions(data.authorships))
    ensures id in WorkOf(data).institutionIds ==> id in Ids(InstitutionMentions(data.authorships))
  {
    IdListMeans(AuthorMentions(data.authorships), id);
    var listed := ListedInstitutions(data.authorships);
    IdListMeans(Emit(listed, {}), id);
    SeenIsEmitted(listed, {});
    ListedAreMentioned(data.authorships);
  }

  /** A work lists each of its institutions once. */
  lemma WorkListsOnce(data: WorkJson, i: nat, j: nat)
    requires i < j < |WorkOf(data).institutionIds|
    ensures WorkOf(data).institutionIds[i] != WorkOf(data).institutionIds[j]
  {
    var listed := ListedInstitutions(data.authorships);
    IdListAt(Emit(listed, {}));
    EmittedOnce(listed, {}, i, j);
  }

  lemma {:induction false} IdListAt(rs: seq<Record>)
    ensures |IdList(rs)| == |rs| && forall i :: 0 <= i < |rs| ==> IdList(rs)[i] == rs[i].id
  {
    if rs != [] {
      IdListAt(rs[..|rs| - 1]);
    }
  }

  /**
    References resolve: every author or institution id that the work on line `n` lists has been
    seen before the run, or is the id of a record emitted on line `n` or earlier in it. If no
    institution mention so far has an author's id (or the other way round) and the id was not seen
    before the run, that record is of the matching kind.
   */
  lemma WorkResolves(lines: seq<Line>, n: nat, f: nat -> bool, seen: set<string>,
                                        id: string, author: bool)
    requires n < |lines| && lines[n].WorkLine?
    requires id in if author then WorkOf(lines[n].data).authorIds else WorkOf(lines[n].data).institutionIds
    ensures var emitted := Emit(Mentions(lines[..n + 1], f), seen);
            && emitted <= Emit(Mentions(lines, f), seen)
            && id in seen + Ids(emitted)
            && (id !in seen && id !in AllMentions(lines[..n + 1], !author) ==>
                  exists i :: 0 <= i < |emitted| && emitted[i].id == id && emitted[i].Author? == author)
  {
    var prefix := lines[..n + 1];
    var data := lines[n].data;
    var mentions := Mentions(prefix, f);
    var emitted := Emit(mentions, seen);
    EmitPrefix(lines, n + 1, f, seen);
    WorkNamesMentions(data, id);
    assert prefix[..n] == lines[..n];
    IdsAppend(Mentions(lines[..n], f), LineMentions(lines[n], f(n)));
    IdsAppend(AuthorMentions(data.authorships), InstitutionMentions(data.authorships));
    IdsAppend(InstitutionMentions(data.authorships), AuthorMentions(data.authorships));
    assert id in Ids(mentions);
    SeenIsEmitted(mentions, seen);
    if id !in seen && id !in AllMentions(prefix, !author) {
      IdsMean(emitted, id);
      var i :| 0 <= i < |emitted| && emitted[i].id == id;
      EmittedExactly(mentions, seen, emitted[i]);
      var j: nat :| FirstMention(mentions, seen, j) && mentions[j] == emitted[i];
      MentionKind(prefix, f, j);
    }
  }

  lemma EmitPrefix(lines: seq<Line>, n: nat, f: nat -> bool, seen: set<string>)
    requires n <= |lines|
    ensures Emit(Mentions(lines[..n], f), seen) <= Emit(Mentions(lines, f), seen)
  {
    assert lines == lines[..n] + lines[n..];
    var g := (i: nat) => f(n + i);
    MentionsAppend(lines[..n], lines[n..], f, g);
    EmitAppend(Mentions(lines[..n], f), Mentions(lines[n..], g), seen);
  }

  /** Every mention of a run counts among those of its kind. */
  lemma {:induction false} MentionKind(lines: seq<Line>, f: nat -> bool, i: nat)
    requires i < |Mentions(lines, f)|
    ensures Mentions(lines, f)[i].id in AllMentions(lines, Mentions(lines, f)[i].Author?)
  {
    var n := |lines| - 1;
    var before := Mentions(lines[..n], f);
    if i < |before| {
      MentionKind(lines[..n], f, i);
    } else {
      LineMentionKind(lines[n], f(n), i - |before|);
    }
  }

  lemma LineMentionKind(line: Line, authorsFirst: bool, i: nat)
    requires i < |LineMentions(line, authorsFirst)|
    ensures line.WorkLine?
    ensures var r := LineMentions(line, authorsFirst)[i];
            r.id in Ids(if r.Author? then AuthorMentions(line.data.authorships)
                        else InstitutionMentions(line.data.authorships))
  {
    var a, b := AuthorMentions(line.data.authorships), InstitutionMentions(line.data.authorships);
    var r := LineMentions(line, authorsFirst)[i];
    MentionKinds(line.data.authorships);
    IdsMean(a, r.id);
    IdsMean(b, r.id);
    var k := if authorsFirst then i - |a| else i - |b|;
    if authorsFirst {
      assert if i < |a| then r == a[i] else r == b[k];
    } else {
      assert if i < |b| then r == b[i] else r == a[k];
    }
  }

  // ---- Authors ----

  /** An author known only by an ORCID is judged empty, so the fallback to the ORCID needs a name as well. */
  lemma OrcidAloneIsEmpty(a: AuthorJson)
    ensures a.orcid.Some? ==> (AuthorMention(a) == [] <==> a.id.None? && a.displayName.None? && a.ror.None?)
  {}

  /** The lookup of a missing name happens exactly for an author known only by a `ror`. */
  lemma UndefinedLookupExactly(a: AuthorJson)
    ensures !Identifiable(a) <==> a.id.None? && a.displayName.None? && a.orcid.None? && a.ror.Some?
  {}

  // ---- PubMed ids ----

  /**
    The snapshot processor accepts every decimal below 2^64 and keeps its last 32 bits; it agrees
    with the citation parser exactly on the numbers an `int` holds.
   */
  lemma PubmedIdOfDecimal(n: nat)
    ensures forall text :: text == Decimal(n) || text == "https://pubmed.ncbi.nlm.nih.gov/" + Decimal(n)
              ==> ParsePubmedId(text) == if n <= 18446744073709551615 then Some(n % 4294967296) else None
    ensures ParsePubmedId(Decimal(n)) == ParseNumber("pmid", Decimal(n))
       <==> n <= 2147483647 || n > 18446744073709551615
  {
    var d := Decimal(n);
    StoulOfDecimal(n);
    StoiOfDecimal(n);
    assert (PUBMED_PREFIX + d)[|PUBMED_PREFIX|..] == d;
    assert !(PUBMED_PREFIX <= d);
  }

  // ---- The streams ----

  /**
    Reading the three streams of a run back gives what its lines emit: the two kinds among the first
    mentions, and one work per line. The counts are the lengths of the streams.
   */
  lemma SnapshotReadBack(codec: RecordCodec, author: Payload -> Record, institution: Payload -> Record,
                         work: Payload -> Work, lines: seq<Line>, f: nat -> bool, seen: set<string>, now: set<string>,
                         authors: seq<Record>, institutions: seq<Record>, works: seq<Work>,
                         a: seq<byte>, i: seq<byte>, w: seq<byte>, counts: (nat, nat, nat))
    requires Reached(lines, f, seen, authors, institutions, works, now)
    requires WroteAll(codec, a, i, w, counts, authors, institutions, works)
    requires Readable(codec.encodeRecord, author, authors)
    requires Readable(codec.encodeRecord, institution, institutions)
    requires Readable(codec.encodeWork, work, works)
    ensures var emitted := Emit(Mentions(lines, f), seen);
            && ReadStream(author, a) == Some(Only(emitted, true)) && counts.0 == |Only(emitted, true)|
            && ReadStream(institution, i) == Some(Only(emitted, false)) && counts.1 == |Only(emitted, false)|
            && ReadStream(work, w) == Some(Works(lines)) && counts.2 == |Works(lines)|
  {
    StreamReadBack(codec.encodeRecord, author, authors);
    StreamReadBack(codec.encodeRecord, institution, institutions);
    StreamReadBack(codec.encodeWork, work, works);
  }
}
