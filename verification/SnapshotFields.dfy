/**
  What the records and works of a run hold, read off the fields of the input, field by field.
 */
module SnapshotFields {
  import opened Wrappers
  import opened Numbers
  import opened OpenAlex
  import opened SnapshotTheorems

  // ---- Identifiers ----

  /** The OpenAlex id without its prefix; failing that, the second choice, and then the name. */
  predicate Identifies(openAlex: Option<string>, second: Option<string>, name: Option<string>, id: string) {
    if openAlex.Some? then
      if "https://openalex.org/" <= openAlex.value then openAlex.value == "https://openalex.org/" + id
      else openAlex.value == id
    else if second.Some? then id == "UNKNOWN_" + second.value
    else name.Some? && id == "UNKNOWN_" + name.value
  }

  lemma Shortened(id: string)
    ensures if "https://openalex.org/" <= id then id == "https://openalex.org/" + TrimOpenAlexId(id)
            else TrimOpenAlexId(id) == id
  {
    assert |OPENALEX_PREFIX| == 21;
    if OPENALEX_PREFIX <= id {
      assert id == id[..21] + id[21..];
    }
  }

  lemma SameTail(prefix: string, a: string, b: string)
    requires prefix + a == prefix + b
    ensures a == b
  {
    assert a == (prefix + a)[|prefix|..];
    assert b == (prefix + b)[|prefix|..];
  }

  /** An author is identified by its OpenAlex id, its ORCID or its name, in this order. */
  lemma AuthorIdMeans(a: AuthorJson, id: string)
    ensures GetAuthorId(a) == Ok(id) <==> Identifies(a.id, a.orcid, a.displayName, id)
  {
    if a.id.Some? {
      Shortened(a.id.value);
      if a.id.value == "https://openalex.org/" + id {
        SameTail("https://openalex.org/", id, TrimOpenAlexId(a.id.value));
      }
    }
  }

  /** An institution is identified by its OpenAlex id, its ROR id or its name, in this order. */
  lemma InstitutionIdMeans(i: InstitutionJson, id: string)
    ensures (i.id.Some? || i.ror.Some? || i.displayName.Some?) ==>
              (GetInstitutionId(i) == Ok(id) <==> Identifies(i.id, i.ror, i.displayName, id))
  {
    if i.id.Some? {
      Shortened(i.id.value);
      if i.id.value == "https://openalex.org/" + id {
        SameTail("https://openalex.org/", id, TrimOpenAlexId(i.id.value));
      }
    }
  }

  // ---- Where records stand ----

  /** Author `k` of a work that is not empty, as a record. */
  predicate AuthorOn(ships: seq<Authorship>, k: nat, r: Record) {
    k < |ships| && r.Author?
    && var a := ships[k].author;
       && (a.id.Some? || a.displayName.Some? || a.ror.Some?)
       && r.name == a.displayName && r.orcid == a.orcid && Identifies(a.id, a.orcid, a.displayName, r.id)
  }

  /** Institution `j` of a list that is not empty, as a record. */
  predicate InstitutionIn(ins: seq<InstitutionJson>, j: nat, r: Record) {
    j < |ins| && r.Institution?
    && var i := ins[j];
       && (i.id.Some? || i.displayName.Some? || i.ror.Some?)
       && r.name == i.displayName && r.ror == i.ror && Identifies(i.id, i.ror, i.displayName, r.id)
  }

  predicate InstitutionOn(ships: seq<Authorship>, k: nat, j: nat, r: Record) {
    k < |ships| && InstitutionIn(ships[k].institutions, j, r)
  }

  ghost predicate StandsOn(line: Line, r: Record) {
    line.WorkLine?
    && ((exists k: nat :: AuthorOn(line.data.authorships, k, r))
        || (exists k: nat, j: nat :: InstitutionOn(line.data.authorships, k, j, r)))
  }

  lemma AuthorMentionMeans(a: AuthorJson, r: Record)
    requires Identifiable(a)
    ensures r in AuthorMention(a) <==> AuthorOn([Authorship(a, [])], 0, r)
  {
    if r.Author? {
      AuthorIdMeans(a, r.id);
    }
  }

  lemma {:induction false} AuthorsStand(ships: seq<Authorship>, r: Record)
    requires AllIdentifiable(ships)
    ensures r in AuthorMentions(ships) <==> exists k: nat :: AuthorOn(ships, k, r)
  {
    if ships != [] {
      var n := |ships| - 1;
      AuthorsStand(ships[..n], r);
      AuthorMentionMeans(ships[n].author, r);
      assert forall k: nat :: k < n ==> AuthorOn(ships[..n], k, r) == AuthorOn(ships, k, r);
      assert AuthorOn([Authorship(ships[n].author, [])], 0, r) == AuthorOn(ships, n, r);
      assert forall k: nat :: k < n || k == n || !AuthorOn(ships, k, r);
    }
  }

  lemma InstitutionMentionMeans(ins: seq<InstitutionJson>, j: nat, r: Record)
    requires j < |ins|
    ensures r in InstitutionMention(ins[j]) <==> InstitutionIn(ins, j, r)
  {
    if r.Institution? {
      InstitutionIdMeans(ins[j], r.id);
    }
  }

  lemma {:induction false} AffiliationsStand(ins: seq<InstitutionJson>, r: Record)
    ensures r in Affiliations(ins) <==> exists j: nat :: InstitutionIn(ins, j, r)
  {
    if ins != [] {
      var n := |ins| - 1;
      AffiliationsStand(ins[..n], r);
      InstitutionMentionMeans(ins, n, r);
      assert forall j: nat :: j < n ==> InstitutionIn(ins[..n], j, r) == InstitutionIn(ins, j, r);
      assert forall j: nat :: j < n || j == n || !InstitutionIn(ins, j, r);
    }
  }

  lemma {:induction false} InstitutionsStand(ships: seq<Authorship>, r: Record)
    ensures r in InstitutionMentions(ships) <==> exists k: nat, j: nat :: InstitutionOn(ships, k, j, r)
  {
    if ships != [] {
      var n := |ships| - 1;
      InstitutionsStand(ships[..n], r);
      AffiliationsStand(ships[n].institutions, r);
      assert forall k: nat, j: nat :: k < n ==> InstitutionOn(ships[..n], k, j, r) == InstitutionOn(ships, k, j, r);
      assert forall j: nat :: InstitutionOn(ships, n, j, r) == InstitutionIn(ships[n].institutions, j, r);
      assert forall k: nat, j: nat :: k < n || k == n || !InstitutionOn(ships, k, j, r);
    }
  }

  lemma LineStands(line: Line, authorsFirst: bool, r: Record)
    requires LineOk(line)
    ensures r in LineMentions(line, authorsFirst) <==> StandsOn(line, r)
  {
    if line.WorkLine? {
      AuthorsStand(line.data.authorships, r);
      InstitutionsStand(line.data.authorships, r);
    }
  }

  /** The record stands on one of the lines. */
  ghost predicate Stands(lines: seq<Line>, r: Record) {
    exists n :: 0 <= n < |lines| && StandsOn(lines[n], r)
  }

  lemma StandsLast(lines: seq<Line>, line: Line, r: Record)
    ensures Stands(lines + [line], r) <==> Stands(lines, r) || StandsOn(line, r)
  {
    var more := lines + [line];
    assert more[|lines|] == line;
    if n :| 0 <= n < |lines| && StandsOn(lines[n], r) {
      assert more[n] == lines[n];
    }
  }

  lemma {:induction false} LinesStand(lines: seq<Line>, f: nat -> bool, r: Record)
    requires LinesOk(lines)
    ensures r in Mentions(lines, f) <==> Stands(lines, r)
  {
    if lines != [] {
      var n := |lines| - 1;
      var init, last := lines[..n], lines[n];
      assert lines == init + [last];
      assert LineOk(last);
      LinesStand(init, f, r);
      LineStands(last, f(n), r);
      StandsLast(init, last, r);
    }
  }

  // ---- What is emitted ----

  lemma {:induction false} OnlyMeans(rs: seq<Record>, authors: bool, r: Record)
    ensures r in Only(rs, authors) <==> r in rs && r.Author? == authors
  {
    if rs != [] {
      OnlyMeans(rs[..|rs| - 1], authors, r);
    }
  }

  /** Nothing is made up: what a run emits stands on one of its lines under an id not seen before. */
  lemma EmittedStands(lines: seq<Line>, f: nat -> bool, before: set<string>,
                      authors: seq<Record>, institutions: seq<Record>, works: seq<Work>, now: set<string>, r: Record)
    requires LinesOk(lines) && Reached(lines, f, before, authors, institutions, works, now)
    requires r in authors || r in institutions
    ensures r.id !in before && (r in authors <==> r.Author?) && (r in institutions <==> r.Institution?)
    ensures Stands(lines, r)
  {
    var mentions := Mentions(lines, f);
    OnlyMeans(Emit(mentions, before), true, r);
    OnlyMeans(Emit(mentions, before), false, r);
    EmittedExactly(mentions, before, r);
    LinesStand(lines, f, r);
  }

  /** Nothing is lost: every id that stands on a line was seen before the run or is emitted once in it. */
  lemma StandingIsSeen(lines: seq<Line>, f: nat -> bool, before: set<string>,
                       authors: seq<Record>, institutions: seq<Record>, works: seq<Work>, now: set<string>,
                       n: nat, r: Record)
    requires LinesOk(lines) && Reached(lines, f, before, authors, institutions, works, now)
    requires n < |lines| && StandsOn(lines[n], r)
    ensures r.id in now
    ensures r.id in before || exists e :: e in authors + institutions && e.id == r.id
  {
    var mentions := Mentions(lines, f);
    var emitted := Emit(mentions, before);
    LinesStand(lines, f, r);
    var i :| 0 <= i < |mentions| && mentions[i] == r;
    IdsMean(mentions, r.id);
    SeenIsEmitted(mentions, before);
    if r.id !in before {
      IdsMean(emitted, r.id);
      var j :| 0 <= j < |emitted| && emitted[j].id == r.id;
      OnlyMeans(emitted, emitted[j].Author?, emitted[j]);
    }
  }

  // ---- The first record with an id ----

  lemma EmitGrows(a: seq<Record>, b: seq<Record>, seen: set<string>)
    requires a <= b
    ensures Emit(a, seen) <= Emit(b, seen)
  {
    assert b == a + b[|a|..];
    EmitAppend(a, b[|a|..], seen);
  }

  /** A mention whose id is neither seen nor mentioned before it is emitted. */
  lemma NewIsEmitted(before: seq<Record>, r: Record, all: seq<Record>, seen: set<string>)
    requires before + [r] <= all && r.id !in seen && forall q :: q in before ==> q.id != r.id
    ensures r in Emit(all, seen)
  {
    IdsMean(before, r.id);
    EmitStep(before, r, seen);
    EmitGrows(before + [r], all, seen);
    var e := Emit(before, seen) + [r];
    assert e[|e| - 1] == r;
  }

  lemma {:induction false} AuthorsPrefix(ships: seq<Authorship>, k: nat)
    requires k <= |ships|
    ensures AuthorMentions(ships[..k]) <= AuthorMentions(ships)
  {
    if k == |ships| {
      assert ships[..k] == ships;
    } else {
      var init := ships[..|ships| - 1];
      assert init[..k] == ships[..k];
      AuthorsPrefix(init, k);
    }
  }

  lemma {:induction false} InstitutionsPrefix(ships: seq<Authorship>, k: nat)
    requires k <= |ships|
    ensures InstitutionMentions(ships[..k]) <= InstitutionMentions(ships)
  {
    if k == |ships| {
      assert ships[..k] == ships;
    } else {
      var init := ships[..|ships| - 1];
      assert init[..k] == ships[..k];
      InstitutionsPrefix(init, k);
    }
  }

  lemma {:induction false} AffiliationsPrefix(ins: seq<InstitutionJson>, j: nat)
    requires j <= |ins|
    ensures Affiliations(ins[..j]) <= Affiliations(ins)
  {
    if j == |ins| {
      assert ins[..j] == ins;
    } else {
      var init := ins[..|ins| - 1];
      assert init[..j] == ins[..j];
      AffiliationsPrefix(init, j);
    }
  }

  lemma {:induction false} LinesPrefix(lines: seq<Line>, f: nat -> bool, n: nat)
    requires n <= |lines|
    ensures Mentions(lines[..n], f) <= Mentions(lines, f)
  {
    if n == |lines| {
      assert lines[..n] == lines;
    } else {
      var init := lines[..|lines| - 1];
      assert init[..n] == lines[..n];
      LinesPrefix(init, f, n);
    }
  }

  /** The id is new to line `n`: neither seen before the run nor standing on an earlier line. */
  ghost predicate NewToLine(lines: seq<Line>, before: set<string>, n: nat, id: string) {
    && id !in before && n < |lines| && lines[n].WorkLine?
    && forall m, q :: 0 <= m < n && StandsOn(lines[m], q) ==> q.id != id
  }

  /** No earlier author of the line has the id, and no institution that is evaluated before. */
  ghost predicate FirstAuthor(ships: seq<Authorship>, authorsFirst: bool, k: nat, id: string) {
    && (forall m: nat, q :: m < k && AuthorOn(ships, m, q) ==> q.id != id)
    && (authorsFirst || forall m: nat, j: nat, q :: InstitutionOn(ships, m, j, q) ==> q.id != id)
  }

  /** No earlier institution of the line has the id, and no author that is evaluated before. */
  ghost predicate FirstInstitution(ships: seq<Authorship>, authorsFirst: bool, k: nat, j: nat, id: string) {
    && (forall m: nat, i: nat, q :: (m < k || (m == k && i < j)) && InstitutionOn(ships, m, i, q) ==> q.id != id)
    && (!authorsFirst || forall m: nat, q :: AuthorOn(ships, m, q) ==> q.id != id)
  }

  lemma EarlierLines(lines: seq<Line>, f: nat -> bool, before: set<string>, n: nat, id: string)
    requires LinesOk(lines) && NewToLine(lines, before, n, id)
    ensures forall q :: q in Mentions(lines[..n], f) ==> q.id != id
  {
    var init := lines[..n];
    assert forall m :: 0 <= m < n ==> init[m] == lines[m];
    forall q | q in Mentions(init, f) ensures q.id != id {
      LinesStand(init, f, q);
    }
  }

  lemma WithinLine(lines: seq<Line>, f: nat -> bool, n: nat, some: seq<Record>)
    requires n < |lines| && some <= LineMentions(lines[n], f(n))
    ensures Mentions(lines[..n], f) + some <= Mentions(lines, f)
  {
    LinesPrefix(lines, f, n + 1);
    OneMoreLine(lines, f, n);
    PrefixWithin(Mentions(lines[..n], f), LineMentions(lines[n], f(n)), some, Mentions(lines, f));
  }

  lemma OneMoreLine(lines: seq<Line>, f: nat -> bool, n: nat)
    requires n < |lines|
    ensures Mentions(lines[..n + 1], f) == Mentions(lines[..n], f) + LineMentions(lines[n], f(n))
  {
    assert lines[..n + 1][..n] == lines[..n];
  }

  lemma PrefixWithin<T>(a: seq<T>, b: seq<T>, some: seq<T>, all: seq<T>)
    requires a + b <= all && some <= b
    ensures a + some <= all
  {
    PrefixAfter(a, some, b);
    PrefixOfPrefix(a + some, a + b, all);
  }

  lemma PrefixAfter<T>(a: seq<T>, b: seq<T>, c: seq<T>)
    requires b <= c
    ensures a + b <= a + c
  {}

  lemma PrefixOfPrefix<T>(a: seq<T>, b: seq<T>, c: seq<T>)
    requires a <= b <= c
    ensures a <= c
  {}

  /** A first author of a line whose id is new is emitted under it, with its own name and ORCID. */
  lemma NewAuthorEmitted(lines: seq<Line>, f: nat -> bool, before: set<string>,
                         authors: seq<Record>, institutions: seq<Record>, works: seq<Work>, now: set<string>,
                         n: nat, k: nat, r: Record)
    requires LinesOk(lines) && Reached(lines, f, before, authors, institutions, works, now)
    requires NewToLine(lines, before, n, r.id) && AuthorOn(lines[n].data.authorships, k, r)
    requires FirstAuthor(lines[n].data.authorships, f(n), k, r.id)
    ensures r in authors
  {
    var ships := lines[n].data.authorships;
    var ahead := if f(n) then AuthorMentions(ships[..k]) else InstitutionMentions(ships) + AuthorMentions(ships[..k]);
    AuthorAhead(ships, f(n), k, r);
    EarlierLines(lines, f, before, n, r.id);
    WithinLine(lines, f, n, ahead + [r]);
    Assoc(Mentions(lines[..n], f), ahead, [r]);
    NewIsEmitted(Mentions(lines[..n], f) + ahead, r, Mentions(lines, f), before);
    OnlyMeans(Emit(Mentions(lines, f), before), true, r);
  }

  lemma EarlierAuthors(ships: seq<Authorship>, k: nat, id: string)
    requires AllIdentifiable(ships) && k <= |ships|
    requires forall m: nat, q :: m < k && AuthorOn(ships, m, q) ==> q.id != id
    ensures forall q :: q in AuthorMentions(ships[..k]) ==> q.id != id
  {
    var init := ships[..k];
    forall q | q in AuthorMentions(init) ensures q.id != id {
      AuthorsStand(init, q);
      var m: nat :| AuthorOn(init, m, q);
      assert AuthorOn(ships, m, q);
    }
  }

  lemma NoInstitution(ships: seq<Authorship>, id: string)
    requires forall m: nat, j: nat, q :: InstitutionOn(ships, m, j, q) ==> q.id != id
    ensures forall q :: q in InstitutionMentions(ships) ==> q.id != id
  {
    forall q | q in InstitutionMentions(ships) ensures q.id != id {
      InstitutionsStand(ships, q);
    }
  }

  lemma AuthorPlace(ships: seq<Authorship>, k: nat, r: Record)
    requires AllIdentifiable(ships) && AuthorOn(ships, k, r)
    ensures AuthorMentions(ships[..k]) + [r] <= AuthorMentions(ships)
  {
    AuthorMentionMeans(ships[k].author, r);
    assert AuthorMention(ships[k].author) == [r];
    AuthorMentionsStep(ships, k);
    AuthorsPrefix(ships, k + 1);
  }

  lemma AuthorAhead(ships: seq<Authorship>, authorsFirst: bool, k: nat, r: Record)
    requires AllIdentifiable(ships) && AuthorOn(ships, k, r) && FirstAuthor(ships, authorsFirst, k, r.id)
    ensures var authors, institutions := AuthorMentions(ships[..k]), InstitutionMentions(ships);
            var ahead := if authorsFirst then authors else institutions + authors;
            && (forall q :: q in ahead ==> q.id != r.id)
            && (authorsFirst ==> ahead + [r] <= AuthorMentions(ships) + institutions)
            && (!authorsFirst ==> ahead + [r] <= institutions + AuthorMentions(ships))
  {
    EarlierAuthors(ships, k, r.id);
    AuthorPlace(ships, k, r);
    if !authorsFirst {
      NoInstitution(ships, r.id);
      PrefixAfter(InstitutionMentions(ships), AuthorMentions(ships[..k]) + [r], AuthorMentions(ships));
      Assoc(InstitutionMentions(ships), AuthorMentions(ships[..k]), [r]);
    }
  }

  /** A first institution of a line whose id is new is emitted under it, with its own name and ROR id. */
  lemma NewInstitutionEmitted(lines: seq<Line>, f: nat -> bool, before: set<string>,
                              authors: seq<Record>, institutions: seq<Record>, works: seq<Work>, now: set<string>,
                              n: nat, k: nat, j: nat, r: Record)
    requires LinesOk(lines) && Reached(lines, f, before, authors, institutions, works, now)
    requires NewToLine(lines, before, n, r.id) && InstitutionOn(lines[n].data.authorships, k, j, r)
    requires FirstInstitution(lines[n].data.authorships, f(n), k, j, r.id)
    ensures r in institutions
  {
    var ships := lines[n].data.authorships;
    var own := InstitutionMentions(ships[..k]) + Affiliations(ships[k].institutions[..j]);
    var ahead := if f(n) then AuthorMentions(ships) + own else own;
    InstitutionAhead(ships, f(n), k, j, r);
    EarlierLines(lines, f, before, n, r.id);
    WithinLine(lines, f, n, ahead + [r]);
    Assoc(Mentions(lines[..n], f), ahead, [r]);
    NewIsEmitted(Mentions(lines[..n], f) + ahead, r, Mentions(lines, f), before);
    OnlyMeans(Emit(Mentions(lines, f), before), false, r);
  }

  lemma InstitutionPlace(ships: seq<Authorship>, k: nat, j: nat, r: Record)
    requires InstitutionOn(ships, k, j, r)
    ensures InstitutionMentions(ships[..k]) + Affiliations(ships[k].institutions[..j]) + [r]
         <= InstitutionMentions(ships)
  {
    var ins := ships[k].institutions;
    InstitutionMentionMeans(ins, j, r);
    assert InstitutionMention(ins[j]) == [r];
    var before := InstitutionMentions(ships[..k]);
    AffiliationsStep(before, ins, j);
    AffiliationsPrefix(ins, j + 1);
    PrefixAfter(before, Affiliations(ins[..j + 1]), Affiliations(ins));
    InstitutionMentionsStep(ships, k);
    InstitutionsPrefix(ships, k + 1);
    PrefixOfPrefix(before + Affiliations(ins[..j + 1]), InstitutionMentions(ships[..k + 1]),
                   InstitutionMentions(ships));
  }

  lemma InstitutionAhead(ships: seq<Authorship>, authorsFirst: bool, k: nat, j: nat, r: Record)
    requires AllIdentifiable(ships) && InstitutionOn(ships, k, j, r)
    requires FirstInstitution(ships, authorsFirst, k, j, r.id)
    ensures var own := InstitutionMentions(ships[..k]) + Affiliations(ships[k].institutions[..j]);
            var ahead := if authorsFirst then AuthorMentions(ships) + own else own;
            && (forall q :: q in ahead ==> q.id != r.id)
            && (authorsFirst ==> ahead + [r] <= AuthorMentions(ships) + InstitutionMentions(ships))
            && (!authorsFirst ==> ahead + [r] <= InstitutionMentions(ships) + AuthorMentions(ships))
  {
    var own := InstitutionMentions(ships[..k]) + Affiliations(ships[k].institutions[..j]);
    InstitutionPlace(ships, k, j, r);
    EarlierInstitutions(ships, k, j, r.id);
    if authorsFirst {
      forall q | q in AuthorMentions(ships) ensures q.id != r.id {
        AuthorsStand(ships, q);
      }
    }
    Assoc(AuthorMentions(ships), own, [r]);
  }

  lemma EarlierInstitutions(ships: seq<Authorship>, k: nat, j: nat, id: string)
    requires k < |ships| && j < |ships[k].institutions|
    requires forall m: nat, i: nat, q :: (m < k || (m == k && i < j)) && InstitutionOn(ships, m, i, q) ==> q.id != id
    ensures forall q :: q in InstitutionMentions(ships[..k]) + Affiliations(ships[k].institutions[..j]) ==> q.id != id
  {
    var init, ins := ships[..k], ships[k].institutions[..j];
    forall q | q in InstitutionMentions(init) ensures q.id != id {
      InstitutionsStand(init, q);
      var m: nat, i: nat :| InstitutionOn(init, m, i, q);
      assert InstitutionOn(ships, m, i, q);
    }
    forall q | q in Affiliations(ins) ensures q.id != id {
      AffiliationsStand(ins, q);
      var i: nat :| InstitutionIn(ins, i, q);
      assert InstitutionOn(ships, k, i, q);
    }
  }

  // ---- Works ----

  /** The works among the first `n` lines. */
  function WorksBefore(lines: seq<Line>, n: nat): nat
    requires n <= |lines|
  {
    if n == 0 then 0 else WorksBefore(lines, n - 1) + if lines[n - 1].WorkLine? then 1 else 0
  }

  /** The text without the prefix, if it has it. */
  predicate Without(prefix: string, text: string, rest: string) {
    if prefix <= text then text == prefix + rest else text == rest
  }

  predicate Categorised(status: string, category: OaCategory) {
    match category
    case Diamond => status == "diamond"
    case Gold => status == "gold"
    case Green => status == "green"
    case Hybrid => status == "hybrid"
    case Bronze => status == "bronze"
    case Closed => status == "closed"
    case Unspecified => status !in {"diamond", "gold", "green", "hybrid", "bronze", "closed"}
  }

  /** A PubMed id: the number the text spells, without the prefix if it has it, cut to 32 bits. */
  predicate PubmedIs(text: string, pmid: nat) {
    var digits := if "https://pubmed.ncbi.nlm.nih.gov/" <= text then text[32..] else text;
    Stoul(digits).Some? && pmid == Stoul(digits).value % 4294967296
  }

  /** The fields of a work, those of a line's data. */
  predicate Describes(d: WorkJson, w: Work) {
    && d.id.Some? && Without("https://openalex.org/", d.id.value, w.id)
    && w.title == d.title && w.publicationDate == d.publicationDate && w.language == d.language
    && d.oaStatus.Some? && Categorised(d.oaStatus.value, w.oaStatus) && w.oaUrl == d.oaUrl
    && (w.doi.Some? <==> d.doi.Some?) && (d.doi.Some? ==> Without("https://doi.org/", d.doi.value, w.doi.value))
    && (w.pmid.Some? <==> d.pmid.Some?) && (d.pmid.Some? ==> PubmedIs(d.pmid.value, w.pmid.value))
  }

  lemma PrefixGone(prefix: string, text: string)
    ensures Without(prefix, text, CitationParser.RemovePrefix(text, prefix))
  {
    if prefix <= text {
      assert text == text[..|prefix|] + text[|prefix|..];
    }
  }

  lemma WorkDescribes(d: WorkJson)
    requires LineOk(WorkLine(d))
    ensures Describes(d, WorkOf(d))
  {
    PrefixGone("https://openalex.org/", d.id.value);
    if d.doi.Some? {
      PrefixGone("https://doi.org/", d.doi.value);
    }
    assert |PUBMED_PREFIX| == 32;
  }

  /** The works of a run are those of its non-empty lines, in order, each with the fields of its line. */
  lemma WorkOfLine(lines: seq<Line>, n: nat)
    requires LinesOk(lines) && n < |lines| && lines[n].WorkLine?
    ensures |Works(lines)| == WorksBefore(lines, |lines|)
    ensures var i := WorksBefore(lines, n); i < |Works(lines)| && Describes(lines[n].data, Works(lines)[i])
    ensures Works(lines)[WorksBefore(lines, n)] == WorkOf(lines[n].data)
  {
    assert LineOk(lines[n]);
    WorkDescribes(lines[n].data);
    WorkPlace(lines, n);
  }

  lemma {:induction false} WorkPlace(lines: seq<Line>, n: nat)
    requires n < |lines| && lines[n].WorkLine?
    ensures |Works(lines)| == WorksBefore(lines, |lines|)
    ensures var i := WorksBefore(lines, n); i < |Works(lines)| && Works(lines)[i] == WorkOf(lines[n].data)
    decreases |lines|
  {
    var last := |lines| - 1;
    var init := lines[..last];
    WorksCounted(init);
    CountedAlike(lines, last, last);
    if n < last {
      WorkPlace(init, n);
      CountedAlike(lines, last, n);
    }
  }

  lemma {:induction false} WorksCounted(lines: seq<Line>)
    ensures |Works(lines)| == WorksBefore(lines, |lines|)
  {
    if lines != [] {
      var last := |lines| - 1;
      WorksCounted(lines[..last]);
      CountedAlike(lines, last, last);
    }
  }

  lemma {:induction false} CountedAlike(lines: seq<Line>, n: nat, k: nat)
    requires k <= n <= |lines|
    ensures WorksBefore(lines[..n], k) == WorksBefore(lines, k)
  {
    if k > 0 {
      CountedAlike(lines, n, k - 1);
    }
  }

  // ---- The id lists of a work ----

  function WithShips(d: WorkJson, ships: seq<Authorship>): WorkJson {
    d.(authorships := ships)
  }

  /** One more authorship without institutions adds the id of its author, unless that is empty. */
  lemma OneMoreAuthor(d: WorkJson, ships: seq<Authorship>, a: AuthorJson, id: string)
    requires AllIdentifiable(ships) && Identifies(a.id, a.orcid, a.displayName, id)
    ensures WorkOf(WithShips(d, [])).authorIds == [] == WorkOf(WithShips(d, [])).institutionIds
    ensures var before, after := WorkOf(WithShips(d, ships)), WorkOf(WithShips(d, ships + [Authorship(a, [])]));
            && after.authorIds == before.authorIds
                                  + (if a.id.Some? || a.displayName.Some? || a.ror.Some? then [id] else [])
            && after.institutionIds == before.institutionIds
  {
    ListedLast(ships, a, []);
    assert ListedInstitutions(ships) + [] == ListedInstitutions(ships);
    AuthorsGrow(ships, Authorship(a, []), id);
  }

  lemma AuthorsGrow(ships: seq<Authorship>, s: Authorship, id: string)
    requires var a := s.author; Identifies(a.id, a.orcid, a.displayName, id)
    ensures IdList(AuthorMentions(ships + [s]))
         == IdList(AuthorMentions(ships)) + if IsAuthorEmpty(s.author) then [] else [id]
  {
    var before, a := AuthorMentions(ships), s.author;
    AuthorIdMeans(a, id);
    assert (ships + [s])[..|ships|] == ships;
    if IsAuthorEmpty(a) {
      assert before + [] == before;
      assert IdList(before) + [] == IdList(before);
    } else {
      IdListStep(before, Author(id, a.displayName, a.orcid));
    }
  }

  /** One more institution of an author that is not empty adds its id, unless it is empty or listed. */
  lemma OneMoreInstitution(d: WorkJson, ships: seq<Authorship>, a: AuthorJson, ins: seq<InstitutionJson>,
                           i: InstitutionJson, id: string)
    requires (i.id.Some? || i.displayName.Some? || i.ror.Some?) ==> Identifies(i.id, i.ror, i.displayName, id)
    ensures var before := WorkOf(WithShips(d, ships + [Authorship(a, ins)])).institutionIds;
            var after := WorkOf(WithShips(d, ships + [Authorship(a, ins + [i])])).institutionIds;
            after == if (a.id.Some? || a.displayName.Some? || a.ror.Some?)
                        && (i.id.Some? || i.displayName.Some? || i.ror.Some?) && id !in before
                     then before + [id] else before
  {
    ListedLast(ships, a, ins);
    ListedLast(ships, a, ins + [i]);
    var listed := ListedInstitutions(ships + [Authorship(a, ins)]);
    assert ListedInstitutions(ships) + Affiliations(ins + [i])
        == ListedInstitutions(ships) + Affiliations(ins) + InstitutionMention(i) by {
      AffiliationsGrow(ListedInstitutions(ships), ins, i);
    }
    if !IsInstitutionEmpty(i) {
      InstitutionIdMeans(i, id);
      ListStep(listed, InstitutionMention(i)[0]);
      assert InstitutionMention(i) == [InstitutionMention(i)[0]];
      IdListMeans(Emit(listed, {}), id);
      SeenIsEmitted(listed, {});
    } else {
      assert listed + [] == listed;
    }
  }

  lemma AffiliationsGrow(before: seq<Record>, ins: seq<InstitutionJson>, i: InstitutionJson)
    ensures before + Affiliations(ins + [i]) == before + Affiliations(ins) + InstitutionMention(i)
  {
    assert (ins + [i])[..|ins|] == ins;
    Assoc(before, Affiliations(ins), InstitutionMention(i));
  }

  lemma ListedLast(ships: seq<Authorship>, a: AuthorJson, ins: seq<InstitutionJson>)
    ensures ListedInstitutions(ships + [Authorship(a, ins)])
         == if IsAuthorEmpty(a) then ListedInstitutions(ships) else ListedInstitutions(ships) + Affiliations(ins)
  {
    var more := ships + [Authorship(a, ins)];
    assert more[..|ships|] == ships && more[..|more|] == more;
    ListedInstitutionsStep(more, |ships|);
  }

  // ---- Lines that are taken ----

  /**
    A line is taken exactly if it is JSON with an id and an open-access status, its PubMed id spells a
    number, and no author has a ROR id and nothing else.
   */
  lemma LineTaken(line: Line)
    ensures LineOk(line)
       <==> line.EmptyLine?
            || (line.WorkLine?
                && line.data.id.Some? && line.data.oaStatus.Some?
                && (line.data.pmid.Some? ==> exists n :: PubmedIs(line.data.pmid.value, n))
                && forall k :: 0 <= k < |line.data.authorships| ==>
                     var a := line.data.authorships[k].author;
                     a.id.Some? || a.displayName.Some? || a.orcid.Some? || a.ror.None?)
  {
    if line.WorkLine? && line.data.pmid.Some? {
      assert |PUBMED_PREFIX| == 32;
      var pmid := ParsePubmedId(line.data.pmid.value);
      assert pmid.Some? ==> PubmedIs(line.data.pmid.value, pmid.value);
    }
  }
}
