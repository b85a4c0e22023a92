/**
  The citation history of one page, in closed form: what the incremental pass over the sorted
  revisions must arrive at, and what its reference counts must say.
 */
module History {
  import opened Wrappers
  import opened CitationParser

  datatype Timestamp = Timestamp(seconds: int, nanos: int)

  datatype Revision = Revision(
    id: nat, parentId: Option<nat>, user: Option<string>, timestamp: Option<Timestamp>)

  /** A revision and the citations its text has, by title. */
  datatype RevisionCitations = RevisionCitations(
    revision: Revision, citations: map<string, ExtractedCitation>)

  datatype Citation = Citation(added: nat, removed: Option<nat>, content: ExtractedCitation)

  type Discovered = map<string, Citation>

  /** Revisions in chronological order. */
  type Chronicle = seq<RevisionCitations>

  // ---- Closed form ----

  /** The titles that some revision has. */
  function Titles(h: Chronicle): (r: set<string>)
    ensures forall k :: k in r <==> exists i :: 0 <= i < |h| && k in h[i].citations
  {
    if h == [] then {} else Titles(h[..|h| - 1]) + h[|h| - 1].citations.Keys
  }

  /** The first revision that has the title. */
  function First(h: Chronicle, k: string): (r: nat)
    requires k in Titles(h)
    ensures r < |h| && k in h[r].citations
    ensures forall j :: 0 <= j < r ==> k !in h[j].citations
  {
    if k in Titles(h[..|h| - 1]) then First(h[..|h| - 1], k) else |h| - 1
  }

  /** The last revision that has the title. */
  function Last(h: Chronicle, k: string): (r: nat)
    requires k in Titles(h)
    ensures r < |h| && k in h[r].citations
    ensures forall j :: r < j < |h| ==> k !in h[j].citations
  {
    if k in h[|h| - 1].citations then |h| - 1 else Last(h[..|h| - 1], k)
  }

  /** Added and described by the first revision with the title, removed by the one after the last. */
  function Story(h: Chronicle, k: string): Citation
    requires k in Titles(h)
  {
    StoryAt(h, k, First(h, k), Last(h, k))
  }

  function StoryAt(h: Chronicle, k: string, first: nat, last: nat): Citation
    requires first < |h| && k in h[first].citations
  {
    Citation(h[first].revision.id,
             if last + 1 < |h| then Some(h[last + 1].revision.id) else None,
             h[first].citations[k])
  }

  function Summary(h: Chronicle): (d: Discovered)
    ensures d.Keys == Titles(h)
  {
    map k | k in Titles(h) :: Story(h, k)
  }

  lemma FirstIs(h: Chronicle, k: string, first: nat)
    requires first < |h| && k in h[first].citations
    requires forall i :: 0 <= i < first ==> k !in h[i].citations
    ensures k in Titles(h) && First(h, k) == first
  {
    var f := First(h, k);
    assert !(f < first) && !(first < f);
  }

  lemma LastIs(h: Chronicle, k: string, last: nat)
    requires last < |h| && k in h[last].citations
    requires forall i :: last < i < |h| ==> k !in h[i].citations
    ensures k in Titles(h) && Last(h, k) == last
  {
    var l := Last(h, k);
    assert !(l < last) && !(last < l);
  }

  /** What the summary says without naming the functions that compute it. */
  lemma SummaryMeans(h: Chronicle, k: string, first: nat, last: nat)
    requires first <= last < |h| && k in h[first].citations && k in h[last].citations
    requires forall i :: 0 <= i < first ==> k !in h[i].citations
    requires forall i :: last < i < |h| ==> k !in h[i].citations
    ensures k in Summary(h)
    ensures Summary(h)[k].added == h[first].revision.id
    ensures Summary(h)[k].content == h[first].citations[k]
    ensures Summary(h)[k].removed == if last == |h| - 1 then None else Some(h[last + 1].revision.id)
  {
    FirstIs(h, k, first);
    LastIs(h, k, last);
    assert Summary(h)[k] == Story(h, k) == StoryAt(h, k, first, last);
  }

  // ---- One revision ----

  /** A known citation after a revision that has it (or not). */
  function Recheck(c: Citation, present: bool, id: nat): Citation {
    if present then c.(removed := None)
    else if c.removed.None? then c.(removed := Some(id))
    else c
  }

  function Rechecked(d: Discovered, rc: RevisionCitations): Discovered {
    map k | k in d :: Recheck(d[k], k in rc.citations, rc.revision.id)
  }

  /** The citations of a revision that are not yet known. */
  function Unknown(d: Discovered, rc: RevisionCitations): RevisionCitations {
    rc.(citations := rc.citations - d.Keys)
  }

  function Extended(d: Discovered, rc: RevisionCitations): Discovered {
    d + map k | k in rc.citations && k !in d :: Citation(rc.revision.id, None, rc.citations[k])
  }

  lemma TitlesStep(h: Chronicle, rc: RevisionCitations)
    ensures Titles(h + [rc]) == Titles(h) + rc.citations.Keys
  {
    assert (h + [rc])[..|h|] == h;
  }

  lemma OldStory(h: Chronicle, rc: RevisionCitations, k: string)
    requires k in Titles(h)
    ensures k in Titles(h + [rc])
    ensures Story(h + [rc], k) == Recheck(Story(h, k), k in rc.citations, rc.revision.id)
  {
    assert (h + [rc])[..|h|] == h;
    var first, last := First(h, k), Last(h, k);
    assert First(h + [rc], k) == first;
    assert Last(h + [rc], k) == if k in rc.citations then |h| else last;
    assert last + 1 < |h| ==> (h + [rc])[last + 1] == h[last + 1];
  }

  lemma NewStory(h: Chronicle, rc: RevisionCitations, k: string)
    requires k !in Titles(h) && k in rc.citations
    ensures k in Titles(h + [rc])
    ensures Story(h + [rc], k) == Citation(rc.revision.id, None, rc.citations[k])
  {
    assert (h + [rc])[..|h|] == h;
  }

  lemma BothPhases(d: Discovered, rc: RevisionCitations, f: Discovered)
    requires f.Keys == d.Keys + rc.citations.Keys
    requires forall k :: k in d ==> f[k] == Recheck(d[k], k in rc.citations, rc.revision.id)
    requires forall k :: k in rc.citations && k !in d ==> f[k] == Citation(rc.revision.id, None, rc.citations[k])
    ensures Extended(Rechecked(d, rc), Unknown(d, rc)) == f
  {
    var e := Extended(Rechecked(d, rc), Unknown(d, rc));
    assert e.Keys == f.Keys;
    assert forall k :: k in f ==> e[k] == f[k];
  }

  /** Checking the known citations and then adding the new ones extends the history by one revision. */
  lemma SummaryStep(h: Chronicle, rc: RevisionCitations)
    ensures Extended(Rechecked(Summary(h), rc), Unknown(Summary(h), rc)) == Summary(h + [rc])
  {
    var d, f := Summary(h), Summary(h + [rc]);
    TitlesStep(h, rc);
    forall k | k in d ensures f[k] == Recheck(d[k], k in rc.citations, rc.revision.id) {
      OldStory(h, rc, k);
    }
    forall k | k in rc.citations && k !in d ensures f[k] == Citation(rc.revision.id, None, rc.citations[k]) {
      NewStory(h, rc, k);
    }
    BothPhases(d, rc, f);
  }

  // ---- Reference counts ----

  function AddedBy(d: Discovered, id: nat): set<string> {
    set k | k in d && d[k].added == id
  }

  function RemovedBy(d: Discovered, id: nat): set<string> {
    set k | k in d && d[k].removed == Some(id)
  }

  /** How many citations name the revision as added, plus how many name it as removed. */
  function References(d: Discovered, id: nat): nat {
    |AddedBy(d, id)| + |RemovedBy(d, id)|
  }

  /** How often one citation names the revision. */
  function Names(c: Citation, id: nat): nat {
    (if c.added == id then 1 else 0) + (if c.removed == Some(id) then 1 else 0)
  }

  lemma ReferencesStep(d: Discovered, k: string, c: Citation, id: nat)
    ensures References(d[k := c], id) == References(d, id) + Names(c, id) - if k in d then Names(d[k], id) else 0
  {
    var e := d[k := c];
    MemberStep(AddedBy(d, id), AddedBy(e, id), k);
    MemberStep(RemovedBy(d, id), RemovedBy(e, id), k);
  }

  lemma MemberStep(s: set<string>, t: set<string>, k: string)
    requires forall j :: j != k ==> (j in s <==> j in t)
    ensures |t| - (if k in t then 1 else 0) == |s| - (if k in s then 1 else 0)
  {
    assert s - {k} == t - {k};
    assert k in s ==> s == (s - {k}) + {k};
    assert k in t ==> t == (t - {k}) + {k};
  }

  /** The revisions some citation names. */
  function Referenced(d: Discovered): set<nat> {
    (set k | k in d :: d[k].added) + (set k | k in d && d[k].removed.Some? :: d[k].removed.value)
  }

  lemma ReferencedIsCounted(d: Discovered, id: nat)
    ensures id in Referenced(d) <==> References(d, id) > 0
  {
    if id in Referenced(d) {
      var k :| k in d && (d[k].added == id || d[k].removed == Some(id));
      assert k in AddedBy(d, id) || k in RemovedBy(d, id);
    }
    if References(d, id) > 0 {
      var k :| k in AddedBy(d, id) || k in RemovedBy(d, id);
    }
  }

  /** The revisions to store with a page: those its citations name, and no other. */
  function StoredFor(d: Discovered, revisions: map<nat, Revision>): map<nat, Revision> {
    map id | id in Referenced(d) && id in revisions :: revisions[id]
  }

  function CountOf(counts: map<nat, int>, id: nat): int {
    if id in counts then counts[id] else 0
  }

  /** The counts are exact. */
  ghost predicate Exact(d: Discovered, counts: map<nat, int>) {
    forall id: nat :: CountOf(counts, id) == References(d, id)
  }

  /** The store holds exactly the revisions with a positive count, as the page has them. */
  ghost predicate StoreExact(d: Discovered, stored: map<nat, Revision>, revisions: map<nat, Revision>) {
    && Referenced(d) <= revisions.Keys
    && stored == StoredFor(d, revisions)
  }

  /** A citation comes to name `id` once more: count it, and store it unless it is stored. */
  lemma Gained(d: Discovered, e: Discovered, counts: map<nat, int>, stored: map<nat, Revision>,
               revisions: map<nat, Revision>, id: nat)
    requires Exact(d, counts) && StoreExact(d, stored, revisions) && id in revisions
    requires forall j: nat :: References(e, j) == References(d, j) + if j == id then 1 else 0
    ensures Exact(e, counts[id := CountOf(counts, id) + 1])
    ensures StoreExact(e, if id in stored then stored else stored[id := revisions[id]], revisions)
  {
    forall j: nat ensures j in Referenced(e) <==> j in Referenced(d) || j == id {
      ReferencedIsCounted(d, j);
      ReferencedIsCounted(e, j);
    }
  }

  /** A citation stops naming `id`: discount it, and evict it when no citation names it any more. */
  lemma Lost(d: Discovered, e: Discovered, counts: map<nat, int>, stored: map<nat, Revision>,
             revisions: map<nat, Revision>, id: nat)
    requires Exact(d, counts) && StoreExact(d, stored, revisions)
    requires forall j: nat :: References(e, j) == References(d, j) - if j == id then 1 else 0
    ensures id in counts && counts[id] > 0
    ensures Exact(e, counts[id := counts[id] - 1])
    ensures StoreExact(e, if counts[id] - 1 <= 0 then stored - {id} else stored, revisions)
  {
    assert CountOf(counts, id) == References(d, id) == References(e, id) + 1;
    forall j: nat ensures j in Referenced(e) <==> j in Referenced(d) && (j != id || counts[id] - 1 > 0) {
      ReferencedIsCounted(d, j);
      ReferencedIsCounted(e, j);
    }
  }

  /** The book-keeping of one page: known citations, counts and store in agreement. */
  ghost predicate Balanced(d: Discovered, counts: map<nat, int>, stored: map<nat, Revision>,
                           revisions: map<nat, Revision>) {
    Exact(d, counts) && StoreExact(d, stored, revisions)
  }

  function Counted(counts: map<nat, int>, id: nat): map<nat, int> {
    counts[id := CountOf(counts, id) + 1]
  }

  function Kept(stored: map<nat, Revision>, revisions: map<nat, Revision>, id: nat): map<nat, Revision>
    requires id in revisions
  {
    if id in stored then stored else stored[id := revisions[id]]
  }

  /** A citation of the page is marked as removed. */
  lemma MarkRemoved(d: Discovered, k: string, counts: map<nat, int>, stored: map<nat, Revision>,
                    revisions: map<nat, Revision>, id: nat)
    requires Balanced(d, counts, stored, revisions) && id in revisions
    requires k in d && d[k].removed.None?
    ensures Balanced(d[k := d[k].(removed := Some(id))], Counted(counts, id), Kept(stored, revisions, id), revisions)
  {
    var e := d[k := d[k].(removed := Some(id))];
    forall j: nat ensures References(e, j) == References(d, j) + if j == id then 1 else 0 {
      ReferencesStep(d, k, e[k], j);
    }
    Gained(d, e, counts, stored, revisions, id);
  }

  /** A citation of the page is back: its mark goes, and with it perhaps a stored revision. */
  lemma MarkBack(d: Discovered, k: string, counts: map<nat, int>, stored: map<nat, Revision>,
                 revisions: map<nat, Revision>)
    requires Balanced(d, counts, stored, revisions)
    requires k in d && d[k].removed.Some?
    ensures var id := d[k].removed.value;
            id in counts && counts[id] > 0
            && Balanced(d[k := d[k].(removed := None)], counts[id := counts[id] - 1],
                        if counts[id] - 1 <= 0 then stored - {id} else stored, revisions)
  {
    var id := d[k].removed.value;
    var e := d[k := d[k].(removed := None)];
    forall j: nat ensures References(e, j) == References(d, j) - if j == id then 1 else 0 {
      ReferencesStep(d, k, e[k], j);
    }
    Lost(d, e, counts, stored, revisions, id);
  }

  /** A citation is new to the page. */
  lemma AddNew(d: Discovered, k: string, content: ExtractedCitation, counts: map<nat, int>,
               stored: map<nat, Revision>, revisions: map<nat, Revision>, id: nat)
    requires Balanced(d, counts, stored, revisions) && id in revisions && k !in d
    ensures Balanced(d[k := Citation(id, None, content)], Counted(counts, id), Kept(stored, revisions, id), revisions)
  {
    var e := d[k := Citation(id, None, content)];
    forall j: nat ensures References(e, j) == References(d, j) + if j == id then 1 else 0 {
      ReferencesStep(d, k, e[k], j);
    }
    Gained(d, e, counts, stored, revisions, id);
  }

  // ---- The two phases, part of the way ----

  /** The known citations when all but those in `rest` have been checked. */
  function PartlyRechecked(d: Discovered, rc: RevisionCitations, rest: set<string>): Discovered {
    map k | k in d :: if k in rest then d[k] else Recheck(d[k], k in rc.citations, rc.revision.id)
  }

  /** The revision's citations without the known ones that have been checked. */
  function PartlyUnknown(d: Discovered, rc: RevisionCitations, rest: set<string>): RevisionCitations {
    rc.(citations := rc.citations - (d.Keys - rest))
  }

  lemma RecheckedOne(d: Discovered, rc: RevisionCitations, rest: set<string>, k: string)
    requires k in rest && k in d
    ensures PartlyRechecked(d, rc, rest)[k] == d[k]
    ensures PartlyRechecked(d, rc, rest - {k})
         == PartlyRechecked(d, rc, rest)[k := Recheck(d[k], k in rc.citations, rc.revision.id)]
    ensures k in PartlyUnknown(d, rc, rest).citations <==> k in rc.citations
    ensures PartlyUnknown(d, rc, rest - {k})
         == var u := PartlyUnknown(d, rc, rest); u.(citations := u.citations - {k})
    ensures k !in rc.citations ==> PartlyUnknown(d, rc, rest - {k}) == PartlyUnknown(d, rc, rest)
  {}

  /** The known citations when all but those in `rest` have been added. */
  function PartlyExtended(d: Discovered, rc: RevisionCitations, rest: set<string>): Discovered {
    d + map k | k in rc.citations && k !in d && k !in rest :: Citation(rc.revision.id, None, rc.citations[k])
  }

  lemma ExtendedEnds(d: Discovered, rc: RevisionCitations)
    ensures PartlyExtended(d, rc, rc.citations.Keys) == d
    ensures PartlyExtended(d, rc, {}) == Extended(d, rc)
  {}

  lemma ExtendedOne(d: Discovered, rc: RevisionCitations, rest: set<string>, k: string)
    requires k in rest && k in rc.citations
    ensures k in PartlyExtended(d, rc, rest) <==> k in d
    ensures PartlyExtended(d, rc, rest - {k})
         == if k in d then PartlyExtended(d, rc, rest)
            else PartlyExtended(d, rc, rest)[k := Citation(rc.revision.id, None, rc.citations[k])]
  {
    var p, q := PartlyExtended(d, rc, rest), PartlyExtended(d, rc, rest - {k});
    assert q.Keys == p.Keys + {k};
  }
}
