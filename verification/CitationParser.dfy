/**
  From templates to citations: the filter over template names, the fold over a template's
  parameters and the map of citations by title.
 */
module CitationParser {
  import opened Wrappers
  import opened Numbers
  import opened Wikitext

  datatype UrlType = Default | Archive

  datatype Url = Url(kind: UrlType, url: string)

  datatype Identifiers = Identifiers(
    doi: Option<string>, isbn: Option<string>, issn: Option<string>,
    pmid: Option<nat>, pmcid: Option<nat>)

  datatype ExtractedCitation = ExtractedCitation(
    title: Option<string>, identifiers: Option<Identifiers>, urls: seq<Url>)

  type Filter = string -> bool

  const NO_IDENTIFIERS := Identifiers(None, None, None, None, None)
  const NUMBER_KEYS := {"pmid", "pmc"}
  const IDENT_KEYS := {"doi", "isbn", "issn"} + NUMBER_KEYS
  const DOI_PREFIX := "https://doi.org/"
  const PMC_PREFIX := "PMC"

  // ---- Normalisation ----

  function TrimEnd(s: string): string {
    if s == "" || !IsSpace(s[|s| - 1]) then s else TrimEnd(s[..|s| - 1])
  }

  function Trim(s: string): string {
    TrimEnd(SkipSpace(s))
  }

  function LowerChar(c: char): char {
    if 'A' <= c <= 'Z' then (c as int + 32) as char else c
  }

  function ToLower(s: string): (r: string)
    ensures |r| == |s|
  {
    if s == "" then "" else [LowerChar(s[0])] + ToLower(s[1..])
  }

  function Normalise(s: string): string {
    ToLower(Trim(s))
  }

  function RemovePrefix(s: string, prefix: string): string {
    if prefix <= s then s[|prefix|..] else s
  }

  function ParseDoi(doi: string): string {
    RemovePrefix(doi, DOI_PREFIX)
  }

  function ParsePmcId(pmcid: string): Option<int> {
    Stoi(RemovePrefix(pmcid, PMC_PREFIX))
  }

  /** The number a `pmid` or `pmc` value holds, or None where the code throws. */
  function ParseNumber(key: string, value: string): Option<int> {
    if key == "pmc" then ParsePmcId(value) else Stoi(value)
  }

  // ---- What a template means, field by field ----

  /** A parameter that has a value: its normalised key and trimmed value. */
  datatype Entry = Entry(key: string, value: string)

  function Entries(params: seq<Param>): seq<Entry> {
    if params == [] then []
    else
      var last := params[|params| - 1];
      Entries(params[..|params| - 1])
      + if last.value.Some? then [Entry(Normalise(last.key), Trim(last.value.value))] else []
  }

  function LastValue(es: seq<Entry>, key: string): Option<string> {
    if es == [] then None
    else if es[|es| - 1].key == key then Some(es[|es| - 1].value)
    else LastValue(es[..|es| - 1], key)
  }

  predicate BadNumber(e: Entry) {
    e.key in NUMBER_KEYS && ParseNumber(e.key, e.value).None?
  }

  /** The last entry with the key that holds a number. */
  function LastNumber(es: seq<Entry>, key: string): Option<nat> {
    if es == [] then None
    else
      var e := es[|es| - 1];
      if e.key == key && ParseNumber(key, e.value).Some? then
        Some(AsUint32(ParseNumber(key, e.value).value))
      else
        LastNumber(es[..|es| - 1], key)
  }

  function UrlOf(e: Entry): seq<Url> {
    if e.key == "url" then [Url(Default, e.value)]
    else if e.key == "archive-url" then [Url(Archive, e.value)]
    else []
  }

  function UrlsOf(es: seq<Entry>): seq<Url> {
    if es == [] then [] else UrlsOf(es[..|es| - 1]) + UrlOf(es[|es| - 1])
  }

  predicate HasIdentifier(es: seq<Entry>) {
    exists i :: 0 <= i < |es| && es[i].key in IDENT_KEYS
  }

  function DoiOf(es: seq<Entry>): Option<string> {
    match LastValue(es, "doi")
    case Some(doi) => Some(ParseDoi(doi))
    case None => None
  }

  function IdentifiersOf(es: seq<Entry>): Option<Identifiers> {
    if HasIdentifier(es) then
      Some(Identifiers(DoiOf(es), LastValue(es, "isbn"), LastValue(es, "issn"),
                       LastNumber(es, "pmid"), LastNumber(es, "pmc")))
    else None
  }

  function CitationOf(es: seq<Entry>): ExtractedCitation {
    ExtractedCitation(LastValue(es, "title"), IdentifiersOf(es), UrlsOf(es))
  }

  predicate HasBadNumber(es: seq<Entry>) {
    exists i :: 0 <= i < |es| && BadNumber(es[i])
  }

  /** The citation a template stands for; strict parsing aborts on any bad number. */
  function BuildOf(template: Template, ignoreInvalid: bool): Result<ExtractedCitation> {
    var es := Entries(template.params);
    if !ignoreInvalid && HasBadNumber(es) then Err else Ok(CitationOf(es))
  }

  // ---- What a text means ----

  predicate Accepts(filter: Filter, t: Template) {
    filter(Normalise(t.name))
  }

  function TitleOf(c: ExtractedCitation): string {
    c.title.GetOr("")
  }

  /** The citations of a list of templates, by title; an earlier citation is never replaced. */
  function CollectOf(ts: seq<Template>, filter: Filter, ignoreInvalid: bool)
    : Result<map<string, ExtractedCitation>>
  {
    if ts == [] then Ok(map[])
    else CollectOne(CollectOf(ts[..|ts| - 1], filter, ignoreInvalid), ts[|ts| - 1], filter, ignoreInvalid)
  }

  function CollectOne(collected: Result<map<string, ExtractedCitation>>, t: Template,
                      filter: Filter, ignoreInvalid: bool)
    : Result<map<string, ExtractedCitation>>
  {
    match collected
    case Err => Err
    case Ok(m) =>
      if !Accepts(filter, t) then Ok(m)
      else
        match BuildOf(t, ignoreInvalid)
        case Err => Err
        case Ok(c) => Ok(if TitleOf(c) in m then m else m[TitleOf(c) := c])
  }

  function ParseOf(text: string, filter: Filter, ignoreInvalid: bool)
    : Result<map<string, ExtractedCitation>>
  {
    CollectOf(Templates(text), filter, ignoreInvalid)
  }

  // ---- The implementation ----

  /** The protobuf message under construction. */
  class CitationMessage {
    var title: Option<string>
    var identifiers: Option<Identifiers>
    var urls: seq<Url>

    constructor ()
      ensures Value() == ExtractedCitation(None, None, [])
    {
      title, identifiers, urls := None, None, [];
    }

    function Value(): ExtractedCitation
      reads this
    {
      ExtractedCitation(title, identifiers, urls)
    }

    /** `mutable_identifiers`: the identifiers are created when they are first asked for. */
    method MutableIdentifiers()
      modifies this`identifiers
      ensures identifiers == Some(old(identifiers).GetOr(NO_IDENTIFIERS))
    {
      identifiers := Some(identifiers.GetOr(NO_IDENTIFIERS));
    }
  }

  /** The identifiers after one valued parameter with an identifier key. */
  function WithIdentifier(ids: Identifiers, e: Entry): Identifiers {
    var number := ParseNumber(e.key, e.value);
    if e.key == "doi" then ids.(doi := Some(ParseDoi(e.value)))
    else if e.key == "isbn" then ids.(isbn := Some(e.value))
    else if e.key == "issn" then ids.(issn := Some(e.value))
    else if e.key == "pmid" && number.Some? then ids.(pmid := Some(AsUint32(number.value)))
    else if e.key == "pmc" && number.Some? then ids.(pmcid := Some(AsUint32(number.value)))
    else ids
  }

  /** The citation after one valued parameter. */
  function WithEntry(c: ExtractedCitation, e: Entry): ExtractedCitation {
    if e.key == "title" then c.(title := Some(e.value))
    else if e.key in IDENT_KEYS then
      c.(identifiers := Some(WithIdentifier(c.identifiers.GetOr(NO_IDENTIFIERS), e)))
    else c.(urls := c.urls + UrlOf(e))
  }

  /** Whether a number key made an update, or Err where strict parsing throws. */
  function NumberOutcome(e: Entry, ignoreInvalid: bool): Result<bool> {
    if !BadNumber(e) then Ok(true) else if ignoreInvalid then Ok(false) else Err
  }

  class ParserImpl {
    const filter: Filter
    const ignoreInvalidIdent: bool

    constructor (filter: Filter, ignoreInvalidIdent: bool)
      ensures this.filter == filter && this.ignoreInvalidIdent == ignoreInvalidIdent
    {
      this.filter, this.ignoreInvalidIdent := filter, ignoreInvalidIdent;
    }

    /** The identifiers message is created before the number is read, so it stays when that fails. */
    method HandlePmIdKey(c: CitationMessage, value: string) returns (r: Result<bool>)
      modifies c`identifiers
      ensures r == NumberOutcome(Entry("pmid", Trim(value)), ignoreInvalidIdent)
      ensures c.identifiers ==
              Some(WithIdentifier(old(c.identifiers).GetOr(NO_IDENTIFIERS), Entry("pmid", Trim(value))))
    {
      c.MutableIdentifiers();
      match Stoi(Trim(value)) {
        case Some(n) =>
          c.identifiers := Some(c.identifiers.value.(pmid := Some(AsUint32(n))));
          return Ok(true);
        case None =>
          return if ignoreInvalidIdent then Ok(false) else Err;
      }
    }

    method HandlePmcIdKey(c: CitationMessage, value: string) returns (r: Result<bool>)
      modifies c`identifiers
      ensures r == NumberOutcome(Entry("pmc", Trim(value)), ignoreInvalidIdent)
      ensures c.identifiers ==
              Some(WithIdentifier(old(c.identifiers).GetOr(NO_IDENTIFIERS), Entry("pmc", Trim(value))))
    {
      c.MutableIdentifiers();
      match ParsePmcId(Trim(value)) {
        case Some(n) =>
          c.identifiers := Some(c.identifiers.value.(pmcid := Some(AsUint32(n))));
          return Ok(true);
        case None =>
          return if ignoreInvalidIdent then Ok(false) else Err;
      }
    }

    method CheckForIdentKey(c: CitationMessage, key: string, value: string) returns (r: Result<bool>)
      modifies c`identifiers
      ensures r.Err? <==> !ignoreInvalidIdent && BadNumber(Entry(key, Trim(value)))
      ensures r.Ok? ==> (r.value <==> key in IDENT_KEYS)
      ensures c.identifiers ==
              if key in IDENT_KEYS
              then Some(WithIdentifier(old(c.identifiers).GetOr(NO_IDENTIFIERS), Entry(key, Trim(value))))
              else old(c.identifiers)
    {
      if key == "doi" {
        c.MutableIdentifiers();
        c.identifiers := Some(c.identifiers.value.(doi := Some(ParseDoi(Trim(value)))));
        return Ok(true);
      }
      if key == "isbn" {
        c.MutableIdentifiers();
        c.identifiers := Some(c.identifiers.value.(isbn := Some(Trim(value))));
        return Ok(true);
      }
      if key == "pmid" {
        var handled := HandlePmIdKey(c, value);
        return if handled.Err? then Err else Ok(true);
      }
      if key == "pmc" {
        var handled := HandlePmcIdKey(c, value);
        return if handled.Err? then Err else Ok(true);
      }
      if key == "issn" {
        c.MutableIdentifiers();
        c.identifiers := Some(c.identifiers.value.(issn := Some(Trim(value))));
        return Ok(true);
      }
      return Ok(false);
    }

    method CheckForUrlKey(c: CitationMessage, key: string, value: string) returns (r: bool)
      modifies c`urls
      ensures c.urls == old(c.urls) + if key == "url" then [Url(Default, Trim(value))]
                                      else if key == "archive-url" then [Url(Archive, Trim(value))]
                                      else []
      ensures r <==> key == "url" || key == "archive-url"
    {
      if key == "url" {
        c.urls := c.urls + [Url(Default, Trim(value))];
        return true;
      }
      if key == "archive-url" {
        c.urls := c.urls + [Url(Archive, Trim(value))];
        return true;
      }
      return false;
    }

    /** The body of the loop over the valued parameters. */
    method ApplyParam(c: CitationMessage, key: string, value: string) returns (r: Result<()>)
      modifies c
      ensures r.Err? <==> !ignoreInvalidIdent && BadNumber(Entry(key, Trim(value)))
      ensures r.Ok? ==> c.Value() == WithEntry(old(c.Value()), Entry(key, Trim(value)))
    {
      if key == "title" {
        c.title := Some(Trim(value));
      } else {
        var checked := CheckForIdentKey(c, key, value);
        if checked.Err? {
          return Err;
        }
        if !checked.value {
          var _ := CheckForUrlKey(c, key, value);
        }
      }
      return Ok(());
    }

    /** Builds the citation a template stands for: `BuildOf` reads every field off directly. */
    method BuildCitation(entry: Template) returns (r: Result<ExtractedCitation>)
      ensures r == BuildOf(entry, ignoreInvalidIdent)
    {
      var c := new CitationMessage();
      for i := 0 to |entry.params|
        invariant c.Value() == CitationOf(Entries(entry.params[..i]))
        invariant !ignoreInvalidIdent ==> !HasBadNumber(Entries(entry.params[..i]))
      {
        var param := entry.params[i];
        EntriesStep(entry.params, i);
        if param.value.Some? {
          var key := Normalise(param.key);
          OneMoreEntry(Entries(entry.params[..i]), Entry(key, Trim(param.value.value)));
          var applied := ApplyParam(c, key, param.value.value);
          if applied.Err? {
            EntriesGrow(entry.params, i + 1);
            return Err;
          }
        }
      }
      assert entry.params[..|entry.params|] == entry.params;
      r := Ok(c.Value());
    }

    /** Never raises on the text itself: only a strict identifier can abort the run. */
    method Parse(text: string) returns (r: Result<map<string, ExtractedCitation>>)
      ensures r == ParseOf(text, filter, ignoreInvalidIdent)
    {
      var citations: map<string, ExtractedCitation> := map[];
      var results := Templates(text);
      for i := 0 to |results|
        invariant CollectOf(results[..i], filter, ignoreInvalidIdent) == Ok(citations)
      {
        CollectStep(results, i, filter, ignoreInvalidIdent);
        if filter(Normalise(results[i].name)) {
          var built := BuildCitation(results[i]);
          if built.Err? {
            AbortedStays(results, i + 1, filter, ignoreInvalidIdent);
            return Err;
          }
          var citation := built.value;
          if TitleOf(citation) !in citations {
            citations := citations[TitleOf(citation) := citation];
          }
        }
      }
      assert results[..|results|] == results;
      r := Ok(citations);
    }
  }

  lemma {:induction false} EntriesGrow(params: seq<Param>, n: nat)
    requires n <= |params| && HasBadNumber(Entries(params[..n]))
    ensures HasBadNumber(Entries(params))
    decreases |params| - n
  {
    if n == |params| {
      assert params[..n] == params;
    } else {
      EntriesStep(params, n);
      var es := Entries(params[..n]);
      var i :| 0 <= i < |es| && BadNumber(es[i]);
      assert Entries(params[..n + 1])[i] == es[i];
      EntriesGrow(params, n + 1);
    }
  }

  lemma CollectStep(ts: seq<Template>, i: nat, filter: Filter, ignoreInvalid: bool)
    requires i < |ts|
    ensures CollectOf(ts[..i + 1], filter, ignoreInvalid)
         == CollectOne(CollectOf(ts[..i], filter, ignoreInvalid), ts[i], filter, ignoreInvalid)
  {
    assert ts[..i + 1][..i] == ts[..i];
  }

  lemma {:induction false} AbortedStays(ts: seq<Template>, n: nat, filter: Filter, ignoreInvalid: bool)
    requires n <= |ts| && CollectOf(ts[..n], filter, ignoreInvalid).Err?
    ensures CollectOf(ts, filter, ignoreInvalid).Err?
    decreases |ts| - n
  {
    if n == |ts| {
      assert ts[..n] == ts;
    } else {
      CollectStep(ts, n, filter, ignoreInvalid);
      AbortedStays(ts, n + 1, filter, ignoreInvalid);
    }
  }

  lemma EntriesStep(params: seq<Param>, i: nat)
    requires i < |params|
    ensures Entries(params[..i + 1])
         == if params[i].value.Some?
            then Entries(params[..i]) + [Entry(Normalise(params[i].key), Trim(params[i].value.value))]
            else Entries(params[..i])
  {
    assert params[..i + 1][..i] == params[..i];
  }

  /** The citation with one more entry differs from the one without by what that entry sets. */
  lemma OneMoreEntry(es: seq<Entry>, e: Entry)
    ensures CitationOf(es + [e]) == WithEntry(CitationOf(es), e)
    ensures HasBadNumber(es + [e]) <==> HasBadNumber(es) || BadNumber(e)
  {
    var fs := es + [e];
    assert fs[..|es|] == es && fs[|es|] == e;
    assert forall i :: 0 <= i < |es| ==> fs[i] == es[i];
    if !HasIdentifier(es) {
      NoIdentifier(es, "doi");
      NoIdentifier(es, "isbn");
      NoIdentifier(es, "issn");
      NoIdentifier(es, "pmid");
      NoIdentifier(es, "pmc");
    }
    assert HasIdentifier(fs) <==> HasIdentifier(es) || e.key in IDENT_KEYS;
  }

  lemma {:induction false} NoIdentifier(es: seq<Entry>, key: string)
    requires !HasIdentifier(es) && key in IDENT_KEYS
    ensures LastValue(es, key).None? && LastNumber(es, key).None?
  {
    if es != [] {
      var init := es[..|es| - 1];
      assert forall i :: 0 <= i < |init| ==> init[i] == es[i];
      NoIdentifier(init, key);
    }
  }
}
