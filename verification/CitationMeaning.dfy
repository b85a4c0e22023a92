/**
  What `Parse` promises, stated over all texts, filters and options.
 */
module CitationMeaning {
  import opened Wrappers
  import opened Numbers
  import opened Wikitext
  import opened TemplatePrinter
  import opened WikitextMeaning
  import opened CitationParser

  // ---- One template ----

  /** Entry `i` is the last one with its key. */
  predicate IsLast(es: seq<Entry>, i: nat) {
    i < |es| && forall j :: i < j < |es| ==> es[j].key != es[i].key
  }

  /** A text field takes its last valued occurrence. */
  lemma {:induction false} LastValueMeans(es: seq<Entry>, i: nat)
    requires IsLast(es, i)
    ensures LastValue(es, es[i].key) == Some(es[i].value)
    decreases |es|
  {
    if i < |es| - 1 {
      LastValueMeans(es[..|es| - 1], i);
    }
  }

  lemma {:induction false} LastValueAbsent(es: seq<Entry>, key: string)
    ensures LastValue(es, key).None? <==> forall i :: 0 <= i < |es| ==> es[i].key != key
  {
    if es != [] {
      var init := es[..|es| - 1];
      LastValueAbsent(init, key);
      assert forall i :: 0 <= i < |init| ==> init[i] == es[i];
    }
  }

  /** Entry `i` is the last one with its key whose value is a number. */
  predicate IsLastNumber(es: seq<Entry>, i: nat) {
    && i < |es| && ParseNumber(es[i].key, es[i].value).Some?
    && forall j :: i < j < |es| && es[j].key == es[i].key ==> ParseNumber(es[j].key, es[j].value).None?
  }

  /** An identifier number takes its last valid occurrence: an invalid one never erases it. */
  lemma {:induction false} LastNumberMeans(es: seq<Entry>, i: nat)
    requires IsLastNumber(es, i)
    ensures LastNumber(es, es[i].key) == Some(AsUint32(ParseNumber(es[i].key, es[i].value).value))
    decreases |es|
  {
    if i < |es| - 1 {
      var init := es[..|es| - 1];
      assert forall j :: 0 <= j < |init| ==> init[j] == es[j];
      LastNumberMeans(init, i);
    }
  }

  lemma {:induction false} LastNumberAbsent(es: seq<Entry>, key: string)
    ensures LastNumber(es, key).None?
       <==> forall i :: 0 <= i < |es| && es[i].key == key ==> ParseNumber(key, es[i].value).None?
  {
    if es != [] {
      var init := es[..|es| - 1];
      LastNumberAbsent(init, key);
      assert forall i :: 0 <= i < |init| ==> init[i] == es[i];
    }
  }

  /** Urls keep every occurrence, in order. */
  lemma {:induction false} UrlsInOrder(es: seq<Entry>, fs: seq<Entry>)
    ensures UrlsOf(es + fs) == UrlsOf(es) + UrlsOf(fs)
    ensures |fs| == 1 ==> UrlsOf(fs) == UrlOf(fs[0])
  {
    if fs == [] {
      assert es + fs == es;
    } else {
      var init := fs[..|fs| - 1];
      assert (es + fs)[..|es + fs| - 1] == es + init;
      UrlsInOrder(es, init);
    }
  }

  // ---- One more parameter, one more template ----

  /** A text in white space, and the text itself with small letters. */
  predicate Lowered(s: string, before: string, core: string, after: string, lower: string) {
    && s == before + core + after && Blank(before) && Blank(after)
    && (core != "" ==> !IsSpace(core[0]) && !IsSpace(core[|core| - 1]))
    && |lower| == |core|
    && forall i :: 0 <= i < |core| ==>
         lower[i] == if 'A' <= core[i] <= 'Z' then (core[i] as int - 'A' as int + 'a' as int) as char else core[i]
  }

  lemma NormaliseIs(s: string, before: string, core: string, after: string, lower: string)
    requires Lowered(s, before, core, after, lower)
    ensures Trim(s) == core && Normalise(s) == lower
  {
    TrimPadded(before, core, after);
    forall i | 0 <= i < |core| ensures ToLower(core)[i] == lower[i] {
      ToLowerAt(core, i);
    }
  }

  /** Without parameters nothing is set. */
  lemma NoParam(name: string, ignoreInvalid: bool)
    ensures BuildOf(Template(name, []), ignoreInvalid)
         == Ok(ExtractedCitation(title := None, identifiers := None, urls := []))
  {}

  /** A parameter without a value sets nothing. */
  lemma NoValue(name: string, ps: seq<Param>, key: string, ignoreInvalid: bool)
    ensures BuildOf(Template(name, ps + [Param(key, None)]), ignoreInvalid)
         == BuildOf(Template(name, ps), ignoreInvalid)
  {
    assert (ps + [Param(key, None)])[..|ps|] == ps;
    assert Entries(ps) + [] == Entries(ps);
  }

  lemma OneMoreValued(ps: seq<Param>, key: string, value: string)
    ensures Entries(ps + [Param(key, Some(value))]) == Entries(ps) + [Entry(Normalise(key), Trim(value))]
  {
    assert (ps + [Param(key, Some(value))])[..|ps|] == ps;
  }

  lemma NumbersThatThrow(e: Entry)
    ensures var pmcid := if "PMC" <= e.value then e.value[3..] else e.value;
            BadNumber(e) <==> (e.key == "pmid" && Stoi(e.value).None?) || (e.key == "pmc" && Stoi(pmcid).None?)
  {}

  /** One more valued parameter throws exactly on a strict number that is none. */
  lemma OneMoreParam(name: string, ps: seq<Param>, rawKey: string, rawValue: string, ignoreInvalid: bool)
    ensures var before := BuildOf(Template(name, ps), ignoreInvalid);
            var after := BuildOf(Template(name, ps + [Param(rawKey, Some(rawValue))]), ignoreInvalid);
            var key, value := Normalise(rawKey), Trim(rawValue);
            var pmcid := if "PMC" <= value then value[3..] else value;
            var throws := (key == "pmid" && Stoi(value).None?) || (key == "pmc" && Stoi(pmcid).None?);
            after.Err? <==> before.Err? || (!ignoreInvalid && throws)
  {
    var e := Entry(Normalise(rawKey), Trim(rawValue));
    OneMoreValued(ps, rawKey, rawValue);
    OneMoreEntry(Entries(ps), e);
    NumbersThatThrow(e);
  }

  /** What an entry sets, key by key. */
  lemma EntrySets(c: ExtractedCitation, key: string, value: string)
    ensures var none := Identifiers(doi := None, isbn := None, issn := None, pmid := None, pmcid := None);
            var ids := c.identifiers.GetOr(none);
            var doi := if "https://doi.org/" <= value then value[16..] else value;
            var pmid := Stoi(value);
            var pmcid := Stoi(if "PMC" <= value then value[3..] else value);
            WithEntry(c, Entry(key, value))
            == if key == "title" then c.(title := Some(value))
               else if key == "url" then c.(urls := c.urls + [Url(Default, value)])
               else if key == "archive-url" then c.(urls := c.urls + [Url(Archive, value)])
               else if key == "doi" then c.(identifiers := Some(ids.(doi := Some(doi))))
               else if key == "isbn" then c.(identifiers := Some(ids.(isbn := Some(value))))
               else if key == "issn" then c.(identifiers := Some(ids.(issn := Some(value))))
               else if key == "pmid" && pmid.Some? then
                 c.(identifiers := Some(ids.(pmid := Some(pmid.value % 4294967296))))
               else if key == "pmc" && pmcid.Some? then
                 c.(identifiers := Some(ids.(pmcid := Some(pmcid.value % 4294967296))))
               else if key == "pmid" || key == "pmc" then c.(identifiers := Some(ids))
               else c
  {
    assert c.urls + [] == c.urls;
  }

  /** Where it does not throw, one more valued parameter sets what its key says, and nothing else. */
  lemma OneMoreValue(name: string, ps: seq<Param>, rawKey: string, rawValue: string, ignoreInvalid: bool)
    requires BuildOf(Template(name, ps + [Param(rawKey, Some(rawValue))]), ignoreInvalid).Ok?
    ensures BuildOf(Template(name, ps), ignoreInvalid).Ok?
    ensures var c := BuildOf(Template(name, ps), ignoreInvalid).value;
            var d := BuildOf(Template(name, ps + [Param(rawKey, Some(rawValue))]), ignoreInvalid).value;
            var key, value := Normalise(rawKey), Trim(rawValue);
            var none := Identifiers(doi := None, isbn := None, issn := None, pmid := None, pmcid := None);
            var ids := c.identifiers.GetOr(none);
            var doi := if "https://doi.org/" <= value then value[16..] else value;
            var pmid := Stoi(value);
            var pmcid := Stoi(if "PMC" <= value then value[3..] else value);
            d == if key == "title" then c.(title := Some(value))
                 else if key == "url" then c.(urls := c.urls + [Url(Default, value)])
                 else if key == "archive-url" then c.(urls := c.urls + [Url(Archive, value)])
                 else if key == "doi" then c.(identifiers := Some(ids.(doi := Some(doi))))
                 else if key == "isbn" then c.(identifiers := Some(ids.(isbn := Some(value))))
                 else if key == "issn" then c.(identifiers := Some(ids.(issn := Some(value))))
                 else if key == "pmid" && pmid.Some? then
                   c.(identifiers := Some(ids.(pmid := Some(pmid.value % 4294967296))))
                 else if key == "pmc" && pmcid.Some? then
                   c.(identifiers := Some(ids.(pmcid := Some(pmcid.value % 4294967296))))
                 else if key == "pmid" || key == "pmc" then c.(identifiers := Some(ids))
                 else c
  {
    var e := Entry(Normalise(rawKey), Trim(rawValue));
    OneMoreValued(ps, rawKey, rawValue);
    OneMoreEntry(Entries(ps), e);
    EntrySets(CitationOf(Entries(ps)), e.key, e.value);
  }

  /** One more template: the filter sees its name trimmed and in small letters, the first title stays. */
  lemma OneMoreTemplate(ts: seq<Template>, t: Template, filter: Filter, ignoreInvalid: bool,
                        before: string, core: string, after: string, lower: string)
    requires Lowered(t.name, before, core, after, lower)
    ensures CollectOf([], filter, ignoreInvalid) == Ok(map[])
    ensures CollectOf(ts + [t], filter, ignoreInvalid)
         == match CollectOf(ts, filter, ignoreInvalid)
            case Err => Err
            case Ok(m) =>
              if !filter(lower) then Ok(m)
              else
                match BuildOf(t, ignoreInvalid)
                case Err => Err
                case Ok(c) =>
                  var title := if c.title.Some? then c.title.value else "";
                  Ok(if title in m then m else m[title := c])
  {
    assert (ts + [t])[..|ts|] == ts;
    NormaliseIs(t.name, before, core, after, lower);
  }

  /** What a template with one title and nothing else stands for. */
  lemma TitleAlone(name: string, title: string, lower: string, ignoreInvalid: bool)
    requires Lowered(title, "", title, "", lower)
    ensures BuildOf(Template(name, [Param("title", Some(title))]), ignoreInvalid)
         == Ok(ExtractedCitation(Some(title), None, []))
  {
    var p := Param("title", Some(title));
    assert [] + [p] == [p];
    NoParam(name, ignoreInvalid);
    TitleKey();
    NormaliseIs(title, "", title, "", lower);
    OneMoreParam(name, [], "title", title, ignoreInvalid);
    OneMoreValue(name, [], "title", title, ignoreInvalid);
  }

  lemma TitleKey()
    ensures Normalise("title") == "title"
  {
    NormaliseIs("title", "", "title", "", "title");
  }

  /** A text that is one template with one title has that one citation, if the filter wants it. */
  lemma OneTitle(name: string, lower: string, title: string, filter: Filter, ignoreInvalid: bool)
    requires Lowered(name, "", name, "", lower) && name != "" && '|' !in name
    requires Lowered(title, "", title, "", ToLower(title)) && '|' !in title && '}' !in title
    ensures ParseOf("{{" + name + "|" + ("title" + ("=" + title)) + "}}", filter, ignoreInvalid)
         == Ok(if filter(lower) then map[title := ExtractedCitation(Some(title), None, [])] else map[])
  {
    FoundAlone(name, "title", title);
    TitleAlone(name, title, ToLower(title), ignoreInvalid);
    ParseAlone("{{" + name + "|" + ("title" + ("=" + title)) + "}}", Template(name, [Param("title", Some(title))]),
               lower, title, ExtractedCitation(Some(title), None, []), filter, ignoreInvalid);
  }

  lemma ParseAlone(text: string, t: Template, lower: string, title: string, c: ExtractedCitation, filter: Filter,
                   ignoreInvalid: bool)
    requires Templates(text) == [t] && c.title == Some(title)
    requires Lowered(t.name, "", t.name, "", lower) && BuildOf(t, ignoreInvalid) == Ok(c)
    ensures ParseOf(text, filter, ignoreInvalid) == Ok(if filter(lower) then map[title := c] else map[])
  {
    assert [] + [t] == [t];
    OneMoreTemplate([], t, filter, ignoreInvalid, "", t.name, "", lower);
  }

  lemma FoundAlone(name: string, key: string, value: string)
    requires name != "" && !IsSpace(name[0]) && '|' !in name && '=' !in key && '|' !in key && '}' !in key
    requires '|' !in value && '}' !in value && key != "" && !IsSpace(key[0]) && (value == "" || !IsSpace(value[0]))
    ensures Templates("{{" + name + "|" + (key + ("=" + value)) + "}}") == [Template(name, [Param(key, Some(value))])]
  {
    var text := "{{" + name + "|" + (key + ("=" + value)) + "}}";
    OneParameter("", name, key, value, "");
    assert "" + text + "" == text;
    assert Templates("") == [];
  }

  // ---- Many templates ----

  predicate AcceptedTitle(ts: seq<Template>, filter: Filter, i: nat, title: string) {
    i < |ts| && Accepts(filter, ts[i]) && TitleOf(CitationOf(Entries(ts[i].params))) == title
  }

  /** Template `i` is the first accepted one with the title. */
  predicate FirstAccepted(ts: seq<Template>, filter: Filter, i: nat, title: string) {
    && AcceptedTitle(ts, filter, i, title)
    && forall j: nat :: j < i ==> !AcceptedTitle(ts, filter, j, title)
  }

  predicate Raises(ts: seq<Template>, filter: Filter) {
    exists i :: 0 <= i < |ts| && Accepts(filter, ts[i]) && HasBadNumber(Entries(ts[i].params))
  }

  /** The result is aborted exactly when strict parsing meets a bad number in an accepted template. */
  lemma {:induction false} RaisesExactly(ts: seq<Template>, filter: Filter, ignoreInvalid: bool)
    ensures CollectOf(ts, filter, ignoreInvalid).Err? <==> !ignoreInvalid && Raises(ts, filter)
  {
    if ts != [] {
      RaisesExactly(ts[..|ts| - 1], filter, ignoreInvalid);
      RaisesStep(ts, filter);
    }
  }

  lemma RaisesStep(ts: seq<Template>, filter: Filter)
    requires ts != []
    ensures var last := ts[|ts| - 1];
            Raises(ts, filter)
            == (Raises(ts[..|ts| - 1], filter) || (Accepts(filter, last) && HasBadNumber(Entries(last.params))))
  {
    var init := ts[..|ts| - 1];
    assert forall i :: 0 <= i < |init| ==> init[i] == ts[i];
  }

  /** One entry per title among the accepted templates, taken from the first of them. */
  ghost predicate TakesFirst(m: map<string, ExtractedCitation>, ts: seq<Template>, filter: Filter) {
    && (forall i: nat, title :: AcceptedTitle(ts, filter, i, title) ==> title in m)
    && (forall title :: title in m ==>
          exists i: nat :: FirstAccepted(ts, filter, i, title) && m[title] == CitationOf(Entries(ts[i].params)))
  }

  lemma AcceptedAlike(ts: seq<Template>, t: Template, filter: Filter)
    ensures forall i: nat, title :: i < |ts| ==>
              AcceptedTitle(ts + [t], filter, i, title) == AcceptedTitle(ts, filter, i, title)
  {
    forall i: nat, title | i < |ts|
      ensures AcceptedTitle(ts + [t], filter, i, title) == AcceptedTitle(ts, filter, i, title)
    {
      assert (ts + [t])[i] == ts[i];
    }
  }

  lemma TakesFirstStep(before: map<string, ExtractedCitation>, ts: seq<Template>, t: Template, filter: Filter)
    requires TakesFirst(before, ts, filter)
    ensures var c := CitationOf(Entries(t.params));
            TakesFirst(if !Accepts(filter, t) || TitleOf(c) in before then before else before[TitleOf(c) := c],
                       ts + [t], filter)
  {
    var n, us := |ts|, ts + [t];
    var c := CitationOf(Entries(t.params));
    var m := if !Accepts(filter, t) || TitleOf(c) in before then before else before[TitleOf(c) := c];
    AcceptedAlike(ts, t, filter);
    assert us[n] == t;
    forall title | title in m
      ensures exists i: nat :: FirstAccepted(us, filter, i, title) && m[title] == CitationOf(Entries(us[i].params))
    {
      if title in before {
        var i: nat :| FirstAccepted(ts, filter, i, title) && before[title] == CitationOf(Entries(ts[i].params));
        assert FirstAccepted(us, filter, i, title) && us[i] == ts[i];
      } else {
        assert FirstAccepted(us, filter, n, title);
      }
    }
  }

  lemma {:induction false} CollectTakesFirst(ts: seq<Template>, filter: Filter, ignoreInvalid: bool)
    requires CollectOf(ts, filter, ignoreInvalid).Ok?
    ensures TakesFirst(CollectOf(ts, filter, ignoreInvalid).value, ts, filter)
  {
    if ts != [] {
      var init, last := ts[..|ts| - 1], ts[|ts| - 1];
      CollectTakesFirst(init, filter, ignoreInvalid);
      TakesFirstStep(CollectOf(init, filter, ignoreInvalid).value, init, last, filter);
      assert init + [last] == ts;
    }
  }

  /**
    `Parse`: aborted exactly on a strict bad number; otherwise the map holds one citation per title
    of the accepted templates found in the text, each under its own title and from the first such
    template.
   */
  lemma ParseMeans(text: string, filter: Filter, ignoreInvalid: bool)
    ensures ParseOf(text, filter, ignoreInvalid).Err? <==> !ignoreInvalid && Raises(Templates(text), filter)
    ensures ParseOf(text, filter, ignoreInvalid).Ok? ==>
              var m := ParseOf(text, filter, ignoreInvalid).value;
              TakesFirst(m, Templates(text), filter) && forall t :: t in m ==> TitleOf(m[t]) == t
  {
    RaisesExactly(Templates(text), filter, ignoreInvalid);
    if ParseOf(text, filter, ignoreInvalid).Ok? {
      CollectTakesFirst(Templates(text), filter, ignoreInvalid);
    }
  }

  lemma {:induction false} CollectModesAgree(ts: seq<Template>, filter: Filter)
    ensures CollectOf(ts, filter, true).Ok?
    ensures CollectOf(ts, filter, false).Ok? ==> CollectOf(ts, filter, false) == CollectOf(ts, filter, true)
  {
    if ts != [] {
      CollectModesAgree(ts[..|ts| - 1], filter);
    }
  }

  /** Ignoring invalid identifiers never raises, and changes nothing where strict parsing does not raise. */
  lemma ModesAgree(text: string, filter: Filter)
    ensures ParseOf(text, filter, true).Ok?
    ensures ParseOf(text, filter, false).Ok? ==> ParseOf(text, filter, false) == ParseOf(text, filter, true)
  {
    CollectModesAgree(Templates(text), filter);
  }

  /** Every citation of `m` is in `n`, unchanged. */
  ghost predicate Extends(m: map<string, ExtractedCitation>, n: map<string, ExtractedCitation>) {
    forall t :: t in m ==> t in n && n[t] == m[t]
  }

  /** More templates after those of `ts` never remove or change a citation. */
  lemma {:induction false} CollectExtends(ts: seq<Template>, us: seq<Template>, filter: Filter, ignoreInvalid: bool)
    requires ts <= us && CollectOf(us, filter, ignoreInvalid).Ok?
    ensures CollectOf(ts, filter, ignoreInvalid).Ok?
    ensures Extends(CollectOf(ts, filter, ignoreInvalid).value, CollectOf(us, filter, ignoreInvalid).value)
    decreases |us|
  {
    if |ts| < |us| {
      CollectExtends(ts, us[..|us| - 1], filter, ignoreInvalid);
    } else {
      assert ts == us;
    }
  }

  lemma TemplatesExtend(a: string, b: string)
    requires a <= b
    ensures Templates(a) <= Templates(b)
  {
    assert a + b[|a|..] == b;
    PrefixStable(a, b[|a|..]);
  }

  /** A longer text keeps every citation of a text it starts with, unchanged. */
  lemma ParseExtends(a: string, b: string, filter: Filter, ignoreInvalid: bool)
    requires a <= b
    ensures ParseOf(b, filter, ignoreInvalid).Ok? ==>
              && ParseOf(a, filter, ignoreInvalid).Ok?
              && Extends(ParseOf(a, filter, ignoreInvalid).value, ParseOf(b, filter, ignoreInvalid).value)
  {
    TemplatesExtend(a, b);
    if ParseOf(b, filter, ignoreInvalid).Ok? {
      CollectExtends(Templates(a), Templates(b), filter, ignoreInvalid);
    }
  }

  // ---- Printed texts ----

  /** The white space a raw template has in front of its parts is trimmed in any case. */
  lemma {:induction false} StrippedEntries(ps: seq<Param>, qs: seq<Param>)
    requires |ps| == |qs| && forall i :: 0 <= i < |ps| ==> qs[i] == StrippedParam(ps[i])
    ensures Entries(qs) == Entries(ps)
  {
    if ps != [] {
      var p := ps[|ps| - 1];
      StrippedEntries(ps[..|ps| - 1], qs[..|qs| - 1]);
      SkipSpaceIsIdempotent(p.key);
      if p.value.Some? {
        SkipSpaceIsIdempotent(p.value.value);
      }
    }
  }

  lemma StrippedMeansTheSame(t: Template, filter: Filter, ignoreInvalid: bool)
    ensures BuildOf(Stripped(t), ignoreInvalid) == BuildOf(t, ignoreInvalid)
    ensures Accepts(filter, Stripped(t)) == Accepts(filter, t)
  {
    forall i | 0 <= i < |t.params| ensures StrippedParams(t.params)[i] == StrippedParam(t.params[i]) {
      StrippedParamsAt(t.params, i);
    }
    StrippedEntries(t.params, StrippedParams(t.params));
    SkipSpaceIsIdempotent(t.name);
  }

  function RawTemplates(ps: seq<Piece>): (r: seq<Template>)
    ensures |r| == |ps|
    ensures forall i :: 0 <= i < |ps| ==> r[i] == ps[i].raw
  {
    if ps == [] then [] else [ps[0].raw] + RawTemplates(ps[1..])
  }

  lemma {:induction false} StrippedPiecesAt(ps: seq<Piece>, i: nat)
    requires i < |ps|
    ensures StrippedPieces(ps)[i] == Stripped(ps[i].raw)
  {
    if i > 0 {
      StrippedPiecesAt(ps[1..], i - 1);
    }
  }

  lemma {:induction false} CollectStripped(ts: seq<Template>, us: seq<Template>, filter: Filter, ignoreInvalid: bool)
    requires |ts| == |us| && forall i :: 0 <= i < |ts| ==> us[i] == Stripped(ts[i])
    ensures CollectOf(us, filter, ignoreInvalid) == CollectOf(ts, filter, ignoreInvalid)
  {
    if ts != [] {
      CollectStripped(ts[..|ts| - 1], us[..|us| - 1], filter, ignoreInvalid);
      StrippedMeansTheSame(ts[|ts| - 1], filter, ignoreInvalid);
    }
  }

  /** Printing raw templates among junk and parsing the text collects exactly those templates. */
  lemma ParseOfPrinted(ps: seq<Piece>, tail: string, filter: Filter, ignoreInvalid: bool)
    requires ValidPieces(ps) && !Opens(tail)
    ensures ParseOf(RenderPieces(ps) + tail, filter, ignoreInvalid)
         == CollectOf(RawTemplates(ps), filter, ignoreInvalid)
  {
    assert Templates(RenderPieces(ps) + tail) == StrippedPieces(ps) by {
      PiecesRead(ps, tail);
      NothingFound(tail);
    }
    forall i | 0 <= i < |ps| ensures StrippedPieces(ps)[i] == Stripped(RawTemplates(ps)[i]) {
      StrippedPiecesAt(ps, i);
    }
    CollectStripped(RawTemplates(ps), StrippedPieces(ps), filter, ignoreInvalid);
  }

  /** Trimming removes the white space around a text that neither starts nor ends with any. */
  lemma TrimPadded(before: string, core: string, after: string)
    requires Blank(before) && Blank(after)
    requires core != "" ==> !IsSpace(core[0]) && !IsSpace(core[|core| - 1])
    ensures Trim(before + core + after) == core
  {
    var tail := core + after;
    assert before + core + after == before + tail;
    if core == "" {
      assert tail == after;
      assert Blank(before + after);
      NonBlankSkips(before + after);
    } else {
      SkipSpaceBefore(before, tail);
      NonBlankSkips(before);
      assert "" + tail == tail;
      TrimEndPadded(core, after);
    }
  }

  lemma {:induction false} TrimEndPadded(core: string, after: string)
    requires Blank(after) && core != "" && !IsSpace(core[|core| - 1])
    ensures TrimEnd(core + after) == core
    decreases |after|
  {
    if after == "" {
      assert core + after == core;
    } else {
      assert (core + after)[..|core + after| - 1] == core + after[..|after| - 1];
      TrimEndPadded(core, after[..|after| - 1]);
    }
  }

  // ---- Names ----

  /** Every text is its trimmed form in white space, which neither starts nor ends with any. */
  lemma TrimSplits(s: string) returns (before: string, after: string)
    ensures Blank(before) && Blank(after) && s == before + Trim(s) + after
    ensures Trim(s) != "" ==> !IsSpace(Trim(s)[0]) && !IsSpace(Trim(s)[|Trim(s)| - 1])
  {
    before := SkipSplits(s);
    after := TrimEndSplits(SkipSpace(s));
    Assoc(before, Trim(s), after);
    TrimStarts(SkipSpace(s), after);
  }

  lemma TrimStarts(s: string, after: string)
    requires s == TrimEnd(s) + after
    ensures TrimEnd(s) != "" ==> TrimEnd(s)[0] == s[0]
  {
  }

  lemma {:induction false} TrimEndSplits(s: string) returns (after: string)
    ensures Blank(after) && s == TrimEnd(s) + after
    ensures TrimEnd(s) != "" ==> !IsSpace(TrimEnd(s)[|TrimEnd(s)| - 1])
  {
    if s == "" || !IsSpace(s[|s| - 1]) {
      after := "";
    } else {
      var init, last := s[..|s| - 1], s[|s| - 1];
      var more := TrimEndSplits(init);
      after := more + [last];
      assert s == init + [last];
      Assoc(TrimEnd(s), more, [last]);
    }
  }

  lemma {:induction false} ToLowerAt(s: string, i: nat)
    requires i < |s|
    ensures ToLower(s)[i] == LowerChar(s[i])
  {
    if i > 0 {
      ToLowerAt(s[1..], i - 1);
    }
  }

  /**
    A name loses the white space around it and its capitals; everything else, white space inside it
    included, stays in its place.
   */
  lemma NormaliseMeans(s: string) returns (before: string, core: string, after: string)
    ensures s == before + core + after && Blank(before) && Blank(after)
    ensures core != "" ==> !IsSpace(core[0]) && !IsSpace(core[|core| - 1])
    ensures |Normalise(s)| == |core|
    ensures forall i :: 0 <= i < |core| ==>
              && !('A' <= Normalise(s)[i] <= 'Z')
              && (Normalise(s)[i] == core[i]
                  || ('A' <= core[i] <= 'Z' && Normalise(s)[i] as int == core[i] as int + 32))
  {
    before, after := TrimSplits(s);
    core := Trim(s);
    forall i | 0 <= i < |core| ensures Normalise(s)[i] == LowerChar(core[i]) {
      ToLowerAt(core, i);
    }
  }

  /** The text with one space for each run of white space in it: additional white space removed. */
  function Collapse(s: string): string {
    if s == "" then ""
    else if !IsSpace(s[0]) then [s[0]] + Collapse(s[1..])
    else if |s| > 1 && IsSpace(s[1]) then Collapse(s[1..])
    else " " + Collapse(s[1..])
  }

  /** All white space in the text is single spaces. */
  predicate SingleSpaced(s: string) {
    forall i :: 0 <= i < |s| && IsSpace(s[i]) ==> s[i] == ' ' && (i + 1 < |s| ==> !IsSpace(s[i + 1]))
  }

  lemma SingleSpacedStep(s: string)
    requires s != ""
    ensures SingleSpaced(s) <==>
              SingleSpaced(s[1..]) && (IsSpace(s[0]) ==> s[0] == ' ' && (|s| > 1 ==> !IsSpace(s[1])))
  {
    if SingleSpaced(s) {
      assert forall i :: 0 <= i < |s[1..]| ==> s[1..][i] == s[i + 1];
    } else {
      var i :| 0 <= i < |s| && IsSpace(s[i]) && !(s[i] == ' ' && (i + 1 < |s| ==> !IsSpace(s[i + 1])));
      assert i > 0 ==> s[1..][i - 1] == s[i];
    }
  }

  lemma {:induction false} CollapseShortens(s: string)
    ensures |Collapse(s)| <= |s|
  {
    if s != "" {
      CollapseShortens(s[1..]);
    }
  }

  lemma SameCons(a: char, s: string, b: char, t: string)
    ensures [a] + s == [b] + t <==> a == b && s == t
  {
    assert s == ([a] + s)[1..] && t == ([b] + t)[1..];
  }

  lemma {:induction false} LowerCollapsed(s: string)
    ensures ToLower(s) == ToLower(Collapse(s)) <==> SingleSpaced(s)
  {
    if s != "" {
      SingleSpacedStep(s);
      LowerCollapsed(s[1..]);
      CollapseShortens(s[1..]);
      var first := if IsSpace(s[0]) then ' ' else s[0];
      if !(IsSpace(s[0]) && |s| > 1 && IsSpace(s[1])) {
        assert Collapse(s) == [first] + Collapse(s[1..]);
        assert ToLower(Collapse(s)) == [LowerChar(first)] + ToLower(Collapse(s[1..]));
        SameCons(LowerChar(s[0]), ToLower(s[1..]), LowerChar(first), ToLower(Collapse(s[1..])));
      }
    }
  }

  /** What the documentation says of a name is true of it exactly if the white space inside it is single spaces. */
  lemma NormaliseExactly(s: string)
    ensures Normalise(s) == ToLower(Collapse(Trim(s))) <==> SingleSpaced(Trim(s))
  {
    LowerCollapsed(Trim(s));
  }

  /** A name with two spaces in it keeps them. */
  lemma InnerSpaceStays()
    ensures Normalise("a  b") == "a  b" && ToLower(Collapse(Trim("a  b"))) == "a b"
  {
    TrimPadded("", "a  b", "");
    assert "" + "a  b" + "" == "a  b";
    var b := "b";
    assert b[1..] == "" && " b"[1..] == b && "  b"[1..] == " b" && "a  b"[1..] == "  b" && "a b"[1..] == " b";
    assert Collapse(b) == b && Collapse(" b") == " b" && Collapse("  b") == " b" && Collapse("a  b") == "a b";
    assert ToLower(b) == b && ToLower(" b") == " b" && ToLower("  b") == "  b";
  }

  // ---- Identifier numbers ----

  lemma TrimOfDigits(s: string)
    requires AllDigits(s)
    ensures Trim(s) == s
  {
    if s != "" {
      assert SkipSpace(s) == s;
    }
  }

  lemma TrimOfPmc(digits: string)
    requires AllDigits(digits) && digits != ""
    ensures Trim(PMC_PREFIX + digits) == PMC_PREFIX + digits
  {
    var p := PMC_PREFIX + digits;
    assert SkipSpace(p) == p;
    assert p[|p| - 1] == digits[|digits| - 1];
  }

  lemma WithoutPmc(digits: string)
    requires AllDigits(digits)
    ensures RemovePrefix(PMC_PREFIX + digits, PMC_PREFIX) == digits == RemovePrefix(digits, PMC_PREFIX)
  {
    assert (PMC_PREFIX + digits)[|PMC_PREFIX|..] == digits;
    assert digits == "" || digits[0] != 'P';
  }

  /** A PMC id is read with or without its prefix exactly when it fits an `int`, and survives the cast. */
  lemma {:induction false} PmcIdOfDecimal(n: nat)
    ensures forall text :: text == Decimal(n) || text == "PMC" + Decimal(n)
              ==> ParseNumber("pmc", Trim(text)) == if n <= 2147483647 then Some(n) else None
    ensures ParseNumber("pmid", Trim(Decimal(n))) == if n <= 2147483647 then Some(n) else None
    ensures n <= 2147483647 ==> AsUint32(n) == n
  {
    var d := Decimal(n);
    StoiOfDecimal(n);
    TrimOfDigits(d);
    TrimOfPmc(d);
    WithoutPmc(d);
  }
}
