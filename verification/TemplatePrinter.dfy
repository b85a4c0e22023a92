/**
  One template: a printer for raw templates, and the exact correspondence between what it prints
  and what the template rule matches.
 */
module TemplatePrinter {
  import opened Wrappers
  import opened Numbers
  import opened Wikitext

  // ---- The printer ----

  function RenderValue(value: Option<string>): string {
    if value.Some? then "=" + value.value else ""
  }

  function RenderParam(p: Param): string {
    p.key + RenderValue(p.value)
  }

  function RenderMore(ps: seq<Param>): string {
    if ps == [] then "" else "|" + RenderParam(ps[0]) + RenderMore(ps[1..])
  }

  function RenderParams(ps: seq<Param>): string
    requires ps != []
  {
    RenderParam(ps[0]) + RenderMore(ps[1..])
  }

  function Render(t: Template): string
    requires t.params != []
  {
    "{{" + t.name + "|" + RenderParams(t.params) + "}}"
  }

  /** Raw text that can stand in a template: no delimiter where it would end the lexeme early. */
  predicate ValidParam(p: Param) {
    && '=' !in p.key && '|' !in p.key && '}' !in p.key
    && (p.value.Some? ==> '|' !in p.value.value && '}' !in p.value.value)
  }

  predicate ValidTemplate(t: Template) {
    && '|' !in t.name && !Blank(t.name)
    && t.params != []
    && forall i :: 0 <= i < |t.params| ==> ValidParam(t.params[i])
  }

  /** A raw template without the white space that leads its name, keys and values. */
  function StrippedParam(p: Param): Param {
    Param(SkipSpace(p.key), if p.value.Some? then Some(SkipSpace(p.value.value)) else None)
  }

  function StrippedParams(ps: seq<Param>): (r: seq<Param>)
    ensures |r| == |ps|
  {
    if ps == [] then [] else [StrippedParam(ps[0])] + StrippedParams(ps[1..])
  }

  function Stripped(t: Template): Template {
    Template(SkipSpace(t.name), StrippedParams(t.params))
  }

  /** Stripping takes the leading white space off name, keys and values and nothing else. */
  lemma StrippedMeans(t: Template, i: nat) returns (a: string, b: string, c: string)
    requires i < |t.params|
    ensures var s := Stripped(t);
            && Blank(a) && t.name == a + s.name && (s.name == "" || !IsSpace(s.name[0]))
            && |s.params| == |t.params|
            && var p, q := t.params[i], s.params[i];
               && Blank(b) && p.key == b + q.key && (q.key == "" || !IsSpace(q.key[0]))
               && (p.value.Some? <==> q.value.Some?)
               && (p.value.Some? ==> Blank(c) && p.value.value == c + q.value.value
                                     && (q.value.value == "" || !IsSpace(q.value.value[0])))
  {
    StrippedParamsAt(t.params, i);
    var p := t.params[i];
    a := SkipSplits(t.name);
    b := SkipSplits(p.key);
    c := SkipSplits(p.value.GetOr(""));
  }

  lemma {:induction false} StrippedParamsAt(ps: seq<Param>, i: nat)
    requires i < |ps|
    ensures StrippedParams(ps)[i] == StrippedParam(ps[i])
  {
    if i > 0 {
      StrippedParamsAt(ps[1..], i - 1);
    }
  }

  // ---- Lexemes ----

  lemma Split(s: string, n: nat, front: string)
    requires n <= |s| && s[..n] == front
    ensures s == front + s[n..]
  {}

  /** The skipper removes white space and nothing else. */
  lemma {:induction false} SkipSpaceIsSuffix(s: string)
    ensures var r := SkipSpace(s); s == s[..|s| - |r|] + r && Blank(s[..|s| - |r|])
  {
    if s != "" && IsSpace(s[0]) {
      SkipSpaceIsSuffix(s[1..]);
      var r := SkipSpace(s[1..]);
      assert s[..|s| - |r|] == [s[0]] + s[1..][..|s| - 1 - |r|];
    }
  }

  lemma {:induction false} SkipSpaceBefore(u: string, v: string)
    requires v == "" || !IsSpace(v[0])
    ensures SkipSpace(u + v) == SkipSpace(u) + v
  {
    if u == "" {
      assert u + v == v;
    } else {
      assert (u + v)[1..] == u[1..] + v;
      SkipSpaceBefore(u[1..], v);
    }
  }

  lemma {:induction false} TakeBefore(u: string, v: string, stops: set<char>)
    requires Free(u, stops) && (v == "" || v[0] in stops)
    ensures Take(u + v, stops) == u
  {
    if u == "" {
      assert u + v == v;
    } else {
      assert (u + v)[1..] == u[1..] + v;
      TakeBefore(u[1..], v, stops);
    }
  }

  /** A raw lexeme followed by a delimiter is read as itself without its leading white space. */
  lemma LexemeBefore(u: string, v: string, stops: set<char>)
    requires Free(u, stops) && v != "" && v[0] in stops && !IsSpace(v[0])
    ensures SkipSpace(u + v) == SkipSpace(u) + v
    ensures Take(SkipSpace(u + v), stops) == SkipSpace(u)
    ensures SkipSpace(u + v)[|SkipSpace(u)|..] == v
  {
    SkipSpaceBefore(u, v);
    SkipSpaceIsSuffix(u);
    TakeBefore(SkipSpace(u), v, stops);
  }

  // ---- Printing, then reading ----

  lemma KeyRead(key: string, v: string)
    requires Free(key, KEY_STOPS) && v != "" && v[0] in KEY_STOPS
    ensures KeyRule(SkipSpace(key + v)) == Match(SkipSpace(key), v)
  {
    LexemeBefore(key, v, KEY_STOPS);
  }

  lemma ValueRead(value: string, rest: string)
    requires Free(value, VALUE_STOPS) && rest != "" && rest[0] in VALUE_STOPS
    ensures ValueRule("=" + value + rest) == Match(SkipSpace(value), rest)
  {
    Assoc("=", value, rest);
    LiteralBefore("=", value + rest);
    LexemeBefore(value, rest, VALUE_STOPS);
  }

  /** A literal is matched at the start of what follows it, and no white space is skipped. */
  lemma LiteralBefore(lit: string, rest: string)
    requires lit != "" && !IsSpace(lit[0])
    ensures SkipSpace(lit + rest) == lit + rest
    ensures Literal(lit, lit + rest) == Match((), rest)
  {
    assert (lit + rest)[|lit|..] == rest;
  }

  /** A printed parameter is read back, stripped, up to the delimiter that follows it. */
  lemma ParamRead(p: Param, rest: string)
    requires ValidParam(p) && rest != "" && rest[0] in VALUE_STOPS
    ensures ParamRule(RenderParam(p) + rest) == Match(StrippedParam(p), rest)
    ensures ParamRule(SkipSpace(RenderParam(p) + rest)) == Match(StrippedParam(p), rest)
  {
    var v := RenderValue(p.value) + rest;
    assert RenderParam(p) + rest == p.key + v by { Assoc(p.key, RenderValue(p.value), rest); }
    assert KeyRule(SkipSpace(p.key + v)) == Match(SkipSpace(p.key), v) by { KeyRead(p.key, v); }
    assert SkipSpace(v) == v;
    RestRead(p.value, rest);
    SkipSpaceIsIdempotent(p.key + v);
  }

  lemma RestRead(value: Option<string>, rest: string)
    requires (value.Some? ==> Free(value.value, VALUE_STOPS)) && rest != "" && rest[0] in VALUE_STOPS
    ensures ValueRule(RenderValue(value) + rest)
         == if value.Some? then Match(SkipSpace(value.value), rest) else Fail
    ensures value.None? ==> RenderValue(value) + rest == rest
  {
    if value.Some? {
      ValueRead(value.value, rest);
    } else {
      assert "" + rest == rest;
    }
  }

  lemma {:induction false} MoreParamsRead(ps: seq<Param>, rest: string)
    requires rest != "" && rest[0] == '}'
    requires forall i :: 0 <= i < |ps| ==> ValidParam(ps[i])
    ensures MoreParams(RenderMore(ps) + rest) == Match(StrippedParams(ps), rest)
  {
    if ps == [] {
      assert RenderMore(ps) + rest == rest;
    } else {
      var t := RenderMore(ps[1..]) + rest;
      var u := RenderParam(ps[0]) + t;
      assert RenderMore(ps) + rest == "|" + u by {
        Assoc("|" + RenderParam(ps[0]), RenderMore(ps[1..]), rest);
        Assoc("|", RenderParam(ps[0]), t);
      }
      MoreParamsStep(u);
      assert ParamRule(SkipSpace(u)) == Match(StrippedParam(ps[0]), t) by { ParamRead(ps[0], t); }
      MoreParamsRead(ps[1..], rest);
    }
  }

  lemma MoreParamsStep(t: string)
    ensures MoreParams("|" + t) ==
            var p := ParamRule(SkipSpace(t));
            var more := MoreParams(p.rest);
            Match([p.value] + more.value, more.rest)
  {
    LiteralBefore("|", t);
  }

  lemma ParamsRead(ps: seq<Param>, rest: string)
    requires ps != [] && rest != "" && rest[0] == '}'
    requires forall i :: 0 <= i < |ps| ==> ValidParam(ps[i])
    ensures ParamList(SkipSpace(RenderParams(ps) + rest)) == Match(StrippedParams(ps), rest)
  {
    var more := RenderMore(ps[1..]) + rest;
    assert RenderParams(ps) + rest == RenderParam(ps[0]) + more;
    ParamRead(ps[0], more);
    SkipSpaceIsIdempotent(RenderParam(ps[0]) + more);
    MoreParamsRead(ps[1..], rest);
  }

  lemma TypeRead(name: string, rest: string)
    requires Free(name, NAME_STOPS) && !Blank(name) && rest != "" && rest[0] == '|'
    ensures TypeRule(SkipSpace(name + rest)) == Match(SkipSpace(name), rest)
  {
    LexemeBefore(name, rest, NAME_STOPS);
    NonBlankSkips(name);
  }

  /** A printed template is read back, stripped, whatever follows it. */
  lemma TemplateRead(t: Template, rest: string)
    requires ValidTemplate(t)
    ensures TemplateRule(Render(t) + rest) == Match(Stripped(t), rest)
  {
    var close := CLOSE + rest;
    var params := RenderParams(t.params) + close;
    var bar := "|" + params;
    var s := Render(t) + rest;
    assert s == OPEN + (t.name + bar) by { RenderJoin(t, rest); }
    TypeRead(t.name, bar);
    ParamsRead(t.params, close);
    TemplateSteps(t.name + bar, SkipSpace(t.name), params, StrippedParams(t.params), rest);
  }

  lemma TemplateSteps(u: string, name: string, params: string, ps: seq<Param>, rest: string)
    requires TypeRule(SkipSpace(u)) == Match(name, "|" + params)
    requires ParamList(SkipSpace(params)) == Match(ps, CLOSE + rest)
    ensures TemplateRule(OPEN + u) == Match(Template(name, ps), rest)
  {
    LiteralBefore(OPEN, u);
    LiteralBefore("|", params);
    LiteralBefore(CLOSE, rest);
  }

  lemma {:induction false} NonBlankSkips(s: string)
    ensures Blank(s) <==> SkipSpace(s) == ""
  {
    if s != "" && IsSpace(s[0]) {
      NonBlankSkips(s[1..]);
      if Blank(s[1..]) {
        forall i | 0 <= i < |s| ensures IsSpace(s[i]) {
          if i > 0 { assert s[i] == s[1..][i - 1]; }
        }
      }
    }
  }

  // ---- Reading, then printing: every match is the print of a raw template ----

  lemma {:induction false} TakeSplits(s: string, stops: set<char>)
    ensures var r := Take(s, stops);
            r + s[|r|..] == s && Free(r, stops) && (|r| < |s| ==> s[|r|] in stops)
  {
    if s != "" && s[0] !in stops {
      TakeSplits(s[1..], stops);
    }
  }

  /** Raw text and a rest that read as the lexeme `v`: what a lexeme match stands for. */
  ghost predicate LexemeOf(s: string, stops: set<char>, raw: string, rest: string) {
    && s == raw + rest
    && Free(raw, stops)
    && (rest == "" || rest[0] in stops)
    && Take(SkipSpace(s), stops) == SkipSpace(raw)
    && SkipSpace(s) == SkipSpace(raw) + rest
  }

  lemma LexemeSource(s: string, stops: set<char>) returns (raw: string, rest: string)
    requires forall c :: c in stops ==> !IsSpace(c)
    ensures LexemeOf(s, stops, raw, rest)
  {
    var t := SkipSpace(s);
    var v := Take(t, stops);
    var blank := s[..|s| - |t|];
    raw, rest := blank + v, t[|v|..];
    TakeSplits(t, stops);
    assert s == blank + t && Blank(blank) by { SkipSpaceIsSuffix(s); }
    LexemeJoin(s, stops, blank, v, rest);
  }

  lemma LexemeJoin(s: string, stops: set<char>, blank: string, v: string, rest: string)
    requires s == blank + (v + rest) && SkipSpace(s) == v + rest && Take(v + rest, stops) == v
    requires Blank(blank) && (v == "" || !IsSpace(v[0]))
    requires Free(v, stops) && (rest == "" || rest[0] in stops)
    requires forall c :: c in stops ==> !IsSpace(c)
    ensures LexemeOf(s, stops, blank + v, rest)
  {
    Assoc(blank, v, rest);
    SkipBlank(blank, v);
    assert forall i :: 0 <= i < |blank| ==> IsSpace((blank + v)[i]);
  }

  lemma SkipBlank(blank: string, v: string)
    requires Blank(blank) && (v == "" || !IsSpace(v[0]))
    ensures SkipSpace(blank + v) == v
  {
    NonBlankSkips(blank);
    SkipSpaceBefore(blank, v);
    assert "" + v == v;
  }

  /** What a parameter match stands for. */
  ghost predicate ParamOf(s: string, raw: Param, rest: string) {
    && ValidParam(raw)
    && s == RenderParam(raw) + rest
    && (rest == "" || rest[0] in VALUE_STOPS)
    && ParamRule(s) == Match(StrippedParam(raw), rest)
  }

  lemma ParamSource(s: string) returns (raw: Param, rest: string)
    ensures ParamOf(s, raw, rest)
  {
    var key, t := LexemeSource(s, KEY_STOPS);
    KeyOf(s, key, t);
    if t != "" && t[0] == '=' {
      var value, u := LexemeSource(t[1..], VALUE_STOPS);
      ValueOf(t, value, u);
      raw, rest := Param(key, Some(value)), u;
      assert s == RenderParam(raw) + rest by {
        Split(t, 1, "=");
        Assoc("=", value, u);
        Assoc(key, "=" + value, u);
      }
    } else {
      raw, rest := Param(key, None), t;
      assert RenderParam(raw) == key;
      assert ValueRule(t) == Fail;
    }
  }

  lemma KeyOf(s: string, key: string, t: string)
    requires LexemeOf(s, KEY_STOPS, key, t)
    ensures KeyRule(SkipSpace(s)) == Match(SkipSpace(key), t) && SkipSpace(t) == t
  {}

  lemma ValueOf(t: string, value: string, u: string)
    requires t != "" && t[0] == '=' && LexemeOf(t[1..], VALUE_STOPS, value, u)
    ensures ValueRule(t) == Match(SkipSpace(value), u)
  {
    assert SkipSpace(t) == t;
  }

  lemma SkippedParam(s: string)
    ensures ParamRule(SkipSpace(s)) == ParamRule(s)
  {
    SkipSpaceIsIdempotent(s);
  }

  /** What a match of the parameters after the first one stands for. */
  ghost predicate MoreParamsOf(s: string, raws: seq<Param>, rest: string) {
    && (forall i :: 0 <= i < |raws| ==> ValidParam(raws[i]))
    && s == RenderMore(raws) + rest
    && (rest == "" || rest[0] == '}')
    && MoreParams(s) == Match(StrippedParams(raws), rest)
  }

  lemma {:induction false} MoreParamsSource(s: string) returns (raws: seq<Param>, rest: string)
    requires s == "" || s[0] in VALUE_STOPS
    ensures MoreParamsOf(s, raws, rest)
    decreases |s|
  {
    if s == "" || s[0] == '}' {
      raws, rest := [], s;
      MoreParamsEnd(s);
    } else {
      var raw, t := ParamSource(s[1..]);
      var more, u := MoreParamsSource(t);
      MoreParamsJoin(s, raw, t, more, u);
      raws, rest := [raw] + more, u;
    }
  }

  lemma MoreParamsEnd(s: string)
    requires s == "" || s[0] == '}'
    ensures MoreParamsOf(s, [], s)
  {
    assert SkipSpace(s) == s;
  }

  lemma MoreParamsJoin(s: string, raw: Param, t: string, more: seq<Param>, u: string)
    requires s != "" && s[0] == '|' && ParamOf(s[1..], raw, t) && MoreParamsOf(t, more, u)
    ensures MoreParamsOf(s, [raw] + more, u)
  {
    Split(s, 1, "|");
    MoreParamsStep(s[1..]);
    SkippedParam(s[1..]);
    assert ([raw] + more)[1..] == more;
    Assoc("|", RenderParam(raw), t);
    Assoc("|" + RenderParam(raw), RenderMore(more), u);
  }

  /** What a match of the whole parameter list stands for. */
  ghost predicate ParamsOf(s: string, raws: seq<Param>, rest: string) {
    && raws != [] && (forall i :: 0 <= i < |raws| ==> ValidParam(raws[i]))
    && s == RenderParams(raws) + rest
    && (rest == "" || rest[0] == '}')
    && ParamList(SkipSpace(s)) == Match(StrippedParams(raws), rest)
  }

  lemma ParamsSource(s: string) returns (raws: seq<Param>, rest: string)
    ensures ParamsOf(s, raws, rest)
  {
    var raw, t := ParamSource(s);
    var more, u := MoreParamsSource(t);
    raws, rest := [raw] + more, u;
    assert ParamRule(SkipSpace(SkipSpace(s))) == ParamRule(s) by {
      SkippedParam(s);
      SkippedParam(SkipSpace(s));
    }
    assert raws[1..] == more;
    Assoc(RenderParam(raw), RenderMore(more), u);
  }

  /** A template match is the print of a valid raw template that strips to the match. */
  lemma {:induction false} TemplateSource(s: string) returns (raw: Template)
    requires TemplateRule(s).Match?
    ensures ValidTemplate(raw)
    ensures SkipSpace(s) == Render(raw) + TemplateRule(s).rest && Stripped(raw) == TemplateRule(s).value
  {
    var o := SkipSpace(s);
    var name, u := LexemeSource(o[2..], NAME_STOPS);
    assert TypeRule(SkipSpace(o[2..])) == Match(SkipSpace(name), u) && SkipSpace(u) == u;
    assert !Blank(name) by { NonBlankSkips(name); }
    var params, v := ParamsSource(u[1..]);
    assert SkipSpace(v) == v;
    raw := Template(name, params);
    TemplateJoins(o, raw, u, v);
  }

  lemma TemplateJoins(o: string, raw: Template, u: string, v: string)
    requires raw.params != [] && OPEN <= o && o[2..] == raw.name + u
    requires "|" <= u && u[1..] == RenderParams(raw.params) + v && CLOSE <= v
    ensures o == Render(raw) + v[2..]
  {
    Split(o, 2, OPEN);
    Split(u, 1, "|");
    Split(v, 2, CLOSE);
    RenderJoin(raw, v[2..]);
  }

  lemma RenderJoin(raw: Template, rest: string)
    requires raw.params != []
    ensures OPEN + (raw.name + ("|" + (RenderParams(raw.params) + (CLOSE + rest)))) == Render(raw) + rest
  {
    var ps := RenderParams(raw.params);
    Assoc(OPEN + raw.name + "|" + ps, CLOSE, rest);
    Assoc(OPEN + raw.name + "|", ps, CLOSE + rest);
    Assoc(OPEN + raw.name, "|", ps + (CLOSE + rest));
    Assoc(OPEN, raw.name, "|" + (ps + (CLOSE + rest)));
  }
}
