/**
  The template grammar, as an explicit recursive-descent parser.

  A rule takes the text still to be read and either fails or gives its attribute and the text it
  leaves. Every piece is greedy and is never retried with less. The white-space skipper runs before
  each element of a sequence and before each repetition; inside a lexeme it is off.
 */
module Wikitext {
  import opened Wrappers
  import opened Numbers

  datatype Param = Param(key: string, value: Option<string>)

  datatype Template = Template(name: string, params: seq<Param>)

  datatype Parsed<+T> = Fail | Match(value: T, rest: string)

  const OPEN := "{{"
  const CLOSE := "}}"
  const NAME_STOPS := {'|'}
  const KEY_STOPS := {'=', '|', '}'}
  const VALUE_STOPS := {'|', '}'}

  /** The longest prefix of `s` without a stop character: the body of each lexeme. */
  function Take(s: string, stops: set<char>): (r: string)
    ensures |r| <= |s|
  {
    if s == [] || s[0] in stops then "" else [s[0]] + Take(s[1..], stops)
  }

  predicate Free(s: string, stops: set<char>) {
    forall i :: 0 <= i < |s| ==> s[i] !in stops
  }

  function Literal(lit: string, s: string): Parsed<()> {
    if lit <= s then Match((), s[|lit|..]) else Fail
  }

  function TypeRule(s: string): (r: Parsed<string>)
    ensures r.Match? ==> |r.rest| < |s|
  {
    var name := Take(s, NAME_STOPS);
    if name == "" then Fail else Match(name, s[|name|..])
  }

  function KeyRule(s: string): (r: Parsed<string>)
    ensures r.Match? && |r.rest| <= |s|
  {
    var key := Take(s, KEY_STOPS);
    Match(key, s[|key|..])
  }

  function ValueRule(s: string): (r: Parsed<string>)
    ensures r.Match? ==> |r.rest| < |s|
  {
    match Literal("=", SkipSpace(s))
    case Fail => Fail
    case Match(_, t) =>
      var u := SkipSpace(t);
      var value := Take(u, VALUE_STOPS);
      Match(value, u[|value|..])
  }

  function ParamRule(s: string): (r: Parsed<Param>)
    ensures r.Match? && |r.rest| <= |s|
  {
    var key := KeyRule(SkipSpace(s));
    var t := SkipSpace(key.rest);
    match ValueRule(t)
    case Fail => Match(Param(key.value, None), t)
    case Match(value, rest) => Match(Param(key.value, Some(value)), rest)
  }

  /** What follows the first parameter of a list: separators and further parameters. */
  function MoreParams(s: string): (r: Parsed<seq<Param>>)
    ensures r.Match? && |r.rest| <= |s|
    decreases |s|
  {
    match Literal("|", SkipSpace(s))
    case Fail => Match([], s)
    case Match(_, t) =>
      var p := ParamRule(SkipSpace(t));
      var more := MoreParams(p.rest);
      Match([p.value] + more.value, more.rest)
  }

  function ParamList(s: string): (r: Parsed<seq<Param>>)
    ensures r.Match? && |r.rest| <= |s|
  {
    var p := ParamRule(SkipSpace(s));
    var more := MoreParams(p.rest);
    Match([p.value] + more.value, more.rest)
  }

  function TemplateRule(s: string): (r: Parsed<Template>)
    ensures r.Match? ==> |r.rest| < |s|
  {
    match Literal(OPEN, SkipSpace(s))
    case Fail => Fail
    case Match(_, t) =>
      match TypeRule(SkipSpace(t))
      case Fail => Fail
      case Match(name, u) =>
        match Literal("|", SkipSpace(u))
        case Fail => Fail
        case Match(_, v) =>
          var params := ParamList(SkipSpace(v));
          match Literal(CLOSE, SkipSpace(params.rest))
          case Fail => Fail
          case Match(_, rest) => Match(Template(name, params.value), rest)
  }

  /** Skips characters up to the next "{{"; an iteration that fails gives its white space back. */
  function SkipToTemplate(s: string): (r: string)
    ensures |r| <= |s|
    decreases |s|
  {
    var t := SkipSpace(s);
    if OPEN <= t || t == "" then s else SkipToTemplate(t[1..])
  }

  /** The top rule: junk and a template, again and again. It never fails. */
  function WikitextRule(s: string): (r: Parsed<seq<Template>>)
    ensures r.Match?
    decreases |s|
  {
    var t := SkipSpace(s);
    match TemplateRule(SkipSpace(SkipToTemplate(t)))
    case Fail => Match([], s)
    case Match(template, rest) =>
      var more := WikitextRule(rest);
      Match([template] + more.value, more.rest)
  }

  /** The templates `prefix_parse` finds in a text. */
  function Templates(text: string): seq<Template> {
    WikitextRule(SkipSpace(text)).value
  }
}
