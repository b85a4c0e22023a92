/**
  Whole texts: what the top rule finds is exactly what printing junk and templates put there.
 */
module WikitextMeaning {
  import opened Wrappers
  import opened Numbers
  import opened Wikitext
  import opened TemplatePrinter

  /** Every opening brace of a junk text is followed, inside it, by something else. */
  predicate ValidJunk(j: string) {
    forall i :: 0 <= i < |j| && j[i] == '{' ==> i + 1 < |j| && j[i + 1] != '{'
  }

  /** A stretch of text: junk, then a printed raw template. */
  datatype Piece = Piece(junk: string, raw: Template)

  predicate ValidPiece(p: Piece) {
    ValidJunk(p.junk) && ValidTemplate(p.raw)
  }

  predicate ValidPieces(ps: seq<Piece>) {
    forall i :: 0 <= i < |ps| ==> ValidPiece(ps[i])
  }

  function RenderPiece(p: Piece): string
    requires ValidPiece(p)
  {
    p.junk + Render(p.raw)
  }

  function RenderPieces(ps: seq<Piece>): string
    requires ValidPieces(ps)
  {
    if ps == [] then "" else RenderPiece(ps[0]) + RenderPieces(ps[1..])
  }

  function StrippedPieces(ps: seq<Piece>): (r: seq<Template>)
    ensures |r| == |ps|
  {
    if ps == [] then [] else [Stripped(ps[0].raw)] + StrippedPieces(ps[1..])
  }

  ghost predicate StartsWith(text: string, p: Piece) {
    ValidPiece(p) && RenderPiece(p) <= text
  }

  /** Some template, after some junk, starts the text. */
  ghost predicate Opens(text: string) {
    exists p :: StartsWith(text, p)
  }

  // ---- Junk ----

  /** The skip of one repetition of the top rule. */
  function SkipJunk(s: string): string {
    SkipSpace(SkipToTemplate(SkipSpace(s)))
  }

  lemma {:induction false} SkipToTemplateRead(junk: string, rest: string)
    requires ValidJunk(junk) && OPEN <= rest
    ensures SkipSpace(SkipToTemplate(junk + rest)) == rest
    decreases |junk|
  {
    var j := SkipSpace(junk);
    assert SkipSpace(junk + rest) == j + rest by { SkipSpaceBefore(junk, rest); }
    assert ValidJunk(j) by {
      SkipSpaceIsSuffix(junk);
      JunkSuffix(junk, |junk| - |j|);
    }
    if j != "" {
      assert ValidJunk(j[1..]) by { JunkSuffix(j, 1); }
      assert (j + rest)[1..] == j[1..] + rest;
      JunkDoesNotOpen(j, rest);
      SkipToTemplateRead(j[1..], rest);
    } else {
      assert "" + rest == rest;
    }
  }

  lemma JunkDoesNotOpen(j: string, rest: string)
    requires ValidJunk(j) && j != ""
    ensures !(OPEN <= j + rest)
  {
    var s := j + rest;
    assert s[0] == j[0] && (|j| > 1 ==> s[1] == j[1]);
    assert OPEN[0] == '{' && OPEN[1] == '{';
  }

  lemma JunkSuffix(junk: string, n: nat)
    requires ValidJunk(junk) && n <= |junk|
    ensures ValidJunk(junk[n..])
  {
    forall i | 0 <= i < |junk| - n && junk[n..][i] == '{'
      ensures i + 1 < |junk| - n && junk[n..][i + 1] != '{'
    {
      assert junk[n + i] == '{';
    }
  }

  /** Junk is skipped up to the braces that follow it. */
  lemma JunkRead(junk: string, rest: string)
    requires ValidJunk(junk) && OPEN <= rest
    ensures SkipJunk(junk + rest) == rest
  {
    SkipSpaceBefore(junk, rest);
    SkipSpaceIsSuffix(junk);
    JunkSuffix(junk, |junk| - |SkipSpace(junk)|);
    SkipToTemplateRead(SkipSpace(junk), rest);
  }

  /** What is skipped is junk: either the first braces are reached or the text has none. */
  ghost predicate JunkOf(s: string, junk: string, rest: string) {
    s == junk + rest && (rest == "" || (OPEN <= rest && ValidJunk(junk)))
  }

  lemma {:induction false} SkipToTemplateSource(s: string) returns (junk: string)
    ensures JunkOf(s, junk, SkipSpace(SkipToTemplate(s)))
    decreases |s|
  {
    var t := SkipSpace(s);
    SkipSpaceIsSuffix(s);
    var blank := s[..|s| - |t|];
    if OPEN <= t || t == "" {
      junk := blank;
    } else {
      var more := SkipToTemplateSource(t[1..]);
      var rest := SkipSpace(SkipToTemplate(t[1..]));
      junk := blank + ([t[0]] + more);
      Split(t, 1, [t[0]]);
      Assoc([t[0]], more, rest);
      Assoc(blank, [t[0]] + more, rest);
      if rest != "" {
        JunkJoins(blank, t, more, rest);
      }
    }
  }

  lemma JunkJoins(blank: string, t: string, more: string, rest: string)
    requires Blank(blank) && ValidJunk(more) && OPEN <= rest
    requires t != "" && t[1..] == more + rest && !(OPEN <= t)
    ensures ValidJunk(blank + ([t[0]] + more))
  {
    var junk := blank + ([t[0]] + more);
    forall i | 0 <= i < |junk| && junk[i] == '{'
      ensures i + 1 < |junk| && junk[i + 1] != '{'
    {
      assert i >= |blank|;
      if i == |blank| {
        assert t[1] == (more + rest)[0];
        assert t[0] == '{' && t[1] != '{' && more != "";
        assert junk[i + 1] == more[0];
      } else {
        assert junk[i] == more[i - |blank| - 1];
        assert junk[i + 1] == more[i - |blank|];
      }
    }
  }

  lemma JunkSource(s: string) returns (junk: string)
    ensures JunkOf(s, junk, SkipJunk(s))
  {
    var t := SkipSpace(s);
    SkipSpaceIsSuffix(s);
    var blank := s[..|s| - |t|];
    var more := SkipToTemplateSource(t);
    junk := blank + more;
    Assoc(blank, more, SkipJunk(s));
    if ValidJunk(more) {
      forall i | 0 <= i < |junk| && junk[i] == '{' ensures i + 1 < |junk| && junk[i + 1] != '{' {
        assert i >= |blank| && junk[i] == more[i - |blank|];
        assert junk[i + 1] == more[i - |blank| + 1];
      }
    }
  }

  // ---- Texts ----

  /** The list found is that of the first repetition followed by those of the text it leaves. */
  lemma TemplatesStep(text: string)
    ensures Templates(text) ==
            match TemplateRule(SkipJunk(text))
            case Fail => []
            case Match(template, rest) => [template] + Templates(rest)
  {
    SkipSpaceIsIdempotent(text);
    if TemplateRule(SkipJunk(text)).Match? {
      WikitextSkipped(TemplateRule(SkipJunk(text)).rest);
    }
  }

  lemma WikitextSkipped(s: string)
    ensures WikitextRule(SkipSpace(s)).value == WikitextRule(s).value
  {
    SkipSpaceIsIdempotent(s);
  }

  lemma RenderOpens(t: Template)
    requires t.params != []
    ensures OPEN <= Render(t) && |Render(t)| >= 5 + |t.name|
  {}

  /** A printed piece gives its template, stripped, followed by whatever the rest of the text gives. */
  lemma PieceRead(p: Piece, tail: string)
    requires ValidPiece(p)
    ensures Templates(RenderPiece(p) + tail) == [Stripped(p.raw)] + Templates(tail)
  {
    var t := Render(p.raw) + tail;
    Assoc(p.junk, Render(p.raw), tail);
    RenderOpens(p.raw);
    JunkRead(p.junk, t);
    TemplateRead(p.raw, tail);
    TemplatesStep(p.junk + t);
  }

  /** Round trip: a printed document gives its templates, stripped, then those of the tail. */
  lemma {:induction false} PiecesRead(ps: seq<Piece>, tail: string)
    requires ValidPieces(ps)
    ensures Templates(RenderPieces(ps) + tail) == StrippedPieces(ps) + Templates(tail)
  {
    if ps == [] {
      assert RenderPieces(ps) + tail == tail;
    } else {
      var text := RenderPieces(ps[1..]) + tail;
      assert RenderPieces(ps) + tail == RenderPiece(ps[0]) + text by {
        Assoc(RenderPiece(ps[0]), RenderPieces(ps[1..]), tail);
      }
      PieceRead(ps[0], text);
      PiecesRead(ps[1..], tail);
      Assoc([Stripped(ps[0].raw)], StrippedPieces(ps[1..]), Templates(tail));
    }
  }

  /** A text gives no template exactly when none starts it. */
  lemma NothingFound(text: string)
    ensures Templates(text) == [] <==> !Opens(text)
  {
    TemplatesStep(text);
    if Opens(text) {
      var p :| StartsWith(text, p);
      Split(text, |RenderPiece(p)|, RenderPiece(p));
      PieceRead(p, text[|RenderPiece(p)|..]);
    }
    if Templates(text) != [] {
      var p, tail := FirstPiece(text);
      assert StartsWith(text, p);
    }
  }

  lemma FirstPiece(text: string) returns (p: Piece, tail: string)
    requires Templates(text) != []
    ensures ValidPiece(p) && text == RenderPiece(p) + tail
  {
    TemplatesStep(text);
    var t := SkipJunk(text);
    SkipSpaceIsIdempotent(SkipToTemplate(SkipSpace(text)));
    var junk := JunkSource(text);
    var raw := TemplateSource(t);
    RenderOpens(raw);
    tail := TemplateRule(t).rest;
    p := Piece(junk, raw);
    Assoc(junk, Render(raw), tail);
  }

  /** Every text is a printed document followed by a tail that no template starts. */
  lemma {:induction false} Decomposition(text: string) returns (ps: seq<Piece>, tail: string)
    ensures ValidPieces(ps) && text == RenderPieces(ps) + tail && !Opens(tail)
    ensures Templates(text) == StrippedPieces(ps)
    decreases |text|
  {
    if Templates(text) == [] {
      ps, tail := [], text;
      NothingFound(text);
    } else {
      var p, rest := FirstPiece(text);
      RenderOpens(p.raw);
      var more, t := Decomposition(rest);
      ps, tail := [p] + more, t;
      assert ps[1..] == more;
      Assoc(RenderPiece(p), RenderPieces(more), tail);
      PieceRead(p, rest);
    }
  }

  /** `ps` and `tail` account for the whole text. */
  ghost predicate Accounts(text: string, ps: seq<Piece>, tail: string) {
    ValidPieces(ps) && text == RenderPieces(ps) + tail && !Opens(tail)
  }

  /** The list found is exactly the one that a decomposition of the text into prints spells out. */
  lemma TemplatesExactly(text: string, found: seq<Template>)
    ensures Templates(text) == found
       <==> exists ps, tail :: Accounts(text, ps, tail) && StrippedPieces(ps) == found
  {
    var ps, tail := Decomposition(text);
    assert Accounts(text, ps, tail);
    forall qs, rest | Accounts(text, qs, rest)
      ensures StrippedPieces(qs) == Templates(text)
    {
      PiecesRead(qs, rest);
      NothingFound(rest);
    }
  }

  /** Appending text never removes or changes a template already found. */
  lemma PrefixStable(a: string, b: string)
    ensures Templates(a) <= Templates(a + b)
  {
    var ps, tail := Decomposition(a);
    PiecesRead(ps, tail + b);
    Assoc(RenderPieces(ps), tail, b);
  }

  /** Each template found consumes at least six characters. */
  lemma SixCharactersEach(text: string)
    ensures 6 * |Templates(text)| <= |text|
  {
    var ps, tail := Decomposition(text);
    PiecesSize(ps);
  }

  lemma {:induction false} PiecesSize(ps: seq<Piece>)
    requires ValidPieces(ps)
    ensures 6 * |ps| <= |RenderPieces(ps)|
  {
    if ps != [] {
      RenderOpens(ps[0].raw);
      PiecesSize(ps[1..]);
    }
  }

  /** A template with one parameter, character by character. */
  lemma OneParameter(junk: string, name: string, key: string, value: string, tail: string)
    requires ValidJunk(junk) && '|' !in name && '=' !in key && '|' !in key && '}' !in key
    requires '|' !in value && '}' !in value && name != "" && !IsSpace(name[0])
    requires (key == "" || !IsSpace(key[0])) && (value == "" || !IsSpace(value[0]))
    ensures Templates(junk + ("{{" + name + "|" + (key + ("=" + value)) + "}}") + tail)
         == [Template(name, [Param(key, Some(value))])] + Templates(tail)
  {
    var p := Param(key, Some(value));
    var t := Template(name, [p]);
    assert RenderMore([p][1..]) == "";
    assert RenderParams([p]) == key + ("=" + value) by {
      assert RenderParam(p) + "" == RenderParam(p);
    }
    assert StrippedParams([p][1..]) == [];
    assert Stripped(t) == t;
    PieceRead(Piece(junk, t), tail);
  }
}
