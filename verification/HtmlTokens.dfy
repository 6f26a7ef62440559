/** The pieces a page is put together from, how they nest, and what a reader sees of the
    text they spell. */
module HtmlTokens {
  /** An element the renderer opens and closes. */
  datatype Element = Anchor(uri: string) | Monospace | Division(style: string)

  /** One append to a buffer. */
  datatype Token = Chr(c: char) | Text(s: string) | Open(e: Element) | Close(e: Element)

  // --------------------------------------------------------------------- as a string

  function EscapeChar(c: char): string {
    match c case '<' => "&lt;" case '>' => "&gt;" case '&' => "&amp;" case _ => [c]
  }

  function Escape(s: string): string {
    if |s| == 0 then "" else EscapeChar(s[0]) + Escape(s[1..])
  }

  function TokenText(t: Token): string {
    match t
    case Chr(c) => EscapeChar(c)
    case Text(s) => s
    case _ => "<" + TagBody(t) + ">"
  }

  /** The inside of a tag. */
  function TagBody(t: Token): string
    requires t.Open? || t.Close?
  {
    match t
    case Open(Anchor(uri)) => "a href=\"" + (Escape(uri) + "\"")
    case Open(Monospace) => "tt"
    case Open(Division(style)) => "div class=\"" + (style + "\"")
    case Close(Anchor(_)) => "/a"
    case Close(Monospace) => "/tt"
    case Close(Division(_)) => "/div"
  }

  function Flatten(ts: seq<Token>): string {
    if |ts| == 0 then "" else Flatten(ts[..|ts| - 1]) + TokenText(ts[|ts| - 1])
  }

  // ------------------------------------------------------------------------- nesting

  /** The elements still open after some tokens, outermost first, if every close matched. */
  datatype Nesting = Broken | Opened(es: seq<Element>)

  function NestStep(n: Nesting, t: Token): Nesting {
    match n
    case Broken => Broken
    case Opened(es) =>
      match t
      case Chr(_) => n
      case Text(_) => n
      case Open(e) => Opened(es + [e])
      case Close(e) => if |es| > 0 && es[|es| - 1] == e then Opened(es[..|es| - 1]) else Broken
  }

  function Nest(ts: seq<Token>): Nesting {
    if |ts| == 0 then Opened([]) else NestStep(Nest(ts[..|ts| - 1]), ts[|ts| - 1])
  }

  /** Every close matches the innermost open element, and nothing stays open. */
  predicate Balanced(ts: seq<Token>) { Nest(ts) == Opened([]) }

  /** A character of the text, and the elements around it where it is shown. */
  datatype Glyph = Glyph(c: char, inside: seq<Element>)

  function GlyphOf(n: Nesting, t: Token): seq<Glyph> {
    if t.Chr? && n.Opened? then [Glyph(t.c, n.es)] else []
  }

  function Glyphs(ts: seq<Token>): seq<Glyph> {
    if |ts| == 0 then [] else Glyphs(ts[..|ts| - 1]) + GlyphOf(Nest(ts[..|ts| - 1]), ts[|ts| - 1])
  }

  lemma {:induction false} AppendToken(ts: seq<Token>, t: Token)
    ensures Glyphs(ts + [t]) == Glyphs(ts) + GlyphOf(Nest(ts), t)
    ensures Nest(ts + [t]) == NestStep(Nest(ts), t)
  {
    assert (ts + [t])[..|ts|] == ts;
  }

  lemma {:induction false} OpenToken(ts: seq<Token>, es: seq<Element>, e: Element)
    requires Nest(ts) == Opened(es)
    ensures Nest(ts + [Open(e)]) == Opened(es + [e]) && Glyphs(ts + [Open(e)]) == Glyphs(ts)
  {
    AppendToken(ts, Open(e));
    hide Nest, Glyphs;
  }

  lemma {:induction false} CloseToken(ts: seq<Token>, es: seq<Element>, e: Element)
    requires Nest(ts) == Opened(es + [e])
    ensures Nest(ts + [Close(e)]) == Opened(es) && Glyphs(ts + [Close(e)]) == Glyphs(ts)
  {
    AppendToken(ts, Close(e));
    hide Nest, Glyphs;
    assert (es + [e])[..|es|] == es;
  }

  /** The same characters with more elements around them. */
  function Under(es: seq<Element>, gs: seq<Glyph>): seq<Glyph> {
    if |gs| == 0 then []
    else Under(es, gs[..|gs| - 1]) + [Glyph(gs[|gs| - 1].c, es + gs[|gs| - 1].inside)]
  }

  lemma {:induction false} UnderNothing(gs: seq<Glyph>)
    ensures Under([], gs) == gs
  {
    if |gs| > 0 {
      UnderNothing(gs[..|gs| - 1]);
      var last := gs[|gs| - 1];
      assert [] + last.inside == last.inside;
      assert gs == gs[..|gs| - 1] + [last];
    }
  }

  lemma {:induction false} UnderAppend(es: seq<Element>, a: seq<Glyph>, b: seq<Glyph>)
    ensures Under(es, a + b) == Under(es, a) + Under(es, b)
    decreases |b|
  {
    if |b| == 0 {
      assert a + b == a;
    } else {
      assert (a + b)[..|a + b| - 1] == a + b[..|b| - 1];
      UnderAppend(es, a, b[..|b| - 1]);
    }
  }

  lemma {:induction false} StepBelow(es: seq<Element>, fs: seq<Element>, t: Token)
    requires NestStep(Opened(fs), t).Opened?
    ensures NestStep(Opened(es + fs), t) == Opened(es + NestStep(Opened(fs), t).es)
  {
    if t.Close? { assert (es + fs)[..|es + fs| - 1] == es + fs[..|fs| - 1]; }
    if t.Open? { assert (es + fs) + [t.e] == es + (fs + [t.e]); }
  }

  lemma {:induction false} NestAppend(a: seq<Token>, b: seq<Token>)
    requires Nest(a).Opened? && Nest(b).Opened?
    ensures Nest(a + b) == Opened(Nest(a).es + Nest(b).es)
    decreases |b|
  {
    if |b| == 0 {
      assert a + b == a;
    } else {
      var t, front := b[|b| - 1], b[..|b| - 1];
      assert (a + b)[..|a + b| - 1] == a + front;
      assert Nest(a + b) == NestStep(Nest(a + front), t);
      assert Nest(b) == NestStep(Nest(front), t) && Nest(front).Opened?;
      hide Nest;
      NestAppend(a, front);
      StepBelow(Nest(a).es, Nest(front).es, t);
    }
  }

  lemma {:induction false} GlyphsAppend(a: seq<Token>, b: seq<Token>)
    requires Nest(a).Opened? && Nest(b).Opened?
    ensures Glyphs(a + b) == Glyphs(a) + Under(Nest(a).es, Glyphs(b))
    decreases |b|
  {
    if |b| == 0 {
      assert Under(Nest(a).es, Glyphs(b)) == [];
      hide Nest, Glyphs, Under;
      assert a + b == a;
    } else {
      hide Nest, Glyphs, Under;
      var t, front := b[|b| - 1], b[..|b| - 1];
      assert b == front + [t];
      AppendToken(front, t);
      BrokenStays(Nest(front), t);
      GlyphsAppend(a, front);
      OneMoreGlyph(a, front, t);
    }
  }

  lemma {:induction false} OneMoreGlyph(a: seq<Token>, front: seq<Token>, t: Token)
    requires Nest(a).Opened? && Nest(front).Opened?
    requires Glyphs(a + front) == Glyphs(a) + Under(Nest(a).es, Glyphs(front))
    ensures Glyphs(a + (front + [t])) == Glyphs(a) + Under(Nest(a).es, Glyphs(front + [t]))
  {
    hide Nest, Glyphs, Under, GlyphOf, NestStep;
    AppendToken(a + front, t);
    AppendToken(front, t);
    NestAppend(a, front);
    var es, seen, g := Nest(a).es, Glyphs(front), GlyphOf(Nest(front), t);
    UnderAppend(es, seen, g);
    UnderGlyph(es, Nest(front).es, t);
    assert a + (front + [t]) == (a + front) + [t];
  }

  lemma {:induction false} BrokenStays(n: Nesting, t: Token)
    ensures NestStep(n, t).Opened? ==> n.Opened?
  {
  }

  lemma {:induction false} UnderGlyph(es: seq<Element>, fs: seq<Element>, t: Token)
    ensures Under(es, GlyphOf(Opened(fs), t)) == GlyphOf(Opened(es + fs), t)
  {
    if t.Chr? { assert [Glyph(t.c, fs)][..0] == []; }
  }

  lemma {:induction false} NestOne(t: Token)
    ensures Nest([t]) == NestStep(Opened([]), t) && Glyphs([t]) == GlyphOf(Opened([]), t)
  {
    AppendToken([], t);
    assert [] + [t] == [t];
  }

  /** Wrapping balanced content in an element keeps it balanced and puts all of it inside. */
  lemma {:induction false} Wrapped(e: Element, content: seq<Token>)
    requires Balanced(content)
    ensures Balanced([Open(e)] + content + [Close(e)])
    ensures Glyphs([Open(e)] + content + [Close(e)]) == Under([e], Glyphs(content))
  {
    hide Nest, Glyphs, Under;
    var open := [Open(e)];
    NestOne(Open(e));
    assert Nest(open) == Opened([e]) && Glyphs(open) == [];
    NestAppend(open, content);
    GlyphsAppend(open, content);
    assert [e] + [] == [e];
    assert [] + Under([e], Glyphs(content)) == Under([e], Glyphs(content));
    AppendToken(open + content, Close(e));
    assert NestStep(Opened([e]), Close(e)) == Opened([]);
    assert Under([e], Glyphs(content)) + [] == Under([e], Glyphs(content));
  }

  // -------------------------------------------------------------- what a reader sees

  /** The position behind the first '>', or the end. */
  function PastTag(html: string): (k: nat)
    requires |html| > 0
    ensures 0 < k <= |html|
  {
    if html[0] == '>' || |html| == 1 then 1 else 1 + PastTag(html[1..])
  }

  /** A page without its tags and with its entities decoded. */
  function Visible(html: string): string
    decreases |html|
  {
    if |html| == 0 then ""
    else if html[0] == '<' then Visible(html[PastTag(html)..])
    else if "&lt;" <= html then "<" + Visible(html[4..])
    else if "&gt;" <= html then ">" + Visible(html[4..])
    else if "&amp;" <= html then "&" + Visible(html[5..])
    else [html[0]] + Visible(html[1..])
  }

  /** The characters and titles among the tokens. */
  function TextOf(ts: seq<Token>): string {
    if |ts| == 0 then "" else TextOf(ts[..|ts| - 1]) + ShownBy(ts[|ts| - 1])
  }

  function ShownBy(t: Token): string {
    match t case Chr(c) => [c] case Text(s) => s case _ => ""
  }

  /** Titles are plain words, and styles are escaped, as their users promise. */
  predicate Plain(t: Token) {
    match t
    case Text(s) => '<' !in s && '&' !in s
    case Open(Division(style)) => '<' !in style && '>' !in style
    case _ => true
  }

  lemma {:induction false} EscapedIsQuiet(s: string)
    ensures '<' !in Escape(s) && '>' !in Escape(s)
  {
    if |s| > 0 { EscapedIsQuiet(s[1..]); }
  }

  lemma {:induction false} TagEnds(body: string, rest: string)
    requires '>' !in body
    ensures PastTag(body + [ '>' ] + rest) == |body| + 1
  {
    var html := body + ['>'] + rest;
    if |body| > 0 {
      TagEnds(body[1..], rest);
      assert html[1..] == body[1..] + ['>'] + rest;
      assert html[0] == body[0];
    }
  }

  lemma {:induction false} SkipsTag(body: string, rest: string)
    requires '>' !in body
    ensures Visible("<" + body + ">" + rest) == Visible(rest)
  {
    var html := "<" + body + ">" + rest;
    TagEnds("<" + body, rest);
    assert html == ("<" + body) + ['>'] + rest;
    assert html[|body| + 2..] == rest;
  }

  lemma {:induction false} ReadsChar(c: char, rest: string)
    ensures Visible(EscapeChar(c) + rest) == [c] + Visible(rest)
  {
    var html := EscapeChar(c) + rest;
    assert html[|EscapeChar(c)|..] == rest;
    assert html[0] == EscapeChar(c)[0];
    if c == '>' { assert html[1] == 'g' && "&lt;"[1] == 'l'; }
    if c == '&' { assert html[1] == 'a' && "&lt;"[1] == 'l' && "&gt;"[1] == 'g'; }
  }

  lemma {:induction false} ReadsPlain(s: string, rest: string)
    requires '<' !in s && '&' !in s
    ensures Visible(s + rest) == s + Visible(rest)
    decreases |s|
  {
    if |s| == 0 {
      assert s + rest == rest;
    } else {
      hide Visible;
      ReadsFirst(s + rest);
      assert (s + rest)[1..] == s[1..] + rest;
      ReadsPlain(s[1..], rest);
      Regroup([s[0]], s[1..], Visible(rest));
      assert [s[0]] + s[1..] == s;
    }
  }

  lemma {:induction false} ReadsFirst(html: string)
    requires |html| > 0 && html[0] != '<' && html[0] != '&'
    ensures Visible(html) == [html[0]] + Visible(html[1..])
  {
  }

  predicate Quiet(s: string) { '<' !in s && '>' !in s }

  lemma {:induction false} BothQuiet(a: string, b: string)
    requires Quiet(a) && Quiet(b)
    ensures Quiet(a + b)
  {
  }

  lemma {:induction false} TagIsQuiet(t: Token)
    requires (t.Open? || t.Close?) && Plain(t)
    ensures Quiet(TagBody(t))
  {
    if t.Open? && !t.e.Monospace? {
      var quoted := if t.e.Anchor? then Escape(t.e.uri) else t.e.style;
      if t.e.Anchor? { EscapedIsQuiet(t.e.uri); }
      assert Quiet("\"") && Quiet("a href=\"") && Quiet("div class=\"");
      hide Quiet, Escape;
      BothQuiet(quoted, "\"");
      BothQuiet(if t.e.Anchor? then "a href=\"" else "div class=\"", quoted + "\"");
    }
  }

  lemma {:induction false} ReadsToken(t: Token, rest: string)
    requires Plain(t)
    ensures Visible(TokenText(t) + rest) == ShownBy(t) + Visible(rest)
  {
    match t
    case Chr(c) => ReadsChar(c, rest);
    case Text(s) => ReadsPlain(s, rest);
    case _ =>
      TagIsQuiet(t);
      SkipsTag(TagBody(t), rest);
      assert "" + Visible(rest) == Visible(rest);
  }

  lemma {:induction false} ReadsOneMore(html: string, seen: string, t: Token, rest: string)
    requires Plain(t) && Visible(html + (TokenText(t) + rest)) == seen + Visible(TokenText(t) + rest)
    ensures Visible(html + TokenText(t) + rest) == seen + ShownBy(t) + Visible(rest)
  {
    hide *;
    ReadsToken(t, rest);
    Regroup(html, TokenText(t), rest);
    Regroup(seen, ShownBy(t), Visible(rest));
  }

  lemma {:induction false} Regroup(a: string, b: string, c: string)
    ensures a + b + c == a + (b + c)
  {
  }

  lemma {:induction false} ReadsOn(ts: seq<Token>, rest: string)
    requires forall t | t in ts :: Plain(t)
    ensures Visible(Flatten(ts) + rest) == TextOf(ts) + Visible(rest)
    decreases |ts|
  {
    if |ts| == 0 {
      hide Visible;
      assert Flatten(ts) + rest == rest && TextOf(ts) + Visible(rest) == Visible(rest);
    } else {
      var front, last := ts[..|ts| - 1], ts[|ts| - 1];
      assert Plain(last) && forall t | t in front :: Plain(t);
      hide Visible, Plain, TokenText, ShownBy;
      ReadsOn(front, TokenText(last) + rest);
      ReadsOneMore(Flatten(front), TextOf(front), last, rest);
    }
  }

  /** A reader sees exactly the characters and titles: escaping hides nothing and adds
      nothing. */
  lemma {:induction false} FlattenReads(ts: seq<Token>)
    requires forall t | t in ts :: Plain(t)
    ensures Visible(Flatten(ts)) == TextOf(ts)
  {
    ReadsOn(ts, "");
    assert Flatten(ts) + "" == Flatten(ts) && TextOf(ts) + Visible("") == TextOf(ts);
  }

  /** A tag token starts at position `p` of the page. */
  ghost predicate TagStarts(ts: seq<Token>, p: nat) {
    exists k | 0 <= k < |ts| :: (ts[k].Open? || ts[k].Close?) && p == |Flatten(ts[..k])|
  }

  /** The only '<' of a page are those that begin its tags. */
  lemma {:induction false} LessStartsTag(ts: seq<Token>, p: nat)
    requires (forall t | t in ts :: Plain(t)) && p < |Flatten(ts)|
    ensures Flatten(ts)[p] == '<' <==> TagStarts(ts, p)
  {
    var n := |ts| - 1;
    var front, last := ts[..n], ts[n];
    var before := Flatten(front);
    assert forall k | 0 <= k < n :: front[..k] == ts[..k];
    if p < |before| {
      LessStartsTag(front, p);
      assert Flatten(ts)[p] == before[p];
      if TagStarts(front, p) {
        var k :| 0 <= k < n && (front[k].Open? || front[k].Close?) && p == |Flatten(front[..k])|;
        assert ts[k] == front[k] && p == |Flatten(ts[..k])|;
      }
      if TagStarts(ts, p) {
        var k :| 0 <= k <= n && (ts[k].Open? || ts[k].Close?) && p == |Flatten(ts[..k])|;
        assert k < n && front[k] == ts[k] && p == |Flatten(front[..k])|;
      }
    } else {
      LastTag(last, p - |before|);
      assert Flatten(ts)[p] == TokenText(last)[p - |before|];
      assert p == |before| && (last.Open? || last.Close?) ==> TagStarts(ts, p);
      if TagStarts(ts, p) {
        var k :| 0 <= k <= n && (ts[k].Open? || ts[k].Close?) && p == |Flatten(ts[..k])|;
        if k < n { TagHasText(ts, k, n); }
        assert k == n;
      }
    }
  }

  lemma {:induction false} LastTag(t: Token, i: nat)
    requires Plain(t) && i < |TokenText(t)|
    ensures TokenText(t)[i] == '<' <==> i == 0 && (t.Open? || t.Close?)
  {
    if t.Open? || t.Close? {
      TagIsQuiet(t);
      var body := TagBody(t);
      hide TagBody;
      assert i > |body| ==> TokenText(t)[i] == '>';
      assert 0 < i <= |body| ==> TokenText(t)[i] == body[i - 1];
    }
  }

  lemma {:induction false} TagHasText(ts: seq<Token>, k: nat, n: nat)
    requires k < n <= |ts| && (ts[k].Open? || ts[k].Close?)
    ensures |Flatten(ts[..k])| < |Flatten(ts[..n])|
    decreases n
  {
    assert ts[..n][..n - 1] == ts[..n - 1];
    if k < n - 1 { TagHasText(ts, k, n - 1); }
  }

  // ------------------------------------------------------------------- link targets

  /** The text up to the first quote. */
  function Quoted(s: string): string {
    if |s| == 0 || s[0] == '"' then "" else [s[0]] + Quoted(s[1..])
  }

  const HREF: string := "<a href=\""

  /** The target that a reader finds in the opening tag of a link. */
  function HrefOf(tag: string): string {
    if HREF <= tag then Visible(Quoted(tag[|HREF|..])) else ""
  }

  lemma {:induction false} HrefTag(uri: string)
    ensures TokenText(Open(Anchor(uri))) == HREF + (Escape(uri) + "\"" + ">")
  {
    hide Escape;
    assert HREF == "<" + "a href=\"";
  }

  lemma {:induction false} QuotedEscape(uri: string, rest: string)
    ensures Quoted(Escape(uri) + "\"" + rest) == Escape(Quoted(uri))
  {
    if |uri| == 0 {
      assert Escape(uri) + "\"" + rest == "\"" + rest;
    } else {
      var c, tail := uri[0], Escape(uri[1..]) + "\"" + rest;
      QuotedEscape(uri[1..], rest);
      assert Escape(uri) + "\"" + rest == EscapeChar(c) + tail;
      QuotedChar(c, tail);
      if c != '"' {
        assert Quoted(uri) == [c] + Quoted(uri[1..]);
        assert ([c] + Quoted(uri[1..]))[1..] == Quoted(uri[1..]);
      }
    }
  }

  lemma {:induction false} QuotedChar(c: char, rest: string)
    ensures Quoted(EscapeChar(c) + rest) == if c == '"' then "" else EscapeChar(c) + Quoted(rest)
  {
    QuotedPlain(EscapeChar(c), rest);
  }

  lemma {:induction false} QuotedPlain(s: string, rest: string)
    ensures '"' !in s ==> Quoted(s + rest) == s + Quoted(rest)
    ensures |s| > 0 && s[0] == '"' ==> Quoted(s + rest) == ""
  {
    if |s| == 0 {
      assert s + rest == rest;
    } else {
      QuotedPlain(s[1..], rest);
      assert (s + rest)[1..] == s[1..] + rest;
    }
  }

  lemma {:induction false} EscapeReads(s: string)
    ensures Visible(Escape(s)) == s
  {
    if |s| > 0 {
      EscapeReads(s[1..]);
      ReadsChar(s[0], Escape(s[1..]));
    }
  }

  lemma {:induction false} QuotedIsWhole(s: string)
    ensures Quoted(s) == s <==> '"' !in s
    ensures |Quoted(s)| <= |s|
  {
    if |s| > 0 { QuotedIsWhole(s[1..]); }
  }

  /** A quote in a target is written as it is: the target is read back exactly when it
      has none. */
  lemma {:induction false} HrefReadsBack(uri: string)
    ensures HrefOf(TokenText(Open(Anchor(uri)))) == uri <==> '"' !in uri
  {
    var tag := TokenText(Open(Anchor(uri)));
    assert tag == HREF + (Escape(uri) + "\"" + ">") by { HrefTag(uri); }
    assert tag[|HREF|..] == Escape(uri) + "\"" + ">";
    QuotedEscape(uri, ">");
    EscapeReads(Quoted(uri));
    QuotedIsWhole(uri);
  }

  /** The target `a"b` is read back as `a`. */
  lemma {:induction false} QuoteCutsHref()
    ensures HrefOf(TokenText(Open(Anchor("a\"b")))) == "a"
  {
    var uri := "a\"b";
    var tag := TokenText(Open(Anchor(uri)));
    assert tag == HREF + (Escape(uri) + "\"" + ">") by { HrefTag(uri); }
    assert tag[|HREF|..] == Escape(uri) + "\"" + ">";
    QuotedEscape(uri, ">");
    EscapeReads(Quoted(uri));
    assert uri[1..] == "\"b";
    assert Quoted(uri) == ['a'] + Quoted("\"b");
  }
}
