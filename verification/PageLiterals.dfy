/** Pages spelled out: what a text with one span over it is written as, for every kind of span,
    and in which order sections and spans come. */
module PageLiterals {
  import opened Spans
  import opened HtmlTokens
  import opened HtmlPages

  function Chrs(text: string): seq<Token> { seq(|text|, i requires 0 <= i < |text| => Chr(text[i])) }

  lemma {:induction false} FlattenJoin(a: seq<Token>, b: seq<Token>)
    ensures Flatten(a + b) == Flatten(a) + Flatten(b)
    decreases |b|
  {
    hide TokenText;
    if |b| == 0 {
      assert a + b == a;
    } else {
      assert (a + b)[..|a + b| - 1] == a + b[..|b| - 1];
      FlattenJoin(a, b[..|b| - 1]);
    }
  }

  lemma {:induction false} FlattenOne(t: Token)
    ensures Flatten([t]) == TokenText(t)
  {
    assert [t][..0] == [];
  }

  lemma {:induction false} FlattenChrs(text: string)
    ensures Flatten(Chrs(text)) == Escape(text)
  {
    if |text| > 0 {
      assert Chrs(text) == [Chr(text[0])] + Chrs(text[1..]);
      FlattenJoin([Chr(text[0])], Chrs(text[1..]));
      FlattenOne(Chr(text[0]));
      FlattenChrs(text[1..]);
    }
  }

  /** Three characters are written as entities, and no other. */
  lemma {:induction false} Entities(c: char)
    ensures Escape("<") == "&lt;" && Escape(">") == "&gt;" && Escape("&") == "&amp;"
    ensures c != '<' && c != '>' && c != '&' ==> Escape([c]) == [c]
  {
    assert "<"[1..] == "" && ">"[1..] == "" && "&"[1..] == "" && [c][1..] == "";
  }

  // ------------------------------------------------------------ one span over a text

  function Whole(text: string, sem: Semantic): seq<Span> { [Span(0, |text|, sem)] }

  lemma {:induction false} WholeAround(text: string, sem: Semantic, i: nat)
    requires i < |text|
    ensures Containing(Whole(text, sem), i) == Whole(text, sem)
    ensures Around(Whole(text, sem), i) == if i == 0 then [] else Whole(text, sem)
    ensures Kept(Whole(text, sem), i) == if i == 0 then 0 else 1
    ensures Around(Whole(text, sem), i + 1) == Whole(text, sem)
  {
    var spans := Whole(text, sem);
    assert spans[..0] == [];
    assert Containing(spans, i) == [] + spans;
    if i > 0 {
      assert Containing(spans, i - 1) == [] + spans;
      assert Staying(spans, i) == Staying([], i) + spans;
    }
  }

  lemma {:induction false} WholeMoves(text: string, sem: Semantic, b: Buffer, i: nat)
    requires i < |text|
    ensures Moving(Whole(text, sem), b, i)
         == if i == 0 && b == Main then OpenTokens(Span(0, |text|, sem)) else []
  {
    var spans := Whole(text, sem);
    WholeAround(text, sem, i);
    hide OpenTokens, CloseTokens, Around, Kept, Containing;
    assert spans[..0] == [];
    if i == 0 {
      assert Closing(b, [], 0) == [] && Opening(b, [], 0) == [];
      assert Opening(b, spans, 0) == [] + if b == Main then OpenTokens(spans[0]) else [];
    } else {
      assert Closing(b, spans, 1) == [] && Opening(b, spans, 1) == [];
    }
  }

  /** The text is written to the buffer. */
  predicate Inside(text: string, sem: Semantic, b: Buffer) {
    Shown(Whole(text, sem)) && Current(Whole(text, sem)) == b
  }

  function Front(text: string, sem: Semantic, b: Buffer): seq<Token> {
    if b == Main then OpenTokens(Span(0, |text|, sem)) else []
  }

  function Back(text: string, sem: Semantic, b: Buffer): seq<Token> {
    if b == Main then CloseTokens(Span(0, |text|, sem)) else []
  }

  function Middle(text: string, sem: Semantic, b: Buffer, i: nat): seq<Token>
    requires i <= |text|
  {
    if Inside(text, sem, b) then Chrs(text[..i]) else []
  }

  lemma {:induction false} MiddleNext(text: string, sem: Semantic, b: Buffer, i: nat)
    requires i < |text|
    ensures Middle(text, sem, b, i + 1) == Middle(text, sem, b, i) + Emitted(text, Whole(text, sem), b, i)
  {
    WholeAround(text, sem, i);
    hide Shown, Current, Containing, Around, Kept;
    assert Chrs(text[..i + 1]) == Chrs(text[..i]) + [Chr(text[i])];
  }

  lemma {:induction false} WrittenNext(text: string, spans: seq<Span>, b: Buffer, i: nat)
    requires i < |text|
    ensures Written(text, spans, b, i + 1)
         == Written(text, spans, b, i) + Moving(spans, b, i) + Emitted(text, spans, b, i)
    ensures Written(text, spans, b, 0) == []
  {
    hide Moving, Emitted;
  }

  lemma {:induction false} MiddleStarts(text: string, sem: Semantic, b: Buffer)
    ensures Middle(text, sem, b, 0) == []
  {
    assert text[..0] == "";
  }

  lemma {:induction false} WholeWritten(text: string, sem: Semantic, b: Buffer, i: nat)
    requires 0 < i <= |text|
    ensures Written(text, Whole(text, sem), b, i) == Front(text, sem, b) + Middle(text, sem, b, i)
  {
    hide Written, Moving, Emitted, OpenTokens, Middle, Whole;
    var spans, p := Whole(text, sem), i - 1;
    WrittenNext(text, spans, b, p);
    WholeMoves(text, sem, b, p);
    MiddleNext(text, sem, b, p);
    if p > 0 {
      WholeWritten(text, sem, b, p);
      Regroup(Front(text, sem, b), Middle(text, sem, b, p), Emitted(text, spans, b, p));
    } else {
      MiddleStarts(text, sem, b);
      Nothing(Front(text, sem, b), Emitted(text, spans, b, 0));
    }
  }

  lemma {:induction false} Nothing(a: seq<Token>, b: seq<Token>)
    ensures [] + a + b == a + ([] + b)
  {
  }

  lemma {:induction false} Regroup(a: seq<Token>, b: seq<Token>, c: seq<Token>)
    ensures a + b + [] + c == a + (b + c)
  {
  }

  lemma {:induction false} WholeCloses(text: string, sem: Semantic, b: Buffer)
    ensures Closing(b, Whole(text, sem), 0) == Back(text, sem, b)
  {
    var spans := Whole(text, sem);
    hide CloseTokens;
    assert spans[..0] == [];
    assert Closing(b, spans, 1) == [];
  }

  lemma {:induction false} WholeContent(text: string, sem: Semantic, b: Buffer)
    requires |text| > 0
    ensures Content(text, Whole(text, sem), b)
         == Front(text, sem, b) + Middle(text, sem, b, |text|) + Back(text, sem, b)
  {
    hide Written, Middle, Front, Back, Around, Closing, Whole;
    WholeWritten(text, sem, b, |text|);
    WholeAround(text, sem, |text| - 1);
    WholeCloses(text, sem, b);
  }

  /** Without a tag block the page is the main text. */
  lemma {:induction false} WholePage(options: Options, text: string, sem: Semantic, html: string)
    requires |text| > 0 && !sem.TagBlock? && Renders(options, text, Whole(text, sem), html)
    ensures html == Flatten(OpenTokens(Span(0, |text|, sem)))
                    + (if sem.Markup? then "" else Escape(text))
                    + Flatten(CloseTokens(Span(0, |text|, sem)))
  {
    var spans := Whole(text, sem);
    var order :| IsOrder(order, spans) && html == Flatten(Page(options, text, spans, order));
    OrderIsUnique(order, []);
    WholeContent(text, sem, Main);
    assert spans[..0] == [];
    assert text[..|text|] == text;
    var middle := Middle(text, sem, Main, |text|);
    assert middle == if sem.Markup? then [] else Chrs(text);
    FlattenChrs(text);
    FlattenJoin(Front(text, sem, Main) + middle, Back(text, sem, Main));
    FlattenJoin(Front(text, sem, Main), middle);
    hide Flatten, OpenTokens, CloseTokens, Middle, Escape, Content;
    EmptyFlattens();
  }

  lemma {:induction false} EmptyFlattens()
    ensures Flatten([]) == ""
  {
  }

  lemma {:induction false} MonospaceText()
    ensures TokenText(Open(Monospace)) == "<tt>" && TokenText(Close(Monospace)) == "</tt>"
  {
    assert "<" + "tt" + ">" == "<tt>" && "<" + "/tt" + ">" == "</tt>";
  }

  /** Code is monospaced. */
  lemma {:induction false} CodePage(options: Options, text: string, html: string)
    requires |text| > 0 && Renders(options, text, Whole(text, CodeRef), html)
    ensures html == "<tt>" + Escape(text) + "</tt>"
  {
    hide Flatten, Escape, TokenText, Renders;
    WholePage(options, text, CodeRef, html);
    FlattenOne(Open(Monospace));
    FlattenOne(Close(Monospace));
    MonospaceText();
  }

  lemma {:induction false} AnchorText(uri: string)
    ensures TokenText(Open(Anchor(uri))) == "<a href=\"" + Escape(uri) + "\">"
    ensures TokenText(Close(Anchor(uri))) == "</a>"
  {
    hide Escape;
    assert "<" + "a href=\"" == "<a href=\"" && "\"" + ">" == "\">" && "<" + "/a" + ">" == "</a>";
    Reassociate("<", "a href=\"", Escape(uri), "\"", ">");
  }

  lemma {:induction false} Reassociate(a: string, b: string, c: string, d: string, e: string)
    ensures a + (b + (c + d)) + e == (a + b) + c + (d + e)
  {
  }

  /** A link refers to its first definition, if it has one. */
  lemma {:induction false} LinkPage(options: Options, text: string, kind: nat, uri: seq<string>, html: string)
    requires |text| > 0 && Renders(options, text, Whole(text, Link(kind, uri)), html)
    ensures |uri| > 0 ==> html == "<a href=\"" + Escape(uri[0]) + "\">" + Escape(text) + "</a>"
    ensures |uri| == 0 ==> html == Escape(text)
  {
    hide Flatten, Escape, TokenText, Renders;
    WholePage(options, text, Link(kind, uri), html);
    if |uri| > 0 {
      FlattenOne(Open(Anchor(uri[0])));
      FlattenOne(Close(Anchor(uri[0])));
      AnchorText(uri[0]);
    } else {
      EmptyFlattens();
    }
  }

  /** Markup is left out, and other text is only escaped. */
  lemma {:induction false} PlainPages(options: Options, text: string, sem: Semantic, html: string)
    requires |text| > 0 && Renders(options, text, Whole(text, sem), html)
    requires sem == Markup || sem == Brief || sem == Raw
    ensures html == if sem == Markup then "" else Escape(text)
  {
    hide Flatten, Escape, TokenText, Renders;
    WholePage(options, text, sem, html);
    EmptyFlattens();
  }

  function Div(style: string, inner: string): string { "<div class=\"" + style + "\">" + inner + "</div>" }

  lemma {:induction false} DivisionText(style: string)
    ensures TokenText(Open(Division(style))) == "<div class=\"" + style + "\">"
    ensures TokenText(Close(Division(style))) == "</div>"
  {
    assert "<" + "div class=\"" == "<div class=\"" && "\"" + ">" == "\">" && "<" + "/div" + ">" == "</div>";
    Reassociate("<", "div class=\"", style, "\"", ">");
  }

  lemma {:induction false} DivisionPage(style: string, inner: seq<Token>)
    ensures Flatten([Open(Division(style))] + inner + [Close(Division(style))]) == Div(style, Flatten(inner))
  {
    var open, close := Open(Division(style)), Close(Division(style));
    FlattenJoin([open] + inner, [close]);
    FlattenJoin([open], inner);
    FlattenOne(open);
    FlattenOne(close);
    DivisionText(style);
    hide Flatten, TokenText;
  }

  lemma {:induction false} SectionText(options: Options, b: Buffer, content: seq<Token>)
    ensures Flatten(Section(options, b, content))
         == Div(options.tagSectionTitleDiv, Title(b)) + Div(options.tagSectionContentDiv, Flatten(content))
  {
    hide Flatten, Title, Div;
    var title, body := Division(options.tagSectionTitleDiv), Division(options.tagSectionContentDiv);
    var head := [Open(title)] + [Text(Title(b))] + [Close(title)];
    assert [Open(title), Text(Title(b)), Close(title)] == head;
    FlattenJoin(head, [Open(body)] + content + [Close(body)]);
    DivisionPage(options.tagSectionTitleDiv, [Text(Title(b))]);
    FlattenOne(Text(Title(b)));
    DivisionPage(options.tagSectionContentDiv, content);
  }

  lemma {:induction false} OnlyBlock(text: string, sem: Semantic, order: seq<Buffer>)
    requires sem.TagBlock? && IsOrder(order, Whole(text, sem))
    ensures order == [Block(sem.id, sem.ordinal)]
  {
    var b := Block(sem.id, sem.ordinal);
    assert Whole(text, sem)[0] in Whole(text, sem);
    assert forall x :: x in [b] <==> x == b;
    OrderIsUnique(order, [b]);
  }

  /** A tag block becomes a title and its text, each in its own division. */
  lemma {:induction false} BlockPage(options: Options, text: string, id: TagBlockId, n: nat, html: string)
    requires |text| > 0 && Renders(options, text, Whole(text, TagBlock(id, n)), html)
    ensures html == Div(options.tagSectionTitleDiv,
                        match id
                        case Author => "Author"
                        case Returns => "Returns"
                        case Since => "Since"
                        case Version => "Version"
                        case Param => "Parameter"
                        case Throws => "Throws")
                    + Div(options.tagSectionContentDiv, Escape(text))
  {
    hide Flatten, Div, Escape, Content, Section, Chrs, Whole, Page, IsOrder;
    var sem, b := TagBlock(id, n), Block(id, n);
    var spans := Whole(text, sem);
    var order :| IsOrder(order, spans) && html == Flatten(Page(options, text, spans, order));
    OnlyBlock(text, sem, order);
    BlockContent(text, sem);
    OneSection(options, text, spans, b);
    FlattenChrs(text);
    SectionText(options, b, Chrs(text));
  }

  lemma {:induction false} OneSection(options: Options, text: string, spans: seq<Span>, b: Buffer)
    requires Content(text, spans, Main) == []
    ensures Page(options, text, spans, [b]) == Section(options, b, Content(text, spans, b))
  {
    hide Content, Section;
    assert [b][..0] == [];
    assert Page(options, text, spans, []) == [];
  }

  lemma {:induction false} BlockContent(text: string, sem: Semantic)
    requires |text| > 0 && sem.TagBlock?
    ensures Content(text, Whole(text, sem), Main) == []
    ensures Content(text, Whole(text, sem), Block(sem.id, sem.ordinal)) == Chrs(text)
  {
    hide Content;
    var b := Block(sem.id, sem.ordinal);
    WholeContent(text, sem, Main);
    WholeContent(text, sem, b);
    assert text[..|text|] == text;
    assert Front(text, sem, Main) == [] && Back(text, sem, Main) == [];
    assert Front(text, sem, b) == [] && Back(text, sem, b) == [];
    assert Middle(text, sem, Main, |text|) == [];
    assert Middle(text, sem, b, |text|) == Chrs(text);
    hide Chrs, Middle, Front, Back;
  }

  // --------------------------------------------------------------------------- order

  const SECTIONS: seq<TagBlockId> := [Author, Returns, Since, Version, Param, Throws]

  /** Sections come by kind in this order, and by number within a kind. */
  lemma {:induction false} SectionOrder(i: nat, j: nat, m: nat, n: nat)
    requires i < 6 && j < 6
    ensures BlockLess(Block(SECTIONS[i], m), Block(SECTIONS[j], n)) <==> i < j || (i == j && m < n)
  {
  }

  /** Spans come by where they begin, longer ones first; of one extent, tag blocks come first and
      links last, and of two links the one of the greater kind. */
  lemma {:induction false} SpanOrder(b: nat, e: nat, b': nat, e': nat, s: Semantic, t: Semantic)
    ensures b < b' ==> SpanLess(Span(b, e, s), Span(b', e', t))
    ensures e > e' ==> SpanLess(Span(b, e, s), Span(b, e', t))
  {
  }

  lemma {:induction false} KindOrder(b: nat, e: nat, id: TagBlockId, n: nat, kind: nat, kind': nat, uri: seq<string>)
    ensures SpanLess(Span(b, e, TagBlock(id, n)), Span(b, e, Brief))
    ensures SpanLess(Span(b, e, Brief), Span(b, e, CodeRef)) && SpanLess(Span(b, e, CodeRef), Span(b, e, Markup))
    ensures SpanLess(Span(b, e, Markup), Span(b, e, Raw)) && SpanLess(Span(b, e, Raw), Span(b, e, Link(kind, uri)))
    ensures SpanLess(Span(b, e, Link(kind, uri)), Span(b, e, Link(kind', uri))) <==> kind > kind'
  {
  }
}
