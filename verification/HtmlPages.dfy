/** The page that stands for a text with spans over it: what every buffer holds, how the
    buffers are put together, and what a reader sees of the result. */
module HtmlPages {
  import opened Spans
  import opened HtmlTokens

  /** A buffer: the main text, or a tag block. */
  datatype Buffer = Main | Block(id: TagBlockId, ordinal: nat)

  // ----------------------------------------- where each character should be written

  /** The spans that contain position `p`, in their order. */
  function Containing(spans: seq<Span>, p: nat): seq<Span> {
    if |spans| == 0 then []
    else
      var last := spans[|spans| - 1];
      Containing(spans[..|spans| - 1], p) + if last.begin <= p < last.end then [last] else []
  }

  /** The buffer written to inside the given nest of spans. */
  function Current(open: seq<Span>): Buffer {
    if |open| == 0 then Main
    else
      match open[|open| - 1].semantic
      case TagBlock(id, ordinal) => Block(id, ordinal)
      case _ => Current(open[..|open| - 1])
  }

  /** Text directly inside markup is not shown. */
  predicate Shown(open: seq<Span>) { |open| == 0 || !open[|open| - 1].semantic.Markup? }

  // ---------------------------------------------------------------- the open spans

  /** The element a span opens, if any. */
  function ElementOf(s: Span): seq<Element> {
    match s.semantic
    case CodeRef => [Monospace]
    case Link(_, uri) => if |uri| > 0 then [Anchor(uri[0])] else []
    case _ => []
  }

  /** The elements open in buffer `b` when the given spans are open. */
  function OpenIn(b: Buffer, open: seq<Span>): seq<Element> {
    if |open| == 0 then []
    else
      var n := |open| - 1;
      OpenIn(b, open[..n]) + if Current(open[..n]) == b then ElementOf(open[n]) else []
  }

  lemma {:induction false} OpenInAppend(b: Buffer, open: seq<Span>, s: Span)
    ensures OpenIn(b, open + [s]) == OpenIn(b, open) + if Current(open) == b then ElementOf(s) else []
  {
    assert (open + [s])[..|open|] == open;
  }

  function OpenTokens(s: Span): seq<Token> { if |ElementOf(s)| > 0 then [Open(ElementOf(s)[0])] else [] }

  function CloseTokens(s: Span): seq<Token> { if |ElementOf(s)| > 0 then [Close(ElementOf(s)[0])] else [] }

  // --------------------------------------------------------- what each buffer holds

  /** Closes `c[k..]`, innermost first, as far as it shows in buffer `b`.  A span writes
      its tags where the spans around it write. */
  function Closing(b: Buffer, c: seq<Span>, k: nat): seq<Token>
    decreases |c| - k
  {
    if k >= |c| then []
    else Closing(b, c, k + 1) + if Current(c[..k]) == b then CloseTokens(c[k]) else []
  }

  /** Opens `c[k..]`, outermost first. */
  function Opening(b: Buffer, c: seq<Span>, k: nat): seq<Token> {
    if |c| <= k then []
    else
      var n := |c| - 1;
      Opening(b, c[..n], k) + if Current(c[..n]) == b then OpenTokens(c[n]) else []
  }

  /** The spans around the character before `i`. */
  function Around(spans: seq<Span>, i: nat): seq<Span> { if i == 0 then [] else Containing(spans, i - 1) }

  /** How many of them go on at `i`. */
  function Kept(spans: seq<Span>, i: nat): nat { |Staying(Around(spans, i), i)| }

  /** What moving to position `i` writes to buffer `b`. */
  function Moving(spans: seq<Span>, b: Buffer, i: nat): seq<Token> {
    Closing(b, Around(spans, i), Kept(spans, i)) + Opening(b, Containing(spans, i), Kept(spans, i))
  }

  function Emitted(text: string, spans: seq<Span>, b: Buffer, i: nat): seq<Token>
    requires i < |text|
  {
    if Shown(Containing(spans, i)) && Current(Containing(spans, i)) == b then [Chr(text[i])] else []
  }

  /** What buffer `b` holds when the characters before `i` have been written. */
  function Written(text: string, spans: seq<Span>, b: Buffer, i: nat): seq<Token>
    requires i <= |text|
  {
    if i == 0 then []
    else Written(text, spans, b, i - 1) + Moving(spans, b, i - 1) + Emitted(text, spans, b, i - 1)
  }

  /** What buffer `b` holds in the end. */
  function Content(text: string, spans: seq<Span>, b: Buffer): seq<Token> {
    Written(text, spans, b, |text|) + Closing(b, Around(spans, |text|), 0)
  }

  // --------------------------------------------------------- what each buffer shows

  /** What buffer `b` should show of `text[..n]`: the characters that belong there, each
      inside the elements of the spans around it. */
  function Expected(text: string, spans: seq<Span>, b: Buffer, n: nat): seq<Glyph>
    requires n <= |text|
  {
    if n == 0 then []
    else
      var open := Containing(spans, n - 1);
      Expected(text, spans, b, n - 1)
      + if Shown(open) && Current(open) == b then [Glyph(text[n - 1], OpenIn(b, open))] else []
  }

  /** Closing spans takes their elements off again and shows nothing. */
  lemma {:induction false} ClosingNests(b: Buffer, c: seq<Span>, k: nat, ts: seq<Token>)
    requires k <= |c| && Nest(ts) == Opened(OpenIn(b, c))
    ensures Nest(ts + Closing(b, c, k)) == Opened(OpenIn(b, c[..k])) && Glyphs(ts + Closing(b, c, k)) == Glyphs(ts)
    decreases |c| - k
  {
    hide Nest, Glyphs, OpenIn;
    if k == |c| {
      assert ts + Closing(b, c, k) == ts && c[..k] == c;
    } else {
      ClosingNests(b, c, k + 1, ts);
      var so := ts + Closing(b, c, k + 1);
      OpenInAppend(b, c[..k], c[k]);
      assert c[..k + 1] == c[..k] + [c[k]];
      CloseNests(b, c[..k], c[k], so);
      var last := if Current(c[..k]) == b then CloseTokens(c[k]) else [];
      assert ts + Closing(b, c, k) == so + last;
    }
  }

  lemma {:induction false} CloseNests(b: Buffer, c: seq<Span>, s: Span, ts: seq<Token>)
    requires Nest(ts) == Opened(OpenIn(b, c) + if Current(c) == b then ElementOf(s) else [])
    ensures var last := if Current(c) == b then CloseTokens(s) else [];
      Nest(ts + last) == Opened(OpenIn(b, c)) && Glyphs(ts + last) == Glyphs(ts)
  {
    hide Nest, Glyphs, OpenIn, Current;
    var es := ElementOf(s);
    if Current(c) == b && |es| > 0 {
      assert es == [es[0]];
      CloseToken(ts, OpenIn(b, c), es[0]);
    } else {
      assert ts + [] == ts && OpenIn(b, c) + [] == OpenIn(b, c);
    }
  }

  /** Opening spans puts their elements on and shows nothing. */
  lemma {:induction false} OpeningNests(b: Buffer, c: seq<Span>, k: nat, ts: seq<Token>)
    requires k <= |c| && Nest(ts) == Opened(OpenIn(b, c[..k]))
    ensures Nest(ts + Opening(b, c, k)) == Opened(OpenIn(b, c)) && Glyphs(ts + Opening(b, c, k)) == Glyphs(ts)
    decreases |c|
  {
    hide Nest, Glyphs, OpenIn;
    if k == |c| {
      assert ts + Opening(b, c, k) == ts && c[..k] == c;
    } else {
      var n := |c| - 1;
      assert c[..n][..k] == c[..k];
      OpeningNests(b, c[..n], k, ts);
      var so := ts + Opening(b, c[..n], k);
      OpenInAppend(b, c[..n], c[n]);
      assert c == c[..n] + [c[n]];
      OpenNests(b, c[..n], c[n], so);
      var last := if Current(c[..n]) == b then OpenTokens(c[n]) else [];
      assert ts + Opening(b, c, k) == so + last;
    }
  }

  lemma {:induction false} OpenNests(b: Buffer, c: seq<Span>, s: Span, ts: seq<Token>)
    requires Nest(ts) == Opened(OpenIn(b, c))
    ensures var last := if Current(c) == b then OpenTokens(s) else [];
      && Nest(ts + last) == Opened(OpenIn(b, c) + if Current(c) == b then ElementOf(s) else [])
      && Glyphs(ts + last) == Glyphs(ts)
  {
    hide Nest, Glyphs, OpenIn, Current;
    var es := ElementOf(s);
    if Current(c) == b && |es| > 0 {
      assert es == [es[0]];
      OpenToken(ts, OpenIn(b, c), es[0]);
    } else {
      assert ts + [] == ts && OpenIn(b, c) + [] == OpenIn(b, c);
    }
  }

  // -------------------------------------- the stack holds the spans around a position

  function Staying(open: seq<Span>, i: nat): seq<Span> {
    if |open| == 0 then []
    else Staying(open[..|open| - 1], i) + if open[|open| - 1].end > i then [open[|open| - 1]] else []
  }

  lemma {:induction false} StayingAppend(a: seq<Span>, b: seq<Span>, i: nat)
    ensures Staying(a + b, i) == Staying(a, i) + Staying(b, i)
    decreases |b|
  {
    if |b| == 0 {
      assert a + b == a;
    } else {
      assert (a + b)[..|a + b| - 1] == a + b[..|b| - 1];
      StayingAppend(a, b[..|b| - 1], i);
    }
  }

  lemma {:induction false} StayingAll(a: seq<Span>, i: nat)
    requires forall s | s in a :: s.end > i
    ensures Staying(a, i) == a
  {
    if |a| > 0 {
      StayingAll(a[..|a| - 1], i);
      assert a == a[..|a| - 1] + [a[|a| - 1]];
    }
  }

  lemma {:induction false} StayingNone(a: seq<Span>, i: nat)
    requires forall s | s in a :: s.end <= i
    ensures Staying(a, i) == []
  {
    if |a| > 0 { StayingNone(a[..|a| - 1], i); }
  }

  lemma {:induction false} ContainingMembers(spans: seq<Span>, p: nat)
    ensures forall s :: s in Containing(spans, p) <==> s in spans && s.begin <= p < s.end
  {
    if |spans| > 0 {
      ContainingMembers(spans[..|spans| - 1], p);
      assert forall s :: s in spans <==> s in spans[..|spans| - 1] || s == spans[|spans| - 1];
    }
  }

  /** Of the spans begun before `i`, those around `i` are those around `i - 1` that stay. */
  lemma {:induction false} ContainingMoves(spans: seq<Span>, i: nat)
    requires i > 0 && forall s | s in spans :: s.begin < i
    ensures Containing(spans, i) == Staying(Containing(spans, i - 1), i)
  {
    if |spans| > 0 {
      var n := |spans| - 1;
      var last := spans[n];
      ContainingMoves(spans[..n], i);
      StayingAppend(Containing(spans[..n], i - 1), if last.end > i - 1 then [last] else [], i);
      assert Staying([], i) == [];
      assert [last][..0] == [];
      assert Staying([last], i) == if last.end > i then [last] else [];
    }
  }

  /** Spans that begin at `i` are around it; spans that begin later are not. */
  lemma {:induction false} ContainingPrefix(spans: seq<Span>, n: nat, i: nat)
    requires n <= |spans| && forall j | n <= j < |spans| :: spans[j].begin > i
    ensures Containing(spans, i) == Containing(spans[..n], i)
    decreases |spans|
  {
    if n < |spans| {
      ContainingPrefix(spans[..|spans| - 1], n, i);
      assert spans[..|spans| - 1][..n] == spans[..n];
    } else {
      assert spans[..n] == spans;
    }
  }

  ghost predicate EndsFall(c: seq<Span>) { forall i, j | 0 <= i < j < |c| :: c[j].end <= c[i].end }

  /** Spans around one position end no later than the spans before them. */
  lemma {:induction false} Chain(spans: seq<Span>, n: nat, p: nat)
    requires Renderable(spans, n)
    ensures EndsFall(Containing(spans, p))
  {
    if |spans| > 0 {
      var m := |spans| - 1;
      var front, last := spans[..m], spans[m];
      var c := Containing(front, p);
      assert Containing(spans, p) == c + if last.begin <= p < last.end then [last] else [];
      RenderablePrefix(spans, n, m);
      hide Renderable, Containing;
      Chain(front, n, p);
      ContainingMembers(front, p);
      if last.begin <= p < last.end {
        forall s | s in c ensures last.end <= s.end {
          var k :| 0 <= k < |front| && front[k] == s;
          EndsNoLater(spans, n, k, p);
        }
      }
    }
  }

  lemma {:induction false} RenderablePrefix(spans: seq<Span>, n: nat, m: nat)
    requires Renderable(spans, n) && m <= |spans|
    ensures Renderable(spans[..m], n)
  {
    hide Nested, SpanLess;
  }

  lemma {:induction false} EndsNoLater(spans: seq<Span>, n: nat, k: nat, p: nat)
    requires Renderable(spans, n) && k < |spans| - 1 && spans[k].begin <= p < spans[k].end
    requires spans[|spans| - 1].begin <= p < spans[|spans| - 1].end
    ensures spans[|spans| - 1].end <= spans[k].end
  {
    var m := |spans| - 1;
    assert Nested(spans[k], spans[m]) && !SpanLess(spans[m], spans[k]);
  }

  /** The spans that go on are the outer ones. */
  lemma {:induction false} StayingIsPrefix(c: seq<Span>, i: nat)
    requires EndsFall(c)
    ensures Staying(c, i) <= c
    ensures forall j | 0 <= j < |c| :: c[j].end > i <==> j < |Staying(c, i)|
  {
    if |c| > 0 {
      var front, last := c[..|c| - 1], c[|c| - 1];
      if last.end > i {
        assert forall j | 0 <= j < |c| :: c[j].end >= last.end;
        StayingAll(c, i);
        hide Staying;
      } else {
        assert Staying(c, i) == Staying(front, i);
        hide Staying;
        StayingIsPrefix(front, i);
        assert forall j | 0 <= j < |front| :: front[j] == c[j];
      }
    }
  }

  /** `spans[..next]` begin before `i` and the others do not. */
  ghost predicate Begun(spans: seq<Span>, next: nat, i: nat) {
    && next <= |spans|
    && (forall j | 0 <= j < next :: spans[j].begin < i) && (forall j | next <= j < |spans| :: spans[j].begin >= i)
  }

  lemma {:induction false} SomeBegun(spans: seq<Span>, n: nat, i: nat) returns (next: nat)
    requires Renderable(spans, n)
    ensures Begun(spans, next, i)
  {
    next := 0;
    if |spans| > 0 {
      var m := |spans| - 1;
      RenderablePrefix(spans, n, m);
      next := SomeBegun(spans[..m], n, i);
      assert forall j | 0 <= j < m :: spans[..m][j] == spans[j];
      if spans[m].begin < i {
        assert forall j | 0 <= j < m :: !SpanLess(spans[m], spans[j]);
        next := |spans|;
      }
    }
  }

  lemma {:induction false} ContainingStarts(spans: seq<Span>, m: nat, i: nat)
    requires m <= |spans|
    ensures Containing(spans[..m], i) <= Containing(spans, i)
    decreases |spans|
  {
    if m < |spans| {
      assert spans[..|spans| - 1][..m] == spans[..m];
      ContainingStarts(spans[..|spans| - 1], m, i);
    } else {
      assert spans[..m] == spans;
    }
  }

  /** The spans that go on at `i` are those begun before it that are around it. */
  lemma {:induction false} StayingAround(spans: seq<Span>, next: nat, i: nat)
    requires Begun(spans, next, i)
    ensures Staying(Around(spans, i), i) == Containing(spans[..next], i)
  {
    if i == 0 {
      assert spans[..next] == [];
    } else {
      ContainingPrefix(spans, next, i - 1);
      forall s | s in spans[..next] ensures s.begin < i {
        var j :| 0 <= j < next && spans[j] == s;
      }
      ContainingMoves(spans[..next], i);
    }
  }

  /** Moving from one position to the next keeps the outer spans as they are. */
  lemma {:induction false} KeptAreOuter(spans: seq<Span>, n: nat, i: nat)
    requires Renderable(spans, n)
    ensures
      var k := Kept(spans, i);
      && k <= |Around(spans, i)| && k <= |Containing(spans, i)|
      && Around(spans, i)[..k] == Containing(spans, i)[..k] == Staying(Around(spans, i), i)
  {
    var next := SomeBegun(spans, n, i);
    StayingAround(spans, next, i);
    ContainingStarts(spans, next, i);
    AroundFalls(spans, n, i);
    StayingIsPrefix(Around(spans, i), i);
  }

  lemma {:induction false} AroundFalls(spans: seq<Span>, n: nat, i: nat)
    requires Renderable(spans, n)
    ensures EndsFall(Around(spans, i))
  {
    if i > 0 { Chain(spans, n, i - 1); }
  }

  lemma {:induction false} NoneContain(spans: seq<Span>, n: nat)
    requires forall i | 0 <= i < |spans| :: spans[i].end <= n
    ensures Containing(spans, n) == []
  {
    if |spans| > 0 { NoneContain(spans[..|spans| - 1], n); }
  }


  /** Every buffer has open the elements of the spans around the last character, and shows
      what it should. */
  lemma {:induction false} WrittenShows(text: string, spans: seq<Span>, b: Buffer, i: nat)
    requires Renderable(spans, |text|) && i <= |text|
    ensures Nest(Written(text, spans, b, i)) == Opened(OpenIn(b, Around(spans, i)))
    ensures Glyphs(Written(text, spans, b, i)) == Expected(text, spans, b, i)
  {
    hide *;
    if i == 0 {
      WrittenNothing(text, spans, b);
    } else {
      WrittenStep(text, spans, b, i - 1);
      WrittenShows(text, spans, b, i - 1);
      MovingShows(text, spans, b, i - 1, Written(text, spans, b, i - 1));
      EmitShows(text, spans, b, i - 1, Written(text, spans, b, i - 1) + Moving(spans, b, i - 1));
    }
  }

  lemma {:induction false} WrittenNothing(text: string, spans: seq<Span>, b: Buffer)
    ensures Nest(Written(text, spans, b, 0)) == Opened(OpenIn(b, Around(spans, 0)))
    ensures Glyphs(Written(text, spans, b, 0)) == Expected(text, spans, b, 0)
  {
  }

  lemma {:induction false} WrittenStep(text: string, spans: seq<Span>, b: Buffer, i: nat)
    requires i < |text|
    ensures Around(spans, i + 1) == Containing(spans, i)
    ensures Written(text, spans, b, i + 1)
         == Written(text, spans, b, i) + Moving(spans, b, i) + Emitted(text, spans, b, i)
  {
    hide Moving, Emitted, Containing;
  }

  lemma {:induction false} EmitShows(text: string, spans: seq<Span>, b: Buffer, i: nat, ts: seq<Token>)
    requires i < |text| && Nest(ts) == Opened(OpenIn(b, Containing(spans, i)))
    requires Glyphs(ts) == Expected(text, spans, b, i)
    ensures Nest(ts + Emitted(text, spans, b, i)) == Opened(OpenIn(b, Containing(spans, i)))
    ensures Glyphs(ts + Emitted(text, spans, b, i)) == Expected(text, spans, b, i + 1)
  {
    AppendToken(ts, Chr(text[i]));
    hide Nest, Glyphs, OpenIn, Containing, Current, Shown;
    assert ts + [] == ts;
  }

  lemma {:induction false} MovingShows(text: string, spans: seq<Span>, b: Buffer, i: nat, ts: seq<Token>)
    requires Renderable(spans, |text|) && Nest(ts) == Opened(OpenIn(b, Around(spans, i)))
    ensures Nest(ts + Moving(spans, b, i)) == Opened(OpenIn(b, Containing(spans, i)))
    ensures Glyphs(ts + Moving(spans, b, i)) == Glyphs(ts)
  {
    hide Nest, Glyphs, OpenIn, Kept, Around, Containing, Staying, Closing, Opening, Renderable;
    KeptAreOuter(spans, |text|, i);
    var c, d, k := Around(spans, i), Containing(spans, i), Kept(spans, i);
    ClosingNests(b, c, k, ts);
    OpeningNests(b, d, k, ts + Closing(b, c, k));
    assert ts + Moving(spans, b, i) == ts + Closing(b, c, k) + Opening(b, d, k);
  }

  /** Every buffer ends up balanced and shows exactly the characters that belong in it. */
  lemma {:induction false} ContentShows(text: string, spans: seq<Span>, b: Buffer)
    requires Renderable(spans, |text|)
    ensures Balanced(Content(text, spans, b)) && Glyphs(Content(text, spans, b)) == Expected(text, spans, b, |text|)
  {
    WrittenShows(text, spans, b, |text|);
    var c := Around(spans, |text|);
    ClosingNests(b, c, 0, Written(text, spans, b, |text|));
    assert c[..0] == [];
  }

  // -------------------------------------------------------------- putting it together

  function Title(b: Buffer): string {
    match b
    case Main => ""
    case Block(Author, _) => "Author"
    case Block(Returns, _) => "Returns"
    case Block(Since, _) => "Since"
    case Block(Version, _) => "Version"
    case Block(Throws, _) => "Throws"
    case Block(Param, _) => "Parameter"
  }

  /** The names of the styles for tag sections. */
  datatype Options = Options(tagSectionTitleDiv: string, tagSectionContentDiv: string)

  function Section(options: Options, b: Buffer, content: seq<Token>): seq<Token> {
    var title, body := Division(options.tagSectionTitleDiv), Division(options.tagSectionContentDiv);
    [Open(title), Text(Title(b)), Close(title)] + ([Open(body)] + content + [Close(body)])
  }

  /** The order of the keys of the tag block map. */
  predicate BlockLess(a: Buffer, b: Buffer) {
    match (a, b)
    case (Block(i, m), Block(j, n)) => i.Rank() < j.Rank() || (i == j && m < n)
    case (Main, Block(_, _)) => true
    case (_, Main) => false
  }

  ghost predicate Ascending(order: seq<Buffer>) {
    forall i, j | 0 <= i < j < |order| :: BlockLess(order[i], order[j])
  }

  ghost predicate HasBlock(spans: seq<Span>, b: Buffer) {
    b.Block? && exists s :: s in spans && s.semantic == TagBlock(b.id, b.ordinal)
  }

  /** The tag blocks of the spans, each once, in the order of the tag block map. */
  ghost predicate IsOrder(order: seq<Buffer>, spans: seq<Span>) {
    Ascending(order) && forall b :: b in order <==> HasBlock(spans, b)
  }

  lemma {:induction false} OrderIsUnique(a: seq<Buffer>, b: seq<Buffer>)
    requires Ascending(a) && Ascending(b) && forall x :: x in a <==> x in b
    ensures a == b
  {
    assert |a| > 0 ==> a[0] in a;
    assert |b| > 0 ==> b[0] in b;
    if |a| > 0 && |b| > 0 {
      assert a[0] in b && b[0] in a;
      assert a[0] == b[0];
      forall x ensures x in a[1..] <==> x in b[1..] {
        assert x in a <==> x == a[0] || x in a[1..];
        assert x in b <==> x == b[0] || x in b[1..];
        assert a[0] !in a[1..] && b[0] !in b[1..];
      }
      OrderIsUnique(a[1..], b[1..]);
    }
  }

  /** The page: the main text, then a titled section for each tag block. */
  function Page(options: Options, text: string, spans: seq<Span>, order: seq<Buffer>): seq<Token> {
    if |order| == 0 then Content(text, spans, Main)
    else
      var last := order[|order| - 1];
      Page(options, text, spans, order[..|order| - 1]) + Section(options, last, Content(text, spans, last))
  }

  ghost predicate Renders(options: Options, text: string, spans: seq<Span>, html: string) {
    exists order :: IsOrder(order, spans) && html == Flatten(Page(options, text, spans, order))
  }

  /** There is only one page for a text with spans. */
  lemma {:induction false} RendersOnce(options: Options, text: string, spans: seq<Span>, a: string, b: string)
    requires Renders(options, text, spans, a) && Renders(options, text, spans, b)
    ensures a == b
  {
    var x :| IsOrder(x, spans) && a == Flatten(Page(options, text, spans, x));
    var y :| IsOrder(y, spans) && b == Flatten(Page(options, text, spans, y));
    OrderIsUnique(x, y);
  }

  lemma {:induction false} SectionBalanced(options: Options, b: Buffer, content: seq<Token>)
    requires Balanced(content)
    ensures Balanced(Section(options, b, content))
    ensures Glyphs(Section(options, b, content)) == Under([Division(options.tagSectionContentDiv)], Glyphs(content))
  {
    var title, body := Division(options.tagSectionTitleDiv), Division(options.tagSectionContentDiv);
    var head, rest := [Open(title), Text(Title(b)), Close(title)], [Open(body)] + content + [Close(body)];
    assert Under([title], []) == [];
    hide Nest, Glyphs, Under, Title;
    NestOne(Text(Title(b)));
    Wrapped(title, [Text(Title(b))]);
    Wrapped(body, content);
    assert [Open(title)] + [Text(Title(b))] + [Close(title)] == head;
    assert Balanced(head) && Glyphs(head) == [];
    NestAppend(head, rest);
    GlyphsAppend(head, rest);
    UnderNothing(Glyphs(rest));
    assert [] + Glyphs(rest) == Glyphs(rest);
  }

  /** All that is shown: the main text, then each tag block in turn inside its section. */
  function AllExpected(options: Options, text: string, spans: seq<Span>, order: seq<Buffer>): seq<Glyph> {
    if |order| == 0 then Expected(text, spans, Main, |text|)
    else
      AllExpected(options, text, spans, order[..|order| - 1])
      + Under([Division(options.tagSectionContentDiv)], Expected(text, spans, order[|order| - 1], |text|))
  }

  /** The whole page is balanced, and shows each buffer where it belongs. */
  lemma {:induction false} PageShows(options: Options, text: string, spans: seq<Span>, order: seq<Buffer>)
    requires Renderable(spans, |text|)
    ensures Balanced(Page(options, text, spans, order))
    ensures Glyphs(Page(options, text, spans, order)) == AllExpected(options, text, spans, order)
    decreases |order|
  {
    hide Glyphs, Nest, Expected, Section, Under, Content;
    if |order| == 0 {
      ContentShows(text, spans, Main);
    } else {
      var front, last := order[..|order| - 1], order[|order| - 1];
      PageShows(options, text, spans, front);
      ContentShows(text, spans, last);
      var page, section := Page(options, text, spans, front), Section(options, last, Content(text, spans, last));
      SectionBalanced(options, last, Content(text, spans, last));
      NestAppend(page, section);
      GlyphsAppend(page, section);
      UnderNothing(Glyphs(section));
    }
  }

  // -------------------------------------------------------------- what a reader sees

  /** A character, or a tag that a span writes. */
  predicate FromText(t: Token) { t.Chr? || ((t.Open? || t.Close?) && !t.e.Division?) }

  ghost predicate AllFromText(ts: seq<Token>) { forall t | t in ts :: FromText(t) }

  lemma {:induction false} BothFromText(a: seq<Token>, b: seq<Token>)
    requires AllFromText(a) && AllFromText(b)
    ensures AllFromText(a + b)
  {
  }

  lemma {:induction false} ClosingFromText(b: Buffer, c: seq<Span>, k: nat)
    ensures AllFromText(Closing(b, c, k))
    decreases |c| - k
  {
    if k < |c| {
      ClosingFromText(b, c, k + 1);
      BothFromText(Closing(b, c, k + 1), if Current(c[..k]) == b then CloseTokens(c[k]) else []);
    }
  }

  lemma {:induction false} OpeningFromText(b: Buffer, c: seq<Span>, k: nat)
    ensures AllFromText(Opening(b, c, k))
    decreases |c|
  {
    if |c| > k {
      var n := |c| - 1;
      OpeningFromText(b, c[..n], k);
      BothFromText(Opening(b, c[..n], k), if Current(c[..n]) == b then OpenTokens(c[n]) else []);
    }
  }

  lemma {:induction false} WrittenFromText(text: string, spans: seq<Span>, b: Buffer, i: nat)
    requires i <= |text|
    ensures AllFromText(Written(text, spans, b, i))
  {
    hide AllFromText, Closing, Opening, Around, Kept, Containing, Current, Shown;
    if i == 0 {
      NothingFromText();
    } else {
      WrittenFromText(text, spans, b, i - 1);
      ClosingFromText(b, Around(spans, i - 1), Kept(spans, i - 1));
      OpeningFromText(b, Containing(spans, i - 1), Kept(spans, i - 1));
      BothFromText(Closing(b, Around(spans, i - 1), Kept(spans, i - 1)),
                   Opening(b, Containing(spans, i - 1), Kept(spans, i - 1)));
      BothFromText(Written(text, spans, b, i - 1), Moving(spans, b, i - 1));
      EmittedFromText(text, spans, b, i - 1);
      BothFromText(Written(text, spans, b, i - 1) + Moving(spans, b, i - 1), Emitted(text, spans, b, i - 1));
    }
  }

  lemma {:induction false} NothingFromText()
    ensures AllFromText([])
  {
  }

  lemma {:induction false} EmittedFromText(text: string, spans: seq<Span>, b: Buffer, i: nat)
    requires i < |text|
    ensures AllFromText(Emitted(text, spans, b, i))
  {
  }

  function Chars(gs: seq<Glyph>): string {
    if |gs| == 0 then "" else Chars(gs[..|gs| - 1]) + [gs[|gs| - 1].c]
  }

  /** Without titles, the text is the characters shown. */
  lemma {:induction false} TextIsShown(ts: seq<Token>)
    requires AllFromText(ts) && Nest(ts).Opened?
    ensures TextOf(ts) == Chars(Glyphs(ts))
  {
    if |ts| > 0 {
      var front, last := ts[..|ts| - 1], ts[|ts| - 1];
      BrokenStays(Nest(front), last);
      TextIsShown(front);
      var gs, g := Glyphs(front), GlyphOf(Nest(front), last);
      assert Glyphs(ts) == gs + g && TextOf(ts) == TextOf(front) + ShownBy(last);
      assert FromText(last);
      hide Glyphs, TextOf, Nest;
      if last.Chr? { assert (gs + g)[..|gs|] == gs; } else { assert gs + g == gs; }
    }
  }

  lemma {:induction false} ContentReads(text: string, spans: seq<Span>, b: Buffer)
    requires Renderable(spans, |text|)
    ensures AllFromText(Content(text, spans, b))
    ensures TextOf(Content(text, spans, b)) == Chars(Expected(text, spans, b, |text|))
  {
    hide Closing, Written, Glyphs, Nest, Expected, Chars, TextOf;
    WrittenFromText(text, spans, b, |text|);
    ClosingFromText(b, Around(spans, |text|), 0);
    BothFromText(Written(text, spans, b, |text|), Closing(b, Around(spans, |text|), 0));
    ContentShows(text, spans, b);
    TextIsShown(Content(text, spans, b));
  }

  /** What the page says: the characters of the main text, and then for each tag block its
      title and its characters. */
  function PageText(text: string, spans: seq<Span>, order: seq<Buffer>): string {
    if |order| == 0 then Chars(Expected(text, spans, Main, |text|))
    else
      var last := order[|order| - 1];
      PageText(text, spans, order[..|order| - 1]) + Title(last) + Chars(Expected(text, spans, last, |text|))
  }

  /** Styles are given escaped. */
  predicate PlainOptions(options: Options) {
    Plain(Open(Division(options.tagSectionTitleDiv))) && Plain(Open(Division(options.tagSectionContentDiv)))
  }

  ghost predicate AllPlain(ts: seq<Token>) { forall t | t in ts :: Plain(t) }

  lemma {:induction false} TextAppend(a: seq<Token>, b: seq<Token>)
    ensures TextOf(a + b) == TextOf(a) + TextOf(b)
    decreases |b|
  {
    hide ShownBy;
    if |b| == 0 {
      assert a + b == a;
    } else {
      assert (a + b)[..|a + b| - 1] == a + b[..|b| - 1];
      TextAppend(a, b[..|b| - 1]);
    }
  }

  lemma {:induction false} SectionReads(options: Options, b: Buffer, content: seq<Token>)
    requires PlainOptions(options) && AllFromText(content)
    ensures AllPlain(Section(options, b, content)) && TextOf(Section(options, b, content)) == Title(b) + TextOf(content)
  {
    var title, body := Division(options.tagSectionTitleDiv), Division(options.tagSectionContentDiv);
    var head := [Open(title), Text(Title(b)), Close(title)];
    var rest := [Open(body)] + content + [Close(body)];
    TitleIsPlain(b);
    hide TextOf, Title, ShownBy, FromText;
    assert AllPlain(head);
    FromTextIsPlain(content);
    assert AllPlain(rest);
    HeadText(title, Title(b));
    TextAppend(head, rest);
    TextAppend([Open(body)] + content, [Close(body)]);
    TextAppend([Open(body)], content);
    TagText(body);
  }

  lemma {:induction false} FromTextIsPlain(ts: seq<Token>)
    requires AllFromText(ts)
    ensures AllPlain(ts)
  {
    forall t | t in ts ensures Plain(t) { assert FromText(t); }
  }

  lemma {:induction false} TagText(e: Element)
    ensures TextOf([Open(e)]) == "" && TextOf([Close(e)]) == ""
  {
    OneText(Open(e));
    OneText(Close(e));
  }

  lemma {:induction false} TitleIsPlain(b: Buffer)
    ensures Plain(Text(Title(b)))
  {
    ShortWords();
    LongWords();
  }

  lemma {:induction false} ShortWords()
    ensures Plain(Text("")) && Plain(Text("Author")) && Plain(Text("Since"))
  {
  }

  lemma {:induction false} LongWords()
    ensures Plain(Text("Returns")) && Plain(Text("Version")) && Plain(Text("Throws")) && Plain(Text("Parameter"))
  {
  }

  lemma {:induction false} OneText(t: Token)
    ensures TextOf([t]) == ShownBy(t)
  {
    assert [t][..0] == [];
  }

  lemma {:induction false} HeadText(e: Element, s: string)
    ensures TextOf([Open(e), Text(s), Close(e)]) == s
  {
    OneText(Open(e));
    OneText(Text(s));
    OneText(Close(e));
    TextAppend([Open(e)], [Text(s)]);
    TextAppend([Open(e)] + [Text(s)], [Close(e)]);
    assert [Open(e)] + [Text(s)] + [Close(e)] == [Open(e), Text(s), Close(e)];
  }

  lemma {:induction false} PageTokens(options: Options, text: string, spans: seq<Span>, order: seq<Buffer>)
    requires Renderable(spans, |text|) && PlainOptions(options)
    ensures AllPlain(Page(options, text, spans, order))
    ensures TextOf(Page(options, text, spans, order)) == PageText(text, spans, order)
    decreases |order|
  {
    hide Content, Section, TextOf, Chars, Expected, Title, PlainOptions;
    if |order| == 0 {
      ContentReads(text, spans, Main);
    } else {
      var front, last := order[..|order| - 1], order[|order| - 1];
      PageTokens(options, text, spans, front);
      ContentReads(text, spans, last);
      var section := Section(options, last, Content(text, spans, last));
      SectionReads(options, last, Content(text, spans, last));
      TextAppend(Page(options, text, spans, front), section);
    }
  }

  /** Reading the page with its tags dropped and its entities decoded gives the characters
      of the text that are not markup, block by block, and the titles; and every '<' on the
      page begins one of its tags. */
  lemma {:induction false} PageReads(options: Options, text: string, spans: seq<Span>, order: seq<Buffer>)
    requires Renderable(spans, |text|) && PlainOptions(options)
    ensures Visible(Flatten(Page(options, text, spans, order))) == PageText(text, spans, order)
    ensures forall p | 0 <= p < |Flatten(Page(options, text, spans, order))| ::
        Flatten(Page(options, text, spans, order))[p] == '<' <==> TagStarts(Page(options, text, spans, order), p)
  {
    var page := Page(options, text, spans, order);
    PageTokens(options, text, spans, order);
    FlattenReads(page);
    forall p | 0 <= p < |Flatten(page)| ensures Flatten(page)[p] == '<' <==> TagStarts(page, p) {
      LessStartsTag(page, p);
    }
  }

  /** The same about the page as a string. */
  lemma {:induction false} RenderedReads(options: Options, text: string, spans: seq<Span>, html: string)
    requires Renderable(spans, |text|) && PlainOptions(options) && Renders(options, text, spans, html)
    ensures exists order :: IsOrder(order, spans) && Visible(html) == PageText(text, spans, order)
  {
    var order :| IsOrder(order, spans) && html == Flatten(Page(options, text, spans, order));
    PageReads(options, text, spans, order);
    assert IsOrder(order, spans) && Visible(html) == PageText(text, spans, order);
  }

  // ------------------------------------------------------ every character exactly once

  /** How many characters are not markup. */
  function ShownCount(spans: seq<Span>, n: nat): nat {
    if n == 0 then 0 else ShownCount(spans, n - 1) + if Shown(Containing(spans, n - 1)) then 1 else 0
  }

  /** How many characters of `text[..n]` the main text and the given blocks show. */
  function Total(text: string, spans: seq<Span>, order: seq<Buffer>, n: nat): nat
    requires n <= |text|
    decreases |order|
  {
    if |order| == 0 then |Expected(text, spans, Main, n)|
    else Total(text, spans, order[..|order| - 1], n) + |Expected(text, spans, order[|order| - 1], n)|
  }

  lemma {:induction false} TotalStep(text: string, spans: seq<Span>, order: seq<Buffer>, n: nat)
    requires n < |text| && Ascending(order) && Main !in order
    ensures var c := Containing(spans, n);
      Total(text, spans, order, n + 1)
      == Total(text, spans, order, n) + if Shown(c) && Current(c) in [Main] + order then 1 else 0
    decreases |order|
  {
    hide Containing, Current, Shown;
    if |order| > 0 {
      var front, last := order[..|order| - 1], order[|order| - 1];
      assert forall i | 0 <= i < |front| :: front[i] == order[i] && BlockLess(front[i], last);
      assert last !in front;
      assert forall b :: b in order <==> b in front || b == last;
      TotalStep(text, spans, front, n);
    }
  }

  lemma {:induction false} TotalNothing(text: string, spans: seq<Span>, order: seq<Buffer>)
    ensures Total(text, spans, order, 0) == 0
    decreases |order|
  {
    if |order| > 0 { TotalNothing(text, spans, order[..|order| - 1]); }
  }

  lemma {:induction false} CurrentIsBlock(spans: seq<Span>, open: seq<Span>)
    requires forall s | s in open :: s in spans
    ensures Current(open) == Main || HasBlock(spans, Current(open))
    decreases |open|
  {
    if |open| > 0 {
      var last := open[|open| - 1];
      assert last in open;
      if !last.semantic.TagBlock? { CurrentIsBlock(spans, open[..|open| - 1]); }
    }
  }

  lemma {:induction false} OrderHasCurrent(spans: seq<Span>, order: seq<Buffer>, p: nat)
    requires IsOrder(order, spans)
    ensures Current(Containing(spans, p)) in [Main] + order && Main !in order
  {
    ContainingMembers(spans, p);
    hide Containing, Current, Ascending;
    CurrentIsBlock(spans, Containing(spans, p));
  }

  lemma {:induction false} TotalIsShown(text: string, spans: seq<Span>, order: seq<Buffer>, n: nat)
    requires n <= |text| && IsOrder(order, spans)
    ensures Total(text, spans, order, n) == ShownCount(spans, n)
  {
    hide Containing, Current, Shown, Total, HasBlock, Ascending;
    if n == 0 {
      TotalNothing(text, spans, order);
    } else {
      OrderHasCurrent(spans, order, n - 1);
      TotalIsShown(text, spans, order, n - 1);
      TotalStep(text, spans, order, n - 1);
    }
  }

  lemma {:induction false} UnderSize(es: seq<Element>, gs: seq<Glyph>)
    ensures |Under(es, gs)| == |gs|
  {
    if |gs| > 0 { UnderSize(es, gs[..|gs| - 1]); }
  }

  lemma {:induction false} AllExpectedSize(options: Options, text: string, spans: seq<Span>, order: seq<Buffer>)
    ensures |AllExpected(options, text, spans, order)| == Total(text, spans, order, |text|)
    decreases |order|
  {
    if |order| > 0 {
      AllExpectedSize(options, text, spans, order[..|order| - 1]);
      UnderSize([Division(options.tagSectionContentDiv)], Expected(text, spans, order[|order| - 1], |text|));
    }
  }

  /** The page shows as many characters as the text has outside markup: none is lost and
      none is shown twice. */
  lemma {:induction false} PageShowsAll(options: Options, text: string, spans: seq<Span>, order: seq<Buffer>)
    requires Renderable(spans, |text|) && IsOrder(order, spans)
    ensures |Glyphs(Page(options, text, spans, order))| == ShownCount(spans, |text|)
    ensures forall p | 0 <= p < |text| :: Current(Containing(spans, p)) in [Main] + order
  {
    PageShows(options, text, spans, order);
    AllExpectedSize(options, text, spans, order);
    TotalIsShown(text, spans, order, |text|);
    forall p | 0 <= p < |text| ensures Current(Containing(spans, p)) in [Main] + order {
      OrderHasCurrent(spans, order, p);
    }
  }
}
