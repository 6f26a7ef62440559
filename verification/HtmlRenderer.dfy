/** `RenderHtml`: one pass over the text with a stack of open spans, writing into the
    buffer of the innermost tag block. */
module HtmlRenderer {
  import opened Spans
  import opened Sorting
  import opened HtmlTokens
  import opened HtmlPages

  type Buffers = map<Buffer, seq<Token>>

  function Get(bufs: Buffers, b: Buffer): seq<Token> { if b in bufs then bufs[b] else [] }

  function Put(bufs: Buffers, b: Buffer, ts: seq<Token>): (r: Buffers)
    ensures forall x :: Get(r, x) == if x == b then Get(bufs, b) + ts else Get(bufs, x)
  {
    bufs[b := Get(bufs, b) + ts]
  }

  // ------------------------------------------------------------------ the two stacks

  /** The tag blocks among the open spans, innermost last. */
  function TagsOf(open: seq<Span>): (tags: seq<Buffer>)
    ensures Current(open) == if |tags| == 0 then Main else tags[|tags| - 1]
  {
    if |open| == 0 then []
    else
      var rest := TagsOf(open[..|open| - 1]);
      match open[|open| - 1].semantic
      case TagBlock(id, ordinal) => rest + [Block(id, ordinal)]
      case _ => rest
  }

  ghost predicate IsTags(tags: seq<Buffer>, open: seq<Span>) { tags == TagsOf(open) }

  /** What the stack of tag blocks points to. */
  function Out(tags: seq<Buffer>): Buffer { if |tags| == 0 then Main else tags[|tags| - 1] }

  method PopTag(open: seq<Span>, tags: seq<Buffer>) returns (tags': seq<Buffer>)
    requires |open| > 0 && IsTags(tags, open)
    ensures IsTags(tags', open[..|open| - 1]) && Out(tags') == Current(open[..|open| - 1])
  {
    tags' := if open[|open| - 1].semantic.TagBlock? && |tags| > 0 then tags[..|tags| - 1] else tags;
    hide Current;
  }

  method PushTag(s: Span, open: seq<Span>, tags: seq<Buffer>) returns (tags': seq<Buffer>)
    requires IsTags(tags, open)
    ensures IsTags(tags', open + [s]) && Out(tags) == Current(open)
  {
    assert (open + [s])[..|open|] == open;
    tags' := tags;
    if s.semantic.TagBlock? { tags' := tags + [Block(s.semantic.id, s.semantic.ordinal)]; }
    hide Current;
  }

  // --------------------------------------------------------- the buffers at each stage

  /** Before the spans that end at `i` have been closed down to `c[..k]`. */
  ghost predicate ClosedTo(bufs: Buffers, text: string, spans: seq<Span>, i: nat, c: seq<Span>, k: nat)
    requires i <= |text|
  {
    forall b :: Get(bufs, b) == Written(text, spans, b, i) + Closing(b, c, k)
  }

  /** When `open` are open at `i`, of which `k` were before. */
  ghost predicate OpenedTo(bufs: Buffers, text: string, spans: seq<Span>, i: nat, open: seq<Span>, k: nat)
    requires i <= |text|
  {
    forall b :: Get(bufs, b) == Written(text, spans, b, i) + Closing(b, Around(spans, i), k) + Opening(b, open, k)
  }

  ghost predicate WrittenTo(bufs: Buffers, text: string, spans: seq<Span>, i: nat)
    requires i <= |text|
  {
    forall b :: Get(bufs, b) == Written(text, spans, b, i)
  }

  lemma {:induction false} CloseOne(bufs: Buffers, text: string, spans: seq<Span>, i: nat, c: seq<Span>, k: nat)
    requires i <= |text| && k < |c| && ClosedTo(bufs, text, spans, i, c, k + 1)
    ensures ClosedTo(Put(bufs, Current(c[..k]), CloseTokens(c[k])), text, spans, i, c, k)
  {
    hide Written, Current, CloseTokens, Closing, Put, Get;
    var bufs' := Put(bufs, Current(c[..k]), CloseTokens(c[k]));
    forall b ensures Get(bufs', b) == Written(text, spans, b, i) + Closing(b, c, k) {
      assert Get(bufs, b) == Written(text, spans, b, i) + Closing(b, c, k + 1);
      CloseIn(bufs, b, Written(text, spans, b, i), c, k);
    }
  }

  lemma {:induction false} CloseIn(bufs: Buffers, b: Buffer, w: seq<Token>, c: seq<Span>, k: nat)
    requires k < |c| && Get(bufs, b) == w + Closing(b, c, k + 1)
    ensures Get(Put(bufs, Current(c[..k]), CloseTokens(c[k])), b) == w + Closing(b, c, k)
  {
    var last := if Current(c[..k]) == b then CloseTokens(c[k]) else [];
    assert Closing(b, c, k) == Closing(b, c, k + 1) + last;
    hide Current, CloseTokens, Closing, Put;
  }

  lemma {:induction false} OpenOne(
    bufs: Buffers, text: string, spans: seq<Span>, i: nat, open: seq<Span>, k: nat, s: Span)
    requires i <= |text| && k <= |open| && OpenedTo(bufs, text, spans, i, open, k)
    ensures OpenedTo(Put(bufs, Current(open), OpenTokens(s)), text, spans, i, open + [s], k)
  {
    hide Written, Closing, Current, OpenTokens, Opening, Put, Get, Around;
    var bufs' := Put(bufs, Current(open), OpenTokens(s));
    forall b
      ensures Get(bufs', b)
           == Written(text, spans, b, i) + Closing(b, Around(spans, i), k) + Opening(b, open + [s], k)
    {
      var w := Written(text, spans, b, i) + Closing(b, Around(spans, i), k);
      assert Get(bufs, b) == w + Opening(b, open, k);
      OpenedIn(bufs, b, w, open, k, s);
    }
  }

  lemma {:induction false} OpenedIn(bufs: Buffers, b: Buffer, w: seq<Token>, open: seq<Span>, k: nat, s: Span)
    requires k <= |open| && Get(bufs, b) == w + Opening(b, open, k)
    ensures Get(Put(bufs, Current(open), OpenTokens(s)), b) == w + Opening(b, open + [s], k)
  {
    assert (open + [s])[..|open|] == open;
    var last := if Current(open) == b then OpenTokens(s) else [];
    assert Opening(b, open + [s], k) == Opening(b, open, k) + last;
    hide Current, OpenTokens, Opening, Put;
  }

  lemma {:induction false} EmitOne(bufs: Buffers, text: string, spans: seq<Span>, i: nat)
    requires i < |text| && OpenedTo(bufs, text, spans, i, Containing(spans, i), Kept(spans, i))
    ensures var c := Containing(spans, i);
      WrittenTo(if Shown(c) then Put(bufs, Current(c), [Chr(text[i])]) else bufs, text, spans, i + 1)
  {
    hide Containing, Current, Closing, Opening, Kept, Around, Shown, Written, Put, Get;
    var c := Containing(spans, i);
    var bufs' := if Shown(c) then Put(bufs, Current(c), [Chr(text[i])]) else bufs;
    forall b ensures Get(bufs', b) == Written(text, spans, b, i + 1) {
      WrittenStep(text, spans, b, i);
      var w := Written(text, spans, b, i);
      assert Get(bufs, b) == w + Closing(b, Around(spans, i), Kept(spans, i)) + Opening(b, c, Kept(spans, i));
      assert Get(bufs, b) == w + Moving(spans, b, i);
      EmitIn(bufs, b, text, spans, i);
    }
  }

  lemma {:induction false} EmitIn(bufs: Buffers, b: Buffer, text: string, spans: seq<Span>, i: nat)
    requires i < |text|
    ensures var c := Containing(spans, i);
      Get(if Shown(c) then Put(bufs, Current(c), [Chr(text[i])]) else bufs, b)
      == Get(bufs, b) + Emitted(text, spans, b, i)
  {
    hide Containing, Current, Shown, Put;
  }

  lemma {:induction false} NotYetClosed(bufs: Buffers, text: string, spans: seq<Span>, i: nat, c: seq<Span>)
    requires i <= |text| && WrittenTo(bufs, text, spans, i)
    ensures ClosedTo(bufs, text, spans, i, c, |c|)
  {
    hide Written;
  }

  lemma {:induction false} NotYetOpened(bufs: Buffers, text: string, spans: seq<Span>, i: nat, open: seq<Span>)
    requires i <= |text| && ClosedTo(bufs, text, spans, i, Around(spans, i), |open|)
    ensures OpenedTo(bufs, text, spans, i, open, |open|)
  {
    hide Written, Closing, Around;
    forall b
      ensures Get(bufs, b)
           == Written(text, spans, b, i) + Closing(b, Around(spans, i), |open|) + Opening(b, open, |open|)
    {
      assert Opening(b, open, |open|) == [];
    }
  }

  // ------------------------------------------------------------------- the pass itself

  /** Closes every span that ends at `i`. */
  method CloseAll(
    ghost text: string, ghost spans: seq<Span>, i: nat, before: seq<Span>, bufs0: Buffers, tags0: seq<Buffer>)
    returns (open: seq<Span>, bufs: Buffers, tags: seq<Buffer>)
    requires Renderable(spans, |text|) && i <= |text| && before == Around(spans, i)
    requires IsTags(tags0, before) && WrittenTo(bufs0, text, spans, i)
    ensures open == Staying(before, i) && IsTags(tags, open) && ClosedTo(bufs, text, spans, i, before, |open|)
  {
    hide *;
    open, bufs, tags := before, bufs0, tags0;
    NotYetClosed(bufs, text, spans, i, before);
    AroundFalls(spans, |text|, i);
    AroundEnds(spans, |text|, i);
    StayingIsPrefix(before, i);
    while |open| > 0 && open[|open| - 1].end == i
      invariant |Staying(before, i)| <= |open| <= |before| && open == before[..|open|]
      invariant IsTags(tags, open) && ClosedTo(bufs, text, spans, i, before, |open|)
      decreases |open|
    {
      var s := open[|open| - 1];
      CloseOne(bufs, text, spans, i, before, |open| - 1);
      tags := PopTag(open, tags);
      open := open[..|open| - 1];
      bufs := Put(bufs, Out(tags), CloseTokens(s));
    }
  }

  lemma {:induction false} AroundEnds(spans: seq<Span>, n: nat, i: nat)
    requires Renderable(spans, n)
    ensures forall j | 0 <= j < |Around(spans, i)| :: Around(spans, i)[j].end >= i
  {
    if i > 0 {
      ContainingMembers(spans, i - 1);
      var c := Containing(spans, i - 1);
      forall j | 0 <= j < |c| ensures c[j].end >= i { assert c[j] in c; }
    }
  }

  /** `order` holds the keys of the tag block map when `spans[..next]` have been opened. */
  lemma {:induction false} KeepsOrder(order: seq<Buffer>, spans: seq<Span>, next: nat)
    requires next < |spans| && IsOrder(order, spans[..next])
    ensures IsOrder(NextOrder(order, spans[next]), spans[..next + 1])
  {
    var s := spans[next];
    assert forall x :: x in spans[..next + 1] <==> x in spans[..next] || x == s;
    forall b ensures HasBlock(spans[..next + 1], b) <==> HasBlock(spans[..next], b) || IsBlockOf(b, s) {
      if IsBlockOf(b, s) { assert s in spans[..next + 1] && s.semantic == TagBlock(b.id, b.ordinal); }
    }
    hide HasBlock, Insert;
    if s.semantic.TagBlock? {
      var b := Block(s.semantic.id, s.semantic.ordinal);
      if b !in order { InsertKey(order, b); }
    }
  }

  ghost predicate IsBlockOf(b: Buffer, s: Span) { b.Block? && s.semantic == TagBlock(b.id, b.ordinal) }

  /** The keys of the map after `tag_blocks[block]`. */
  function NextOrder(order: seq<Buffer>, s: Span): seq<Buffer> {
    if !s.semantic.TagBlock? then order
    else
      var b := Block(s.semantic.id, s.semantic.ordinal);
      if b in order then order else Insert(BlockLess, b, order)
  }

  lemma {:induction false} InsertKey(order: seq<Buffer>, b: Buffer)
    requires b !in order && Ascending(order)
    ensures var r := Insert(BlockLess, b, order); Ascending(r) && forall x :: x in r <==> x in order || x == b
  {
    if |order| > 0 {
      if !BlockLess(b, order[0]) {
        InsertKey(order[1..], b);
        var r := Insert(BlockLess, b, order[1..]);
        assert forall x :: x in order <==> x == order[0] || x in order[1..];
        forall i | 0 <= i < |r| ensures BlockLess(order[0], r[i]) { assert r[i] in r; }
      } else {
        forall j | 0 <= j < |order| ensures BlockLess(b, order[j]) { assert j == 0 || BlockLess(order[0], order[j]); }
      }
    }
  }

  /** Opens every span that begins at `i`. */
  method OpenAll(ghost text: string, spans: seq<Span>, i: nat, next0: nat, open0: seq<Span>, bufs0: Buffers,
                 order0: seq<Buffer>, tags0: seq<Buffer>)
    returns (next: nat, open: seq<Span>, bufs: Buffers, order: seq<Buffer>, tags: seq<Buffer>)
    requires Renderable(spans, |text|) && i < |text| && Begun(spans, next0, i)
    requires open0 == Staying(Around(spans, i), i) && IsTags(tags0, open0)
    requires ClosedTo(bufs0, text, spans, i, Around(spans, i), |open0|) && IsOrder(order0, spans[..next0])
    ensures open == Containing(spans, i) && IsTags(tags, open) && Begun(spans, next, i + 1)
    ensures OpenedTo(bufs, text, spans, i, open, |open0|) && IsOrder(order, spans[..next])
  {
    hide Containing, IsTags, Renderable, OpenedTo, ClosedTo, IsOrder, NextOrder, Staying, Around, Put, OpenTokens;
    hide Current, Out;
    next, open, bufs, order, tags := next0, open0, bufs0, order0, tags0;
    StayingAround(spans, next, i);
    NotYetOpened(bufs, text, spans, i, open);
    while next < |spans| && spans[next].begin == i
      invariant next <= |spans| && |open0| <= |open| && IsTags(tags, open) && open == Containing(spans[..next], i)
      invariant OpenedTo(bufs, text, spans, i, open, |open0|) && IsOrder(order, spans[..next])
      invariant forall j | 0 <= j < next :: spans[j].begin <= i
      invariant forall j | next <= j < |spans| :: spans[j].begin >= i
      decreases |spans| - next
    {
      var s := spans[next];
      OpenedRight(spans, |text|, i, next);
      OpenOne(bufs, text, spans, i, open, |open0|, s);
      KeepsOrder(order, spans, next);
      order := NextOrder(order, s);
      var out := Out(tags);
      tags := PushTag(s, open, tags);
      bufs := Put(bufs, out, OpenTokens(s));
      open := open + [s];
      next := next + 1;
    }
    LaterBegin(spans, |text|, next, i);
    ContainingPrefix(spans, next, i);
  }

  lemma {:induction false} OpenedRight(spans: seq<Span>, n: nat, i: nat, next: nat)
    requires Renderable(spans, n) && next < |spans| && spans[next].begin == i
    ensures Containing(spans[..next + 1], i) == Containing(spans[..next], i) + [spans[next]]
  {
    assert spans[..next + 1][..next] == spans[..next];
  }

  lemma {:induction false} LaterBegin(spans: seq<Span>, n: nat, next: nat, i: nat)
    requires Renderable(spans, n) && next <= |spans| && (forall j | next <= j < |spans| :: spans[j].begin >= i)
    requires next == |spans| || spans[next].begin != i
    ensures forall j | next <= j < |spans| :: spans[j].begin > i
  {
    forall j | next <= j < |spans| ensures spans[j].begin > i {
      assert j == next || !SpanLess(spans[j], spans[next]);
    }
  }

  /** The pass over the text.  The raw span over the whole text, which is first on the stack
      and last off it, is left implicit. */
  method RenderBuffers(text: string, spans: seq<Span>) returns (bufs: Buffers, order: seq<Buffer>)
    requires Renderable(spans, |text|)
    ensures IsOrder(order, spans) && forall b :: Get(bufs, b) == Content(text, spans, b)
  {
    hide *;
    var open: seq<Span>, tags: seq<Buffer>, next: nat := [], [], 0;
    bufs, order := map[], [];
    AtStart(text, spans);
    for i := 0 to |text|
      invariant open == Around(spans, i) && IsTags(tags, open) && WrittenTo(bufs, text, spans, i)
      invariant Begun(spans, next, i) && next <= |spans| && IsOrder(order, spans[..next])
    {
      open, bufs, tags := CloseAll(text, spans, i, open, bufs, tags);
      BegunFits(spans, next, i);
      next, open, bufs, order, tags := OpenAll(text, spans, i, next, open, bufs, order, tags);
      BegunFits(spans, next, i + 1);
      AtCharacter(spans, i, tags, open);
      EmitOne(bufs, text, spans, i);
      if Shown(open) { bufs := Put(bufs, Out(tags), [Chr(text[i])]); }
    }
    open, bufs, tags := CloseAll(text, spans, |text|, open, bufs, tags);
    AtEnd(bufs, text, spans, next, order);
  }

  lemma {:induction false} AtStart(text: string, spans: seq<Span>)
    ensures Around(spans, 0) == [] && IsTags([], []) && WrittenTo(map[], text, spans, 0)
    ensures Begun(spans, 0, 0) && IsOrder([], spans[..0])
  {
  }

  lemma {:induction false} BegunFits(spans: seq<Span>, next: nat, i: nat)
    requires Begun(spans, next, i)
    ensures next <= |spans|
  {
  }

  lemma {:induction false} AtCharacter(spans: seq<Span>, i: nat, tags: seq<Buffer>, open: seq<Span>)
    requires IsTags(tags, open)
    ensures Kept(spans, i) == |Staying(Around(spans, i), i)| && Around(spans, i + 1) == Containing(spans, i)
    ensures Out(tags) == Current(open)
  {
  }

  lemma {:induction false} AtEnd(bufs: Buffers, text: string, spans: seq<Span>, next: nat, order: seq<Buffer>)
    requires Renderable(spans, |text|) && Begun(spans, next, |text|) && IsOrder(order, spans[..next])
    requires var c := Around(spans, |text|); ClosedTo(bufs, text, spans, |text|, c, |Staying(c, |text|)|)
    ensures IsOrder(order, spans) && forall b :: Get(bufs, b) == Content(text, spans, b)
  {
    assert next == |spans| && spans[..next] == spans;
    StayingAround(spans, next, |text|);
    NoneContain(spans, |text|);
    hide Written, Closing, Around, Containing;
  }

  // -------------------------------------------------------------- putting it together

  /** There is one page for a text with spans, and this is it. */
  method RenderHtml(options: Options, text: string, spans: seq<Span>) returns (html: string)
    requires Renderable(spans, |text|)
    ensures Renders(options, text, spans, html)
  {
    var bufs, order := RenderBuffers(text, spans);
    var out := AppendSections(options, text, spans, bufs, order);
    assert IsOrder(order, spans);
    hide IsOrder, Page;
    html := Flatten(out);
  }

  /** `RenderTagBlocks`, after the main text. */
  method AppendSections(options: Options, ghost text: string, ghost spans: seq<Span>, bufs: Buffers, keys: seq<Buffer>)
    returns (out: seq<Token>)
    requires forall b :: Get(bufs, b) == Content(text, spans, b)
    ensures out == Page(options, text, spans, keys)
  {
    out := Get(bufs, Main);
    hide Section, Content;
    for i := 0 to |keys|
      invariant out == Page(options, text, spans, keys[..i])
    {
      assert keys[..i + 1][..i] == keys[..i];
      out := out + Section(options, keys[i], Get(bufs, keys[i]));
    }
    assert keys[..|keys|] == keys;
  }
}
