/** Which characters a page shows and where, position by position and span by span. */
module PagePositions {
  import opened Spans
  import opened HtmlTokens
  import opened HtmlPages

  predicate Covers(s: Span, p: nat) { s.begin <= p < s.end }

  /** The last span over a position is the innermost one. */
  ghost predicate IsInnermost(spans: seq<Span>, i: nat, p: nat) {
    i < |spans| && Covers(spans[i], p) && forall j | i < j < |spans| :: !Covers(spans[j], p)
  }

  /** The innermost span over the position is markup. */
  ghost predicate Hidden(spans: seq<Span>, p: nat) {
    exists i: nat :: IsInnermost(spans, i, p) && spans[i].semantic.Markup?
  }

  ghost predicate IsLastBlock(spans: seq<Span>, i: nat, p: nat) {
    && i < |spans| && Covers(spans[i], p) && spans[i].semantic.TagBlock?
    && forall j | i < j < |spans| && Covers(spans[j], p) :: !spans[j].semantic.TagBlock?
  }

  /** The position belongs to the innermost tag block over it, or else to the main text. */
  ghost predicate BelongsTo(spans: seq<Span>, p: nat, b: Buffer) {
    match b
    case Main => forall i | 0 <= i < |spans| && Covers(spans[i], p) :: !spans[i].semantic.TagBlock?
    case Block(id, ordinal) =>
      exists i: nat :: IsLastBlock(spans, i, p) && spans[i].semantic == TagBlock(id, ordinal)
  }

  lemma {:induction false} InnermostIsLast(spans: seq<Span>, p: nat)
    ensures var open := Containing(spans, p);
      if |open| == 0 then forall i | 0 <= i < |spans| :: !Covers(spans[i], p)
      else exists i: nat :: IsInnermost(spans, i, p) && spans[i] == open[|open| - 1]
  {
    if |spans| > 0 {
      var n := |spans| - 1;
      var before := spans[..n];
      InnermostIsLast(before, p);
      if Covers(spans[n], p) {
        assert IsInnermost(spans, n, p);
      } else if |Containing(before, p)| > 0 {
        var i: nat :| IsInnermost(before, i, p) && before[i] == Containing(before, p)[|Containing(before, p)| - 1];
        assert IsInnermost(spans, i, p);
      } else {
        assert forall i | 0 <= i < n :: spans[i] == before[i];
      }
    }
  }

  lemma {:induction false} InnermostIsUnique(spans: seq<Span>, i: nat, j: nat, p: nat)
    requires IsInnermost(spans, i, p) && IsInnermost(spans, j, p)
    ensures i == j
  {
  }

  /** A character is shown exactly when its innermost span is not markup. */
  lemma {:induction false} ShownIffNotHidden(spans: seq<Span>, p: nat)
    ensures Shown(Containing(spans, p)) <==> !Hidden(spans, p)
  {
    InnermostIsLast(spans, p);
    var open := Containing(spans, p);
    if |open| > 0 {
      var i: nat :| IsInnermost(spans, i, p) && spans[i] == open[|open| - 1];
      forall j: nat | IsInnermost(spans, j, p) ensures i == j { InnermostIsUnique(spans, i, j, p); }
    }
    hide Containing;
  }

  lemma {:induction false} CurrentAppend(open: seq<Span>, s: Span)
    ensures Current(open + [s]) == if s.semantic.TagBlock? then Block(s.semantic.id, s.semantic.ordinal)
                                   else Current(open)
  {
    assert (open + [s])[..|open|] == open;
  }

  lemma {:induction false} BelongsAppend(spans: seq<Span>, s: Span, p: nat, b: Buffer)
    ensures BelongsTo(spans + [s], p, b)
        <==> if Covers(s, p) && s.semantic.TagBlock? then b == Block(s.semantic.id, s.semantic.ordinal)
             else BelongsTo(spans, p, b)
  {
    var all := spans + [s];
    assert all[|spans|] == s && forall i | 0 <= i < |spans| :: all[i] == spans[i];
    if Covers(s, p) && s.semantic.TagBlock? {
      assert IsLastBlock(all, |spans|, p);
      assert forall i: nat | IsLastBlock(all, i, p) :: i >= |spans|;
    } else {
      forall i: nat ensures IsLastBlock(all, i, p) <==> IsLastBlock(spans, i, p) {
      }
    }
  }

  /** And it is written to the buffer of its innermost tag block. */
  lemma {:induction false} CurrentIffBelongs(spans: seq<Span>, p: nat, b: Buffer)
    ensures Current(Containing(spans, p)) == b <==> BelongsTo(spans, p, b)
  {
    if |spans| > 0 {
      var n := |spans| - 1;
      var before, last := spans[..n], spans[n];
      assert spans == before + [last];
      CurrentIffBelongs(before, p, b);
      BelongsAppend(before, last, p, b);
      CurrentAppend(Containing(before, p), last);
      assert Containing(before, p) + [] == Containing(before, p);
    }
  }

  // ------------------------------------------------------------- the elements around

  /** The elements around a position: those of the code references and links over it inside its
      innermost tag block, outermost first. */
  function ElementsOver(spans: seq<Span>, p: nat): seq<Element> {
    if |spans| == 0 then []
    else
      var n := |spans| - 1;
      var outer := ElementsOver(spans[..n], p);
      if !Covers(spans[n], p) then outer
      else
        match spans[n].semantic
        case TagBlock(_, _) => []
        case CodeRef => outer + [Monospace]
        case Link(_, uri) => if |uri| > 0 then outer + [Anchor(uri[0])] else outer
        case _ => outer
  }

  /** No tag block is inside another with its id and number. */
  ghost predicate BlocksDiffer(spans: seq<Span>) {
    forall i, j | 0 <= i < j < |spans| && spans[i].semantic.TagBlock? :: spans[i].semantic != spans[j].semantic
  }

  lemma {:induction false} CurrentIsOpen(open: seq<Span>)
    ensures var b := Current(open);
      b.Block? ==> exists i | 0 <= i < |open| :: open[i].semantic == TagBlock(b.id, b.ordinal)
  {
    if |open| > 0 {
      var n := |open| - 1;
      CurrentIsOpen(open[..n]);
      assert open[n] == open[|open| - 1];
      assert forall i | 0 <= i < n :: open[..n][i] == open[i];
    }
  }

  lemma {:induction false} OpenInNone(b: Buffer, open: seq<Span>)
    requires b.Block? && forall i | 0 <= i < |open| :: open[i].semantic != TagBlock(b.id, b.ordinal)
    ensures OpenIn(b, open) == []
  {
    if |open| > 0 {
      var n := |open| - 1;
      assert forall i | 0 <= i < n :: open[..n][i] == open[i];
      OpenInNone(b, open[..n]);
      CurrentIsOpen(open[..n]);
    }
  }

  lemma {:induction false} OpenInIsOver(spans: seq<Span>, p: nat)
    requires BlocksDiffer(spans)
    ensures OpenIn(Current(Containing(spans, p)), Containing(spans, p)) == ElementsOver(spans, p)
  {
    if |spans| > 0 {
      var n := |spans| - 1;
      var before, last := spans[..n], spans[n];
      var open := Containing(before, p);
      assert forall i | 0 <= i < n :: before[i] == spans[i];
      OpenInIsOver(before, p);
      if Covers(last, p) {
        CurrentAppend(open, last);
        OpenInAppend(Current(open + [last]), open, last);
        if last.semantic.TagBlock? {
          ContainingMembers(before, p);
          hide OpenIn, Current, Containing, ElementsOver;
          var b := Block(last.semantic.id, last.semantic.ordinal);
          forall i | 0 <= i < |open| ensures open[i].semantic != TagBlock(b.id, b.ordinal) {
            assert open[i] in before;
          }
          NewBlock(open, last);
          OpenInNone(b, open);
        }
      } else {
        assert open + [] == open;
      }
    }
  }

  lemma {:induction false} NewBlock(open: seq<Span>, s: Span)
    requires s.semantic.TagBlock?
    ensures ElementOf(s) == []
  {
  }

  // ------------------------------------------------------------------ what is shown

  ghost predicate Ascends(ps: seq<nat>) { forall i, j | 0 <= i < j < |ps| :: ps[i] < ps[j] }

  /** The positions a buffer shows: those that belong to it and are not hidden, in order. */
  ghost predicate ShowsAt(spans: seq<Span>, b: Buffer, n: nat, ps: seq<nat>) {
    Ascends(ps) && forall p: nat :: p in ps <==> p < n && !Hidden(spans, p) && BelongsTo(spans, p, b)
  }

  ghost predicate Spells(text: string, spans: seq<Span>, ps: seq<nat>, gs: seq<Glyph>) {
    && |gs| == |ps|
    && forall k | 0 <= k < |ps| :: ps[k] < |text| && gs[k] == Glyph(text[ps[k]], ElementsOver(spans, ps[k]))
  }

  lemma {:induction false} ShowsNext(spans: seq<Span>, b: Buffer, p: nat, before: seq<nat>)
    requires ShowsAt(spans, b, p, before)
    ensures ShowsAt(spans, b, p + 1,
                    if !Hidden(spans, p) && BelongsTo(spans, p, b) then before + [p] else before)
  {
    hide Hidden, BelongsTo;
    var here := !Hidden(spans, p) && BelongsTo(spans, p, b);
    var ps := if here then before + [p] else before;
    assert forall q: nat :: q in ps <==> q in before || (q == p && here);
    assert forall k | 0 <= k < |before| :: before[k] in before;
  }

  lemma {:induction false} SpellsNext(text: string, spans: seq<Span>, ps: seq<nat>, gs: seq<Glyph>, p: nat)
    requires Spells(text, spans, ps, gs) && p < |text|
    ensures Spells(text, spans, ps + [p], gs + [Glyph(text[p], ElementsOver(spans, p))])
  {
    hide ElementsOver;
  }

  /** One more character: shown where it belongs, in the elements around it. */
  lemma {:induction false} ExpectedNext(text: string, spans: seq<Span>, b: Buffer, p: nat)
    requires p < |text| && BlocksDiffer(spans)
    ensures Expected(text, spans, b, p + 1)
         == Expected(text, spans, b, p)
            + if !Hidden(spans, p) && BelongsTo(spans, p, b) then [Glyph(text[p], ElementsOver(spans, p))] else []
  {
    ShownIffNotHidden(spans, p);
    CurrentIffBelongs(spans, p, b);
    OpenInIsOver(spans, p);
    hide Hidden, BelongsTo, Containing, Current, Shown, OpenIn, ElementsOver, BlocksDiffer;
  }

  /** Every buffer shows exactly the characters at those positions, in the elements around. */
  lemma {:induction false} ExpectedAt(text: string, spans: seq<Span>, b: Buffer, n: nat) returns (ps: seq<nat>)
    requires n <= |text| && BlocksDiffer(spans)
    ensures ShowsAt(spans, b, n, ps) && Spells(text, spans, ps, Expected(text, spans, b, n))
  {
    ps := [];
    if n > 0 {
      hide Hidden, BelongsTo, Expected, ShowsAt, ElementsOver, BlocksDiffer, Spells;
      var p := n - 1;
      var before := ExpectedAt(text, spans, b, p);
      ShowsNext(spans, b, p, before);
      ExpectedNext(text, spans, b, p);
      if !Hidden(spans, p) && BelongsTo(spans, p, b) {
        ps := before + [p];
        SpellsNext(text, spans, before, Expected(text, spans, b, p), p);
      } else {
        ps := before;
        assert Expected(text, spans, b, p) + [] == Expected(text, spans, b, p);
      }
    }
  }

  /** What each buffer of the page shows, read from the spans alone: the characters that belong
      to it and are not hidden, each once and in order, each in the elements around it. */
  lemma {:induction false} ContentAt(text: string, spans: seq<Span>, b: Buffer) returns (ps: seq<nat>)
    requires Renderable(spans, |text|) && BlocksDiffer(spans)
    ensures ShowsAt(spans, b, |text|, ps) && Spells(text, spans, ps, Glyphs(Content(text, spans, b)))
  {
    ContentShows(text, spans, b);
    ps := ExpectedAt(text, spans, b, |text|);
  }
}
