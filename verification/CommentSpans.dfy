/** The spans that a comment must have: for every tag and brace block that the scan comes to,
    with the extents that the text gives them. */
module CommentSpans {
  import opened Wrappers
  import opened Spans
  import opened Comments
  import opened CommentEnds

  // ------------------------------------------------------- what a tag or block calls for

  ghost predicate HasDescription(buffer: string, e: nat, limit: nat, id: TagBlockId, spans: seq<Span>) {
    exists n: nat, end: nat ::
      Span(e, end, TagBlock(id, n)) in spans && JavadocRuns(buffer, e, limit, end)
      && (end < limit ==> buffer[end] == '@')
  }

  /** A tag block over the description, or code up to the limit. */
  ghost predicate HasContent(buffer: string, e: nat, limit: nat, info: JavadocTagInfo, spans: seq<Span>) {
    && (BlockOf(info).Some? ==> HasDescription(buffer, e, limit, BlockOf(info).value, spans))
    && (info.tag.CodeTag? ==> Span(e, limit, CodeRef) in spans)
  }

  /** The two ends of a brace block are markup, and its content is there. */
  ghost predicate HasBlock(
    buffer: string, b: nat, e: nat, info: JavadocTagInfo, c: nat, spans: seq<Span>)
  {
    Span(b, e, Markup) in spans && Span(c, c + 1, Markup) in spans && HasContent(buffer, e, c, info, spans)
  }

  ghost predicate HasDoxygenDescription(buffer: string, e: nat, limit: nat, s: Semantic, spans: seq<Span>) {
    exists end: nat ::
      Span(e, end, s) in spans && DoxygenRuns(buffer, e, limit, end)
      && (end < limit <= |buffer| ==> DoxygenStops(buffer, end, limit))
  }

  /** The tag is markup, and a tag block or brief stands over its description, code over the word. */
  ghost predicate HasDoxygen(
    buffer: string, d: nat, e: nat, limit: nat, info: DoxygenTagInfo, spans: seq<Span>)
    requires limit <= |buffer|
  {
    && Span(d, e, Markup) in spans
    && (info.block.Some? ==>
          exists n: nat :: HasDoxygenDescription(buffer, e, limit, TagBlock(info.block.value, n), spans))
    && (info.tag.BriefTag? ==> HasDoxygenDescription(buffer, e, limit, Brief, spans))
    && (info.tag.CTag? ==> exists w: nat :: Span(e, w, CodeRef) in spans && IsWordEnd(buffer, e, limit, w))
  }

  // --------------------------------------------------------------- nothing is taken away

  ghost predicate Keeps(a: seq<Span>, b: seq<Span>) { forall s | s in a :: s in b }

  lemma {:induction false} GrewIsKept(buffer: string, a: seq<Span>, b: seq<Span>, lo: nat, hi: nat)
    requires Grew(buffer, a, b, lo, hi)
    ensures Keeps(a, b)
  {
    hide Grew;
    forall s | s in a ensures s in b { GrewKeeps(buffer, a, b, s); }
  }

  lemma {:induction false} HasContentKept(
    buffer: string, e: nat, limit: nat, info: JavadocTagInfo, a: seq<Span>, b: seq<Span>)
    requires HasContent(buffer, e, limit, info, a) && Keeps(a, b)
    ensures HasContent(buffer, e, limit, info, b)
  {
    hide JavadocRuns, BlockOf;
  }

  lemma {:induction false} HasBlockKept(
    buffer: string, o: nat, e: nat, info: JavadocTagInfo, c: nat, a: seq<Span>, b: seq<Span>)
    requires HasBlock(buffer, o, e, info, c, a) && Keeps(a, b)
    ensures HasBlock(buffer, o, e, info, c, b)
  {
    HasContentKept(buffer, e, c, info, a, b);
  }

  lemma {:induction false} HasDescriptionKept(
    buffer: string, e: nat, limit: nat, s: Semantic, a: seq<Span>, b: seq<Span>)
    requires HasDoxygenDescription(buffer, e, limit, s, a) && Keeps(a, b)
    ensures HasDoxygenDescription(buffer, e, limit, s, b)
  {
    hide DoxygenRuns, DoxygenStops;
  }

  lemma {:induction false} HasDoxygenKept(
    buffer: string, d: nat, e: nat, limit: nat, info: DoxygenTagInfo, a: seq<Span>, b: seq<Span>)
    requires limit <= |buffer| && HasDoxygen(buffer, d, e, limit, info, a) && Keeps(a, b)
    ensures HasDoxygen(buffer, d, e, limit, info, b)
  {
    if info.block.Some? {
      var n: nat :| HasDoxygenDescription(buffer, e, limit, TagBlock(info.block.value, n), a);
      HasDescriptionKept(buffer, e, limit, TagBlock(info.block.value, n), a, b);
    }
    if info.tag.BriefTag? { HasDescriptionKept(buffer, e, limit, Brief, a, b); }
    hide HasDoxygenDescription, IsWordEnd;
  }

  // ------------------------------------------------------------------- single constructs

  lemma {:induction false} ContentHas(buffer: string, d: nat, limit: nat, info: JavadocTagInfo, spans: seq<Span>)
    requires d + |info.name| + 1 <= limit <= |buffer| && info in JavadocTags()
    ensures HasContent(buffer, d + |info.name| + 1, limit, info, JavadocTagContent(buffer, d, limit, info, spans).spans)
  {
    hide JavadocTags, DoxygenTags;
    var e := d + |info.name| + 1;
    var r := JavadocTagContent(buffer, d, limit, info, spans);
    if info.tag.CodeTag? { CodeIsNoBlock(info); }
    if BlockOf(info).Some? {
      JavadocDescriptionEnds(buffer, e, limit, spans);
      var inside := JavadocDescription(buffer, e, limit, spans);
      hide JavadocDescription, JavadocRuns, BlockOf;
      var s := Block(inside.spans, e, inside.at, BlockOf(info).value);
      assert s in r.spans && s == Span(e, inside.at, TagBlock(BlockOf(info).value, s.semantic.ordinal));
    }
  }

  lemma {:induction false} CodeIsNoBlock(info: JavadocTagInfo)
    requires info in JavadocTags() && info.tag.CodeTag?
    ensures BlockOf(info).None?
  {
    JavadocBlocks(info);
  }

  /** A brace block has its spans once it is read. */
  lemma {:induction false} BraceHas(
    buffer: string, b: nat, limit: nat, d: nat, e: nat, info: JavadocTagInfo, c: nat, spans: seq<Span>)
    requires BlockAt(buffer, b, limit, d, e, info, c)
    ensures b < limit && buffer[b] == '{' && Brace(buffer, b, limit, spans).at == c + 1
    ensures HasBlock(buffer, b, e, info, c, Brace(buffer, b, limit, spans).spans)
  {
    hide JavadocTags, DoxygenTags, Brace, JavadocTagContent, Matches, HasContent, Grew;
    BlockIsRead(buffer, b, limit, d, e, info, c, spans);
    var marked := spans + [Span(b, e, Markup)] + [Span(c, c + 1, Markup)];
    ContentHas(buffer, d, c, info, marked);
    JavadocContentGrows(buffer, d, c, info, marked);
    var r := JavadocTagContent(buffer, d, c, info, marked);
    GrewIsKept(buffer, marked, r.spans, d + |info.name| + 1, r.at);
    assert Span(b, e, Markup) in marked && Span(c, c + 1, Markup) in marked;
  }

  /** So has one that a Javadoc description runs up to. */
  lemma {:induction false} JavadocDescriptionHas(
    buffer: string, at: nat, limit: nat, spans: seq<Span>, b: nat, d: nat, e: nat, info: JavadocTagInfo, c: nat)
    requires at <= limit <= |buffer| && JavadocRuns(buffer, at, limit, b) && BlockAt(buffer, b, limit, d, e, info, c)
    ensures HasBlock(buffer, b, e, info, c, JavadocDescription(buffer, at, limit, spans).spans)
    decreases limit - at
  {
    hide OpensBlock, ClosesAt, Brace, BlockAt, HasBlock, Grew;
    BraceHas(buffer, b, limit, d, e, info, c, spans);
    if at == b {
      var block := Brace(buffer, at, limit, spans);
      JavadocDescriptionGrows(buffer, c + 1, limit, block.spans);
      var r := JavadocDescription(buffer, c + 1, limit, block.spans);
      GrewIsKept(buffer, block.spans, r.spans, c + 1, r.at);
      HasBlockKept(buffer, b, e, info, c, block.spans, r.spans);
    } else if OpensBlock(buffer, at, limit) {
      var c': nat :| ClosesAt(buffer, at, limit, c') && at < c' < b && JavadocRuns(buffer, c' + 1, limit, b);
      BlockBounds(buffer, at, limit, c');
      JavadocDescriptionHas(buffer, c' + 1, limit, Brace(buffer, at, limit, spans).spans, b, d, e, info, c);
    } else {
      if buffer[at] == '{' { OtherBraceIsRead(buffer, at, limit, spans); }
      JavadocDescriptionHas(buffer, at + 1, limit, spans, b, d, e, info, c);
    }
  }

  // ------------------------------------------------------------------- Doxygen tags

  lemma {:induction false} DoxygenHas(buffer: string, d: nat, limit: nat, info: DoxygenTagInfo, spans: seq<Span>)
    requires d + |info.name| + 1 <= limit && Stops(buffer, limit)
    requires DoxygenTagText(buffer, d, d + |info.name| + 1, info)
    ensures HasDoxygen(buffer, d, d + |info.name| + 1, limit, info, DoxygenTagged(buffer, d, limit, info, spans).spans)
  {
    hide JavadocTags, DoxygenTags, Grew;
    var e := d + |info.name| + 1;
    var marked := spans + [Span(d, e, Markup)];
    var r := DoxygenTagContent(buffer, d, limit, info, marked);
    DoxygenContentGrows(buffer, d, limit, info, marked);
    GrewIsKept(buffer, marked, r.spans, e, r.at);
    assert Span(d, e, Markup) in marked;
    DoxygenBlocks(info);
    hide DoxygenTagText;
    if info.block.Some? || info.tag.BriefTag? {
      DoxygenDescriptionEnds(buffer, e, limit, marked);
      var inside := DoxygenDescription(buffer, e, limit, marked);
      hide DoxygenDescription, DoxygenRuns, DoxygenStops;
      var s := r.spans[|r.spans| - 1];
      assert s in r.spans && s.begin == e && s.end == inside.at;
    } else if info.tag.CTag? {
      WordEndIs(buffer, e, limit);
    }
  }

  /** What a Doxygen description comes to: one step over a block, a code word or a character. */
  ghost predicate DoxygenMoves(buffer: string, at: nat, limit: nat, spans: seq<Span>, next: Scan)
    requires at < limit && Stops(buffer, limit)
  {
    && at < next.at <= limit && Keeps(spans, next.spans)
    && DoxygenDescription(buffer, at, limit, spans) == DoxygenDescription(buffer, next.at, limit, next.spans)
  }

  /** A description that runs up to `b` moves on towards it. */
  lemma {:induction false} DoxygenMovesOn(buffer: string, at: nat, limit: nat, spans: seq<Span>, b: nat)
    returns (next: Scan)
    requires at < b < limit && Stops(buffer, limit) && DoxygenRuns(buffer, at, limit, b)
    ensures DoxygenMoves(buffer, at, limit, spans, next) && DoxygenRuns(buffer, next.at, limit, b)
  {
    hide OpensBlock, ClosesAt, Brace, DoxygenStops, TakesWord, DoxygenTags, TagAt, BlankLine, WordEnd, LettersFrom,
         DoxygenTagged, Grew;
    next := Scan(at + 1, spans);
    if OpensBlock(buffer, at, limit) {
      var c: nat :| ClosesAt(buffer, at, limit, c) && at < c < b && DoxygenRuns(buffer, c + 1, limit, b);
      BlockBounds(buffer, at, limit, c);
      next := Brace(buffer, at, limit, spans);
      BraceGrows(buffer, at, limit, spans);
      GrewIsKept(buffer, spans, next.spans, at, next.at);
    } else if buffer[at] == '{' {
      OrdinaryCharacter(buffer, at, limit);
      OtherBraceIsRead(buffer, at, limit, spans);
    } else if buffer[at] == '\n' {
      StopsAtBlankLine(buffer, at, limit);
    } else if buffer[at] == '\\' {
      var tag := TagAt(DoxygenNames(), buffer, at);
      StopsAtTag(buffer, at, limit, tag);
      if tag.Some? && !DoxygenTags()[tag.value].beginsSection {
        var info := DoxygenTags()[tag.value];
        next := DoxygenTagged(buffer, at, limit, info, spans);
        CodeWordEnds(buffer, at, limit, info, spans);
        TaggedKeeps(buffer, at, limit, tag.value, spans);
        assert TakesWord(buffer, at, limit, next.at);
      }
    } else {
      OrdinaryCharacter(buffer, at, limit);
    }
  }

  lemma {:induction false} TaggedKeeps(buffer: string, d: nat, limit: nat, tag: nat, spans: seq<Span>)
    requires d < limit && Stops(buffer, limit) && buffer[d] == '\\' && TagAt(DoxygenNames(), buffer, d) == Some(tag)
    requires d + |DoxygenTags()[tag].name| + 1 <= limit
    ensures Keeps(spans, DoxygenTagged(buffer, d, limit, DoxygenTags()[tag], spans).spans)
  {
    hide DoxygenTags, TagAt, Grew, DoxygenTagContent;
    var info := DoxygenTags()[tag];
    SlashTextAt(buffer, d, tag);
    var marked := spans + [Span(d, d + |info.name| + 1, Markup)];
    DoxygenContentGrows(buffer, d, limit, info, marked);
    var r := DoxygenTagContent(buffer, d, limit, info, marked);
    GrewIsKept(buffer, marked, r.spans, d + |info.name| + 1, r.at);
    assert forall s | s in spans :: s in marked;
  }

  lemma {:induction false} DoxygenDescriptionKeeps(buffer: string, at: nat, limit: nat, spans: seq<Span>)
    requires at <= limit && Stops(buffer, limit)
    ensures Keeps(spans, DoxygenDescription(buffer, at, limit, spans).spans)
  {
    hide Grew;
    DoxygenDescriptionGrows(buffer, at, limit, spans);
    var r := DoxygenDescription(buffer, at, limit, spans);
    GrewIsKept(buffer, spans, r.spans, at, r.at);
  }

  /** A brace block that a Doxygen description runs up to has its spans. */
  lemma {:induction false} DoxygenDescriptionHas(
    buffer: string, at: nat, limit: nat, spans: seq<Span>, b: nat, d: nat, e: nat, info: JavadocTagInfo, c: nat)
    requires at <= limit && Stops(buffer, limit) && DoxygenRuns(buffer, at, limit, b)
    requires BlockAt(buffer, b, limit, d, e, info, c)
    ensures HasBlock(buffer, b, e, info, c, DoxygenDescription(buffer, at, limit, spans).spans)
    decreases limit - at
  {
    hide Brace, BlockAt, HasBlock, Keeps;
    BraceHas(buffer, b, limit, d, e, info, c, spans);
    if at == b {
      var block := Brace(buffer, at, limit, spans);
      DoxygenDescriptionKeeps(buffer, block.at, limit, block.spans);
      HasBlockKept(buffer, b, e, info, c, block.spans, DoxygenDescription(buffer, block.at, limit, block.spans).spans);
    } else {
      assert at < b by { hide DoxygenRuns; RunsForward(buffer, at, limit, b); }
      var next := DoxygenMovesOn(buffer, at, limit, spans, b);
      hide DoxygenDescription, DoxygenRuns;
      DoxygenDescriptionHas(buffer, next.at, limit, next.spans, b, d, e, info, c);
    }
  }

  lemma {:induction false} RunsForward(buffer: string, at: nat, limit: nat, end: nat)
    requires DoxygenRuns(buffer, at, limit, end)
    ensures at <= end <= limit <= |buffer|
  {
  }

  /** A code word that a Doxygen description runs up to has its spans. */
  lemma {:induction false} DoxygenDescriptionHasCode(
    buffer: string, at: nat, limit: nat, spans: seq<Span>, b: nat, e: nat, info: DoxygenTagInfo)
    requires at <= limit && Stops(buffer, limit) && DoxygenRuns(buffer, at, limit, b) && b < limit
    requires DoxygenTagText(buffer, b, e, info) && info.name == "c"
    ensures HasDoxygen(buffer, b, e, limit, info, DoxygenDescription(buffer, at, limit, spans).spans)
    decreases limit - at
  {
    RunsForward(buffer, at, limit, b);
    hide DoxygenTagText, HasDoxygen, DoxygenRuns, Keeps, DoxygenTags, TagAt, LettersFrom;
    if at == b {
      CodeWordHas(buffer, b, e, limit, info, spans);
    } else {
      var next := DoxygenMovesOn(buffer, at, limit, spans, b);
      hide DoxygenDescription;
      DoxygenDescriptionHasCode(buffer, next.at, limit, next.spans, b, e, info);
    }
  }

  lemma {:induction false} CodeWordHas(
    buffer: string, b: nat, e: nat, limit: nat, info: DoxygenTagInfo, spans: seq<Span>)
    requires b < limit && Stops(buffer, limit) && DoxygenTagText(buffer, b, e, info) && info.name == "c"
    ensures HasDoxygen(buffer, b, e, limit, info, DoxygenDescription(buffer, b, limit, spans).spans)
  {
    hide DoxygenTags, TagAt, LettersFrom, HasDoxygen, Keeps, DoxygenTagged;
    DoxygenTagIsFound(buffer, b, e, info);
    NameStops(buffer, b, limit);
    DoxygenBlocks(info);
    DoxygenHas(buffer, b, limit, info, spans);
    var next := DoxygenTagged(buffer, b, limit, info, spans);
    DoxygenDescriptionKeeps(buffer, next.at, limit, next.spans);
    HasDoxygenKept(buffer, b, e, limit, info, next.spans, DoxygenDescription(buffer, next.at, limit, next.spans).spans);
  }

  // -------------------------------------------------------------------- whole comments

  lemma {:induction false} VisitedIsKept(text: string, q: Place, spans: seq<Span>)
    requires Visits(text, Place(0, true, []), q) && q.at < |text| && Keeps(spans, After(text, q).spans)
    ensures Keeps(spans, Comment(text, 0, true, []))
  {
    hide Visits, After, Comment;
    VisitedComment(text, Place(0, true, []), q);
    forall s | s in spans ensures s in Comment(text, 0, true, []) { StaysMarked(text, q, s); }
  }

  /** Every listed Javadoc tag at a line start that the scan comes to: its markup, and the tag
      block over its description or the code behind it. */
  lemma {:induction false} VisitedJavadocTag(text: string, q: Place, e: nat, info: JavadocTagInfo)
    requires Visits(text, Place(0, true, []), q) && q.lineStart && JavadocTagText(text, q.at, e, info)
    ensures Span(q.at, e, Markup) in Comment(text, 0, true, [])
    ensures HasContent(text, e, |text|, info, Comment(text, 0, true, []))
  {
    hide JavadocTags, DoxygenTags, TagAt, Visits, Comment, HasContent, Keeps, Grew;
    JavadocTagIsFound(text, q.at, e, info);
    var marked := q.spans + [Span(q.at, e, Markup)];
    var r := JavadocTagContent(text, q.at, |text|, info, marked);
    assert After(text, q).spans == r.spans;
    ContentHas(text, q.at, |text|, info, marked);
    JavadocTagIsMarked(text, q);
    assert Keeps(r.spans, r.spans) by { SelfKeeps(r.spans); }
    VisitedIsKept(text, q, r.spans);
    HasContentKept(text, e, |text|, info, r.spans, Comment(text, 0, true, []));
  }

  lemma {:induction false} SelfKeeps(spans: seq<Span>)
    ensures Keeps(spans, spans)
  {
  }

  /** Every listed Doxygen tag that the scan comes to. */
  lemma {:induction false} VisitedDoxygenTag(text: string, q: Place, e: nat, info: DoxygenTagInfo)
    requires Visits(text, Place(0, true, []), q) && DoxygenTagText(text, q.at, e, info)
    ensures HasDoxygen(text, q.at, e, |text|, info, Comment(text, 0, true, []))
  {
    hide JavadocTags, DoxygenTags, TagAt, Visits, Comment, HasDoxygen, Keeps, DoxygenTagged;
    DoxygenTagIsFound(text, q.at, e, info);
    DoxygenHas(text, q.at, |text|, info, q.spans);
    var r := DoxygenTagged(text, q.at, |text|, info, q.spans);
    assert After(text, q).spans == r.spans;
    SelfKeeps(r.spans);
    VisitedIsKept(text, q, r.spans);
    HasDoxygenKept(text, q.at, e, |text|, info, r.spans, Comment(text, 0, true, []));
  }

  /** Every brace block that the scan comes to. */
  lemma {:induction false} VisitedBlock(text: string, q: Place, d: nat, e: nat, info: JavadocTagInfo, c: nat)
    requires Visits(text, Place(0, true, []), q) && BlockAt(text, q.at, |text|, d, e, info, c)
    ensures HasBlock(text, q.at, e, info, c, Comment(text, 0, true, []))
  {
    hide Visits, Comment, HasBlock, Keeps, Brace, BlockAt;
    BraceHas(text, q.at, |text|, d, e, info, c, q.spans);
    var r := Brace(text, q.at, |text|, q.spans);
    assert After(text, q).spans == r.spans;
    SelfKeeps(r.spans);
    VisitedIsKept(text, q, r.spans);
    HasBlockKept(text, q.at, e, info, c, r.spans, Comment(text, 0, true, []));
  }

  /** Every brace block that the description of a Javadoc tag runs up to. */
  lemma {:induction false} BlockInJavadocTag(
    text: string, q: Place, start: nat, tag: JavadocTagInfo, b: nat, d: nat, e: nat, info: JavadocTagInfo, c: nat)
    requires Visits(text, Place(0, true, []), q) && q.lineStart && JavadocTagText(text, q.at, start, tag)
    requires BlockOf(tag).Some? && JavadocRuns(text, start, |text|, b) && BlockAt(text, b, |text|, d, e, info, c)
    ensures HasBlock(text, b, e, info, c, Comment(text, 0, true, []))
  {
    hide JavadocTags, DoxygenTags, TagAt, Visits, Comment, HasBlock, Keeps, JavadocDescription, BlockAt, BlockOf,
         JavadocRuns;
    JavadocTagIsFound(text, q.at, start, tag);
    var marked := q.spans + [Span(q.at, start, Markup)];
    JavadocDescriptionHas(text, start, |text|, marked, b, d, e, info, c);
    var inside := JavadocDescription(text, start, |text|, marked);
    assert After(text, q).spans
        == inside.spans + [Block(inside.spans, start, inside.at, BlockOf(tag).value)];
    PrefixKeeps(inside.spans, After(text, q).spans);
    VisitedIsKept(text, q, inside.spans);
    HasBlockKept(text, b, e, info, c, inside.spans, Comment(text, 0, true, []));
  }

  lemma {:induction false} PrefixKeeps(a: seq<Span>, b: seq<Span>)
    requires a <= b
    ensures Keeps(a, b)
  {
    forall s | s in a ensures s in b {
      var i :| 0 <= i < |a| && a[i] == s;
      assert b[i] == s;
    }
  }

  /** Every brace block and code word that the description of a Doxygen tag runs up to. */
  lemma {:induction false} BlockInDoxygenTag(
    text: string, q: Place, start: nat, tag: DoxygenTagInfo, b: nat, d: nat, e: nat, info: JavadocTagInfo, c: nat)
    requires Visits(text, Place(0, true, []), q) && DoxygenTagText(text, q.at, start, tag) && tag.name != "c"
    requires DoxygenRuns(text, start, |text|, b) && BlockAt(text, b, |text|, d, e, info, c)
    ensures HasBlock(text, b, e, info, c, Comment(text, 0, true, []))
  {
    hide Visits, Comment, HasBlock, Keeps, DoxygenDescription, BlockAt, DoxygenRuns;
    var inside := DescribedByDoxygen(text, q, start, tag);
    DoxygenDescriptionHas(text, start, |text|, q.spans + [Span(q.at, start, Markup)], b, d, e, info, c);
    HasBlockKept(text, b, e, info, c, inside, Comment(text, 0, true, []));
  }

  lemma {:induction false} CodeInDoxygenTag(
    text: string, q: Place, start: nat, tag: DoxygenTagInfo, b: nat, e: nat, info: DoxygenTagInfo)
    requires Visits(text, Place(0, true, []), q) && DoxygenTagText(text, q.at, start, tag) && tag.name != "c"
    requires DoxygenRuns(text, start, |text|, b) && DoxygenTagText(text, b, e, info) && info.name == "c"
    ensures HasDoxygen(text, b, e, |text|, info, Comment(text, 0, true, []))
  {
    hide Visits, Comment, HasDoxygen, Keeps, DoxygenDescription, DoxygenRuns;
    var inside := DescribedByDoxygen(text, q, start, tag);
    DoxygenDescriptionHasCode(text, start, |text|, q.spans + [Span(q.at, start, Markup)], b, e, info);
    HasDoxygenKept(text, b, e, |text|, info, inside, Comment(text, 0, true, []));
  }

  lemma {:induction false} DescribedByDoxygen(text: string, q: Place, start: nat, tag: DoxygenTagInfo)
    returns (inside: seq<Span>)
    requires Visits(text, Place(0, true, []), q) && DoxygenTagText(text, q.at, start, tag) && tag.name != "c"
    ensures start <= |text|
    ensures inside == DoxygenDescription(text, start, |text|, q.spans + [Span(q.at, start, Markup)]).spans
    ensures Keeps(inside, Comment(text, 0, true, []))
  {
    hide JavadocTags, DoxygenTags, TagAt, Visits, Comment, Keeps, DoxygenDescription;
    DoxygenTagIsFound(text, q.at, start, tag);
    SectionIsDescribed(tag);
    var marked := q.spans + [Span(q.at, start, Markup)];
    inside := DoxygenDescription(text, start, |text|, marked).spans;
    assert After(text, q).spans == DoxygenTagContent(text, q.at, |text|, tag, marked).spans;
    assert inside <= After(text, q).spans;
    PrefixKeeps(inside, After(text, q).spans);
    VisitedIsKept(text, q, inside);
  }

  lemma {:induction false} SectionIsDescribed(tag: DoxygenTagInfo)
    requires tag in DoxygenTags() && tag.name != "c"
    ensures tag.block.Some? || tag.tag.BriefTag?
  {
  }
}
