/** The Javadoc and Doxygen comment parser: index-driven loops and mutual recursion that
    append spans for tags, tag blocks and braces.  Each method does what the function of
    the grammar says. */
module Javadoxygen {
  import opened Wrappers
  import opened Sorting
  import opened Spans
  import opened Comments
  import opened HtmlTokens
  import opened HtmlPages
  import opened PagePositions
  import opened CommentStarts
  import opened HtmlRenderer

  method NameEnd(buffer: string, begin: nat) returns (end: nat)
    ensures end == begin + |LettersFrom(buffer, begin)|
  {
    end := begin;
    while end < |buffer| && IsLetter(buffer[end])
      invariant end + |LettersFrom(buffer, end)| == begin + |LettersFrom(buffer, begin)|
    {
      end := end + 1;
    }
  }

  method ParseTag(names: seq<string>, buffer: string, delimiter: nat) returns (r: Option<nat>)
    ensures r == TagAt(names, buffer, delimiter)
  {
    var tagEnd := NameEnd(buffer, delimiter + 1);
    ghost var word := LettersFrom(buffer, delimiter + 1);
    if tagEnd - delimiter == 1 { return None; }
    assert tagEnd <= |buffer| && word == buffer[delimiter + 1..tagEnd];
    hide LettersFrom;
    for tag := 0 to |names|
      invariant FindName(names, word, 0) == FindName(names, word, tag)
    {
      if |names[tag]| == tagEnd - delimiter - 1 && names[tag] == buffer[delimiter + 1..tagEnd] {
        return Some(tag);
      }
    }
    r := None;
  }

  // -------------------------------------------------------------------- Javadoc

  method ParseJavadocBrace(buffer: string, openBrace: nat, limit: nat, out: PrintableSpans) returns (r: nat)
    requires openBrace < limit <= |buffer| && out.Valid()
    modifies out
    ensures out.Valid() && Scan(r, out.spans) == Brace(buffer, openBrace, limit, old(out.spans))
    decreases limit - openBrace, 0
  {
    hide JavadocTags, TagAt, LettersFrom, JavadocTagContent, Numbered, Blocks;
    var tagBegin := openBrace + 1;
    while tagBegin < limit && buffer[tagBegin] != '@'
      invariant openBrace < tagBegin <= limit
      invariant BraceTag(buffer, openBrace + 1, limit) == BraceTag(buffer, tagBegin, limit)
    {
      if buffer[tagBegin] != ' ' { return openBrace + 1; }
      tagBegin := tagBegin + 1;
    }
    var tag := ParseTag(JavadocNames(), buffer, tagBegin);
    if tag.None? { return openBrace + 1; }
    var info := JavadocTags()[tag.value];
    var contentStart := tagBegin + |info.name| + 1;
    var closeBrace, braces := FindCloseBrace(buffer, contentStart, limit);
    if braces != 0 { return openBrace + 1; }
    out.Emplace(Span(openBrace, contentStart, Markup));
    out.Emplace(Span(closeBrace, closeBrace + 1, Markup));
    var end := EvaluateJavadocTag(buffer, tagBegin, closeBrace, info, out);
    r := closeBrace + 1;
  }

  method FindCloseBrace(buffer: string, from: nat, limit: nat) returns (closeBrace: nat, braces: nat)
    requires limit <= |buffer|
    ensures CloseOf(buffer, from, limit, 1) == if braces == 0 then Some(closeBrace) else None
  {
    closeBrace, braces := from, 1;
    while closeBrace < limit
      invariant from <= closeBrace && braces >= 1
      invariant CloseOf(buffer, from, limit, 1) == CloseOf(buffer, closeBrace, limit, braces)
    {
      var c := buffer[closeBrace];
      if c == '}' {
        braces := braces - 1;
        if braces == 0 { return; }
      } else if c == '{' {
        braces := braces + 1;
      }
      closeBrace := closeBrace + 1;
    }
  }

  method EvaluateJavadocTag(
    buffer: string, at: nat, limit: nat, info: JavadocTagInfo, out: PrintableSpans) returns (r: nat)
    requires at + |info.name| + 1 <= limit <= |buffer| && out.Valid()
    modifies out
    ensures out.Valid() && Scan(r, out.spans) == JavadocTagContent(buffer, at, limit, info, old(out.spans))
    decreases limit - at, 0
  {
    hide JavadocDescription;
    var contentStart := at + |info.name| + 1;
    if info.block.Some? {
      r := ParseJavadocDescription(buffer, contentStart, limit, out);
      out.EmplaceTagBlock(contentStart, r, info.block.value);
      return;
    }
    match info.tag {
      case CodeTag =>
        out.Emplace(Span(contentStart, limit, CodeRef));
        r := limit;
      case ParamTag | ExceptionTag | ThrowsTag =>
        r := ParseJavadocDescription(buffer, contentStart, limit, out);
        out.EmplaceTagBlock(contentStart, r, if info.tag.ParamTag? then Param else Throws);
      case _ =>
        r := contentStart;
    }
  }

  method ParseJavadocDescription(buffer: string, begin: nat, limit: nat, out: PrintableSpans) returns (r: nat)
    requires begin <= limit <= |buffer| && out.Valid()
    modifies out
    ensures out.Valid() && Scan(r, out.spans) == JavadocDescription(buffer, begin, limit, old(out.spans))
    decreases limit - begin, 1
  {
    hide Brace, Numbered, Blocks;
    r := begin;
    while r < limit
      invariant begin <= r <= limit && out.Valid()
      invariant JavadocDescription(buffer, r, limit, out.spans)
        == JavadocDescription(buffer, begin, limit, old(out.spans))
      decreases limit - r
    {
      if buffer[r] == '{' {
        r := ParseJavadocBrace(buffer, r, limit, out);
      } else if buffer[r] == '@' {
        return;
      } else {
        r := r + 1;
      }
    }
  }

  // -------------------------------------------------------------------- Doxygen

  /** Whether the line after the newline at `i` is blank. */
  method NextLineIsBlank(buffer: string, i: nat, limit: nat) returns (blank: bool)
    requires i < limit <= |buffer|
    ensures blank == BlankLine(buffer, i + 1, limit)
  {
    for scan := i + 1 to limit
      invariant BlankLine(buffer, scan, limit) == BlankLine(buffer, i + 1, limit)
    {
      if buffer[scan] == '\n' { return true; }
      if !IsBlank(buffer[scan]) { return false; }
    }
    blank := false;
  }

  method ParseDoxygenWord(buffer: string, begin: nat, limit: nat) returns (r: nat)
    requires begin <= limit <= |buffer|
    ensures r == WordEnd(buffer, begin, limit)
  {
    r := begin;
    while r < limit && IsBlank(buffer[r])
      invariant begin <= r <= limit && SkipBlanks(buffer, begin, limit) == SkipBlanks(buffer, r, limit)
    {
      r := r + 1;
    }
    if r == limit { return begin; }
    ghost var word := r;
    while r < limit
      invariant word <= r <= limit && SkipWord(buffer, word, limit) == SkipWord(buffer, r, limit)
    {
      if IsBlank(buffer[r]) || buffer[r] == '\n' { return; }
      r := r + 1;
    }
  }

  method ParseDoxygenDescription(buffer: string, begin: nat, limit: nat, out: PrintableSpans) returns (r: nat)
    requires begin <= limit && Stops(buffer, limit) && out.Valid()
    modifies out
    ensures out.Valid() && Scan(r, out.spans) == DoxygenDescription(buffer, begin, limit, old(out.spans))
    decreases limit - begin, 1
  {
    hide Brace, DoxygenTags, TagAt, DoxygenTagged, BlankLine, LettersFrom, PrintableSpans.Valid;
    r := begin;
    while r < limit
      invariant begin <= r <= limit && out.Valid()
      invariant DoxygenDescription(buffer, r, limit, out.spans)
        == DoxygenDescription(buffer, begin, limit, old(out.spans))
      decreases limit - r
    {
      if buffer[r] == '{' {
        r := ParseJavadocBrace(buffer, r, limit, out);
      } else if buffer[r] == '\\' {
        var tag := ParseTag(DoxygenNames(), buffer, r);
        if tag.Some? {
          var info := DoxygenTags()[tag.value];
          if info.beginsSection { return; }
          NameStops(buffer, r, limit);
          r := TagAndContent(buffer, r, limit, info, out);
        } else {
          r := r + 1;
        }
      } else {
        if buffer[r] == '\n' {
          var blank := NextLineIsBlank(buffer, r, limit);
          if blank { return; }
        }
        r := r + 1;
      }
    }
  }

  method TagAndContent(
    buffer: string, slash: nat, limit: nat, info: DoxygenTagInfo, out: PrintableSpans) returns (r: nat)
    requires slash + |info.name| + 1 <= limit && Stops(buffer, limit) && out.Valid()
    modifies out
    ensures out.Valid() && Scan(r, out.spans) == DoxygenTagged(buffer, slash, limit, info, old(out.spans))
    decreases limit - slash, 0
  {
    hide DoxygenTagContent, PrintableSpans.Valid;
    out.Emplace(Span(slash, slash + |info.name| + 1, Markup));
    r := EvaluateDoxygenTag(buffer, slash, limit, info, out);
  }

  method EvaluateDoxygenTag(
    buffer: string, slash: nat, limit: nat, info: DoxygenTagInfo, out: PrintableSpans) returns (r: nat)
    requires slash + |info.name| + 1 <= limit && Stops(buffer, limit) && out.Valid()
    modifies out
    ensures out.Valid() && Scan(r, out.spans) == DoxygenTagContent(buffer, slash, limit, info, old(out.spans))
    decreases limit - slash - 1, 2
  {
    hide DoxygenDescription, WordEnd;
    var contentStart := slash + |info.name| + 1;
    if info.block.Some? {
      r := ParseDoxygenDescription(buffer, contentStart, limit, out);
      out.EmplaceTagBlock(contentStart, r, info.block.value);
      return;
    }
    match info.tag {
      case BriefTag =>
        r := ParseDoxygenDescription(buffer, contentStart, limit, out);
        out.Emplace(Span(contentStart, r, Brief));
      case CTag =>
        r := ParseDoxygenWord(buffer, contentStart, limit);
        out.Emplace(Span(contentStart, r, CodeRef));
      case _ =>
        r := contentStart;
    }
  }

  // ------------------------------------------------------------------ whole comments

  method ParseJavadoxygen(text: string, out: PrintableSpans)
    requires out.Valid()
    modifies out
    ensures out.Valid() && out.spans == Comment(text, 0, true, old(out.spans))
    ensures Grew(text, old(out.spans), out.spans, 0, |text|)
  {
    CommentGrows(text, 0, true, out.spans);
    hide Grew, PrintableSpans.Valid;
    var atLineStart := true;
    var i: nat := 0;
    while i < |text|
      invariant out.Valid() && Comment(text, i, atLineStart, out.spans) == Comment(text, 0, true, old(out.spans))
      decreases |text| - i
    {
      hide Comment;
      i, atLineStart := ParseOne(text, i, atLineStart, out);
    }
  }

  /** One turn of the loop. */
  method ParseOne(text: string, at: nat, lineStart: bool, out: PrintableSpans) returns (i: nat, atLineStart: bool)
    requires at < |text| && out.Valid()
    modifies out
    ensures at < i && out.Valid()
    ensures Comment(text, i, atLineStart, out.spans) == Comment(text, at, lineStart, old(out.spans))
  {
    hide *;
    CommentStep(text, at, lineStart, out.spans);
    var c := text[at];
    atLineStart := lineStart;
    if c == '{' {
      var end := ParseJavadocBrace(text, at, |text|, out);
      return end + 1, lineStart;
    }
    if c == '@' && lineStart {
      i := ParseJavadocTag(text, at, out);
      return;
    }
    if c == '\\' {
      i := ParseDoxygenTag(text, at, out);
      return;
    }
    return at + 1, StartsLine(c, lineStart);
  }

  method ParseJavadocTag(text: string, at: nat, out: PrintableSpans) returns (r: nat)
    requires at < |text| && out.Valid()
    modifies out
    ensures out.Valid() && Scan(r, out.spans) == JavadocAt(text, at, old(out.spans))
  {
    hide JavadocTags, TagAt, LettersFrom, JavadocTagContent, Numbered, Blocks;
    var tag := ParseTag(JavadocNames(), text, at);
    if tag.None? { return at + 1; }
    var info := JavadocTags()[tag.value];
    out.Emplace(Span(at, at + |info.name| + 1, Markup));
    r := EvaluateJavadocTag(text, at, |text|, info, out);
  }

  method ParseDoxygenTag(text: string, slash: nat, out: PrintableSpans) returns (r: nat)
    requires slash < |text| && out.Valid()
    modifies out
    ensures out.Valid() && Scan(r, out.spans) == DoxygenAt(text, slash, old(out.spans))
  {
    hide DoxygenTags, TagAt, LettersFrom, DoxygenTagged, PrintableSpans.Valid;
    var tag := ParseTag(DoxygenNames(), text, slash);
    if tag.None? { return slash + 1; }
    var info := DoxygenTags()[tag.value];
    r := TagAndContent(text, slash, |text|, info, out);
  }

  /** A markup span of the comment covers the position. */
  ghost predicate Marked(text: string, p: nat) {
    exists s :: s in Comment(text, 0, true, []) && s.semantic.Markup? && Covers(s, p)
  }

  /** Spans that stand for a comment: those of the grammar that are not empty, ready for
      the renderer, hiding the tags and the braces of brace blocks, and nothing else. */
  ghost predicate MarksUp(text: string, spans: seq<Span>) {
    && multiset(spans) == multiset(Filter(Comment(text, 0, true, [])))
    && Renderable(spans, |text|) && DistinctBlocks(Comment(text, 0, true, []))
    && (forall p: nat | p < |text| :: Hidden(spans, p) <==> Marked(text, p))
    && (forall p: nat | p < |text| && Marked(text, p) :: InMarkup(text, p))
  }

  /** A comment without links, marked up and rendered: for every text whatsoever the page is
      balanced and shows each character exactly once, except those of the tags and braces. */
  method RenderComment(options: Options, text: string) returns (html: string)
    ensures exists spans :: MarksUp(text, spans) && Renders(options, text, spans, html)
  {
    var parsed := new PrintableSpans();
    var merged := new PrintableSpans();
    ParseJavadoxygen(text, parsed);
    NumberedAreDistinct(parsed.spans);
    html := MergeAndRender(options, text, parsed, merged);
  }

  method MergeAndRender(options: Options, text: string, parsed: PrintableSpans, merged: PrintableSpans)
    returns (html: string)
    requires merged != parsed && merged.spans == [] && parsed.spans == Comment(text, 0, true, [])
    requires Grew(text, [], parsed.spans, 0, |text|) && DistinctBlocks(parsed.spans)
    modifies merged`spans
    ensures exists spans :: MarksUp(text, spans) && Renders(options, text, spans, html)
  {
    hide *;
    GrewFromNothing(text, parsed.spans);
    assert [] + parsed.spans == parsed.spans;
    merged.Merge(parsed, |text|);
    MergedMarksUp(text, merged.spans);
    MarkedUpIsRenderable(text, merged.spans);
    html := RenderHtml(options, text, merged.spans);
  }

  lemma {:induction false} MergedMarksUp(text: string, spans: seq<Span>)
    requires multiset(spans) == multiset(Filter(Comment(text, 0, true, []))) && SortedBy(SpanLess, spans)
    requires Renderable(spans, |text|) && DistinctBlocks(Comment(text, 0, true, []))
    requires forall s | s in Comment(text, 0, true, []) :: Justified(text, s)
    ensures MarksUp(text, spans)
  {
    hide Comment, Renderable, DistinctBlocks, Justified, Hidden, Marked, InMarkup;
    HiddenIsMarkup(text, spans);
  }

  lemma {:induction false} MarkedUpIsRenderable(text: string, spans: seq<Span>)
    requires MarksUp(text, spans)
    ensures Renderable(spans, |text|)
  {
  }

  lemma {:induction false} GrewFromNothing(text: string, spans: seq<Span>)
    requires Grew(text, [], spans, 0, |text|)
    ensures Laminar(spans) && Within(spans, 0, |text|) && forall s | s in spans :: Justified(text, s)
  {
    assert spans[0..] == spans;
  }

  /** The position is in a tag, in the opening of a brace block or at a closing brace. */
  ghost predicate InMarkup(text: string, p: nat) {
    exists b: nat, e: nat :: b <= p < e && IsMarkup(text, b, e)
  }

  lemma {:induction false} HiddenIsMarkup(text: string, spans: seq<Span>)
    requires multiset(spans) == multiset(Filter(Comment(text, 0, true, []))) && SortedBy(SpanLess, spans)
    requires forall s | s in Comment(text, 0, true, []) :: Justified(text, s)
    ensures forall p: nat | p < |text| :: Hidden(spans, p) <==> Marked(text, p)
    ensures forall p: nat | p < |text| && Marked(text, p) :: InMarkup(text, p)
  {
    hide Hidden, Justified, SpanLess, Comment;
    forall p: nat | p < |text| ensures Hidden(spans, p) <==> Marked(text, p) {
      if Hidden(spans, p) { HiddenIsMarked(text, spans, p); }
      if Marked(text, p) { MarkedIsHidden(text, spans, p); }
    }
    forall p: nat | p < |text| && Marked(text, p) ensures InMarkup(text, p) {
      var s :| s in Comment(text, 0, true, []) && s.semantic.Markup? && Covers(s, p);
      MarkupIsInText(text, s);
    }
  }

  lemma {:induction false} MarkupIsInText(text: string, s: Span)
    requires Justified(text, s) && s.semantic.Markup?
    ensures IsMarkup(text, s.begin, s.end)
  {
    hide IsMarkup;
  }

  lemma {:induction false} SameMembers(text: string, spans: seq<Span>)
    requires multiset(spans) == multiset(Filter(Comment(text, 0, true, [])))
    ensures forall s :: s in spans <==> s in Comment(text, 0, true, []) && s.begin < s.end
  {
    hide Comment;
    var kept := Filter(Comment(text, 0, true, []));
    assert forall s :: s in spans <==> s in multiset(spans);
    assert forall s :: s in kept <==> s in multiset(kept);
  }

  lemma {:induction false} HiddenIsMarked(text: string, spans: seq<Span>, p: nat)
    requires multiset(spans) == multiset(Filter(Comment(text, 0, true, []))) && Hidden(spans, p)
    ensures Marked(text, p)
  {
    hide Comment;
    SameMembers(text, spans);
    var i: nat :| IsInnermost(spans, i, p) && spans[i].semantic.Markup?;
    assert spans[i] in spans;
  }

  /** Nothing is inside markup, and what has its extent comes before it. */
  lemma {:induction false} MarkedIsHidden(text: string, spans: seq<Span>, p: nat)
    requires multiset(spans) == multiset(Filter(Comment(text, 0, true, []))) && SortedBy(SpanLess, spans)
    requires forall s | s in Comment(text, 0, true, []) :: Justified(text, s)
    requires Marked(text, p)
    ensures Hidden(spans, p)
  {
    hide Comment, Justified, SpanLess;
    SameMembers(text, spans);
    var m :| m in Comment(text, 0, true, []) && m.semantic.Markup? && Covers(m, p);
    var i :| 0 <= i < |spans| && spans[i] == m;
    InnermostIsLast(spans, p);
    var k: nat :| IsInnermost(spans, k, p);
    var t := spans[k];
    assert t in spans;
    if t != m { AroundComesFirst(text, m, t); }
  }

  lemma {:induction false} AroundComesFirst(text: string, m: Span, t: Span)
    requires m in Comment(text, 0, true, []) && t in Comment(text, 0, true, []) && m != t && m.semantic.Markup?
    requires Justified(text, t) && exists p: nat :: Covers(m, p) && Covers(t, p)
    ensures !t.semantic.Markup? && SpanLess(t, m)
  {
    hide Comment, Justified, SpanLess;
    var all := Comment(text, 0, true, []);
    var i :| 0 <= i < |all| && all[i] == m;
    var j :| 0 <= j < |all| && all[j] == t;
    if i < j { OneSpanPerStart(text, i, j); } else { OneSpanPerStart(text, j, i); }
    assert Clear(m, t);
    if !t.semantic.Markup? {
      JustifiedKinds(text, t);
      LongerComesFirst(m, t);
    }
  }

  lemma {:induction false} JustifiedKinds(text: string, t: Span)
    requires Justified(text, t) && !t.semantic.Markup?
    ensures t.semantic.TagBlock? || t.semantic.Brief? || t.semantic.CodeRef?
  {
    hide JavadocTagText, DoxygenTagText, IsMarkup, BlockOf;
  }

  lemma {:induction false} LongerComesFirst(m: Span, t: Span)
    requires m.semantic.Markup? && t.begin <= m.begin && m.end <= t.end
    requires t.semantic.TagBlock? || t.semantic.Brief? || t.semantic.CodeRef?
    ensures SpanLess(t, m)
  {
  }

  // ---------------------------------------------------------- the page of a comment

  lemma {:induction false} FilterCounts(spans: seq<Span>, s: Span)
    ensures multiset(Filter(spans))[s] <= multiset(spans)[s]
  {
    if |spans| > 0 {
      FilterCounts(spans[1..], s);
      assert spans == [spans[0]] + spans[1..];
    }
  }

  lemma {:induction false} MergedBlocksDiffer(all: seq<Span>, spans: seq<Span>)
    requires multiset(spans) == multiset(Filter(all)) && DistinctBlocks(all)
    ensures BlocksDiffer(spans)
  {
    forall i, j | 0 <= i < j < |spans| && spans[i].semantic.TagBlock?
      ensures spans[i].semantic != spans[j].semantic
    {
      if spans[i].semantic == spans[j].semantic { BlockAppearsTwice(all, spans, i, j); }
    }
  }

  lemma {:induction false} BlockAppearsTwice(all: seq<Span>, spans: seq<Span>, i: nat, j: nat)
    requires multiset(spans) == multiset(Filter(all)) && i < j < |spans|
    requires spans[i].semantic.TagBlock? && spans[i].semantic == spans[j].semantic
    ensures !DistinctBlocks(all)
  {
    var s, t := spans[i], spans[j];
    CountPositions(spans, s);
    CountPositions(spans, t);
    FilterCounts(all, s);
    FilterCounts(all, t);
    CountPositions(all, s);
    CountPositions(all, t);
    if s == t {
      var a, b :| 0 <= a < b < |all| && all[a] == s && all[b] == s;
    } else {
      var a :| 0 <= a < |all| && all[a] == s;
      var b :| 0 <= b < |all| && all[b] == t;
      assert a < b || b < a;
    }
  }

  /** On the page of a comment each buffer shows exactly the characters that belong to it and are
      not in a tag or the ends of a brace block, each once, in order and in the elements around. */
  lemma {:induction false} CommentShows(text: string, spans: seq<Span>, b: Buffer) returns (ps: seq<nat>)
    requires MarksUp(text, spans)
    ensures Ascends(ps) && Spells(text, spans, ps, Glyphs(Content(text, spans, b)))
    ensures forall p: nat :: p in ps <==> p < |text| && !Marked(text, p) && BelongsTo(spans, p, b)
  {
    MergedBlocksDiffer(Comment(text, 0, true, []), spans);
    ps := ContentAt(text, spans, b);
    hide Comment, Content, Glyphs, Hidden, BelongsTo, Spells, Renderable, BlocksDiffer, DistinctBlocks, Marked;
  }
}
