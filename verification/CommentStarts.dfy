/** No two spans of a comment of one kind begin at one place, so that nothing is marked twice;
    and nothing is inside markup, so that all of it is hidden. */
module CommentStarts {
  import opened Wrappers
  import opened Spans
  import opened Comments

  /** Markup begins from `m` on, other spans from `o` on, and all end by `hi`. */
  predicate Placed(s: Span, m: nat, o: nat, hi: nat) {
    if s.semantic.Markup? then m <= s.begin < s.end <= hi else o <= s.begin <= s.end <= hi
  }

  /** What is neither before nor behind markup is around it, and no markup. */
  predicate Clear(markup: Span, t: Span) {
    || t.end <= markup.begin
    || markup.end <= t.begin
    || (t.begin <= markup.begin && markup.end <= t.end && !t.semantic.Markup?)
  }

  predicate BothClear(s: Span, t: Span) {
    (s.semantic.Markup? ==> Clear(s, t)) && (t.semantic.Markup? ==> Clear(t, s))
  }

  predicate SameStart(s: Span, t: Span) { s.begin == t.begin && s.semantic.Rank() == t.semantic.Rank() }

  /** The spans added are placed so, and no two of one kind begin together. */
  ghost predicate Starts(before: seq<Span>, after: seq<Span>, m: nat, o: nat, hi: nat) {
    && before <= after
    && (forall i | |before| <= i < |after| :: Placed(after[i], m, o, hi))
    && (forall i, j | |before| <= i < j < |after| ::
          !SameStart(after[i], after[j]) && BothClear(after[i], after[j]))
  }

  lemma {:induction false} StartsNothing(s: seq<Span>, m: nat, o: nat, hi: nat)
    ensures Starts(s, s, m, o, hi)
  {
  }

  lemma {:induction false} StartsWider(a: seq<Span>, b: seq<Span>, m: nat, o: nat, hi: nat, m': nat, o': nat, hi': nat)
    requires Starts(a, b, m, o, hi) && m' <= m && o' <= o && hi <= hi'
    ensures Starts(a, b, m', o', hi')
  {
    hide SameStart, BothClear;
  }

  /** One region behind another. */
  lemma {:induction false} StartsThen(
    a: seq<Span>, b: seq<Span>, c: seq<Span>, m: nat, o: nat, mid: nat, hi: nat)
    requires Starts(a, b, m, o, mid) && Starts(b, c, mid, mid + 1, hi) && m <= mid <= hi && o <= mid + 1
    ensures Starts(a, c, m, o, hi)
  {
    forall i | |a| <= i < |c| ensures Placed(c[i], m, o, hi) {
      if i < |b| { assert c[i] == b[i]; }
    }
    forall i, j | |a| <= i < j < |c| ensures !SameStart(c[i], c[j]) && BothClear(c[i], c[j]) {
      if i < |b| { assert c[i] == b[i]; }
      if j < |b| { assert c[j] == b[j]; }
    }
  }

  /** A span that begins where no other of its kind does. */
  lemma {:induction false} StartsOne(a: seq<Span>, b: seq<Span>, s: Span, m: nat, o: nat, hi: nat)
    requires Starts(a, b, m, o, hi) && Placed(s, m, o, hi)
    requires forall i | |a| <= i < |b| :: !SameStart(b[i], s) && BothClear(b[i], s)
    ensures Starts(a, b + [s], m, o, hi)
  {
    hide SameStart, Placed, BothClear;
  }

  /** A span over a description, whose spans begin behind its start. */
  lemma {:induction false} StartsAround(a: seq<Span>, b: seq<Span>, s: Span)
    requires Starts(a, b, s.begin, s.begin + 1, s.end) && s.begin <= s.end && !s.semantic.Markup?
    ensures Starts(a, b + [s], s.begin, s.begin, s.end)
  {
    StartsWider(a, b, s.begin, s.begin + 1, s.end, s.begin, s.begin, s.end);
    forall i | |a| <= i < |b| ensures !SameStart(b[i], s) && BothClear(b[i], s) {
      assert Placed(b[i], s.begin, s.begin + 1, s.end);
    }
    StartsOne(a, b, s, s.begin, s.begin, s.end);
  }

  lemma {:induction false} BraceStarts(buffer: string, open: nat, limit: nat, spans: seq<Span>)
    requires open < limit <= |buffer|
    ensures var r := Brace(buffer, open, limit, spans); Starts(spans, r.spans, open, open + 1, r.at)
    decreases limit - open, 0
  {
    hide JavadocTags, DoxygenTags, TagAt, Starts, LettersFrom, BraceTag, CloseOf;
    StartsNothing(spans, open, open + 1, open + 1);
    var at := BraceTag(buffer, open + 1, limit);
    if at.Some? && TagAt(JavadocNames(), buffer, at.value).Some? {
      var info := JavadocTags()[TagAt(JavadocNames(), buffer, at.value).value];
      var start := at.value + |info.name| + 1;
      var close := CloseOf(buffer, start, limit, 1);
      if close.Some? {
        var opening, closing := Span(open, start, Markup), Span(close.value, close.value + 1, Markup);
        var marked := spans + [opening] + [closing];
        JavadocContentStarts(buffer, at.value, close.value, info, marked);
        var r := JavadocTagContent(buffer, at.value, close.value, info, marked);
        assert Brace(buffer, open, limit, spans) == Scan(close.value + 1, r.spans);
        hide Brace, JavadocTagContent;
        StartsWider(marked, r.spans, start, start, r.at, start, start, close.value);
        StartsInside(spans, r.spans, opening, closing);
      }
    }
  }

  lemma {:induction false} StartsInside(a: seq<Span>, b: seq<Span>, open: Span, close: Span)
    requires open.begin < open.end <= close.begin && close.end == close.begin + 1
    requires open.semantic.Markup? && close.semantic.Markup?
    requires Starts(a + [open] + [close], b, open.end, open.end, close.begin)
    ensures Starts(a, b, open.begin, open.begin + 1, close.begin + 1)
  {
    var c := a + [open] + [close];
    assert |c| == |a| + 2 && b[|a|] == c[|a|] == open && b[|a| + 1] == c[|a| + 1] == close;
    assert a <= b by { assert a <= c; }
    forall i | |a| <= i < |b| ensures Placed(b[i], open.begin, open.begin + 1, close.begin + 1) {
      if i >= |c| { assert Placed(b[i], open.end, open.end, close.begin); }
    }
    forall i, j | |a| <= i < j < |b| ensures !SameStart(b[i], b[j]) && BothClear(b[i], b[j]) {
      if j >= |c| { assert Placed(b[j], open.end, open.end, close.begin); }
    }
  }

  lemma {:induction false} JavadocContentStarts(
    buffer: string, at: nat, limit: nat, info: JavadocTagInfo, spans: seq<Span>)
    requires at + |info.name| + 1 <= limit <= |buffer|
    ensures var r, e := JavadocTagContent(buffer, at, limit, info, spans), at + |info.name| + 1;
      Starts(spans, r.spans, e, e, r.at)
    decreases limit - at, 0
  {
    hide Starts, BlockOf;
    var start := at + |info.name| + 1;
    StartsNothing(spans, start, start, start);
    if BlockOf(info).Some? {
      JavadocDescriptionStarts(buffer, start, limit, spans);
      var inside := JavadocDescription(buffer, start, limit, spans);
      StartsAround(spans, inside.spans, Block(inside.spans, start, inside.at, BlockOf(info).value));
    } else if info.tag.CodeTag? {
      StartsNothing(spans, start, start + 1, limit);
      StartsAround(spans, spans, Span(start, limit, CodeRef));
    }
  }

  lemma {:induction false} JavadocDescriptionStarts(buffer: string, at: nat, limit: nat, spans: seq<Span>)
    requires at <= limit <= |buffer|
    ensures var r := JavadocDescription(buffer, at, limit, spans); Starts(spans, r.spans, at, at + 1, r.at)
    decreases limit - at, 1
  {
    hide Starts, Brace;
    StartsNothing(spans, at, at + 1, at);
    if at < limit && buffer[at] == '{' {
      BraceStarts(buffer, at, limit, spans);
      var block := Brace(buffer, at, limit, spans);
      JavadocDescriptionStarts(buffer, block.at, limit, block.spans);
      var r := JavadocDescription(buffer, block.at, limit, block.spans);
      StartsThen(spans, block.spans, r.spans, at, at + 1, block.at, r.at);
    } else if at < limit && buffer[at] != '@' {
      JavadocDescriptionStarts(buffer, at + 1, limit, spans);
      var r := JavadocDescription(buffer, at + 1, limit, spans);
      StartsWider(spans, r.spans, at + 1, at + 2, r.at, at, at + 1, r.at);
    }
  }

  lemma {:induction false} DoxygenDescriptionStarts(buffer: string, at: nat, limit: nat, spans: seq<Span>)
    requires at <= limit && Stops(buffer, limit)
    ensures var r := DoxygenDescription(buffer, at, limit, spans); Starts(spans, r.spans, at, at + 1, r.at)
    decreases limit - at, 1
  {
    hide DoxygenTags, TagAt, Starts, Brace, DoxygenTagged, BlankLine;
    StartsNothing(spans, at, at + 1, at);
    if at == limit {
    } else if buffer[at] == '{' {
      BraceStarts(buffer, at, limit, spans);
      var block := Brace(buffer, at, limit, spans);
      DoxygenDescriptionStarts(buffer, block.at, limit, block.spans);
      var r := DoxygenDescription(buffer, block.at, limit, block.spans);
      StartsThen(spans, block.spans, r.spans, at, at + 1, block.at, r.at);
    } else if buffer[at] == '\n' && BlankLine(buffer, at + 1, limit) {
    } else {
      var tag := if buffer[at] == '\\' then TagAt(DoxygenNames(), buffer, at) else None;
      if tag.None? {
        DoxygenDescriptionStarts(buffer, at + 1, limit, spans);
        var r := DoxygenDescription(buffer, at + 1, limit, spans);
        StartsWider(spans, r.spans, at + 1, at + 2, r.at, at, at + 1, r.at);
      } else if !DoxygenTags()[tag.value].beginsSection {
        NameStops(buffer, at, limit);
        var info := DoxygenTags()[tag.value];
        DoxygenTaggedStarts(buffer, at, limit, info, spans);
        var next := DoxygenTagged(buffer, at, limit, info, spans);
        DoxygenDescriptionStarts(buffer, next.at, limit, next.spans);
        var r := DoxygenDescription(buffer, next.at, limit, next.spans);
        StartsThen(spans, next.spans, r.spans, at, at + 1, next.at, r.at);
      }
    }
  }

  lemma {:induction false} DoxygenTaggedStarts(
    buffer: string, slash: nat, limit: nat, info: DoxygenTagInfo, spans: seq<Span>)
    requires slash + |info.name| + 1 <= limit && Stops(buffer, limit)
    ensures var r := DoxygenTagged(buffer, slash, limit, info, spans); Starts(spans, r.spans, slash, slash + 1, r.at)
    decreases limit - slash, 0
  {
    hide Starts, DoxygenTagContent;
    var start := slash + |info.name| + 1;
    var markup := Span(slash, start, Markup);
    DoxygenContentStarts(buffer, slash, limit, info, spans + [markup]);
    TagStarts(spans, DoxygenTagContent(buffer, slash, limit, info, spans + [markup]), markup);
  }

  /** The markup of a tag, and behind it what the tag stands for. */
  lemma {:induction false} TagStarts(spans: seq<Span>, r: Scan, markup: Span)
    requires markup.begin < markup.end <= r.at && markup.semantic.Markup?
    requires Starts(spans + [markup], r.spans, markup.end, markup.end, r.at)
    ensures Starts(spans, r.spans, markup.begin, markup.begin + 1, r.at)
  {
    var a, b := spans + [markup], r.spans;
    assert b[|spans|] == a[|spans|] == markup;
    assert spans <= b by { assert spans <= a; }
    forall i | |spans| <= i < |b| ensures Placed(b[i], markup.begin, markup.begin + 1, r.at) {
      if i >= |a| { assert Placed(b[i], markup.end, markup.end, r.at); }
    }
    forall i, j | |spans| <= i < j < |b| ensures !SameStart(b[i], b[j]) && BothClear(b[i], b[j]) {
      if j >= |a| { assert Placed(b[j], markup.end, markup.end, r.at); }
    }
  }

  lemma {:induction false} DoxygenContentStarts(
    buffer: string, slash: nat, limit: nat, info: DoxygenTagInfo, spans: seq<Span>)
    requires slash + |info.name| + 1 <= limit && Stops(buffer, limit)
    ensures var r, e := DoxygenTagContent(buffer, slash, limit, info, spans), slash + |info.name| + 1;
      Starts(spans, r.spans, e, e, r.at)
    decreases limit - slash - 1, 2
  {
    hide Starts;
    var start := slash + |info.name| + 1;
    StartsNothing(spans, start, start, start);
    if info.block.Some? || info.tag.BriefTag? {
      DoxygenDescriptionStarts(buffer, start, limit, spans);
      var inside := DoxygenDescription(buffer, start, limit, spans);
      var s :=
        if info.block.Some? then Block(inside.spans, start, inside.at, info.block.value)
        else Span(start, inside.at, Brief);
      StartsAround(spans, inside.spans, s);
    } else if info.tag.CTag? {
      var s := Span(start, WordEnd(buffer, start, limit), CodeRef);
      StartsNothing(spans, start, start + 1, s.end);
      StartsAround(spans, spans, s);
    }
  }

  lemma {:induction false} AfterStarts(text: string, p: Place)
    requires p.at < |text|
    ensures var r := After(text, p);
      Starts(p.spans, r.spans, p.at, p.at + 1, if text[p.at] == '{' then r.at - 1 else r.at)
  {
    hide Starts, JavadocTags, DoxygenTags, TagAt, Brace, JavadocTagContent, DoxygenTagged;
    var at := p.at;
    StartsNothing(p.spans, at, at + 1, at + 1);
    if text[at] == '{' {
      BraceStarts(text, at, |text|, p.spans);
    } else if text[at] == '@' && p.lineStart && TagAt(JavadocNames(), text, at).Some? {
      var info := JavadocTags()[TagAt(JavadocNames(), text, at).value];
      var markup := Span(at, at + |info.name| + 1, Markup);
      JavadocContentStarts(text, at, |text|, info, p.spans + [markup]);
      TagStarts(p.spans, JavadocTagContent(text, at, |text|, info, p.spans + [markup]), markup);
    } else if text[at] == '\\' && TagAt(DoxygenNames(), text, at).Some? {
      DoxygenTaggedStarts(text, at, |text|, DoxygenTags()[TagAt(DoxygenNames(), text, at).value], p.spans);
    }
  }

  lemma {:induction false} AfterMoves(text: string, p: Place)
    requires p.at < |text|
    ensures var r := After(text, p); p.at < (if text[p.at] == '{' then r.at - 1 else r.at) <= |text|
  {
    hide Brace, JavadocAt, DoxygenAt;
  }

  lemma {:induction false} EndOfComment(text: string, p: Place)
    requires p.at >= |text|
    ensures Comment(text, p.at, p.lineStart, p.spans) == p.spans
  {
  }

  lemma {:induction false} CommentStartsFrom(text: string, p: Place)
    requires p.at <= |text| + 1
    ensures Starts(p.spans, Comment(text, p.at, p.lineStart, p.spans), p.at, p.at + 1, |text| + 1)
    decreases |text| + 1 - p.at
  {
    hide Starts, After, Comment;
    var hi := |text| + 1;
    if p.at >= |text| {
      EndOfComment(text, p);
      StartsNothing(p.spans, p.at, p.at + 1, hi);
    } else {
      var r := After(text, p);
      AfterMoves(text, p);
      var mid := if text[p.at] == '{' then r.at - 1 else r.at;
      AfterStarts(text, p);
      CommentAfter(text, p);
      CommentStartsFrom(text, r);
      var all := Comment(text, r.at, r.lineStart, r.spans);
      StartsWider(r.spans, all, r.at, r.at + 1, hi, mid, mid + 1, hi);
      StartsThen(p.spans, r.spans, all, p.at, p.at + 1, mid, hi);
    }
  }

  /** At any place a comment has at most one span of each kind that begins there. */
  lemma {:induction false} OneSpanPerStart(text: string, i: nat, j: nat)
    requires i < j < |Comment(text, 0, true, [])|
    ensures var all := Comment(text, 0, true, []); !SameStart(all[i], all[j]) && BothClear(all[i], all[j])
  {
    hide Comment;
    CommentStartsFrom(text, Place(0, true, []));
  }
}
