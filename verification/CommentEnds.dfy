/** Where the parts of a comment end, and which spans it therefore has, read off its text. */
module CommentEnds {
  import opened Wrappers
  import opened Spans
  import opened Comments

  // --------------------------------------------------------------- the tags by name

  lemma {:induction false} JavadocNamesAre()
    ensures JavadocNames()
         == ["author", "code", "deprecated", "docRoot", "exception", "inheritDoc", "link", "linkPlain", "literal",
             "param", "return", "see", "serial", "serialData", "serialField", "since", "throws", "value", "version"]
  {
  }

  lemma {:induction false} DoxygenNamesAre()
    ensures DoxygenNames() == ["brief", "c", "return", "returns"]
  {
  }

  /** The length and the first letter tell the names apart. */
  const KEYS: seq<int> :=
    [6097, 4099, 10100, 7100, 9101, 10105, 4108, 9108, 7108, 5112, 6114, 3115, 6115, 10115, 11115, 5115, 6116, 5118,
     7118]

  function Key(s: string): int
    requires |s| > 0
  { 1000 * |s| + s[0] as int }

  lemma {:induction false} JavadocKeys()
    ensures |JavadocTags()| == |KEYS|
    ensures forall i | 0 <= i < |KEYS| :: |JavadocTags()[i].name| > 0 && Key(JavadocTags()[i].name) == KEYS[i]
  {
  }

  lemma {:induction false} KeysDiffer(i: nat, j: nat)
    requires i < j < |KEYS|
    ensures KEYS[i] != KEYS[j]
  {
  }

  lemma {:induction false} JavadocNameTells(i: nat, j: nat)
    requires i < |JavadocTags()| && j < |JavadocTags()| && JavadocTags()[i].name == JavadocTags()[j].name
    ensures i == j
  {
    JavadocKeys();
    hide JavadocTags;
    if i < j { KeysDiffer(i, j); } else if j < i { KeysDiffer(j, i); }
  }

  /** The tag blocks in the order of the table. */
  lemma {:induction false} BlocksByPosition(i: nat)
    requires i < |JavadocTags()|
    ensures BlockOf(JavadocTags()[i]) ==
      match i
      case 0 => Some(Author)
      case 4 => Some(Throws)
      case 9 => Some(Param)
      case 10 => Some(Returns)
      case 15 => Some(Since)
      case 16 => Some(Throws)
      case 18 => Some(Version)
      case _ => None
    ensures JavadocTags()[i].tag.CodeTag? <==> i == 1
  {
  }

  lemma {:induction false} NamesByPosition()
    ensures |JavadocTags()| == 19
    ensures JavadocTags()[0].name == "author" && JavadocTags()[1].name == "code"
    ensures JavadocTags()[4].name == "exception" && JavadocTags()[9].name == "param"
    ensures JavadocTags()[10].name == "return" && JavadocTags()[15].name == "since"
    ensures JavadocTags()[16].name == "throws" && JavadocTags()[18].name == "version"
  {
  }

  /** Which names open which tag blocks, and which stands for code. */
  lemma {:induction false} JavadocBlocks(info: JavadocTagInfo)
    requires info in JavadocTags()
    ensures BlockOf(info) == Some(Author) <==> info.name == "author"
    ensures BlockOf(info) == Some(Param) <==> info.name == "param"
    ensures BlockOf(info) == Some(Returns) <==> info.name == "return"
    ensures BlockOf(info) == Some(Since) <==> info.name == "since"
    ensures BlockOf(info) == Some(Throws) <==> info.name == "throws" || info.name == "exception"
    ensures BlockOf(info) == Some(Version) <==> info.name == "version"
    ensures info.tag.CodeTag? <==> info.name == "code"
  {
    var tags := JavadocTags();
    var i :| 0 <= i < |tags| && tags[i] == info;
    BlocksByPosition(i);
    NamesByPosition();
    hide JavadocTags, BlockOf;
    forall j | 0 <= j < |tags| && tags[i].name == tags[j].name ensures i == j { JavadocNameTells(i, j); }
  }

  lemma {:induction false} DoxygenNameTells(i: nat, j: nat)
    requires i < |DoxygenTags()| && j < |DoxygenTags()| && DoxygenTags()[i].name == DoxygenTags()[j].name
    ensures i == j && |DoxygenTags()[i].name| > 0
  {
  }

  lemma {:induction false} LettersAre(buffer: string, i: nat, e: nat)
    requires i <= e <= |buffer| && (e < |buffer| ==> !IsLetter(buffer[e]))
    requires forall j | i <= j < e :: IsLetter(buffer[j])
    ensures LettersFrom(buffer, i) == buffer[i..e]
    decreases e - i
  {
    if i < e {
      LettersAre(buffer, i + 1, e);
      assert buffer[i..e] == [buffer[i]] + buffer[i + 1..e];
    }
  }

  /** Which Doxygen names open the only tag block, and what the others stand for. */
  lemma {:induction false} DoxygenBlocks(info: DoxygenTagInfo)
    requires info in DoxygenTags()
    ensures info.block == if info.name == "return" || info.name == "returns" then Some(Returns) else None
    ensures info.tag.BriefTag? <==> info.name == "brief"
    ensures info.tag.CTag? <==> info.name == "c"
    ensures info.beginsSection <==> info.name != "c"
  {
  }

  /** A listed name behind its delimiter is found. */
  lemma {:induction false} JavadocTagIsFound(buffer: string, d: nat, e: nat, info: JavadocTagInfo)
    requires JavadocTagText(buffer, d, e, info)
    ensures var tag := TagAt(JavadocNames(), buffer, d); tag.Some? && JavadocTags()[tag.value] == info
    ensures e == d + |info.name| + 1
  {
    hide JavadocTags, DoxygenTags;
    var i :| 0 <= i < |JavadocTags()| && JavadocTags()[i] == info;
    assert |buffer[d + 1..e]| == e - d - 1;
    LettersAre(buffer, d + 1, e);
    assert JavadocNames()[0..] == JavadocNames();
    assert JavadocNames()[i] == info.name;
    var tag := TagAt(JavadocNames(), buffer, d);
    assert tag.Some?;
    JavadocNameTells(i, tag.value);
  }

  lemma {:induction false} DoxygenTagIsFound(buffer: string, d: nat, e: nat, info: DoxygenTagInfo)
    requires DoxygenTagText(buffer, d, e, info)
    ensures var tag := TagAt(DoxygenNames(), buffer, d); tag.Some? && DoxygenTags()[tag.value] == info
    ensures e == d + |info.name| + 1
  {
    hide JavadocTags, DoxygenTags;
    var i :| 0 <= i < |DoxygenTags()| && DoxygenTags()[i] == info;
    assert |buffer[d + 1..e]| == e - d - 1;
    LettersAre(buffer, d + 1, e);
    assert DoxygenNames()[0..] == DoxygenNames();
    assert DoxygenNames()[i] == info.name;
    var tag := TagAt(DoxygenNames(), buffer, d);
    assert tag.Some?;
    DoxygenNameTells(i, tag.value);
  }

  // ------------------------------------------------------------------ brace blocks

  /** Opening minus closing braces between two positions. */
  function Braces(buffer: string, a: nat, b: nat): int
    requires a <= b <= |buffer|
    decreases b
  {
    if a == b then 0
    else Braces(buffer, a, b - 1) + (if buffer[b - 1] == '{' then 1 else if buffer[b - 1] == '}' then -1 else 0)
  }

  lemma {:induction false} BracesSplit(buffer: string, a: nat, b: nat, c: nat)
    requires a <= b <= c <= |buffer|
    ensures Braces(buffer, a, c) == Braces(buffer, a, b) + Braces(buffer, b, c)
    decreases c - b
  {
    if b < c { BracesSplit(buffer, a, b, c - 1); }
  }

  /** The first position behind which `depth` more braces have been closed than opened. */
  ghost predicate Matches(buffer: string, at: nat, limit: nat, depth: nat, c: nat)
    requires limit <= |buffer|
  {
    && at <= c < limit && depth + Braces(buffer, at, c + 1) == 0
    && forall j | at <= j <= c :: depth + Braces(buffer, at, j) > 0
  }

  /** The closing brace is the one that matches, and there is none exactly when none does. */
  lemma {:induction false} CloseMatches(buffer: string, at: nat, limit: nat, depth: nat, c: nat)
    requires limit <= |buffer| && depth > 0
    ensures CloseOf(buffer, at, limit, depth) == Some(c) <==> Matches(buffer, at, limit, depth, c)
    decreases limit - at
  {
    if at < limit {
      var step := Braces(buffer, at, at + 1);
      assert Braces(buffer, at, at) == 0;
      assert step == (if buffer[at] == '{' then 1 else if buffer[at] == '}' then -1 else 0);
      if depth + step == 0 {
        assert Matches(buffer, at, limit, depth, at);
        if at < c < limit { assert depth + Braces(buffer, at, at + 1) == 0; }
      } else {
        CloseMatches(buffer, at + 1, limit, depth + step, c);
        if at < c < limit { MatchesStep(buffer, at, limit, depth, c); }
      }
    }
  }

  lemma {:induction false} MatchesStep(buffer: string, at: nat, limit: nat, depth: nat, c: nat)
    requires at < c < limit <= |buffer| && depth > 0 && depth + Braces(buffer, at, at + 1) > 0
    ensures Matches(buffer, at, limit, depth, c)
        <==> Matches(buffer, at + 1, limit, depth + Braces(buffer, at, at + 1), c)
  {
    forall j | at + 1 <= j <= c + 1
      ensures Braces(buffer, at, j) == Braces(buffer, at, at + 1) + Braces(buffer, at + 1, j)
    {
      BracesSplit(buffer, at, at + 1, j);
    }
    assert Braces(buffer, at, at) == 0;
    var next, depth' := at + 1, depth + Braces(buffer, at, at + 1);
    if Matches(buffer, at, limit, depth, c) {
      forall j | next <= j <= c ensures depth' + Braces(buffer, next, j) > 0 {
        assert depth + Braces(buffer, at, j) > 0;
      }
    }
    if Matches(buffer, at + 1, limit, depth', c) {
      forall j | at <= j <= c ensures depth + Braces(buffer, at, j) > 0 {
        if j > at { assert depth' + Braces(buffer, at + 1, j) > 0; }
      }
    }
  }

  /** A brace block: `{`, spaces, a listed tag, and the brace that matches. */
  ghost predicate BlockAt(buffer: string, b: nat, limit: nat, d: nat, e: nat, info: JavadocTagInfo, c: nat) {
    OpeningText(buffer, b, d, e, info) && limit <= |buffer| && Matches(buffer, e, limit, 1, c)
  }

  /** The brace block at `b` is closed at `c`. */
  ghost predicate ClosesAt(buffer: string, b: nat, limit: nat, c: nat) {
    exists d: nat, e: nat, info :: BlockAt(buffer, b, limit, d, e, info, c)
  }

  ghost predicate OpensBlock(buffer: string, b: nat, limit: nat) {
    exists c: nat :: ClosesAt(buffer, b, limit, c)
  }

  lemma {:induction false} BraceTagIs(buffer: string, at: nat, limit: nat, d: nat)
    requires at <= d < limit <= |buffer| && buffer[d] == '@' && forall j | at <= j < d :: buffer[j] == ' '
    ensures BraceTag(buffer, at, limit) == Some(d)
    decreases d - at
  {
    if at < d { BraceTagIs(buffer, at + 1, limit, d); }
  }

  /** A brace block is read to its end. */
  lemma {:induction false} BlockIsRead(
    buffer: string, b: nat, limit: nat, d: nat, e: nat, info: JavadocTagInfo, c: nat, spans: seq<Span>)
    requires BlockAt(buffer, b, limit, d, e, info, c)
    ensures b < limit && e == d + |info.name| + 1 <= c
    ensures var marked := spans + [Span(b, e, Markup)] + [Span(c, c + 1, Markup)];
      Brace(buffer, b, limit, spans) == Scan(c + 1, JavadocTagContent(buffer, d, c, info, marked).spans)
  {
    hide JavadocTags, DoxygenTags, TagAt, CloseOf, BraceTag, JavadocTagContent, LettersFrom;
    JavadocTagIsFound(buffer, d, e, info);
    CloseMatches(buffer, e, limit, 1, c);
    BraceTagIs(buffer, b + 1, limit, d);
    hide Matches, JavadocTagText;
  }

  lemma {:induction false} FoundBlock(buffer: string, b: nat, limit: nat, d: nat, tag: nat, c: nat)
    requires b < limit <= |buffer| && buffer[b] == '{' && BraceTag(buffer, b + 1, limit) == Some(d)
    requires TagAt(JavadocNames(), buffer, d) == Some(tag)
    requires CloseOf(buffer, d + |JavadocTags()[tag].name| + 1, limit, 1) == Some(c)
    ensures OpensBlock(buffer, b, limit)
  {
    hide JavadocTags, DoxygenTags, TagAt, Matches, CloseOf;
    var info := JavadocTags()[tag];
    TagTextAt(buffer, d, tag);
    CloseMatches(buffer, d + |info.name| + 1, limit, 1, c);
    assert BlockAt(buffer, b, limit, d, d + |info.name| + 1, info, c);
    assert ClosesAt(buffer, b, limit, c);
  }

  /** Any other brace stands for itself. */
  lemma {:induction false} OtherBraceIsRead(buffer: string, b: nat, limit: nat, spans: seq<Span>)
    requires b < limit <= |buffer| && buffer[b] == '{' && !OpensBlock(buffer, b, limit)
    ensures Brace(buffer, b, limit, spans) == Scan(b + 1, spans)
  {
    hide JavadocTags, DoxygenTags, TagAt, JavadocTagContent, OpensBlock, CloseOf, BraceTag;
    var at := BraceTag(buffer, b + 1, limit);
    if at.Some? && TagAt(JavadocNames(), buffer, at.value).Some? {
      var tag := TagAt(JavadocNames(), buffer, at.value).value;
      var close := CloseOf(buffer, at.value + |JavadocTags()[tag].name| + 1, limit, 1);
      if close.Some? { FoundBlock(buffer, b, limit, at.value, tag, close.value); }
    }
  }

  // ------------------------------------------------------------- blank lines and words

  ghost predicate AllBlank(buffer: string, a: nat, b: nat)
    requires b <= |buffer|
  {
    forall j | a <= j < b :: buffer[j] == ' ' || buffer[j] == '\t'
  }

  ghost predicate BlankUpTo(buffer: string, at: nat, limit: nat, q: nat)
    requires limit <= |buffer|
  {
    at <= q < limit && buffer[q] == '\n' && AllBlank(buffer, at, q)
  }

  /** Nothing but blanks up to the end of the line. */
  ghost predicate BlankFrom(buffer: string, at: nat, limit: nat)
    requires limit <= |buffer|
  {
    exists q: nat :: BlankUpTo(buffer, at, limit, q)
  }

  lemma {:induction false} BlankLineIs(buffer: string, at: nat, limit: nat)
    requires limit <= |buffer|
    ensures BlankLine(buffer, at, limit) <==> BlankFrom(buffer, at, limit)
    decreases limit - at
  {
    if at < limit {
      if buffer[at] == '\n' {
        assert BlankUpTo(buffer, at, limit, at);
      } else if buffer[at] == ' ' || buffer[at] == '\t' {
        var next := at + 1;
        BlankLineIs(buffer, next, limit);
        if q: nat :| BlankUpTo(buffer, next, limit, q) { assert BlankUpTo(buffer, at, limit, q); }
        if q: nat :| BlankUpTo(buffer, at, limit, q) { assert BlankUpTo(buffer, next, limit, q); }
      } else {
        assert forall q: nat :: BlankUpTo(buffer, at, limit, q) ==> q == at;
      }
    }
  }

  /** The word behind blanks runs up to the next blank or line end; without one, nothing does. */
  ghost predicate IsWordEnd(buffer: string, begin: nat, limit: nat, r: nat)
    requires limit <= |buffer|
  {
    if AllBlank(buffer, begin, limit) then r == begin else exists w: nat :: IsWord(buffer, begin, limit, w, r)
  }

  ghost predicate IsWord(buffer: string, begin: nat, limit: nat, w: nat, r: nat)
    requires limit <= |buffer|
  {
    && begin <= w < limit && AllBlank(buffer, begin, w) && buffer[w] != ' ' && buffer[w] != '\t'
    && w <= r <= limit && (r < limit ==> buffer[r] == ' ' || buffer[r] == '\t' || buffer[r] == '\n')
    && forall j | w <= j < r :: buffer[j] != ' ' && buffer[j] != '\t' && buffer[j] != '\n'
  }

  lemma {:induction false} SkipBlanksIs(buffer: string, at: nat, limit: nat)
    requires at <= limit <= |buffer|
    ensures var w := SkipBlanks(buffer, at, limit);
      AllBlank(buffer, at, w) && (w < limit ==> buffer[w] != ' ' && buffer[w] != '\t')
    decreases limit - at
  {
    if at < limit && IsBlank(buffer[at]) { SkipBlanksIs(buffer, at + 1, limit); }
  }

  lemma {:induction false} SkipWordIs(buffer: string, at: nat, limit: nat)
    requires at <= limit <= |buffer|
    ensures var r := SkipWord(buffer, at, limit);
      && (r < limit ==> buffer[r] == ' ' || buffer[r] == '\t' || buffer[r] == '\n')
      && forall j | at <= j < r :: buffer[j] != ' ' && buffer[j] != '\t' && buffer[j] != '\n'
    decreases limit - at
  {
    if at < limit && !IsBlank(buffer[at]) && buffer[at] != '\n' { SkipWordIs(buffer, at + 1, limit); }
  }

  lemma {:induction false} WordEndIs(buffer: string, begin: nat, limit: nat)
    requires begin <= limit <= |buffer|
    ensures IsWordEnd(buffer, begin, limit, WordEnd(buffer, begin, limit))
  {
    var w := SkipBlanks(buffer, begin, limit);
    SkipBlanksIs(buffer, begin, limit);
    if w < limit {
      SkipWordIs(buffer, w, limit);
      assert IsWord(buffer, begin, limit, w, SkipWord(buffer, w, limit));
    }
  }

  lemma {:induction false} WordEndIsUnique(buffer: string, begin: nat, limit: nat, r: nat)
    requires begin <= limit <= |buffer| && IsWordEnd(buffer, begin, limit, r)
    ensures r == WordEnd(buffer, begin, limit)
  {
    WordEndIs(buffer, begin, limit);
    if !AllBlank(buffer, begin, limit) {
      var r' := WordEnd(buffer, begin, limit);
      var w: nat :| IsWord(buffer, begin, limit, w, r);
      var w': nat :| IsWord(buffer, begin, limit, w', r');
      assert w == w';
      hide AllBlank;
    }
  }

  // ----------------------------------------------------------- Javadoc descriptions

  /** From `at` to `end` there are whole brace blocks, and else no `@`. */
  ghost predicate JavadocRuns(buffer: string, at: nat, limit: nat, end: nat)
    decreases limit - at
  {
    || (at == end <= limit <= |buffer|)
    || (at < end <= limit <= |buffer|
        && if OpensBlock(buffer, at, limit)
           then exists c: nat ::
                  ClosesAt(buffer, at, limit, c) && at < c < end && JavadocRuns(buffer, c + 1, limit, end)
           else buffer[at] != '@' && JavadocRuns(buffer, at + 1, limit, end))
  }

  lemma {:induction false} BlockBounds(buffer: string, b: nat, limit: nat, c: nat)
    requires ClosesAt(buffer, b, limit, c)
    ensures b < c < limit <= |buffer| && buffer[b] == '{' && OpensBlock(buffer, b, limit)
    ensures forall spans :: Brace(buffer, b, limit, spans).at == c + 1
  {
    var d: nat, e: nat, info :| BlockAt(buffer, b, limit, d, e, info, c);
    forall spans ensures Brace(buffer, b, limit, spans).at == c + 1 {
      BlockIsRead(buffer, b, limit, d, e, info, c, spans);
    }
    hide Brace;
    BlockIsRead(buffer, b, limit, d, e, info, c, []);
  }

  /** A description runs over whole brace blocks up to the next `@` or its limit. */
  lemma {:induction false} JavadocDescriptionEnds(buffer: string, at: nat, limit: nat, spans: seq<Span>)
    requires at <= limit <= |buffer|
    ensures var end := JavadocDescription(buffer, at, limit, spans).at;
      JavadocRuns(buffer, at, limit, end) && (end < limit ==> buffer[end] == '@')
    decreases limit - at
  {
    hide OpensBlock, ClosesAt, Brace;
    if at < limit && buffer[at] != '@' {
      if OpensBlock(buffer, at, limit) {
        var c := BlockCloses(buffer, at, limit);
        BlockBounds(buffer, at, limit, c);
        JavadocDescriptionEnds(buffer, c + 1, limit, Brace(buffer, at, limit, spans).spans);
      } else {
        if buffer[at] == '{' { OtherBraceIsRead(buffer, at, limit, spans); }
        JavadocDescriptionEnds(buffer, at + 1, limit, spans);
      }
    }
  }

  lemma {:induction false} BlockCloses(buffer: string, b: nat, limit: nat) returns (c: nat)
    requires OpensBlock(buffer, b, limit)
    ensures ClosesAt(buffer, b, limit, c)
  {
    c :| ClosesAt(buffer, b, limit, c);
  }

  /** Every `@` that a description runs over is inside a brace block. */
  lemma {:induction false} AtsAreInBlocks(buffer: string, at: nat, limit: nat, end: nat, p: nat)
    requires JavadocRuns(buffer, at, limit, end) && at <= p < end && buffer[p] == '@'
    ensures exists b: nat, c: nat :: ClosesAt(buffer, b, limit, c) && at <= b < p < c < end
    decreases limit - at
  {
    hide OpensBlock, ClosesAt;
    if OpensBlock(buffer, at, limit) {
      var c: nat :| ClosesAt(buffer, at, limit, c) && at < c < end && JavadocRuns(buffer, c + 1, limit, end);
      BlockBounds(buffer, at, limit, c);
      BlockEnd(buffer, at, limit, c);
      if p > c { AtsAreInBlocks(buffer, c + 1, limit, end, p); }
    } else {
      AtsAreInBlocks(buffer, at + 1, limit, end, p);
    }
  }

  lemma {:induction false} BlockEnd(buffer: string, b: nat, limit: nat, c: nat)
    requires ClosesAt(buffer, b, limit, c)
    ensures c < |buffer| && buffer[c] == '}'
  {
    var d: nat, e: nat, info :| BlockAt(buffer, b, limit, d, e, info, c);
    CloseMatches(buffer, e, limit, 1, c);
  }

  /** So without braces it runs up to the first `@`. */
  lemma {:induction false} DescriptionWithoutBraces(buffer: string, at: nat, limit: nat, spans: seq<Span>)
    requires at <= limit <= |buffer| && forall j | at <= j < limit :: buffer[j] != '{'
    ensures var end := JavadocDescription(buffer, at, limit, spans).at;
      (forall j | at <= j < end :: buffer[j] != '@') && (end < limit ==> buffer[end] == '@')
  {
    JavadocDescriptionEnds(buffer, at, limit, spans);
    var end := JavadocDescription(buffer, at, limit, spans).at;
    hide JavadocRuns, JavadocDescription;
    forall p | at <= p < end ensures buffer[p] != '@' {
      if buffer[p] == '@' { AtMeansBrace(buffer, at, limit, end, p); }
    }
  }

  lemma {:induction false} AtMeansBrace(buffer: string, at: nat, limit: nat, end: nat, p: nat)
    requires JavadocRuns(buffer, at, limit, end) && at <= p < end && buffer[p] == '@'
    ensures exists j | at <= j < limit :: buffer[j] == '{'
  {
    hide JavadocRuns, ClosesAt;
    AtsAreInBlocks(buffer, at, limit, end, p);
    var b: nat, c: nat :| ClosesAt(buffer, b, limit, c) && at <= b < p < c < end;
    BlockBounds(buffer, b, limit, c);
  }

  /** There is one place where it can end. */
  lemma {:induction false} JavadocEndIsUnique(buffer: string, at: nat, limit: nat, end: nat, spans: seq<Span>)
    requires at <= limit <= |buffer| && JavadocRuns(buffer, at, limit, end) && (end < limit ==> buffer[end] == '@')
    ensures end == JavadocDescription(buffer, at, limit, spans).at
    decreases limit - at
  {
    hide OpensBlock, ClosesAt, Brace;
    if at < end {
      if OpensBlock(buffer, at, limit) {
        var c: nat :| ClosesAt(buffer, at, limit, c) && at < c < end && JavadocRuns(buffer, c + 1, limit, end);
        BlockBounds(buffer, at, limit, c);
        JavadocEndIsUnique(buffer, c + 1, limit, end, Brace(buffer, at, limit, spans).spans);
      } else {
        if buffer[at] == '{' { OtherBraceIsRead(buffer, at, limit, spans); }
        JavadocEndIsUnique(buffer, at + 1, limit, end, spans);
      }
    }
  }

  // ----------------------------------------------------------- Doxygen descriptions

  ghost predicate SectionTagAt(buffer: string, at: nat) {
    exists e: nat, info :: DoxygenTagText(buffer, at, e, info) && info.name != "c"
  }

  /** A blank line begins behind `at`, or a tag that begins a section begins there. */
  ghost predicate DoxygenStops(buffer: string, at: nat, limit: nat)
    requires at < limit <= |buffer|
  {
    (buffer[at] == '\n' && BlankFrom(buffer, at + 1, limit)) || SectionTagAt(buffer, at)
  }

  /** A `\c` at `at` takes the word behind it, up to `w`. */
  ghost predicate TakesWord(buffer: string, at: nat, limit: nat, w: nat) {
    exists e: nat, info ::
      DoxygenTagText(buffer, at, e, info) && info.name == "c" && limit <= |buffer| && IsWordEnd(buffer, e, limit, w)
  }

  /** From `at` to `end` there are whole brace blocks, words behind `\c`, and else no blank line
      and no tag that begins a section. */
  ghost predicate DoxygenRuns(buffer: string, at: nat, limit: nat, end: nat)
    decreases limit - at
  {
    || (at == end <= limit <= |buffer|)
    || (at < end <= limit <= |buffer|
        && if OpensBlock(buffer, at, limit)
           then exists c: nat ::
                  ClosesAt(buffer, at, limit, c) && at < c < end && DoxygenRuns(buffer, c + 1, limit, end)
           else if DoxygenStops(buffer, at, limit) then false
           else if exists w: nat :: TakesWord(buffer, at, limit, w)
           then exists w: nat :: TakesWord(buffer, at, limit, w) && at < w <= end && DoxygenRuns(buffer, w, limit, end)
           else DoxygenRuns(buffer, at + 1, limit, end))
  }

  /** The tag that stands at a backslash, if one does. */
  lemma {:induction false} DoxygenTagHere(buffer: string, at: nat)
    requires at < |buffer| && buffer[at] == '\\'
    ensures var tag := TagAt(DoxygenNames(), buffer, at);
      && (tag.None? ==> forall e: nat, info :: !DoxygenTagText(buffer, at, e, info))
      && (tag.Some? ==> var info := DoxygenTags()[tag.value];
            DoxygenTagText(buffer, at, at + |info.name| + 1, info)
            && forall e: nat, other | DoxygenTagText(buffer, at, e, other) ::
                 e == at + |info.name| + 1 && other == info)
  {
    var tag := TagAt(DoxygenNames(), buffer, at);
    if tag.Some? { SlashTextAt(buffer, at, tag.value); }
    hide JavadocTags, DoxygenTags, DoxygenNames;
    forall e: nat, info | DoxygenTagText(buffer, at, e, info)
      ensures tag.Some? && info == DoxygenTags()[tag.value] && e == at + |info.name| + 1
    {
      DoxygenTagIsFound(buffer, at, e, info);
    }
  }

  lemma {:induction false} StopsAtBlankLine(buffer: string, at: nat, limit: nat)
    requires at < limit <= |buffer| && buffer[at] == '\n'
    ensures DoxygenStops(buffer, at, limit) <==> BlankLine(buffer, at + 1, limit)
    ensures forall w: nat :: !TakesWord(buffer, at, limit, w)
  {
    BlankLineIs(buffer, at + 1, limit);
    hide BlankFrom, BlankLine, DoxygenTags;
  }

  lemma {:induction false} StopsAtTag(buffer: string, at: nat, limit: nat, tag: Option<nat>)
    requires at < limit && Stops(buffer, limit) && buffer[at] == '\\' && tag == TagAt(DoxygenNames(), buffer, at)
    ensures DoxygenStops(buffer, at, limit) <==> tag.Some? && DoxygenTags()[tag.value].beginsSection
    ensures tag.None? ==> forall w: nat :: !TakesWord(buffer, at, limit, w)
    ensures tag.Some? && !DoxygenTags()[tag.value].beginsSection ==>
      var start := at + |DoxygenTags()[tag.value].name| + 1;
      start <= limit && DoxygenTags()[tag.value].tag.CTag? && DoxygenTags()[tag.value].block.None?
      && forall w: nat :: TakesWord(buffer, at, limit, w) <==> w == WordEnd(buffer, start, limit)
  {
    DoxygenTagHere(buffer, at);
    if tag.Some? {
      var info := DoxygenTags()[tag.value];
      DoxygenBlocks(info);
      NameStops(buffer, at, limit);
      var start := at + |info.name| + 1;
      hide DoxygenTags, DoxygenTagText, TagAt, LettersFrom;
      WordEndIs(buffer, start, limit);
      forall w: nat | IsWordEnd(buffer, start, limit, w) ensures w == WordEnd(buffer, start, limit) {
        WordEndIsUnique(buffer, start, limit, w);
      }
      hide IsWordEnd, WordEnd;
    }
  }

  /** Neither stops nor takes a word. */
  lemma {:induction false} OrdinaryCharacter(buffer: string, at: nat, limit: nat)
    requires at < limit <= |buffer| && buffer[at] != '\n' && buffer[at] != '\\'
    ensures !DoxygenStops(buffer, at, limit) && forall w: nat :: !TakesWord(buffer, at, limit, w)
  {
    hide DoxygenTags;
  }

  /** A description runs over brace blocks and code words up to a blank line, a tag that begins a
      section, or its limit. */
  lemma {:induction false} DoxygenDescriptionEnds(buffer: string, at: nat, limit: nat, spans: seq<Span>)
    requires at <= limit && Stops(buffer, limit)
    ensures var end := DoxygenDescription(buffer, at, limit, spans).at;
      DoxygenRuns(buffer, at, limit, end) && (end < limit ==> DoxygenStops(buffer, end, limit))
    decreases limit - at
  {
    hide OpensBlock, ClosesAt, Brace, DoxygenStops, TakesWord, DoxygenTags, TagAt, BlankLine, WordEnd, LettersFrom;
    if at < limit {
      if OpensBlock(buffer, at, limit) {
        var c := BlockCloses(buffer, at, limit);
        BlockBounds(buffer, at, limit, c);
        DoxygenDescriptionEnds(buffer, c + 1, limit, Brace(buffer, at, limit, spans).spans);
      } else if buffer[at] == '{' {
        OrdinaryCharacter(buffer, at, limit);
        OtherBraceIsRead(buffer, at, limit, spans);
        DoxygenDescriptionEnds(buffer, at + 1, limit, spans);
      } else if buffer[at] == '\n' {
        StopsAtBlankLine(buffer, at, limit);
        if !BlankLine(buffer, at + 1, limit) { DoxygenDescriptionEnds(buffer, at + 1, limit, spans); }
      } else if buffer[at] == '\\' {
        DoxygenSlashEnds(buffer, at, limit, spans);
      } else {
        OrdinaryCharacter(buffer, at, limit);
        DoxygenDescriptionEnds(buffer, at + 1, limit, spans);
      }
    }
  }

  lemma {:induction false} DoxygenSlashEnds(buffer: string, at: nat, limit: nat, spans: seq<Span>)
    requires at < limit && Stops(buffer, limit) && buffer[at] == '\\' && !OpensBlock(buffer, at, limit)
    ensures var end := DoxygenDescription(buffer, at, limit, spans).at;
      DoxygenRuns(buffer, at, limit, end) && (end < limit ==> DoxygenStops(buffer, end, limit))
    decreases limit - at, 0
  {
    hide OpensBlock, ClosesAt, DoxygenStops, TakesWord, DoxygenTags, TagAt, WordEnd, LettersFrom;
    var tag := TagAt(DoxygenNames(), buffer, at);
    StopsAtTag(buffer, at, limit, tag);
    if tag.None? {
      DoxygenDescriptionEnds(buffer, at + 1, limit, spans);
    } else if !DoxygenTags()[tag.value].beginsSection {
      var info := DoxygenTags()[tag.value];
      var next := DoxygenTagged(buffer, at, limit, info, spans);
      CodeWordEnds(buffer, at, limit, info, spans);
      DoxygenDescriptionEnds(buffer, next.at, limit, next.spans);
      assert TakesWord(buffer, at, limit, next.at);
    }
  }

  lemma {:induction false} CodeWordEnds(buffer: string, slash: nat, limit: nat, info: DoxygenTagInfo, spans: seq<Span>)
    requires slash + |info.name| + 1 <= limit && Stops(buffer, limit) && info.tag.CTag? && info.block.None?
    ensures DoxygenTagged(buffer, slash, limit, info, spans).at == WordEnd(buffer, slash + |info.name| + 1, limit)
  {
  }
}
