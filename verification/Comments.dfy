/** What a Javadoc or Doxygen comment means as a list of spans, and why the spans are
    nested, numbered and justified by the text. */
module Comments {
  import opened Wrappers
  import opened Spans

  datatype JavadocTag =
    | AuthorTag | CodeTag | DeprecatedTag | DocRootTag | ExceptionTag | InheritDocTag | LinkTag
    | LinkPlainTag | LiteralTag | ParamTag | ReturnTag | SeeTag | SerialTag | SerialDataTag
    | SerialFieldTag | SinceTag | ThrowsTag | ValueTag | VersionTag

  /** A tag, and the tag block it opens if it always opens one. */
  datatype JavadocTagInfo = JavadocTagInfo(name: string, tag: JavadocTag, block: Option<TagBlockId>)

  function JavadocTags(): seq<JavadocTagInfo> {
    [
      JavadocTagInfo("author", AuthorTag, Some(Author)), JavadocTagInfo("code", CodeTag, None),
      JavadocTagInfo("deprecated", DeprecatedTag, None), JavadocTagInfo("docRoot", DocRootTag, None),
      JavadocTagInfo("exception", ExceptionTag, None), JavadocTagInfo("inheritDoc", InheritDocTag, None),
      JavadocTagInfo("link", LinkTag, None), JavadocTagInfo("linkPlain", LinkPlainTag, None),
      JavadocTagInfo("literal", LiteralTag, None), JavadocTagInfo("param", ParamTag, None),
      JavadocTagInfo("return", ReturnTag, Some(Returns)), JavadocTagInfo("see", SeeTag, None),
      JavadocTagInfo("serial", SerialTag, None), JavadocTagInfo("serialData", SerialDataTag, None),
      JavadocTagInfo("serialField", SerialFieldTag, None), JavadocTagInfo("since", SinceTag, Some(Since)),
      JavadocTagInfo("throws", ThrowsTag, None), JavadocTagInfo("value", ValueTag, None),
      JavadocTagInfo("version", VersionTag, Some(Version))
    ]
  }

  datatype DoxygenTag = BriefTag | CTag | ReturnsTag

  datatype DoxygenTagInfo =
    DoxygenTagInfo(name: string, tag: DoxygenTag, beginsSection: bool, block: Option<TagBlockId>)

  function DoxygenTags(): seq<DoxygenTagInfo> {
    [
      DoxygenTagInfo("brief", BriefTag, true, None), DoxygenTagInfo("c", CTag, false, None),
      DoxygenTagInfo("return", ReturnsTag, true, Some(Returns)),
      DoxygenTagInfo("returns", ReturnsTag, true, Some(Returns))
    ]
  }

  function JavadocNames(): (names: seq<string>)
    ensures |names| == |JavadocTags()| && forall i | 0 <= i < |names| :: names[i] == JavadocTags()[i].name
  {
    seq(|JavadocTags()|, i requires 0 <= i < |JavadocTags()| => JavadocTags()[i].name)
  }

  function DoxygenNames(): (names: seq<string>)
    ensures |names| == |DoxygenTags()| && forall i | 0 <= i < |names| :: names[i] == DoxygenTags()[i].name
  {
    seq(|DoxygenTags()|, i requires 0 <= i < |DoxygenTags()| => DoxygenTags()[i].name)
  }

  /** The tag block that a Javadoc tag opens. */
  function BlockOf(info: JavadocTagInfo): Option<TagBlockId> {
    if info.block.Some? then info.block
    else if info.tag.ParamTag? then Some(Param)
    else if info.tag.ExceptionTag? || info.tag.ThrowsTag? then Some(Throws)
    else None
  }

  // ------------------------------------------------------------------- tag names

  predicate IsLetter(c: char) { 'A' <= c <= 'Z' || 'a' <= c <= 'z' }

  /** The letters from position `i` on. */
  function LettersFrom(buffer: string, i: nat): (r: string)
    ensures i <= |buffer| ==> i + |r| <= |buffer| && buffer[i..i + |r|] == r
    ensures forall j | 0 <= j < |r| :: IsLetter(r[j])
    decreases |buffer| - i
  {
    if i >= |buffer| || !IsLetter(buffer[i]) then ""
    else [buffer[i]] + LettersFrom(buffer, i + 1)
  }

  /** The first listed name that is `word`, from the `i`th on. */
  function FindName(names: seq<string>, word: string, i: nat): (r: Option<nat>)
    requires i <= |names|
    ensures r.Some? ==> i <= r.value < |names| && names[r.value] == word
    ensures r.None? ==> word !in names[i..]
    decreases |names| - i
  {
    if i == |names| then None
    else if names[i] == word then Some(i)
    else
      assert names[i..] == [names[i]] + names[i + 1..];
      FindName(names, word, i + 1)
  }

  /** The tag whose name is the whole run of letters behind a delimiter. */
  function TagAt(names: seq<string>, buffer: string, delimiter: nat): (r: Option<nat>)
    ensures r.Some? ==> r.value < |names| && names[r.value] == LettersFrom(buffer, delimiter + 1) != ""
    ensures r.Some? ==> delimiter + 1 + |names[r.value]| <= |buffer|
  {
    var word := LettersFrom(buffer, delimiter + 1);
    if word == "" then None else FindName(names, word, 0)
  }

  /** Names do not run past a limit: it is the end of the text or no letter. */
  ghost predicate Stops(buffer: string, limit: nat) {
    limit <= |buffer| && (limit < |buffer| ==> !IsLetter(buffer[limit]))
  }

  lemma {:induction false} NameStops(buffer: string, delimiter: nat, limit: nat)
    requires delimiter < limit && Stops(buffer, limit)
    ensures delimiter + 1 + |LettersFrom(buffer, delimiter + 1)| <= limit
  {
    var w := LettersFrom(buffer, delimiter + 1);
    assert forall j | 0 <= j < |w| :: w[j] == buffer[delimiter + 1 + j];
  }

  // ------------------------------------------------------------------- the grammar

  /** How far the reading got, and the spans so far. */
  datatype Scan = Scan(at: nat, spans: seq<Span>)

  /** Where the tag of a brace block should be: behind spaces. */
  function BraceTag(buffer: string, at: nat, limit: nat): (r: Option<nat>)
    requires at <= limit <= |buffer|
    ensures r.Some? ==> at <= r.value <= limit && (r.value < limit ==> buffer[r.value] == '@')
    ensures r.Some? ==> forall j | at <= j < r.value :: buffer[j] == ' '
    decreases limit - at
  {
    if at >= limit || buffer[at] == '@' then Some(at)
    else if buffer[at] != ' ' then None
    else BraceTag(buffer, at + 1, limit)
  }

  /** The brace that closes a block with `depth` braces open, before `limit`. */
  function CloseOf(buffer: string, at: nat, limit: nat, depth: nat): (r: Option<nat>)
    requires limit <= |buffer| && depth > 0
    ensures r.Some? ==> at <= r.value < limit && buffer[r.value] == '}'
    decreases limit - at
  {
    if at >= limit then None
    else if buffer[at] == '}' then (if depth == 1 then Some(at) else CloseOf(buffer, at + 1, limit, depth - 1))
    else CloseOf(buffer, at + 1, limit, if buffer[at] == '{' then depth + 1 else depth)
  }

  function Block(spans: seq<Span>, begin: nat, end: nat, id: TagBlockId): Span {
    Span(begin, end, TagBlock(id, Blocks(spans, id)))
  }

  /** A brace block is `{`, spaces, a tag, its content and the matching `}`; anything else
      is a brace that stands for itself. */
  function Brace(buffer: string, open: nat, limit: nat, spans: seq<Span>): (r: Scan)
    requires open < limit <= |buffer|
    ensures open < r.at <= limit
    decreases limit - open, 0
  {
    var at := BraceTag(buffer, open + 1, limit);
    if at.None? then Scan(open + 1, spans)
    else
      var tag := TagAt(JavadocNames(), buffer, at.value);
      if tag.None? then Scan(open + 1, spans)
      else
        var info := JavadocTags()[tag.value];
        var start := at.value + |info.name| + 1;
        var close := CloseOf(buffer, start, limit, 1);
        if close.None? then Scan(open + 1, spans)
        else
          var marked := spans + [Span(open, start, Markup)] + [Span(close.value, close.value + 1, Markup)];
          Scan(close.value + 1, JavadocTagContent(buffer, at.value, close.value, info, marked).spans)
  }

  function JavadocTagContent(buffer: string, at: nat, limit: nat, info: JavadocTagInfo, spans: seq<Span>): (r: Scan)
    requires at + |info.name| + 1 <= limit <= |buffer|
    ensures at + |info.name| + 1 <= r.at <= limit
    decreases limit - at, 0
  {
    var start := at + |info.name| + 1;
    if BlockOf(info).Some? then
      var inside := JavadocDescription(buffer, start, limit, spans);
      Scan(inside.at, inside.spans + [Block(inside.spans, start, inside.at, BlockOf(info).value)])
    else if info.tag.CodeTag? then Scan(limit, spans + [Span(start, limit, CodeRef)])
    else Scan(start, spans)
  }

  /** A description runs up to the next `@` that is not inside a brace block. */
  function JavadocDescription(buffer: string, at: nat, limit: nat, spans: seq<Span>): (r: Scan)
    requires at <= limit <= |buffer|
    ensures at <= r.at <= limit
    decreases limit - at, 1
  {
    if at == limit || buffer[at] == '@' then Scan(at, spans)
    else if buffer[at] == '{' then
      var block := Brace(buffer, at, limit, spans);
      JavadocDescription(buffer, block.at, limit, block.spans)
    else JavadocDescription(buffer, at + 1, limit, spans)
  }

  predicate IsBlank(c: char) { c == ' ' || c == '\t' }

  /** Nothing but blanks before the next newline. */
  predicate BlankLine(buffer: string, at: nat, limit: nat)
    requires limit <= |buffer|
    decreases limit - at
  {
    at < limit && (buffer[at] == '\n' || (IsBlank(buffer[at]) && BlankLine(buffer, at + 1, limit)))
  }

  function SkipBlanks(buffer: string, at: nat, limit: nat): (r: nat)
    requires at <= limit <= |buffer|
    ensures at <= r <= limit
    decreases limit - at
  {
    if at < limit && IsBlank(buffer[at]) then SkipBlanks(buffer, at + 1, limit) else at
  }

  function SkipWord(buffer: string, at: nat, limit: nat): (r: nat)
    requires at <= limit <= |buffer|
    ensures at <= r <= limit
    decreases limit - at
  {
    if at < limit && !IsBlank(buffer[at]) && buffer[at] != '\n' then SkipWord(buffer, at + 1, limit) else at
  }

  /** The end of the word after blanks; nothing is read if only blanks are left. */
  function WordEnd(buffer: string, begin: nat, limit: nat): (r: nat)
    requires begin <= limit <= |buffer|
    ensures begin <= r <= limit
  {
    var word := SkipBlanks(buffer, begin, limit);
    if word == limit then begin else SkipWord(buffer, word, limit)
  }

  /** A description runs up to a blank line or a tag that begins a section. */
  function DoxygenDescription(buffer: string, at: nat, limit: nat, spans: seq<Span>): (r: Scan)
    requires at <= limit && Stops(buffer, limit)
    ensures at <= r.at <= limit
    decreases limit - at, 1
  {
    if at == limit then Scan(at, spans)
    else if buffer[at] == '{' then
      var block := Brace(buffer, at, limit, spans);
      DoxygenDescription(buffer, block.at, limit, block.spans)
    else if buffer[at] == '\n' && BlankLine(buffer, at + 1, limit) then Scan(at, spans)
    else
      var tag := if buffer[at] == '\\' then TagAt(DoxygenNames(), buffer, at) else None;
      if tag.None? then DoxygenDescription(buffer, at + 1, limit, spans)
      else if DoxygenTags()[tag.value].beginsSection then Scan(at, spans)
      else
        NameStops(buffer, at, limit);
        var next := DoxygenTagged(buffer, at, limit, DoxygenTags()[tag.value], spans);
        DoxygenDescription(buffer, next.at, limit, next.spans)
  }

  /** The markup span of a Doxygen tag, and then what the tag stands for. */
  function DoxygenTagged(buffer: string, slash: nat, limit: nat, info: DoxygenTagInfo, spans: seq<Span>): (r: Scan)
    requires slash + |info.name| + 1 <= limit && Stops(buffer, limit)
    ensures slash + |info.name| + 1 <= r.at <= limit
    decreases limit - slash, 0
  {
    DoxygenTagContent(buffer, slash, limit, info, spans + [Span(slash, slash + |info.name| + 1, Markup)])
  }

  function DoxygenTagContent(buffer: string, slash: nat, limit: nat, info: DoxygenTagInfo, spans: seq<Span>): (r: Scan)
    requires slash + |info.name| + 1 <= limit && Stops(buffer, limit)
    ensures slash + |info.name| + 1 <= r.at <= limit
    decreases limit - slash - 1, 2
  {
    var start := slash + |info.name| + 1;
    if info.block.Some? then
      var inside := DoxygenDescription(buffer, start, limit, spans);
      Scan(inside.at, inside.spans + [Block(inside.spans, start, inside.at, info.block.value)])
    else if info.tag.BriefTag? then
      var inside := DoxygenDescription(buffer, start, limit, spans);
      Scan(inside.at, inside.spans + [Span(start, inside.at, Brief)])
    else if info.tag.CTag? then
      var end := WordEnd(buffer, start, limit);
      Scan(end, spans + [Span(start, end, CodeRef)])
    else Scan(start, spans)
  }

  /** A Javadoc tag and what it stands for, or an `@` that stands for itself. */
  function JavadocAt(text: string, at: nat, spans: seq<Span>): (r: Scan)
    requires at < |text|
    ensures at < r.at <= |text|
  {
    var tag := TagAt(JavadocNames(), text, at);
    if tag.None? then Scan(at + 1, spans)
    else
      var info := JavadocTags()[tag.value];
      JavadocTagContent(text, at, |text|, info, spans + [Span(at, at + |info.name| + 1, Markup)])
  }

  function DoxygenAt(text: string, at: nat, spans: seq<Span>): (r: Scan)
    requires at < |text|
    ensures at < r.at <= |text|
  {
    var tag := TagAt(DoxygenNames(), text, at);
    if tag.None? then Scan(at + 1, spans)
    else DoxygenTagged(text, at, |text|, DoxygenTags()[tag.value], spans)
  }

  /** Whether only blanks have been seen on the line after this character. */
  predicate StartsLine(c: char, lineStart: bool) { c == '\n' || (lineStart && IsBlank(c)) }

  /** The whole comment from `at` on.  The character behind a brace block is passed over. */
  function Comment(text: string, at: nat, lineStart: bool, spans: seq<Span>): seq<Span>
    decreases |text| - at
  {
    if at >= |text| then spans
    else
      var c := text[at];
      if c == '{' then
        var block := Brace(text, at, |text|, spans);
        Comment(text, block.at + 1, lineStart, block.spans)
      else if c == '@' && lineStart then
        var next := JavadocAt(text, at, spans);
        Comment(text, next.at, lineStart, next.spans)
      else if c == '\\' then
        var next := DoxygenAt(text, at, spans);
        Comment(text, next.at, lineStart, next.spans)
      else Comment(text, at + 1, StartsLine(c, lineStart), spans)
  }

  lemma {:induction false} CommentStep(text: string, at: nat, lineStart: bool, spans: seq<Span>)
    requires at < |text|
    ensures
      var c, here := text[at], Comment(text, at, lineStart, spans);
      var block, javadoc := Brace(text, at, |text|, spans), JavadocAt(text, at, spans);
      var doxygen := DoxygenAt(text, at, spans);
      && (c == '{' ==> here == Comment(text, block.at + 1, lineStart, block.spans))
      && (c == '@' && lineStart ==> here == Comment(text, javadoc.at, lineStart, javadoc.spans))
      && (c == '\\' ==> here == Comment(text, doxygen.at, lineStart, doxygen.spans))
      && (c != '{' && c != '\\' && !(c == '@' && lineStart) ==>
            here == Comment(text, at + 1, StartsLine(c, lineStart), spans))
  {
    hide Brace, JavadocAt, DoxygenAt, StartsLine;
  }

  // ----------------------------------------------------- what each span stands for

  /** A listed Javadoc tag from its `@` at `d` to the end of its name at `e`. */
  ghost predicate JavadocTagText(buffer: string, d: nat, e: nat, info: JavadocTagInfo) {
    && d + 1 < e <= |buffer| && buffer[d] == '@' && info in JavadocTags() && buffer[d + 1..e] == info.name
    && (forall j | d < j < e :: IsLetter(buffer[j])) && (e < |buffer| ==> !IsLetter(buffer[e]))
  }

  ghost predicate DoxygenTagText(buffer: string, d: nat, e: nat, info: DoxygenTagInfo) {
    && d + 1 < e <= |buffer| && buffer[d] == '\\' && info in DoxygenTags() && buffer[d + 1..e] == info.name
    && (forall j | d < j < e :: IsLetter(buffer[j])) && (e < |buffer| ==> !IsLetter(buffer[e]))
  }

  /** The opening of a brace block: a brace, spaces and a tag. */
  ghost predicate OpeningText(buffer: string, b: nat, d: nat, e: nat, info: JavadocTagInfo) {
    && b < d && JavadocTagText(buffer, d, e, info)
    && buffer[b] == '{' && forall j | b < j < d :: buffer[j] == ' '
  }

  /** The brace at `c` closes the brace block that opens at `b`. */
  ghost predicate ClosingText(buffer: string, b: nat, d: nat, e: nat, info: JavadocTagInfo, limit: nat, c: nat) {
    OpeningText(buffer, b, d, e, info) && limit <= |buffer| && CloseOf(buffer, e, limit, 1) == Some(c)
  }

  /** Markup is a tag, the opening of a brace block or the brace that closes one. */
  ghost predicate IsMarkup(buffer: string, b: nat, e: nat) {
    || (e == b + 1 && exists o, d, start, info, limit :: ClosingText(buffer, o, d, start, info, limit, b))
    || (exists info :: JavadocTagText(buffer, b, e, info))
    || (exists info :: DoxygenTagText(buffer, b, e, info))
    || (exists d, info :: OpeningText(buffer, b, d, e, info))
  }

  ghost predicate JavadocMeans(info: JavadocTagInfo, s: Semantic) {
    match s
    case TagBlock(id, _) => BlockOf(info) == Some(id)
    case CodeRef => info.tag.CodeTag?
    case _ => false
  }

  ghost predicate DoxygenMeans(info: DoxygenTagInfo, s: Semantic) {
    match s
    case TagBlock(id, _) => info.block == Some(id)
    case Brief => info.tag.BriefTag?
    case CodeRef => info.tag.CTag?
    case _ => false
  }

  /** Markup is written in the text; every other span follows a tag that stands for it. */
  ghost predicate Justified(buffer: string, s: Span) {
    if s.semantic.Markup? then IsMarkup(buffer, s.begin, s.end)
    else
      || (exists d, info :: JavadocTagText(buffer, d, s.begin, info) && JavadocMeans(info, s.semantic))
      || (exists d, info :: DoxygenTagText(buffer, d, s.begin, info) && DoxygenMeans(info, s.semantic))
  }

  // ------------------------------------------------------------- spans of a region

  /** The spans added lie between `lo` and `hi`, are nested or apart, numbered and justified. */
  ghost predicate Grew(buffer: string, before: seq<Span>, after: seq<Span>, lo: nat, hi: nat) {
    && before <= after && (Numbered(before) ==> Numbered(after))
    && Within(after[|before|..], lo, hi) && Laminar(after[|before|..])
    && (forall i | |before| <= i < |after| :: Justified(buffer, after[i]))
  }

  lemma {:induction false} GrewNothing(buffer: string, s: seq<Span>, lo: nat, hi: nat)
    ensures Grew(buffer, s, s, lo, hi)
  {
  }

  lemma {:induction false} GrewWider(buffer: string, a: seq<Span>, b: seq<Span>, lo: nat, hi: nat, lo': nat, hi': nat)
    requires Grew(buffer, a, b, lo, hi) && lo' <= lo && hi <= hi'
    ensures Grew(buffer, a, b, lo', hi')
  {
    hide Justified, Numbered, Nested;
  }

  /** Regions one after the other. */
  lemma {:induction false} GrewThen(
    buffer: string, a: seq<Span>, b: seq<Span>, c: seq<Span>, lo: nat, mid: nat, hi: nat)
    requires Grew(buffer, a, b, lo, mid) && Grew(buffer, b, c, mid, hi) && lo <= mid <= hi
    ensures Grew(buffer, a, c, lo, hi)
  {
    hide Justified, Numbered;
    var x, y, z := b[|a|..], c[|b|..], c[|a|..];
    assert z == x + y;
    forall i, j | 0 <= i < j < |z| ensures Nested(z[i], z[j]) {
      if j < |x| { assert Nested(x[i], x[j]); } else if i >= |x| { assert Nested(y[i - |x|], y[j - |x|]); }
    }
  }

  /** A span around a whole region. */
  lemma {:induction false} GrewAround(buffer: string, a: seq<Span>, b: seq<Span>, s: Span)
    requires Grew(buffer, a, b, s.begin, s.end) && s.begin <= s.end && Justified(buffer, s)
    requires s.semantic.TagBlock? ==> s.semantic.ordinal == Blocks(b, s.semantic.id)
    ensures Grew(buffer, a, b + [s], s.begin, s.end)
  {
    if Numbered(b) { NumberedAppend(b, s); }
    hide Justified, Numbered;
    assert (b + [s])[|a|..] == b[|a|..] + [s];
  }

  lemma {:induction false} GrewOne(buffer: string, a: seq<Span>, s: Span)
    requires s.begin <= s.end && Justified(buffer, s)
    requires s.semantic.TagBlock? ==> s.semantic.ordinal == Blocks(a, s.semantic.id)
    ensures Grew(buffer, a, a + [s], s.begin, s.end)
  {
    GrewNothing(buffer, a, s.begin, s.end);
    GrewAround(buffer, a, a, s);
  }

  /** A brace block: its opening and closing markup, and the spans between. */
  lemma {:induction false} GrewBrace(buffer: string, a: seq<Span>, b: seq<Span>, open: Span, close: Span)
    requires open.begin <= open.end <= close.begin <= close.end && open.semantic.Markup? && close.semantic.Markup?
    requires Justified(buffer, open) && Justified(buffer, close)
    requires Grew(buffer, a + [open] + [close], b, open.end, close.begin)
    ensures Grew(buffer, a, b, open.begin, close.end)
  {
    if Numbered(a) {
      NumberedAppend(a, open);
      NumberedAppend(a + [open], close);
    }
    hide Justified, Numbered;
    var c := a + [open] + [close];
    var x, z := b[|c|..], b[|a|..];
    assert z == [open] + ([close] + x);
    BraceLaminar(open, close, x);
    hide Laminar, Within;
    forall i | |a| <= i < |b| ensures Justified(buffer, b[i]) {
      if i < |c| { assert b[i] == c[i]; }
    }
  }

  lemma {:induction false} BraceLaminar(open: Span, close: Span, x: seq<Span>)
    requires open.begin <= open.end <= close.begin <= close.end && Laminar(x) && Within(x, open.end, close.begin)
    ensures Laminar([open] + ([close] + x)) && Within([open] + ([close] + x), open.begin, close.end)
  {
    assert Within([close] + x, open.end, close.end);
    LaminarWith(close, x);
    LaminarWith(open, [close] + x);
  }

  lemma {:induction false} LaminarWith(s: Span, rest: seq<Span>)
    requires Laminar(rest) && forall t | t in rest :: Nested(s, t)
    ensures Laminar([s] + rest)
  {
    hide Nested;
    forall i, j | 0 <= i < j < |[s] + rest| ensures Nested(([s] + rest)[i], ([s] + rest)[j]) {
      if i == 0 { assert rest[j - 1] in rest; } else { assert Nested(rest[i - 1], rest[j - 1]); }
    }
  }

  // ------------------------------------------------ every comment has spans that nest

  lemma {:induction false} TagTextAt(buffer: string, d: nat, tag: nat)
    requires TagAt(JavadocNames(), buffer, d) == Some(tag) && buffer[d] == '@'
    ensures JavadocTagText(buffer, d, d + |JavadocTags()[tag].name| + 1, JavadocTags()[tag])
  {
    hide JavadocTags, DoxygenTags;
    LettersAreAll(buffer, d + 1);
    var word := LettersFrom(buffer, d + 1);
    assert forall j | d < j <= d + |word| :: buffer[j] == word[j - d - 1];
  }

  lemma {:induction false} SlashTextAt(buffer: string, d: nat, tag: nat)
    requires TagAt(DoxygenNames(), buffer, d) == Some(tag) && buffer[d] == '\\'
    ensures DoxygenTagText(buffer, d, d + |DoxygenTags()[tag].name| + 1, DoxygenTags()[tag])
  {
    hide JavadocTags, DoxygenTags;
    LettersAreAll(buffer, d + 1);
    var word := LettersFrom(buffer, d + 1);
    assert forall j | d < j <= d + |word| :: buffer[j] == word[j - d - 1];
  }

  lemma {:induction false} LettersAreAll(buffer: string, i: nat)
    requires i <= |buffer|
    ensures var e := i + |LettersFrom(buffer, i)|; e < |buffer| ==> !IsLetter(buffer[e])
    decreases |buffer| - i
  {
    if i < |buffer| && IsLetter(buffer[i]) { LettersAreAll(buffer, i + 1); }
  }

  lemma {:induction false} BraceGrows(buffer: string, open: nat, limit: nat, spans: seq<Span>)
    requires open < limit <= |buffer| && buffer[open] == '{'
    ensures var r := Brace(buffer, open, limit, spans); Grew(buffer, spans, r.spans, open, r.at)
    decreases limit - open, 0
  {
    hide JavadocTags, DoxygenTags, TagAt, Grew, Justified, LettersFrom;
    GrewNothing(buffer, spans, open, open + 1);
    var at := BraceTag(buffer, open + 1, limit);
    if at.Some? && TagAt(JavadocNames(), buffer, at.value).Some? {
      var tag := TagAt(JavadocNames(), buffer, at.value).value;
      var info := JavadocTags()[tag];
      var start := at.value + |info.name| + 1;
      var close := CloseOf(buffer, start, limit, 1);
      if close.Some? {
        TagTextAt(buffer, at.value, tag);
        var opening, closing := Span(open, start, Markup), Span(close.value, close.value + 1, Markup);
        BraceIsMarkup(buffer, open, at.value, limit, close.value, info);
        JavadocContentGrows(buffer, at.value, close.value, info, spans + [opening] + [closing]);
        hide Brace, JavadocTagContent;
        var r := JavadocTagContent(buffer, at.value, close.value, info, spans + [opening] + [closing]);
        GrewWider(buffer, spans + [opening] + [closing], r.spans, start, r.at, start, close.value);
        GrewBrace(buffer, spans, r.spans, opening, closing);
      }
    }
  }

  lemma {:induction false} BraceIsMarkup(
    buffer: string, open: nat, at: nat, limit: nat, close: nat, info: JavadocTagInfo)
    requires open < at && JavadocTagText(buffer, at, at + |info.name| + 1, info)
    requires buffer[open] == '{' && forall j | open < j < at :: buffer[j] == ' '
    requires limit <= |buffer| && CloseOf(buffer, at + |info.name| + 1, limit, 1) == Some(close)
    ensures Justified(buffer, Span(open, at + |info.name| + 1, Markup))
      && Justified(buffer, Span(close, close + 1, Markup))
  {
    hide JavadocTags, DoxygenTags, CloseOf;
    assert OpeningText(buffer, open, at, at + |info.name| + 1, info);
    assert ClosingText(buffer, open, at, at + |info.name| + 1, info, limit, close);
  }

  lemma {:induction false} JavadocContentGrows(
    buffer: string, at: nat, limit: nat, info: JavadocTagInfo, spans: seq<Span>)
    requires at + |info.name| + 1 <= limit <= |buffer| && JavadocTagText(buffer, at, at + |info.name| + 1, info)
    ensures var r := JavadocTagContent(buffer, at, limit, info, spans);
      Grew(buffer, spans, r.spans, at + |info.name| + 1, r.at)
    decreases limit - at, 0
  {
    hide JavadocTags, DoxygenTags, TagAt, Grew, JavadocTagText;
    var start := at + |info.name| + 1;
    if BlockOf(info).Some? {
      JavadocDescriptionGrows(buffer, start, limit, spans);
      var inside := JavadocDescription(buffer, start, limit, spans);
      var block := Block(inside.spans, start, inside.at, BlockOf(info).value);
      assert JavadocMeans(info, block.semantic);
      assert Justified(buffer, block);
      GrewAround(buffer, spans, inside.spans, block);
    } else if info.tag.CodeTag? {
      assert JavadocMeans(info, CodeRef);
      assert Justified(buffer, Span(start, limit, CodeRef));
      GrewOne(buffer, spans, Span(start, limit, CodeRef));
    } else {
      GrewNothing(buffer, spans, start, start);
    }
  }

  lemma {:induction false} JavadocDescriptionGrows(buffer: string, at: nat, limit: nat, spans: seq<Span>)
    requires at <= limit <= |buffer|
    ensures var r := JavadocDescription(buffer, at, limit, spans); Grew(buffer, spans, r.spans, at, r.at)
    decreases limit - at, 1
  {
    hide JavadocTags, DoxygenTags, TagAt, Grew, Brace;
    GrewNothing(buffer, spans, at, at);
    if at < limit && buffer[at] == '{' {
      BraceGrows(buffer, at, limit, spans);
      var block := Brace(buffer, at, limit, spans);
      JavadocDescriptionGrows(buffer, block.at, limit, block.spans);
      var r := JavadocDescription(buffer, block.at, limit, block.spans);
      GrewThen(buffer, spans, block.spans, r.spans, at, block.at, r.at);
    } else if at < limit && buffer[at] != '@' {
      JavadocDescriptionGrows(buffer, at + 1, limit, spans);
      var r := JavadocDescription(buffer, at + 1, limit, spans);
      GrewWider(buffer, spans, r.spans, at + 1, r.at, at, r.at);
    }
  }

  lemma {:induction false} DoxygenDescriptionGrows(buffer: string, at: nat, limit: nat, spans: seq<Span>)
    requires at <= limit && Stops(buffer, limit)
    ensures var r := DoxygenDescription(buffer, at, limit, spans); Grew(buffer, spans, r.spans, at, r.at)
    decreases limit - at, 1
  {
    hide JavadocTags, DoxygenTags, TagAt, Grew, Brace, DoxygenTagged, BlankLine, DoxygenTagText;
    GrewNothing(buffer, spans, at, at);
    if at == limit {
    } else if buffer[at] == '{' {
      BraceGrows(buffer, at, limit, spans);
      var block := Brace(buffer, at, limit, spans);
      DoxygenDescriptionGrows(buffer, block.at, limit, block.spans);
      var r := DoxygenDescription(buffer, block.at, limit, block.spans);
      GrewThen(buffer, spans, block.spans, r.spans, at, block.at, r.at);
    } else if buffer[at] == '\n' && BlankLine(buffer, at + 1, limit) {
    } else {
      var tag := if buffer[at] == '\\' then TagAt(DoxygenNames(), buffer, at) else None;
      if tag.None? {
        DoxygenDescriptionGrows(buffer, at + 1, limit, spans);
        var r := DoxygenDescription(buffer, at + 1, limit, spans);
        GrewWider(buffer, spans, r.spans, at + 1, r.at, at, r.at);
      } else if !DoxygenTags()[tag.value].beginsSection {
        NameStops(buffer, at, limit);
        var info := DoxygenTags()[tag.value];
        SlashTextAt(buffer, at, tag.value);
        DoxygenTaggedGrows(buffer, at, limit, info, spans);
        var next := DoxygenTagged(buffer, at, limit, info, spans);
        DoxygenDescriptionGrows(buffer, next.at, limit, next.spans);
        var r := DoxygenDescription(buffer, next.at, limit, next.spans);
        GrewThen(buffer, spans, next.spans, r.spans, at, next.at, r.at);
      }
    }
  }

  lemma {:induction false} DoxygenTaggedGrows(
    buffer: string, slash: nat, limit: nat, info: DoxygenTagInfo, spans: seq<Span>)
    requires slash + |info.name| + 1 <= limit && Stops(buffer, limit)
      && DoxygenTagText(buffer, slash, slash + |info.name| + 1, info)
    ensures var r := DoxygenTagged(buffer, slash, limit, info, spans); Grew(buffer, spans, r.spans, slash, r.at)
    decreases limit - slash, 0
  {
    hide JavadocTags, DoxygenTags, TagAt, Grew, DoxygenTagText, DoxygenTagContent;
    var start := slash + |info.name| + 1;
    var markup := Span(slash, start, Markup);
    assert IsMarkup(buffer, slash, start);
    GrewOne(buffer, spans, markup);
    DoxygenContentGrows(buffer, slash, limit, info, spans + [markup]);
    var r := DoxygenTagContent(buffer, slash, limit, info, spans + [markup]);
    GrewThen(buffer, spans, spans + [markup], r.spans, slash, start, r.at);
  }

  lemma {:induction false} DoxygenContentGrows(
    buffer: string, slash: nat, limit: nat, info: DoxygenTagInfo, spans: seq<Span>)
    requires slash + |info.name| + 1 <= limit && Stops(buffer, limit)
      && DoxygenTagText(buffer, slash, slash + |info.name| + 1, info)
    ensures var r := DoxygenTagContent(buffer, slash, limit, info, spans);
      Grew(buffer, spans, r.spans, slash + |info.name| + 1, r.at)
    decreases limit - slash - 1, 2
  {
    hide JavadocTags, DoxygenTags, TagAt, Grew, DoxygenTagText;
    var start := slash + |info.name| + 1;
    if info.block.Some? || info.tag.BriefTag? {
      DoxygenDescriptionGrows(buffer, start, limit, spans);
      var inside := DoxygenDescription(buffer, start, limit, spans);
      var s :=
        if info.block.Some? then Block(inside.spans, start, inside.at, info.block.value)
        else Span(start, inside.at, Brief);
      assert DoxygenMeans(info, s.semantic);
      assert Justified(buffer, s);
      GrewAround(buffer, spans, inside.spans, s);
    } else if info.tag.CTag? {
      var s := Span(start, WordEnd(buffer, start, limit), CodeRef);
      assert DoxygenMeans(info, s.semantic);
      assert Justified(buffer, s);
      GrewOne(buffer, spans, s);
    } else {
      GrewNothing(buffer, spans, start, start);
    }
  }

  /** For every text the spans are in range, nested or apart, numbered and justified. */
  lemma {:induction false} CommentGrows(text: string, at: nat, lineStart: bool, spans: seq<Span>)
    ensures Grew(text, spans, Comment(text, at, lineStart, spans), Min(at, |text|), |text|)
    decreases |text| - at, 1
  {
    hide Grew, Brace, JavadocAt, DoxygenAt;
    if at >= |text| {
      GrewNothing(text, spans, |text|, |text|);
    } else if text[at] == '{' {
      BraceGrows(text, at, |text|, spans);
      var block := Brace(text, at, |text|, spans);
      CommentThen(text, at, block, block.at + 1, lineStart, spans);
    } else if text[at] == '@' && lineStart {
      JavadocAtGrows(text, at, spans);
      CommentThen(text, at, JavadocAt(text, at, spans), JavadocAt(text, at, spans).at, lineStart, spans);
    } else if text[at] == '\\' {
      DoxygenAtGrows(text, at, spans);
      CommentThen(text, at, DoxygenAt(text, at, spans), DoxygenAt(text, at, spans).at, lineStart, spans);
    } else {
      var start := StartsLine(text[at], lineStart);
      CommentGrows(text, at + 1, start, spans);
      GrewWider(text, spans, Comment(text, at + 1, start, spans), Min(at + 1, |text|), |text|, at, |text|);
    }
  }

  lemma {:induction false} CommentThen(text: string, at: nat, done: Scan, next: nat, lineStart: bool, spans: seq<Span>)
    requires at < done.at <= |text| && done.at <= next && Grew(text, spans, done.spans, at, done.at)
    ensures Grew(text, spans, Comment(text, next, lineStart, done.spans), at, |text|)
    decreases |text| - at, 0
  {
    hide Grew;
    CommentGrows(text, next, lineStart, done.spans);
    var after := Comment(text, next, lineStart, done.spans);
    GrewWider(text, done.spans, after, Min(next, |text|), |text|, done.at, |text|);
    GrewThen(text, spans, done.spans, after, at, done.at, |text|);
  }

  lemma {:induction false} JavadocAtGrows(text: string, at: nat, spans: seq<Span>)
    requires at < |text| && text[at] == '@'
    ensures Grew(text, spans, JavadocAt(text, at, spans).spans, at, JavadocAt(text, at, spans).at)
  {
    hide JavadocTags, DoxygenTags, Grew, TagAt, JavadocTagText, JavadocTagContent;
    var tag := TagAt(JavadocNames(), text, at);
    if tag.None? {
      GrewNothing(text, spans, at, at + 1);
    } else {
      var info := JavadocTags()[tag.value];
      var start := at + |info.name| + 1;
      var markup := Span(at, start, Markup);
      TagTextAt(text, at, tag.value);
      assert IsMarkup(text, at, start);
      GrewOne(text, spans, markup);
      JavadocContentGrows(text, at, |text|, info, spans + [markup]);
      var r := JavadocTagContent(text, at, |text|, info, spans + [markup]);
      GrewThen(text, spans, spans + [markup], r.spans, at, start, r.at);
    }
  }

  lemma {:induction false} DoxygenAtGrows(text: string, at: nat, spans: seq<Span>)
    requires at < |text| && text[at] == '\\'
    ensures Grew(text, spans, DoxygenAt(text, at, spans).spans, at, DoxygenAt(text, at, spans).at)
  {
    hide JavadocTags, DoxygenTags, Grew, TagAt, DoxygenTagText, DoxygenTagged;
    var tag := TagAt(DoxygenNames(), text, at);
    if tag.None? {
      GrewNothing(text, spans, at, at + 1);
    } else {
      SlashTextAt(text, at, tag.value);
      DoxygenTaggedGrows(text, at, |text|, DoxygenTags()[tag.value], spans);
    }
  }

  // --------------------------------------------------------- no tag is passed over

  /** The state of the scan at a position. */
  datatype Place = Place(at: nat, lineStart: bool, spans: seq<Span>)

  /** Where the scan goes next. */
  function After(text: string, p: Place): (r: Place)
    requires p.at < |text|
    ensures r.at > p.at
  {
    var c := text[p.at];
    if c == '{' then
      var block := Brace(text, p.at, |text|, p.spans);
      Place(block.at + 1, p.lineStart, block.spans)
    else if c == '@' && p.lineStart then
      var next := JavadocAt(text, p.at, p.spans);
      Place(next.at, p.lineStart, next.spans)
    else if c == '\\' then
      var next := DoxygenAt(text, p.at, p.spans);
      Place(next.at, p.lineStart, next.spans)
    else Place(p.at + 1, StartsLine(c, p.lineStart), p.spans)
  }

  /** The scan from `p` comes to `q`. */
  ghost predicate Visits(text: string, p: Place, q: Place)
    decreases |text| - p.at
  {
    p == q || (p.at < |text| && Visits(text, After(text, p), q))
  }

  /** What the scan makes of a comment it makes from any place it comes to. */
  lemma {:induction false} VisitedComment(text: string, p: Place, q: Place)
    requires Visits(text, p, q)
    ensures Comment(text, p.at, p.lineStart, p.spans) == Comment(text, q.at, q.lineStart, q.spans)
    decreases |text| - p.at
  {
    if p != q {
      hide Comment, After;
      CommentAfter(text, p);
      VisitedComment(text, After(text, p), q);
    }
  }

  lemma {:induction false} CommentAfter(text: string, p: Place)
    requires p.at < |text|
    ensures var r := After(text, p);
      Comment(text, p.at, p.lineStart, p.spans) == Comment(text, r.at, r.lineStart, r.spans)
  {
    hide Comment, Brace, JavadocAt, DoxygenAt, StartsLine;
    CommentStep(text, p.at, p.lineStart, p.spans);
  }

  /** The spans that the construct at a place adds stay. */
  lemma {:induction false} StaysMarked(text: string, q: Place, s: Span)
    requires q.at < |text| && s in After(text, q).spans
    ensures s in Comment(text, q.at, q.lineStart, q.spans)
  {
    hide *;
    var r := After(text, q);
    CommentGrows(text, r.at, r.lineStart, r.spans);
    GrewKeeps(text, r.spans, Comment(text, r.at, r.lineStart, r.spans), s);
    CommentAfter(text, q);
  }

  /** Every listed Javadoc tag at a line start that the scan comes to is marked. */
  lemma {:induction false} JavadocTagIsMarked(text: string, q: Place)
    requires Visits(text, Place(0, true, []), q) && q.at < |text| && text[q.at] == '@' && q.lineStart
    requires TagAt(JavadocNames(), text, q.at).Some?
    ensures var e := q.at + |JavadocTags()[TagAt(JavadocNames(), text, q.at).value].name| + 1;
      Span(q.at, e, Markup) in Comment(text, 0, true, [])
  {
    hide JavadocTags, DoxygenTags, TagAt, Comment, Grew, JavadocTagText;
    var tag := TagAt(JavadocNames(), text, q.at).value;
    var info := JavadocTags()[tag];
    var markup := Span(q.at, q.at + |info.name| + 1, Markup);
    TagTextAt(text, q.at, tag);
    JavadocContentGrows(text, q.at, |text|, info, q.spans + [markup]);
    GrewKeeps(text, q.spans + [markup], JavadocAt(text, q.at, q.spans).spans, markup);
    hide JavadocTagContent;
    StaysMarked(text, q, markup);
    VisitedComment(text, Place(0, true, []), q);
  }

  /** Every listed Doxygen tag that the scan comes to is marked. */
  lemma {:induction false} DoxygenTagIsMarked(text: string, q: Place)
    requires Visits(text, Place(0, true, []), q) && q.at < |text| && text[q.at] == '\\'
    requires TagAt(DoxygenNames(), text, q.at).Some?
    ensures var e := q.at + |DoxygenTags()[TagAt(DoxygenNames(), text, q.at).value].name| + 1;
      Span(q.at, e, Markup) in Comment(text, 0, true, [])
  {
    hide JavadocTags, DoxygenTags, TagAt, Comment, Grew, DoxygenTagText, DoxygenTagContent;
    var tag := TagAt(DoxygenNames(), text, q.at).value;
    var info := DoxygenTags()[tag];
    var markup := Span(q.at, q.at + |info.name| + 1, Markup);
    SlashTextAt(text, q.at, tag);
    DoxygenContentGrows(text, q.at, |text|, info, q.spans + [markup]);
    GrewKeeps(text, q.spans + [markup], DoxygenAt(text, q.at, q.spans).spans, markup);
    StaysMarked(text, q, markup);
    VisitedComment(text, Place(0, true, []), q);
  }

  lemma {:induction false} GrewKeeps(buffer: string, before: seq<Span>, after: seq<Span>, s: Span)
    requires s in before && exists lo, hi :: Grew(buffer, before, after, lo, hi)
    ensures s in after
  {
    var lo, hi :| Grew(buffer, before, after, lo, hi);
    var i :| 0 <= i < |before| && before[i] == s;
    assert after[i] == s;
  }

  /** Every brace block that the scan comes to is marked at both ends. */
  lemma {:induction false} BraceIsMarked(text: string, q: Place, d: nat, c: nat)
    requires Visits(text, Place(0, true, []), q) && q.at < |text| && text[q.at] == '{'
    requires BraceTag(text, q.at + 1, |text|) == Some(d) && TagAt(JavadocNames(), text, d).Some?
    requires var start := d + |JavadocTags()[TagAt(JavadocNames(), text, d).value].name| + 1;
      CloseOf(text, start, |text|, 1) == Some(c)
    ensures var start := d + |JavadocTags()[TagAt(JavadocNames(), text, d).value].name| + 1;
      && Span(q.at, start, Markup) in Comment(text, 0, true, [])
      && Span(c, c + 1, Markup) in Comment(text, 0, true, [])
  {
    hide JavadocTags, DoxygenTags, TagAt, Comment, CloseOf, BraceTag, Brace, Visits;
    var start := d + |JavadocTags()[TagAt(JavadocNames(), text, d).value].name| + 1;
    BraceMarks(text, q.at, q.spans, d, c);
    StaysMarked(text, q, Span(q.at, start, Markup));
    StaysMarked(text, q, Span(c, c + 1, Markup));
    VisitedComment(text, Place(0, true, []), q);
  }

  lemma {:induction false} BraceMarks(text: string, open: nat, spans: seq<Span>, d: nat, c: nat)
    requires open < |text| && text[open] == '{'
    requires BraceTag(text, open + 1, |text|) == Some(d) && TagAt(JavadocNames(), text, d).Some?
    requires var start := d + |JavadocTags()[TagAt(JavadocNames(), text, d).value].name| + 1;
      CloseOf(text, start, |text|, 1) == Some(c)
    ensures var start := d + |JavadocTags()[TagAt(JavadocNames(), text, d).value].name| + 1;
      && Span(open, start, Markup) in Brace(text, open, |text|, spans).spans
      && Span(c, c + 1, Markup) in Brace(text, open, |text|, spans).spans
  {
    hide JavadocTags, DoxygenTags, TagAt, Grew, JavadocTagText, CloseOf, BraceTag;
    var tag := TagAt(JavadocNames(), text, d).value;
    var info := JavadocTags()[tag];
    var opening, closing := Span(open, d + |info.name| + 1, Markup), Span(c, c + 1, Markup);
    var marked := spans + [opening] + [closing];
    TagTextAt(text, d, tag);
    JavadocContentGrows(text, d, c, info, marked);
    var r := JavadocTagContent(text, d, c, info, marked);
    assert Brace(text, open, |text|, spans).spans == r.spans;
    hide Brace, JavadocTagContent;
    GrewKeeps(text, marked, r.spans, opening);
    GrewKeeps(text, marked, r.spans, closing);
  }
}
