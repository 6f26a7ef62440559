/** Kythe URIs: printing a VName as a URI and reading it back.  Percent-encoding follows
    sections 2.1 and 2.3 of RFC 3986.  The lexical clean-up of corpus paths is a
    parameter `clean`. */
module KytheUri {
  import opened Wrappers
  /** The characters of a `std::string`. */
  type Byte = c: char | c as int < 256 witness 'a'
  type Text = seq<Byte>

  datatype VName = VName(signature: Text, corpus: Text, root: Text, path: Text, language: Text)

  const NO_NAME: VName := VName([], [], [], [], [])

  datatype EscapeMode = EscapeAll | EscapePaths

  datatype Unescaped = Plain(text: Text) | BadEscape | BadHexDigit

  /** What parsing leaves behind; a failed parse keeps the attributes it had read. */
  datatype Parsed = Parsed(ok: bool, vname: VName)

  // ------------------------------------------------------------------------ escaping

  predicate ShouldEscape(mode: EscapeMode, c: Byte) {
    !(('a' <= c <= 'z') || ('A' <= c <= 'Z') || ('0' <= c <= '9') || c == '-' || c == '.' || c == '_' || c == '~'
      || (mode == EscapePaths && c == '/'))
  }

  function HexDigit(n: nat): Byte
    requires n < 16
  {
    if n < 10 then ('0' as int + n) as char else ('A' as int + n - 10) as char
  }

  function HexValue(c: Byte): (r: int)
    ensures -1 <= r < 16
  {
    if '0' <= c <= '9' then c as int - '0' as int
    else if 'a' <= c <= 'f' then 10 + (c as int - 'a' as int)
    else if 'A' <= c <= 'F' then 10 + (c as int - 'A' as int)
    else -1
  }

  function EscapeByte(mode: EscapeMode, c: Byte): (r: Text)
    ensures |r| == if ShouldEscape(mode, c) then 3 else 1
  {
    if ShouldEscape(mode, c) then ['%', HexDigit(c as int / 16), HexDigit(c as int % 16)] else [c]
  }

  function Escape(mode: EscapeMode, s: Text): Text {
    if |s| == 0 then [] else EscapeByte(mode, s[0]) + Escape(mode, s[1..])
  }

  function Escapes(mode: EscapeMode, s: Text): nat {
    if |s| == 0 then 0 else (if ShouldEscape(mode, s[0]) then 1 else 0) + Escapes(mode, s[1..])
  }

  lemma {:induction false} EscapesSoFar(mode: EscapeMode, s: Text, i: nat)
    requires i < |s|
    ensures Escapes(mode, s[..i + 1]) == Escapes(mode, s[..i]) + if ShouldEscape(mode, s[i]) then 1 else 0
    decreases i
  {
    if i > 0 {
      EscapesSoFar(mode, s[1..], i - 1);
      assert s[..i + 1][1..] == s[1..][..i] && s[..i][1..] == s[1..][..i - 1];
    } else {
      assert s[..1] == [s[0]] && [s[0]][1..] == [];
    }
  }

  lemma {:induction false} EscapeSoFar(mode: EscapeMode, s: Text, i: nat)
    requires i < |s|
    ensures Escape(mode, s[..i + 1]) == Escape(mode, s[..i]) + EscapeByte(mode, s[i])
    decreases i
  {
    if i > 0 {
      EscapeSoFar(mode, s[1..], i - 1);
      assert s[..i + 1][1..] == s[1..][..i] && s[..i][1..] == s[1..][..i - 1];
    } else {
      assert s[..1] == [s[0]] && [s[0]][1..] == [];
    }
  }

  method UriEscape(mode: EscapeMode, uri: Text) returns (result: Text)
    ensures result == Escape(mode, uri) && |result| == 2 * Escapes(mode, uri) + |uri|
  {
    var reserve := 0;
    for i := 0 to |uri|
      invariant reserve == Escapes(mode, uri[..i])
    {
      EscapesSoFar(mode, uri, i);
      if ShouldEscape(mode, uri[i]) { reserve := reserve + 1; }
    }
    reserve := 2 * reserve + |uri|;
    result := [];
    for i := 0 to |uri|
      invariant result == Escape(mode, uri[..i]) && |result| == 2 * Escapes(mode, uri[..i]) + i
    {
      EscapeSoFar(mode, uri, i);
      EscapesSoFar(mode, uri, i);
      var c := uri[i];
      if ShouldEscape(mode, c) {
        result := result + ['%'] + [HexDigit(c as int / 16)] + [HexDigit(c as int % 16)];
      } else {
        result := result + [c];
      }
    }
    assert uri[..|uri|] == uri;
    assert |result| == reserve;
  }

  // ---------------------------------------------------------------------- unescaping

  /** Some '%' is not followed by two characters. */
  predicate Truncated(s: Text) {
    if |s| == 0 then false
    else if s[0] == '%' then |s| < 3 || Truncated(s[3..])
    else Truncated(s[1..])
  }

  function Decode(s: Text): (r: Unescaped)
    requires !Truncated(s)
    ensures !r.BadEscape?
  {
    if |s| == 0 then Plain([])
    else if s[0] != '%' then Prepend(s[0], Decode(s[1..]))
    else if HexValue(s[1]) < 0 || HexValue(s[2]) < 0 then BadHexDigit
    else Prepend((HexValue(s[1]) * 16 + HexValue(s[2])) as char, Decode(s[3..]))
  }

  function Prepend(c: Byte, u: Unescaped): Unescaped {
    if u.Plain? then Plain([c] + u.text) else u
  }

  function Unescape(s: Text): Unescaped {
    if Truncated(s) then BadEscape else Decode(s)
  }

  /** Characters already decoded, put in front of what remains. */
  function PrependAll(done: Text, u: Unescaped): Unescaped {
    if u.Plain? then Plain(done + u.text) else u
  }

  /** First pass: is every escape complete? */
  method HasBadEscape(s: Text) returns (bad: bool)
    ensures bad == Truncated(s)
  {
    var i := 0;
    assert s[0..] == s;
    while i < |s|
      invariant 0 <= i <= |s| && Truncated(s[i..]) == Truncated(s)
    {
      if s[i] == '%' {
        if i + 3 > |s| { return true; }
        assert s[i..][3..] == s[i + 3..];
        i := i + 2;
      } else {
        assert s[i..][1..] == s[i + 1..];
      }
      i := i + 1;
    }
    return false;
  }

  lemma {:induction false} DecodeStep(s: Text, i: nat, done: Text)
    requires i < |s| && !Truncated(s[i..])
    ensures s[i] == '%' ==> i + 3 <= |s| && !Truncated(s[i + 3..])
    ensures s[i] == '%' && (HexValue(s[i + 1]) < 0 || HexValue(s[i + 2]) < 0) ==> Decode(s[i..]) == BadHexDigit
    ensures s[i] == '%' && HexValue(s[i + 1]) >= 0 && HexValue(s[i + 2]) >= 0 ==>
        PrependAll(done, Decode(s[i..]))
        == PrependAll(done + [(HexValue(s[i + 1]) * 16 + HexValue(s[i + 2])) as char], Decode(s[i + 3..]))
    ensures s[i] != '%' ==> !Truncated(s[i + 1..])
    ensures s[i] != '%' ==> PrependAll(done, Decode(s[i..])) == PrependAll(done + [s[i]], Decode(s[i + 1..]))
  {
    if s[i] == '%' {
      assert s[i..][3..] == s[i + 3..] && s[i..][1] == s[i + 1] && s[i..][2] == s[i + 2];
    } else {
      assert s[i..][1..] == s[i + 1..];
    }
  }

  method UriUnescape(s: Text) returns (r: Unescaped)
    ensures r == Unescape(s)
  {
    var bad := HasBadEscape(s);
    if bad { return BadEscape; }
    var result: Text := [];
    var i := 0;
    assert s[0..] == s;
    while i < |s|
      invariant 0 <= i <= |s| && !Truncated(s[i..])
      invariant PrependAll(result, Decode(s[i..])) == Unescape(s)
    {
      DecodeStep(s, i, result);
      hide Decode, Truncated, HexValue, Unescape;
      var c := s[i];
      if c != '%' {
        result := result + [c];
        i := i + 1;
        continue;
      }
      i := i + 1;
      var high := HexValue(s[i]);
      i := i + 1;
      var low := HexValue(s[i]);
      if high < 0 || low < 0 { return BadHexDigit; }
      result := result + [(high * 16 + low) as char];
      i := i + 1;
    }
    return Plain(result);
  }

  lemma {:induction false} HexRoundTrip(n: nat)
    requires n < 16
    ensures HexValue(HexDigit(n)) == n
  {
  }

  /** Reading an escaped byte gives the byte back and leaves the rest. */
  lemma {:induction false} UnescapeByte(mode: EscapeMode, c: Byte, rest: Text)
    ensures Truncated(EscapeByte(mode, c) + rest) == Truncated(rest)
    ensures !Truncated(rest) ==> Decode(EscapeByte(mode, c) + rest) == Prepend(c, Decode(rest))
  {
    var n := c as int;
    var e := EscapeByte(mode, c);
    if ShouldEscape(mode, c) {
      HexRoundTrip(n / 16);
      HexRoundTrip(n % 16);
      assert (e + rest)[3..] == rest;
    } else {
      assert (e + rest)[1..] == rest;
    }
  }

  /** Escaping loses nothing, in either mode, for every sequence of bytes. */
  lemma {:induction false} EscapeRoundTrip(mode: EscapeMode, s: Text)
    ensures Unescape(Escape(mode, s)) == Plain(s)
  {
    if |s| > 0 {
      EscapeRoundTrip(mode, s[1..]);
      UnescapeByte(mode, s[0], Escape(mode, s[1..]));
    }
  }

  /** What an escaped text is made of: nothing that the parser looks for. */
  lemma {:induction false} EscapedIsQuiet(mode: EscapeMode, s: Text)
    ensures forall c | c in Escape(mode, s) :: c == '%' || !ShouldEscape(mode, c)
    ensures Escape(mode, s) == [] <==> s == []
  {
    if |s| > 0 {
      EscapedIsQuiet(mode, s[1..]);
      HexDigitIsQuiet(s[0] as int / 16);
      HexDigitIsQuiet(s[0] as int % 16);
    }
  }

  lemma {:induction false} HexDigitIsQuiet(n: nat)
    requires n < 16
    ensures !ShouldEscape(EscapeAll, HexDigit(n)) && !ShouldEscape(EscapePaths, HexDigit(n))
  {
  }

  // ----------------------------------------------------------------------- splitting

  function Find(s: Text, c: Byte): (k: nat)
    ensures k <= |s| && (k < |s| ==> s[k] == c) && c !in s[..k]
  {
    if |s| == 0 || s[0] == c then 0
    else
      var k := 1 + Find(s[1..], c);
      assert s[..k] == [s[0]] + s[1..][..k - 1];
      k
  }

  /** The text before and after the first `c`; all of it and nothing if there is none. */
  function Split(s: Text, c: Byte): (Text, Text) {
    var k := Find(s, c);
    if k < |s| then (s[..k], s[k + 1..]) else (s, [])
  }

  lemma {:induction false} SplitAt(a: Text, c: Byte, b: Text)
    requires c !in a
    ensures Split(a + [c] + b, c) == (a, b)
  {
    var s := a + [c] + b;
    var k := Find(s, c);
    assert forall j | 0 <= j < |a| :: s[j] == a[j];
    assert s[|a|] == c;
    forall m | |a| < m <= |s| ensures c in s[..m] { assert s[..m][|a|] == c; }
    assert s[..|a|] == a && s[|a| + 1..] == b;
  }

  lemma {:induction false} SplitNowhere(a: Text, c: Byte)
    requires c !in a
    ensures Split(a, c) == (a, [])
  {
  }

  predicate IsLetter(c: Byte) { ('a' <= c <= 'z') || ('A' <= c <= 'Z') }

  /** A ':' after letters only. */
  ghost predicate EndsScheme(uri: Text, k: nat) {
    k < |uri| && uri[k] == ':' && forall j | 0 <= j < k :: IsLetter(uri[j])
  }

  /** The length of the scheme, 0 if there is none; the letters before `i` have been seen. */
  function SchemeLength(uri: Text, i: nat): (k: nat)
    requires i <= |uri| && forall j | 0 <= j < i :: IsLetter(uri[j])
    ensures k <= |uri|
    ensures if k > 0 then EndsScheme(uri, k) else forall j | 0 < j :: !EndsScheme(uri, j)
    decreases |uri| - i
  {
    if i == |uri| then assert forall j | 0 <= j < |uri| :: IsLetter(uri[j]) && uri[j] != ':'; 0
    else if uri[i] == ':' then assert !IsLetter(uri[i]); i
    else if IsLetter(uri[i]) then SchemeLength(uri, i + 1)
    else assert !IsLetter(uri[i]) && forall j | 0 <= j < i :: IsLetter(uri[j]) && uri[j] != ':'; 0
  }

  lemma {:induction false} SchemeEndsOnce(uri: Text, k: nat)
    requires 0 < k && EndsScheme(uri, k)
    ensures SchemeLength(uri, 0) == k
  {
    var n := SchemeLength(uri, 0);
    assert !IsLetter(uri[k]);
    assert n > 0 ==> !IsLetter(uri[n]);
  }

  method SplitScheme(uri: Text) returns (scheme: Text, tail: Text)
    ensures var k := SchemeLength(uri, 0); scheme == uri[..k] && tail == uri[k..]
  {
    var i := 0;
    while i != |uri|
      invariant 0 <= i <= |uri| && forall j | 0 <= j < i :: IsLetter(uri[j])
      invariant SchemeLength(uri, 0) == SchemeLength(uri, i)
    {
      var c := uri[i];
      if c == ':' {
        return uri[..i], uri[i..];
      } else if (i == 0 && (('0' <= c <= '9') || c == '+' || c == '-' || c == '.')) || !IsLetter(c) {
        break;
      }
      i := i + 1;
    }
    return [], uri;
  }

  // ------------------------------------------------------------------------- printing

  const SCHEME: Text := ['k', 'y', 't', 'h', 'e']
  const PREFIX: Text := ['k', 'y', 't', 'h', 'e', ':']
  const LANG: Text := ['l', 'a', 'n', 'g']
  const PATH: Text := ['p', 'a', 't', 'h']
  const ROOT: Text := ['r', 'o', 'o', 't']

  function Attribute(name: Text, mode: EscapeMode, value: Text): Text {
    if value == [] then [] else ['?'] + (name + ['='] + Escape(mode, value))
  }

  function Authority(corpus: Text): Text {
    if corpus == [] then [] else ['/', '/'] + Escape(EscapePaths, corpus)
  }

  function Fragment(signature: Text): Text {
    if signature == [] then [] else ['#'] + Escape(EscapeAll, signature)
  }

  function Attributes(v: VName): Text {
    Attribute(LANG, EscapeAll, v.language) + Attribute(PATH, EscapePaths, v.path) + Attribute(ROOT, EscapePaths, v.root)
  }

  function Print(v: VName): Text {
    PREFIX + Authority(v.corpus) + Attributes(v) + Fragment(v.signature)
  }

  // -------------------------------------------------------------------------- parsing

  /** Sets the named attribute; an unknown name or an empty value is refused. */
  function Assign(v: VName, name: Text, u: Unescaped): Option<VName> {
    if !u.Plain? || u.text == [] then None
    else if name == LANG then Some(v.(language := u.text))
    else if name == ROOT then Some(v.(root := u.text))
    else if name == PATH then Some(v.(path := u.text))
    else None
  }

  function ParseAttributes(v: VName, attrs: Text): Parsed
    decreases |attrs|
  {
    if attrs == [] then Parsed(true, v)
    else
      var (attr, rest) := Split(attrs, '?');
      var (name, value) := Split(attr, '=');
      var next := Assign(v, name, Unescape(value));
      if next.None? then Parsed(false, v) else ParseAttributes(next.value, rest)
  }

  /** The text after the scheme, if the scheme is ours or absent. */
  function AfterScheme(head: Text): Option<Text> {
    var k := SchemeLength(head, 0);
    if k == 0 then (if |head| > 0 && head[0] == ':' then None else Some(head))
    else if head[..k] != SCHEME then None
    else Some(head[k + 1..])
  }

  function ParseCorpus(clean: Text -> Text, head: Text): Option<Text> {
    if head == [] then Some([])
    else if !(['/', '/'] <= head) then None
    else
      var u := Unescape(head[2..]);
      if u.Plain? then Some(clean(u.text)) else None
  }

  /** Reading `s` over what `v` holds. */
  function Parse(clean: Text -> Text, v: VName, s: Text): Parsed {
    var (head, fragment) := Split(s, '#');
    var tail := AfterScheme(head);
    if tail.None? then Parsed(false, v)
    else
      var (authority, attrs) := Split(tail.value, '?');
      var corpus := ParseCorpus(clean, authority);
      var signature := Unescape(fragment);
      if corpus.None? || !signature.Plain? then Parsed(false, v)
      else
        var p := ParseAttributes(v, attrs);
        if p.ok then Parsed(true, p.vname.(signature := signature.text, corpus := corpus.value)) else p
  }

  // --------------------------------------------------------------------- the round trip

  ghost predicate Quiet(s: Text) { '#' !in s && '?' !in s && '=' !in s && ':' !in s }

  lemma {:induction false} EscapeIsQuiet(mode: EscapeMode, s: Text)
    ensures Quiet(Escape(mode, s)) && (Escape(mode, s) == [] <==> s == [])
  {
    EscapedIsQuiet(mode, s);
  }

  /** No attribute follows, or its '?' comes next. */
  ghost predicate IsQuery(s: Text) { s == [] || s[0] == '?' }

  function Query(s: Text): Text { if s == [] then [] else s[1..] }

  lemma {:induction false} SplitsQuery(authority: Text, attrs: Text)
    requires '?' !in authority && IsQuery(attrs)
    ensures Split(authority + attrs, '?') == (authority, Query(attrs))
  {
    if attrs == [] {
      assert authority + attrs == authority;
      SplitNowhere(authority, '?');
    } else {
      assert authority + attrs == authority + ['?'] + attrs[1..];
      SplitAt(authority, '?', attrs[1..]);
    }
  }

  lemma {:induction false} QueryOf(attr: Text, rest: Text)
    ensures Query(['?'] + attr + rest) == attr + rest
  {
  }

  lemma {:induction false} SplitsAttribute(name: Text, value: Text, rest: Text)
    requires Quiet(name) && Quiet(value) && IsQuery(rest)
    ensures Split(name + ['='] + value + rest, '?') == (name + ['='] + value, Query(rest))
    ensures Split(name + ['='] + value, '=') == (name, value)
  {
    var attr := name + ['='] + value;
    SplitsQuery(attr, rest);
    SplitAt(name, '=', value);
  }

  /** Reading a printed attribute sets it and goes on with the next. */
  lemma {:induction false} ReadsAttribute(v: VName, name: Text, mode: EscapeMode, value: Text, rest: Text)
    requires Quiet(name) && value != [] && IsQuery(rest)
    ensures
      var next := Assign(v, name, Plain(value));
      ParseAttributes(v, Query(Attribute(name, mode, value) + rest))
      == if next.None? then Parsed(false, v) else ParseAttributes(next.value, Query(rest))
  {
    var e := Escape(mode, value);
    EscapeIsQuiet(mode, value);
    EscapeRoundTrip(mode, value);
    SplitsAttribute(name, e, rest);
    QueryOf(name + ['='] + e, rest);
    assert Attribute(name, mode, value) == ['?'] + (name + ['='] + e);
    hide Split, Unescape, Escape, Query, Attribute, Quiet, Assign;
  }

  lemma {:induction false} ReadsOptional(v: VName, name: Text, mode: EscapeMode, value: Text, rest: Text)
    requires Quiet(name) && IsQuery(rest) && (value == [] || Assign(v, name, Plain(value)).Some?)
    ensures IsQuery(Attribute(name, mode, value) + rest)
    ensures ParseAttributes(v, Query(Attribute(name, mode, value) + rest))
         == ParseAttributes(if value == [] then v else Assign(v, name, Plain(value)).value, Query(rest))
  {
    if value == [] {
      assert Attribute(name, mode, value) + rest == rest;
    } else {
      ReadsAttribute(v, name, mode, value, rest);
    }
  }

  lemma {:induction false} ReadsAttributes(v: VName)
    ensures IsQuery(Attributes(v))
    ensures ParseAttributes(NO_NAME, Query(Attributes(v))) == Parsed(true, v.(signature := [], corpus := []))
  {
    hide ParseAttributes, Query, Attribute;
    var l, p, r := Attribute(LANG, EscapeAll, v.language), Attribute(PATH, EscapePaths, v.path),
      Attribute(ROOT, EscapePaths, v.root);
    var v1 := NO_NAME.(language := v.language);
    var v2 := v1.(path := v.path);
    ReadsOptional(v2, ROOT, EscapePaths, v.root, []);
    ReadsOptional(v1, PATH, EscapePaths, v.path, r + []);
    ReadsOptional(NO_NAME, LANG, EscapeAll, v.language, p + (r + []));
    assert Attributes(v) == l + (p + (r + []));
    NothingToRead(v2.(root := v.root));
  }

  lemma {:induction false} NothingToRead(v: VName)
    ensures ParseAttributes(v, Query([])) == Parsed(true, v)
  {
  }

  lemma {:induction false} ReadsScheme(tail: Text)
    ensures AfterScheme(PREFIX + tail) == Some(tail)
  {
    var head := PREFIX + tail;
    assert EndsScheme(head, 5);
    SchemeEndsOnce(head, 5);
    assert head[..5] == SCHEME && head[6..] == tail;
  }

  lemma {:induction false} ReadsCorpus(clean: Text -> Text, corpus: Text)
    ensures ParseCorpus(clean, Authority(corpus)) == Some(if corpus == [] then [] else clean(corpus))
  {
    EscapeRoundTrip(EscapePaths, corpus);
    assert (['/', '/'] + Escape(EscapePaths, corpus))[2..] == Escape(EscapePaths, corpus);
  }

  lemma {:induction false} ReadsFragment(head: Text, signature: Text)
    requires '#' !in head
    ensures Split(head + Fragment(signature), '#').0 == head
    ensures Unescape(Split(head + Fragment(signature), '#').1) == Plain(signature)
  {
    if signature == [] {
      assert head + Fragment(signature) == head;
      SplitNowhere(head, '#');
    } else {
      var e := Escape(EscapeAll, signature);
      assert head + Fragment(signature) == head + ['#'] + e;
      SplitAt(head, '#', e);
      EscapeRoundTrip(EscapeAll, signature);
    }
  }

  lemma {:induction false} HeadIsQuiet(v: VName)
    ensures '?' !in Authority(v.corpus) && '#' !in Authority(v.corpus) && '#' !in Attributes(v)
  {
    EscapeIsQuiet(EscapePaths, v.corpus);
    AttributeIsQuiet(LANG, EscapeAll, v.language);
    AttributeIsQuiet(PATH, EscapePaths, v.path);
    AttributeIsQuiet(ROOT, EscapePaths, v.root);
    hide Attribute, Escape;
  }

  lemma {:induction false} AttributeIsQuiet(name: Text, mode: EscapeMode, value: Text)
    requires Quiet(name)
    ensures '#' !in Attribute(name, mode, value)
  {
    EscapeIsQuiet(mode, value);
  }

  /** Cleaning the corpus, as the constructor from a VName does. */
  function Cleaned(clean: Text -> Text, v: VName): VName { v.(corpus := clean(v.corpus)) }

  /** Reading what was printed succeeds for every VName, and changes nothing but the
      spelling of a corpus path that was not clean. */
  lemma {:induction false} PrintedIsParsed(clean: Text -> Text, v: VName)
    ensures Parse(clean, NO_NAME, Print(v)) == Parsed(true, if v.corpus == [] then v else Cleaned(clean, v))
  {
    var tail := Authority(v.corpus) + Attributes(v);
    var head := PREFIX + tail;
    assert Print(v) == head + Fragment(v.signature);
    assert '#' !in head by { HeadIsQuiet(v); }
    ReadsFragment(head, v.signature);
    ReadsScheme(tail);
    HeadIsQuiet(v);
    ReadsAttributes(v);
    SplitsQuery(Authority(v.corpus), Attributes(v));
    ReadsCorpus(clean, v.corpus);
    hide Split, AfterScheme, ParseCorpus, ParseAttributes, Unescape, Authority, Attributes, Fragment, Query, Print;
  }

  ghost predicate Idempotent(clean: Text -> Text) { forall t :: clean(clean(t)) == clean(t) }

  /** What a URI object can hold: its corpus is absent or has been cleaned. */
  ghost predicate Constructible(clean: Text -> Text, v: VName) {
    v.corpus == [] || clean(v.corpus) == v.corpus
  }

  /** The round trip: a URI is read back as it was printed exactly when it is constructible. */
  lemma {:induction false} RoundTrip(clean: Text -> Text, v: VName)
    ensures Parse(clean, NO_NAME, Print(v)) == Parsed(true, v) <==> Constructible(clean, v)
  {
    PrintedIsParsed(clean, v);
    hide Parse, Print;
  }

  lemma {:induction false} AttributesKeepCorpus(v: VName, attrs: Text)
    ensures ParseAttributes(v, attrs).vname.corpus == v.corpus
    decreases |attrs|
  {
    if attrs != [] {
      var (attr, rest) := Split(attrs, '?');
      var (name, value) := Split(attr, '=');
      var next := Assign(v, name, Unescape(value));
      hide Unescape, Split;
      if next.Some? { AttributesKeepCorpus(next.value, rest); }
    }
  }

  /** Reading any text over a constructible URI leaves a constructible one, even when it fails. */
  lemma {:induction false} ParseKeepsConstructible(clean: Text -> Text, v: VName, s: Text)
    requires Idempotent(clean) && Constructible(clean, v)
    ensures Constructible(clean, Parse(clean, v, s).vname)
  {
    var tail := AfterScheme(Split(s, '#').0);
    if tail.Some? { AttributesKeepCorpus(v, Split(tail.value, '?').1); }
    hide Split, AfterScheme, ParseAttributes, Unescape;
  }

  /** Printing tells constructible URIs apart. */
  lemma {:induction false} PrintIsInjective(clean: Text -> Text, v: VName, w: VName)
    requires Constructible(clean, v) && Constructible(clean, w) && Print(v) == Print(w)
    ensures v == w
  {
    PrintedIsParsed(clean, v);
    PrintedIsParsed(clean, w);
  }

  /** Printing what any accepted text means gives its canonical spelling: that is accepted,
      means the same, and prints as itself. */
  lemma {:induction false} PrintIsCanonical(clean: Text -> Text, s: Text)
    requires Idempotent(clean) && Parse(clean, NO_NAME, s).ok
    ensures
      var v := Parse(clean, NO_NAME, s).vname;
      Parse(clean, NO_NAME, Print(v)) == Parsed(true, v) && Print(Parse(clean, NO_NAME, Print(v)).vname) == Print(v)
  {
    ParseKeepsConstructible(clean, NO_NAME, s);
    PrintedIsParsed(clean, Parse(clean, NO_NAME, s).vname);
  }

  predicate HasAttribute(v: VName) { v.language != [] || v.path != [] || v.root != [] }

  lemma {:induction false} AttributesStay(v: VName, attrs: Text)
    requires HasAttribute(v)
    ensures HasAttribute(ParseAttributes(v, attrs).vname)
    decreases |attrs|
  {
    if attrs != [] {
      var (attr, rest) := Split(attrs, '?');
      var (name, value) := Split(attr, '=');
      var next := Assign(v, name, Unescape(value));
      hide Unescape, Split;
      if next.Some? { AttributesStay(next.value, rest); }
    }
  }

  /** The reading gets as far as a first attribute that is accepted. */
  predicate AcceptsFirstAttribute(clean: Text -> Text, s: Text) {
    var (head, fragment) := Split(s, '#');
    var tail := AfterScheme(head);
    && tail.Some?
    && var (authority, attrs) := Split(tail.value, '?');
       var (name, value) := Split(Split(attrs, '?').0, '=');
       && ParseCorpus(clean, authority).Some? && Unescape(fragment).Plain?
       && attrs != [] && Assign(NO_NAME, name, Unescape(value)).Some?
  }

  /** A failed reading is documented to return the empty URI.  It does exactly when no
      attribute was accepted before the failure. */
  lemma {:induction false} RefusedIsEmptyIff(clean: Text -> Text, s: Text)
    requires !Parse(clean, NO_NAME, s).ok
    ensures Parse(clean, NO_NAME, s).vname == NO_NAME <==> !AcceptsFirstAttribute(clean, s)
  {
    var (head, fragment) := Split(s, '#');
    var tail := AfterScheme(head);
    if tail.Some? {
      var attrs := Split(tail.value, '?').1;
      var (attr, rest) := Split(attrs, '?');
      var (name, value) := Split(attr, '=');
      var next := Assign(NO_NAME, name, Unescape(value));
      if attrs != [] && next.Some? { AttributesStay(next.value, rest); }
      hide Split, Unescape, AfterScheme, ParseCorpus;
    }
  }

  /** A text such as `?lang=L?x` is refused and leaves the language behind. */
  lemma {:induction false} RefusedIsNotEmpty(clean: Text -> Text, language: Text)
    requires language != []
    ensures Parse(clean, NO_NAME, Attribute(LANG, EscapeAll, language) + ['?', 'x'])
      == Parsed(false, NO_NAME.(language := language))
  {
    var query := Attribute(LANG, EscapeAll, language) + ['?', 'x'];
    AttributeIsQuiet(LANG, EscapeAll, language);
    SplitNowhere(query, '#');
    SplitsQuery([], query);
    assert [] + query == query;
    ReadsAttribute(NO_NAME, LANG, EscapeAll, language, ['?', 'x']);
    RefusesX(NO_NAME.(language := language));
    assert AfterScheme(query) == Some(query);
    assert Query(['?', 'x']) == ['x'];
    hide Split, AfterScheme, ParseAttributes, Attribute;
  }

  lemma {:induction false} RefusesX(v: VName)
    ensures ParseAttributes(v, ['x']) == Parsed(false, v)
  {
    SplitNowhere(['x'], '?');
    SplitNowhere(['x'], '=');
    hide Split;
  }

  // -------------------------------------------------------------------------- the object

  lemma {:induction false} NothingToPrint()
    ensures Print(NO_NAME) == PREFIX
  {
  }

  lemma {:induction false} PrintParts(v: VName)
    ensures Print(v) == PREFIX + Authority(v.corpus) + Attribute(LANG, EscapeAll, v.language)
      + Attribute(PATH, EscapePaths, v.path) + Attribute(ROOT, EscapePaths, v.root) + Fragment(v.signature)
  {
    hide Authority, Attribute, Fragment;
  }

  method AppendCorpus(text: Text, corpus: Text) returns (result: Text)
    ensures result == text + Authority(corpus)
  {
    result := text;
    if corpus != [] {
      var e := UriEscape(EscapePaths, corpus);
      result := result + (['/', '/'] + e);
    }
  }

  method AppendSignature(text: Text, signature: Text) returns (result: Text)
    ensures result == text + Fragment(signature)
  {
    result := text;
    if signature != [] {
      var e := UriEscape(EscapeAll, signature);
      result := result + (['#'] + e);
    }
  }

  method AppendAttribute(text: Text, name: Text, mode: EscapeMode, value: Text) returns (result: Text)
    ensures result == text + Attribute(name, mode, value)
  {
    result := text;
    if value != [] {
      var e := UriEscape(mode, value);
      hide Escape, Escapes;
      result := result + (['?'] + (name + ['='] + e));
    }
  }

  class Uri {
    var vname: VName

    constructor Empty()
      ensures vname == NO_NAME
    {
      vname := NO_NAME;
    }

    constructor (clean: Text -> Text, from: VName)
      ensures vname == Cleaned(clean, from)
      ensures Idempotent(clean) ==> Constructible(clean, vname)
    {
      vname := from.(corpus := clean(from.corpus));
    }

    method ToString() returns (result: Text)
      ensures result == Print(vname)
    {
      result := PREFIX;
      if vname == NO_NAME {
        NothingToPrint();
        hide Print;
        return;
      }
      hide Authority, Attribute, Fragment;
      result := AppendCorpus(result, vname.corpus);
      result := AppendAttribute(result, LANG, EscapeAll, vname.language);
      result := AppendAttribute(result, PATH, EscapePaths, vname.path);
      result := AppendAttribute(result, ROOT, EscapePaths, vname.root);
      result := AppendSignature(result, vname.signature);
      PrintParts(vname);
      hide Print;
    }

    method ParseString(clean: Text -> Text, s: Text) returns (ok: bool)
      modifies this
      ensures Parsed(ok, vname) == Parse(clean, old(vname), s)
    {
      var (head, fragment) := Split(s, '#');
      var scheme, tail := SplitScheme(head);
      if scheme == [] {
        if |tail| > 0 && tail[0] == ':' { return false; }
      } else if scheme != SCHEME {
        return false;
      } else if tail != [] {
        tail := tail[1..];
      }
      assert AfterScheme(head) == Some(tail);
      var (authority, attrs) := Split(tail, '?');
      var corpus: Text := [];
      if authority != [] {
        if !(['/', '/'] <= authority) { return false; }
        var maybe := UriUnescape(authority[2..]);
        if !maybe.Plain? { return false; }
        corpus := clean(maybe.text);
      }
      var signature := UriUnescape(fragment);
      if !signature.Plain? { return false; }
      ok := ParseQuery(attrs);
      if !ok { return; }
      vname := vname.(signature := signature.text);
      vname := vname.(corpus := corpus);
    }

    method ParseQuery(query: Text) returns (ok: bool)
      modifies this
      ensures Parsed(ok, vname) == ParseAttributes(old(vname), query)
    {
      var attrs := query;
      while attrs != []
        invariant ParseAttributes(vname, attrs) == ParseAttributes(old(vname), query)
        decreases |attrs|
      {
        var (attr, rest) := Split(attrs, '?');
        attrs := rest;
        var (name, value) := Split(attr, '=');
        var maybe := UriUnescape(value);
        if !maybe.Plain? || maybe.text == [] { return false; }
        if name == LANG { vname := vname.(language := maybe.text); }
        else if name == ROOT { vname := vname.(root := maybe.text); }
        else if name == PATH { vname := vname.(path := maybe.text); }
        else { return false; }
      }
      return true;
    }
  }

  /** An object that is printed and read back: the new one holds the same VName. */
  method PrintAndRead(clean: Text -> Text, from: VName) returns (text: Text, ok: bool, read: VName)
    requires Idempotent(clean)
    ensures ok && read == Cleaned(clean, from) && text == Print(read)
  {
    var uri := new Uri(clean, from);
    text := uri.ToString();
    var again := new Uri.Empty();
    RoundTrip(clean, uri.vname);
    ok := again.ParseString(clean, text);
    read := again.vname;
  }
}
