/** Kythe URIs spelled out: which characters stand where, and what they are read as. */
module UriLiterals {
  import opened Wrappers
  import opened KytheUri

  const HEX: string := "0123456789ABCDEF"
  const LOWER: string := "0123456789abcdef"

  /** A byte that is not unreserved is written as a percent sign and two capital digits. */
  lemma {:induction false} EscapedByte(mode: EscapeMode, c: Byte)
    ensures Escape(mode, [c]) ==
      if 'a' <= c <= 'z' || 'A' <= c <= 'Z' || '0' <= c <= '9' || c in "-._~" || (c == '/' && mode == EscapePaths)
      then [c]
      else "%" + [HEX[c as int / 16]] + [HEX[c as int % 16]]
  {
    assert [c][1..] == [];
    HexDigitIs(c as int / 16);
    HexDigitIs(c as int % 16);
    hide HexDigit;
  }

  lemma {:induction false} HexDigitIs(n: nat)
    requires n < 16
    ensures HexDigit(n) == HEX[n]
  {
  }

  /** Digits are read in either case, and nothing else is a digit. */
  lemma {:induction false} HexValueIs(n: nat, c: Byte)
    requires n < 16
    ensures HexValue(HEX[n]) == n && HexValue(LOWER[n]) == n
    ensures HexValue(c) == -1 <==> c !in HEX && c !in LOWER
  {
    assert HexValue(c) >= 0 ==> c == HEX[HexValue(c)] || c == LOWER[HexValue(c)];
  }

  function Part(lead: string, s: Text, escaped: Text): string { if s == [] then "" else lead + escaped }

  /** A URI is `kythe://C?lang=L?path=P?root=R#S`, without the parts that are empty. */
  lemma {:induction false} PrintIs(v: VName)
    ensures Print(v)
         == "kythe:" + Part("//", v.corpus, Escape(EscapePaths, v.corpus))
            + Part("?lang=", v.language, Escape(EscapeAll, v.language))
            + Part("?path=", v.path, Escape(EscapePaths, v.path))
            + Part("?root=", v.root, Escape(EscapePaths, v.root))
            + Part("#", v.signature, Escape(EscapeAll, v.signature))
  {
    PrintParts(v);
    AttributeIs(LANG, "?lang=", EscapeAll, v.language);
    AttributeIs(PATH, "?path=", EscapePaths, v.path);
    AttributeIs(ROOT, "?root=", EscapePaths, v.root);
    hide Escape, Attribute, Print;
  }

  lemma {:induction false} AttributeIs(name: Text, lead: string, mode: EscapeMode, value: Text)
    requires lead == "?" + name + "="
    ensures Attribute(name, mode, value) == Part(lead, value, Escape(mode, value))
  {
    hide Escape;
  }

  /** Each attribute sets the part of its name, and a URI without a corpus or signature clears
      those. */
  lemma {:induction false} LangReads(clean: Text -> Text, v: VName, value: Text)
    requires value != []
    ensures Parse(clean, v, "?lang=" + Escape(EscapeAll, value))
         == Parsed(true, v.(language := value, signature := [], corpus := []))
  {
    hide Parse, Escape;
    OneAttribute(clean, v, LANG, "?lang=", EscapeAll, value);
  }

  lemma {:induction false} PathReads(clean: Text -> Text, v: VName, value: Text)
    requires value != []
    ensures Parse(clean, v, "?path=" + Escape(EscapePaths, value))
         == Parsed(true, v.(path := value, signature := [], corpus := []))
  {
    hide Parse, Escape;
    OneAttribute(clean, v, PATH, "?path=", EscapePaths, value);
  }

  lemma {:induction false} RootReads(clean: Text -> Text, v: VName, value: Text)
    requires value != []
    ensures Parse(clean, v, "?root=" + Escape(EscapePaths, value))
         == Parsed(true, v.(root := value, signature := [], corpus := []))
  {
    hide Parse, Escape;
    OneAttribute(clean, v, ROOT, "?root=", EscapePaths, value);
  }

  lemma {:induction false} OneAttribute(
    clean: Text -> Text, v: VName, name: Text, lead: string, mode: EscapeMode, value: Text)
    requires value != [] && (name == LANG || name == PATH || name == ROOT) && lead == "?" + name + "="
    ensures Parse(clean, v, lead + Escape(mode, value))
         == Parsed(true, Assign(v, name, Plain(value)).value.(signature := [], corpus := []))
  {
    AttributeIs(name, lead, mode, value);
    var query := Attribute(name, mode, value);
    AttributeIsQuiet(name, mode, value);
    SplitNowhere(query, '#');
    SplitsQuery([], query);
    assert [] + query == query && query + [] == query;
    ReadsAttribute(v, name, mode, value, []);
    assert AfterScheme(query) == Some(query);
    assert Query([]) == [];
    NothingToRead(Assign(v, name, Plain(value)).value);
    assert Unescape([]) == Plain([]);
    hide Split, AfterScheme, ParseAttributes, Attribute, Unescape;
  }
}
