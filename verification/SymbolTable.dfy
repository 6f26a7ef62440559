/** Interning of strings, and the symbols the Verifier's own tokens receive. */
module SymbolTables {
  import opened Facts

  class SymbolTable {
    var symbols: map<string, nat>
    var reverseMap: seq<string>

    /** The two maps are inverse to each other. */
    ghost predicate Valid()
      reads this
    {
      && |symbols| == |reverseMap|
      && (forall s | s in symbols :: symbols[s] < |reverseMap| && reverseMap[symbols[s]] == s)
      && (forall i | 0 <= i < |reverseMap| :: reverseMap[i] in symbols && symbols[reverseMap[i]] == i)
    }

    constructor ()
      ensures Valid() && reverseMap == []
    {
      symbols, reverseMap := map[], [];
    }

    /** Equal texts get equal symbols, different texts different ones, and symbols
        already given out keep their texts. */
    method Intern(text: string) returns (symbol: nat)
      requires Valid()
      modifies this
      ensures Valid() && symbol < |reverseMap| && reverseMap[symbol] == text
      ensures old(reverseMap) <= reverseMap
      ensures text in old(reverseMap) ==> reverseMap == old(reverseMap)
      ensures text !in old(reverseMap) ==> reverseMap == old(reverseMap) + [text]
    {
      if text in symbols {
        return symbols[text];
      }
      symbol := |symbols|;
      symbols := symbols[text := symbol];
      reverseMap := reverseMap + [text];
    }
  }

  const TOKENS: seq<string> :=
    ["", "fact", "vname", "/kythe/node/kind", "anchor", "/kythe/loc/start", "/kythe/loc/end", "/", "=",
     "/kythe/ordinal"]

  /** The constructor of the verifier interns its tokens into an empty table, which
      gives kind, start and end increasing symbols. */
  method InternTokens() returns (table: SymbolTable)
    ensures fresh(table) && table.Valid() && table.reverseMap == TOKENS
    ensures forall i | 0 <= i < |TOKENS| :: TOKENS[i] in table.symbols && table.symbols[TOKENS[i]] == i
    ensures TOKENS[EMPTY] == "" && TOKENS[FACT] == "fact" && TOKENS[VNAME] == "vname"
    ensures TOKENS[KIND] == "/kythe/node/kind" && TOKENS[ANCHOR] == "anchor"
    ensures TOKENS[START] == "/kythe/loc/start" && TOKENS[END] == "/kythe/loc/end" && KIND < START < END
    ensures TOKENS[ROOT] == "/" && TOKENS[EQUALS] == "=" && TOKENS[ORDINAL_NAME] == "/kythe/ordinal"
  {
    table := new SymbolTable();
    for i := 0 to |TOKENS|
      invariant fresh(table) && table.Valid() && table.reverseMap == TOKENS[..i]
    {
      assert TOKENS[i] !in TOKENS[..i];
      var symbol := table.Intern(TOKENS[i]);
    }
    assert forall i | 0 <= i < |TOKENS| :: table.reverseMap[i] == TOKENS[i];
  }
}
