/** Entries of the graph as texts: how they are stored as facts over symbols, and what a
    database of facts is once it is read back. */
module EntryTexts {
  import opened Wrappers
  import opened Facts
  import opened Solver
  import opened Sorting
  import opened SymbolTables
  import opened FactDatabase
  import Names = VNames

  /** An entry of the graph, as the verifier is given it. */
  datatype Entry =
    Entry(
      source: Option<Names.VName>, edgeKind: string, target: Option<Names.VName>, factName: string, factValue: string)

  /** `rfind('.')`, with `|s|` for `npos`. */
  function LastDot(s: string): (i: nat)
    ensures i <= |s| && (i < |s| ==> s[i] == '.') && (i == |s| <==> '.' !in s)
    ensures forall j | i < j < |s| :: s[j] != '.'
  {
    if |s| == 0 then 0
    else
      var n := |s| - 1;
      if s[n] == '.' then n
      else
        var i := LastDot(s[..n]);
        if i == n then |s| else i
  }

  /** An edge kind `kind.ordinal` is stored as an ordinal fact of edge `kind`. */
  function Normalized(e: Entry): Entry {
    var dot := LastDot(e.edgeKind);
    if 0 < dot < |e.edgeKind| - 1
    then Entry(e.source, e.edgeKind[..dot], e.target, "/kythe/ordinal", e.edgeKind[dot + 1..])
    else e
  }

  /** The kind of an entry is a kind and an ordinal. */
  ghost predicate HasOrdinal(e: Entry, kind: string, ordinal: string) {
    e.edgeKind == kind + "." + ordinal && kind != "" && ordinal != "" && '.' !in ordinal
  }

  lemma {:induction false} OrdinalIsSplit(e: Entry, kind: string, ordinal: string)
    requires HasOrdinal(e, kind, ordinal)
    ensures Normalized(e) == Entry(e.source, kind, e.target, "/kythe/ordinal", ordinal)
  {
    var s, dot := e.edgeKind, LastDot(e.edgeKind);
    assert s[|kind|] == '.' && s[|kind| + 1..] == ordinal && s[..|kind|] == kind;
    assert forall j | |kind| < j < |s| :: s[j] == ordinal[j - |kind| - 1];
    assert dot == |kind|;
  }

  lemma {:induction false} OtherKindsAreKept(e: Entry)
    requires forall kind, ordinal :: !HasOrdinal(e, kind, ordinal)
    ensures Normalized(e) == e
  {
    var s, dot := e.edgeKind, LastDot(e.edgeKind);
    if 0 < dot < |s| - 1 {
      assert s == s[..dot] + "." + s[dot + 1..];
      assert HasOrdinal(e, s[..dot], s[dot + 1..]);
    }
  }

  // ------------------------------------------------------- reading facts back as text

  predicate Known(n: nat, f: Fact) {
    && f.edgeKind < n && f.name < n && f.value < n && KnownNode(n, f.source) && KnownNode(n, f.target)
  }

  /** A node of a stored fact is a vname, or the empty string. */
  predicate KnownNode(n: nat, node: Node) {
    match node
    case Named(v) => v.signature < n && v.corpus < n && v.root < n && v.path < n && v.language < n
    case Plain(s) => s == EMPTY < n
  }

  function VNameText(texts: seq<string>, v: VName): Names.VName
    requires KnownNode(|texts|, Named(v))
  {
    Names.VName(texts[v.signature], texts[v.corpus], texts[v.root], texts[v.path], texts[v.language])
  }

  function NodeText(texts: seq<string>, n: Node): Option<Names.VName>
    requires KnownNode(|texts|, n)
  {
    match n case Named(v) => Some(VNameText(texts, v)) case Plain(_) => None
  }

  function FactText(texts: seq<string>, f: Fact): Entry
    requires Known(|texts|, f)
  {
    Entry(NodeText(texts, f.source), texts[f.edgeKind], NodeText(texts, f.target), texts[f.name], texts[f.value])
  }

  ghost predicate AllKnown(texts: seq<string>, facts: seq<Fact>) {
    forall i | 0 <= i < |facts| :: Known(|texts|, facts[i])
  }

  function FactTexts(texts: seq<string>, facts: seq<Fact>): seq<Entry>
    requires AllKnown(texts, facts)
  {
    seq(|facts|, i requires 0 <= i < |facts| => FactText(texts, facts[i]))
  }

  lemma {:induction false} NodeTextStable(texts: seq<string>, texts': seq<string>, n: Node)
    requires texts <= texts' && KnownNode(|texts|, n)
    ensures KnownNode(|texts'|, n) && NodeText(texts', n) == NodeText(texts, n)
  {
  }

  lemma {:induction false} FactTextStable(texts: seq<string>, texts': seq<string>, f: Fact)
    requires texts <= texts' && Known(|texts|, f)
    ensures Known(|texts'|, f) && FactText(texts', f) == FactText(texts, f)
  {
    NodeTextStable(texts, texts', f.source);
    NodeTextStable(texts, texts', f.target);
  }

  lemma {:induction false} FactTextsGrow(texts: seq<string>, texts': seq<string>, facts: seq<Fact>, f: Fact)
    requires texts <= texts' && AllKnown(texts, facts) && Known(|texts'|, f)
    ensures AllKnown(texts', facts + [f])
    ensures FactTexts(texts', facts + [f]) == FactTexts(texts, facts) + [FactText(texts', f)]
  {
    forall i | 0 <= i < |facts|
      ensures Known(|texts'|, facts[i]) && FactText(texts', facts[i]) == FactText(texts, facts[i])
    {
      FactTextStable(texts, texts', facts[i]);
    }
  }

  // ------------------------------------------------------------ which entries are valid

  const NO_NAME: Names.VName := Names.VName("", "", "", "", "")

  /** A named fact about a node, an edge, or an edge with an ordinal, between VNames that are
      not all empty. */
  predicate EntryOk(e: Entry) {
    && e.source.Some? && e.source.value != NO_NAME
    && (|| (e.edgeKind == "" && e.target == None && e.factName != "")
        || (e.edgeKind != "" && e.target.Some? && e.target.value != NO_NAME
            && ((e.factName == "/" && e.factValue == "") || e.factName == "/kythe/ordinal")))
  }

  /** Two values for one fact about one node. */
  predicate Contradicts(a: Entry, b: Entry) {
    && a.source == b.source && a.edgeKind == b.edgeKind == "" && a.target == b.target == None
    && a.factName == b.factName && a.factValue != b.factValue
  }

  ghost predicate EntriesOk(ignoreDups: bool, es: seq<Entry>) {
    && (forall i | 0 <= i < |es| :: EntryOk(es[i]))
    && (ignoreDups || forall i, j | 0 <= i < j < |es| :: es[i] != es[j])
    && (forall i, j | 0 <= i < j < |es| :: !Contradicts(es[i], es[j]))
  }

  /** Different symbols have different texts, and the tokens have theirs. */
  ghost predicate IsTable(texts: seq<string>) {
    TOKENS <= texts && forall i, j | 0 <= i < j < |texts| :: texts[i] != texts[j]
  }

  lemma {:induction false} TokenTexts(texts: seq<string>)
    requires IsTable(texts)
    ensures |texts| >= 10 && texts[EMPTY] == "" && texts[ROOT] == "/" && texts[ORDINAL_NAME] == "/kythe/ordinal"
    ensures texts[KIND] == "/kythe/node/kind" && texts[ANCHOR] == "anchor"
    ensures texts[START] == "/kythe/loc/start" && texts[END] == "/kythe/loc/end"
  {
    assert texts[..10] == TOKENS;
    assert forall i | 0 <= i < 10 :: texts[i] == texts[..10][i];
  }

  lemma {:induction false} VNameTextTells(texts: seq<string>, v: VName, w: VName)
    requires IsTable(texts) && KnownNode(|texts|, Named(v)) && KnownNode(|texts|, Named(w))
    ensures VNameText(texts, v) == VNameText(texts, w) <==> v == w
  {
  }

  lemma {:induction false} BlankText(texts: seq<string>, v: VName)
    requires IsTable(texts) && KnownNode(|texts|, Named(v))
    ensures VNameText(texts, v) == NO_NAME <==> v == BLANK
  {
    TokenTexts(texts);
    VNameTextTells(texts, v, BLANK);
  }

  lemma {:induction false} FactTextTells(texts: seq<string>, f: Fact, g: Fact)
    requires IsTable(texts) && Known(|texts|, f) && Known(|texts|, g)
    ensures FactText(texts, f) == FactText(texts, g) <==> f == g
    ensures NodeText(texts, f.source) == NodeText(texts, g.source) <==> f.source == g.source
  {
    if f.source.Named? && g.source.Named? { VNameTextTells(texts, f.source.vname, g.source.vname); }
    if f.target.Named? && g.target.Named? { VNameTextTells(texts, f.target.vname, g.target.vname); }
  }

  lemma {:induction false} EntryOkIsValidForm(texts: seq<string>, f: Fact)
    requires IsTable(texts) && Known(|texts|, f)
    ensures EntryOk(FactText(texts, f)) <==> FactHasValidForm(f)
  {
    TokenTexts(texts);
    if f.source.Named? { BlankText(texts, f.source.vname); }
    if f.target.Named? { BlankText(texts, f.target.vname); }
    hide IsTable, VNameText;
  }

  lemma {:induction false} ContradictsIsConflict(texts: seq<string>, f: Fact, g: Fact)
    requires IsTable(texts) && Known(|texts|, f) && Known(|texts|, g)
    ensures Contradicts(FactText(texts, f), FactText(texts, g)) <==> Conflict(f, g)
  {
    TokenTexts(texts);
    FactTextTells(texts, f, g);
  }

  /** Stored facts are accepted exactly when their texts are. */
  lemma {:induction false} AcceptedTexts(ignoreDups: bool, texts: seq<string>, facts: seq<Fact>)
    requires IsTable(texts) && AllKnown(texts, facts)
    ensures FactsOk(ignoreDups, multiset(facts)) <==> EntriesOk(ignoreDups, FactTexts(texts, facts))
  {
    var es := FactTexts(texts, facts);
    forall i | 0 <= i < |facts| ensures EntryOk(es[i]) <==> FactHasValidForm(facts[i]) {
      EntryOkIsValidForm(texts, facts[i]);
    }
    forall i, j | 0 <= i < |facts| && 0 <= j < |facts|
      ensures es[i] == es[j] <==> facts[i] == facts[j]
      ensures Contradicts(es[i], es[j]) <==> Conflict(facts[i], facts[j])
    {
      FactTextTells(texts, facts[i], facts[j]);
      ContradictsIsConflict(texts, facts[i], facts[j]);
    }
    hide FactHasValidForm, EntryOk, Conflict, Contradicts, FactText, IsTable, Known;
    AcceptedByPosition(ignoreDups, facts);
  }

  ghost predicate OkByPosition(ignoreDups: bool, facts: seq<Fact>) {
    && (forall i | 0 <= i < |facts| :: FactHasValidForm(facts[i]))
    && (ignoreDups || forall i, j | 0 <= i < j < |facts| :: facts[i] != facts[j])
    && (forall i, j | 0 <= i < j < |facts| :: !Conflict(facts[i], facts[j]))
  }

  lemma {:induction false} AcceptedByPosition(ignoreDups: bool, facts: seq<Fact>)
    ensures FactsOk(ignoreDups, multiset(facts)) <==> OkByPosition(ignoreDups, facts)
  {
    if FactsOk(ignoreDups, multiset(facts)) {
      assert forall i | 0 <= i < |facts| :: facts[i] in multiset(facts);
      forall i, j | 0 <= i < j < |facts| && facts[i] == facts[j] ensures multiset(facts)[facts[i]] >= 2 {
        CountPositions(facts, facts[i]);
      }
    }
    if OkByPosition(ignoreDups, facts) { PositionsSuffice(ignoreDups, facts); }
  }

  lemma {:induction false} PositionsSuffice(ignoreDups: bool, facts: seq<Fact>)
    requires OkByPosition(ignoreDups, facts)
    ensures FactsOk(ignoreDups, multiset(facts))
  {
    hide FactHasValidForm;
    forall f | f in multiset(facts) ensures FactHasValidForm(f) && (ignoreDups || multiset(facts)[f] == 1) {
      CountPositions(facts, f);
      var i :| 0 <= i < |facts| && facts[i] == f;
    }
    forall a, b | a in multiset(facts) && b in multiset(facts) ensures !Conflict(a, b) {
      var i :| 0 <= i < |facts| && facts[i] == a;
      var j :| 0 <= j < |facts| && facts[j] == b;
      assert i < j ==> !Conflict(facts[i], facts[j]);
      assert j < i ==> !Conflict(facts[j], facts[i]);
    }
  }

  // ------------------------------------------------------------------ anchors as texts

  /** The entries give a node a fact that spells the number `at`. */
  ghost predicate TellsAt(
    es: seq<Entry>, parseSize: string -> nat, name: Names.VName, factName: string, at: nat)
  {
    exists s :: Entry(Some(name), "", None, factName, s) in es && parseSize(s) == at
  }

  /** The entries say that a node is an anchor over a range. */
  ghost predicate Tells(es: seq<Entry>, parseSize: string -> nat, begin: nat, end: nat, name: Names.VName) {
    && Entry(Some(name), "", None, "/kythe/node/kind", "anchor") in es
    && begin != NO_OFFSET
    && TellsAt(es, parseSize, name, "/kythe/loc/start", begin)
    && TellsAt(es, parseSize, name, "/kythe/loc/end", end)
  }

  lemma {:induction false} NodeFactText(texts: seq<string>, facts: seq<Fact>, v: VName, n: nat, x: nat)
    requires IsTable(texts) && AllKnown(texts, facts) && Known(|texts|, NodeFact(v, n, x))
    ensures NodeFact(v, n, x) in facts
        <==> Entry(Some(VNameText(texts, v)), "", None, texts[n], texts[x]) in FactTexts(texts, facts)
  {
    TokenTexts(texts);
    var f, es := NodeFact(v, n, x), FactTexts(texts, facts);
    assert FactText(texts, f) == Entry(Some(VNameText(texts, v)), "", None, texts[n], texts[x]);
    hide IsTable, Known, FactText;
    if f in facts {
      var i :| 0 <= i < |facts| && facts[i] == f;
      assert es[i] == FactText(texts, f);
    }
    if FactText(texts, f) in es {
      var i :| 0 <= i < |es| && es[i] == FactText(texts, f);
      FactTextTells(texts, f, facts[i]);
    }
  }

  /** A stored text is that of a known symbol. */
  lemma {:induction false} KnownText(texts: seq<string>, facts: seq<Fact>, v: VName, n: nat, s: string) returns (x: nat)
    requires IsTable(texts) && AllKnown(texts, facts) && KnownNode(|texts|, Named(v)) && n < |texts|
    requires Entry(Some(VNameText(texts, v)), "", None, texts[n], s) in FactTexts(texts, facts)
    ensures x < |texts| && texts[x] == s
  {
    var es := FactTexts(texts, facts);
    var i :| 0 <= i < |es| && es[i] == Entry(Some(VNameText(texts, v)), "", None, texts[n], s);
    x := facts[i].value;
    assert Known(|texts|, facts[i]);
  }

  lemma {:induction false} OffsetText(
    texts: seq<string>, facts: seq<Fact>, parseSize: string -> nat, offset: nat -> nat, v: VName, n: nat, at: nat)
    requires IsTable(texts) && AllKnown(texts, facts) && KnownNode(|texts|, Named(v)) && n < |texts|
    requires forall x | 0 <= x < |texts| :: offset(x) == parseSize(texts[x])
    ensures (exists x :: NodeFact(v, n, x) in multiset(facts) && offset(x) == at)
        <==> TellsAt(FactTexts(texts, facts), parseSize, VNameText(texts, v), texts[n], at)
  {
    TokenTexts(texts);
    var name, es := VNameText(texts, v), FactTexts(texts, facts);
    if x: nat :| NodeFact(v, n, x) in multiset(facts) && offset(x) == at {
      var i :| 0 <= i < |facts| && facts[i] == NodeFact(v, n, x);
      assert Known(|texts|, facts[i]);
      NodeFactText(texts, facts, v, n, x);
      hide FactTexts, VNameText, IsTable;
      assert Entry(Some(name), "", None, texts[n], texts[x]) in es && parseSize(texts[x]) == at;
    }
    if s :| Entry(Some(name), "", None, texts[n], s) in es && parseSize(s) == at {
      var x := KnownText(texts, facts, v, n, s);
      NodeFactText(texts, facts, v, n, x);
      hide FactTexts, VNameText, IsTable;
      assert NodeFact(v, n, x) in multiset(facts);
    }
  }

  /** An anchor is described by the stored facts exactly when their texts tell of it. */
  lemma {:induction false} DescribedText(
    texts: seq<string>, facts: seq<Fact>, parseSize: string -> nat, offset: nat -> nat, a: Anchor)
    requires IsTable(texts) && AllKnown(texts, facts) && KnownNode(|texts|, Named(a.vname))
    requires forall x | 0 <= x < |texts| :: offset(x) == parseSize(texts[x])
    ensures Describes(multiset(facts), offset, a)
        <==> Tells(FactTexts(texts, facts), parseSize, a.begin, a.end, VNameText(texts, a.vname))
  {
    TokenTexts(texts);
    NodeFactText(texts, facts, a.vname, KIND, ANCHOR);
    OffsetText(texts, facts, parseSize, offset, a.vname, START, a.begin);
    OffsetText(texts, facts, parseSize, offset, a.vname, END, a.end);
    hide FactTexts, VNameText, IsTable, AllKnown;
    assert NodeFact(a.vname, KIND, ANCHOR) in facts <==> NodeFact(a.vname, KIND, ANCHOR) in multiset(facts);
  }

  /** One of the anchors reads as that range and name. */
  ghost predicate ReadsAs(texts: seq<string>, anchors: seq<Anchor>, begin: nat, end: nat, name: Names.VName) {
    exists a :: a in anchors && a.begin == begin && a.end == end
                && KnownNode(|texts|, Named(a.vname)) && VNameText(texts, a.vname) == name
  }

  /** The anchors found are exactly those that the texts tell of. */
  lemma {:induction false} FoundTexts(
    texts: seq<string>, facts: seq<Fact>, parseSize: string -> nat, offset: nat -> nat, found: seq<Anchor>,
    begin: nat, end: nat, name: Names.VName)
    requires IsTable(texts) && AllKnown(texts, facts) && ExactAnchors(multiset(facts), offset, found)
    requires forall x | 0 <= x < |texts| :: offset(x) == parseSize(texts[x])
    ensures ReadsAs(texts, found, begin, end, name)
        <==> Tells(FactTexts(texts, facts), parseSize, begin, end, name)
  {
    hide IsTable, Tells, FactTexts, VNameText, Describes;
    if ReadsAs(texts, found, begin, end, name) {
      var a :| a in found && a.begin == begin && a.end == end
               && KnownNode(|texts|, Named(a.vname)) && VNameText(texts, a.vname) == name;
      DescribedText(texts, facts, parseSize, offset, a);
    }
    if Tells(FactTexts(texts, facts), parseSize, begin, end, name) {
      var v := NamedNode(texts, facts, parseSize, begin, end, name);
      DescribedText(texts, facts, parseSize, offset, Anchor(begin, end, v));
      assert Anchor(begin, end, v) in found;
    }
  }

  lemma {:induction false} NamedNode(
    texts: seq<string>, facts: seq<Fact>, parseSize: string -> nat, begin: nat, end: nat, name: Names.VName)
    returns (v: VName)
    requires AllKnown(texts, facts) && Tells(FactTexts(texts, facts), parseSize, begin, end, name)
    ensures KnownNode(|texts|, Named(v)) && VNameText(texts, v) == name
  {
    var es := FactTexts(texts, facts);
    var i :| 0 <= i < |es| && es[i] == Entry(Some(name), "", None, "/kythe/node/kind", "anchor");
    assert Known(|texts|, facts[i]);
    v := facts[i].source.vname;
  }

  /** Without missing sources, or without acceptable entries, no missing source is read. */
  lemma {:induction false} NoSourceIsMissing(texts: seq<string>, facts: seq<Fact>)
    requires IsTable(texts) && AllKnown(texts, facts)
    requires var es := FactTexts(texts, facts);
      (forall i | 0 <= i < |es| :: es[i].source.Some?) || (forall i | 0 <= i < |es| :: !EntryOk(es[i]))
    ensures !ReadsMissingSource(multiset(facts))
  {
    var es := FactTexts(texts, facts);
    forall a, b | a in multiset(facts) && b in multiset(facts) ensures !Exposes(multiset(facts), a, b) {
      var i :| 0 <= i < |facts| && facts[i] == a;
      var j :| 0 <= j < |facts| && facts[j] == b;
      EntryOkIsValidForm(texts, b);
      assert es[i] == FactText(texts, a) && es[j] == FactText(texts, b);
      hide EntryOk, FactHasValidForm, IsTable;
    }
    hide EncodedFactLessThan, IsTable;
  }
}
