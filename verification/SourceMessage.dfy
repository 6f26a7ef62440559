/** The `Source` message of the internal store: maps of facts and of edge groups, and
    edges with a signed ordinal. */
module SourceMessages {
  import opened Wire
  import opened Messages

  datatype Edge = Edge(ticket: Bytes, ordinal: int)

  datatype EdgeGroup = EdgeGroup(edges: seq<Edge>)

  datatype Source = Source(ticket: Bytes, facts: map<Bytes, Bytes>, edgeGroups: map<Bytes, EdgeGroup>)

  const EMPTY_EDGE: Edge := Edge([], 0)
  const EMPTY_GROUP: EdgeGroup := EdgeGroup([])
  const EMPTY_SOURCE: Source := Source([], map[], map[])

  predicate Int32(x: int) { -0x8000_0000 <= x < 0x8000_0000 }

  predicate GoodEdges(g: EdgeGroup) { forall i | 0 <= i < |g.edges| :: Int32(g.edges[i].ordinal) }

  // ----------------------------------------------------------------------- Edge

  function EdgeFields(m: Edge): seq<Field>
    requires Int32(m.ordinal)
  {
    TextField(1, m.ticket) + NumberField(2, FromSigned(m.ordinal))
  }

  function EdgeText(m: Edge, num: nat, s: Bytes): Result<Edge> { Ok(m.(ticket := s)) }

  function EdgeNumber(m: Edge, num: nat, value: nat): Result<Edge> { Ok(m.(ordinal := ToInt32(value))) }

  function EdgeHandler(): Handler<Edge> { Handler(map[1 := Text, 2 := Number], EdgeNumber, EdgeText) }

  function EncodeEdge(m: Edge): Bytes
    requires Int32(m.ordinal)
  { EncodeFields(EdgeFields(m)) }

  /** `p` is an encoding of `m`, with any undeclared fields put between its own. */
  ghost predicate SpellsEdge(p: Bytes, m: Edge) { Int32(m.ordinal) && exists gs :: IsEdgeIn(gs, p, m) }

  ghost predicate IsEdgeIn(gs: seq<Field>, p: Bytes, m: Edge)
    requires Int32(m.ordinal)
  {
    Carries(EdgeHandler().schema, gs, EdgeFields(m)) && p == EncodeFields(gs)
  }

  /** Every edge is read back, with its signed ordinal and any undeclared fields. */
  lemma {:induction false} EdgeReads(p: Bytes, m: Edge)
    requires SpellsEdge(p, m)
    ensures Unmarshal(EdgeHandler(), p, EMPTY_EDGE) == Ok(m)
  {
    var gs :| IsEdgeIn(gs, p, m);
    var h, own := EdgeHandler(), EdgeFields(m);
    var m1 := EMPTY_EDGE.(ticket := m.ticket);
    var f1, f2 := TextField(1, m.ticket), NumberField(2, FromSigned(m.ordinal));
    SignedRoundTrip(m.ordinal);
    SetText(h, EMPTY_EDGE, 1, m.ticket, m1);
    SetNumber(h, m1, 2, FromSigned(m.ordinal), m);
    Then(h, EMPTY_EDGE, f1, m1, f2, m);
    DeclaredIsKnown(h.schema, own);
    Decodes(h, EMPTY_EDGE, gs, own);
  }

  lemma {:induction false} OwnSpellsEdge(m: Edge)
    requires Int32(m.ordinal) && |EncodeEdge(m)| <= TWO63
    ensures SpellsEdge(EncodeEdge(m), m)
  {
    OwnIsWellFormed(EdgeFields(m));
    DeclaredIsKnown(EdgeHandler().schema, EdgeFields(m));
    assert IsEdgeIn(EdgeFields(m), EncodeEdge(m), m);
  }

  // ------------------------------------------------------------------ EdgeGroup

  function EdgeListFields(es: seq<Edge>): (fs: seq<Field>)
    requires forall i | 0 <= i < |es| :: Int32(es[i].ordinal)
    ensures |fs| == |es| && forall i | 0 <= i < |es| :: fs[i] == LenField(1, EncodeEdge(es[i]))
  {
    seq(|es|, i requires 0 <= i < |es| => LenField(1, EncodeEdge(es[i])))
  }

  function GroupText(m: EdgeGroup, num: nat, s: Bytes): Result<EdgeGroup> {
    var e :- Unmarshal(EdgeHandler(), s, EMPTY_EDGE);
    Ok(EdgeGroup(m.edges + [e]))
  }

  function GroupHandler(): Handler<EdgeGroup> { Handler(map[1 := Text], NoNumber, GroupText) }

  function EncodeGroup(m: EdgeGroup): Bytes
    requires GoodEdges(m)
  { EncodeFields(EdgeListFields(m.edges)) }

  ghost predicate SpellEdges(ps: seq<Bytes>, es: seq<Edge>) {
    |ps| == |es| && forall i | 0 <= i < |es| :: SpellsEdge(ps[i], es[i])
  }

  lemma {:induction false} EdgesSet(m: EdgeGroup, ps: seq<Bytes>, es: seq<Edge>)
    requires SpellEdges(ps, es)
    ensures Sets(GroupHandler(), m, ListFields(1, ps), EdgeGroup(m.edges + es))
    decreases |es|
  {
    hide Fold, EncodeFields, Unmarshal, SpellsEdge;
    var h := GroupHandler();
    if |es| == 0 {
      assert m.edges + es == m.edges;
      Nothing(h, m);
    } else {
      var m1 := EdgeGroup(m.edges + [es[0]]);
      EdgeReads(ps[0], es[0]);
      One(h, m, LenField(1, ps[0]), m1);
      EdgesSet(m1, ps[1..], es[1..]);
      assert m1.edges + es[1..] == m.edges + es;
      assert ListFields(1, ps) == [LenField(1, ps[0])] + ListFields(1, ps[1..]);
      Then(h, m, [LenField(1, ps[0])], m1, ListFields(1, ps[1..]), EdgeGroup(m.edges + es));
    }
  }

  /** `p` is an encoding of `m`, with any undeclared fields in it and in its edges. */
  ghost predicate SpellsGroup(p: Bytes, m: EdgeGroup) { exists gs, ps :: IsGroupIn(gs, ps, p, m) }

  ghost predicate IsGroupIn(gs: seq<Field>, ps: seq<Bytes>, p: Bytes, m: EdgeGroup) {
    SpellEdges(ps, m.edges) && Carries(GroupHandler().schema, gs, ListFields(1, ps)) && p == EncodeFields(gs)
  }

  /** Every edge group is read back, its edges in order, with any undeclared fields in it and
      in its edges. */
  lemma {:induction false} GroupReads(p: Bytes, m: EdgeGroup)
    requires SpellsGroup(p, m)
    ensures Unmarshal(GroupHandler(), p, EMPTY_GROUP) == Ok(m)
  {
    hide Fold, Unmarshal, EncodeFields, SpellEdges, KnownFields;
    var gs, ps :| IsGroupIn(gs, ps, p, m);
    var h, own := GroupHandler(), ListFields(1, ps);
    EdgesSet(EMPTY_GROUP, ps, m.edges);
    assert EMPTY_GROUP.edges + m.edges == m.edges;
    DeclaredIsKnown(h.schema, own);
    Decodes(h, EMPTY_GROUP, gs, own);
  }

  lemma {:induction false} OwnSpellsGroup(m: EdgeGroup)
    requires GoodEdges(m) && |EncodeGroup(m)| <= TWO63
    ensures SpellsGroup(EncodeGroup(m), m)
  {
    hide EncodeFields, EncodeEdge, SpellsEdge;
    var own := EdgeListFields(m.edges);
    var ps := seq(|m.edges|, i requires 0 <= i < |m.edges| => EncodeEdge(m.edges[i]));
    forall i | 0 <= i < |m.edges| ensures SpellsEdge(ps[i], m.edges[i]) {
      SmallPayloads(own, i);
      OwnSpellsEdge(m.edges[i]);
    }
    assert own == ListFields(1, ps);
    OwnIsWellFormed(own);
    DeclaredIsKnown(GroupHandler().schema, own);
    assert IsGroupIn(own, ps, EncodeGroup(m), m);
  }

  // ---------------------------------------------------------------- map entries

  function EncodeMapEntry(k: Bytes, v: Bytes): Bytes { EncodeFields([LenField(1, k), LenField(2, v)]) }

  /** A length prefix and the bytes it announces. */
  function ReadPrefixed(s: Bytes, i: nat): (r: Result<(Bytes, nat)>)
  {
    VarintFromBounds(s, i, 0, 0);
    var (length, j) :- ReadVarint(s, i);
    if length >= TWO63 then Err(InvalidLength)
    else if j + length > |s| then Err(UnexpectedEof)
    else Ok((s[j..j + length], j + length))
  }

  /** Map entries are read as a key and then a value; their tags are not looked at. */
  function ReadMapEntry(s: Bytes): Result<(Bytes, Bytes)> {
    var (_, i) :- ReadVarint(s, 0);
    var (key, j) :- ReadPrefixed(s, i);
    var (_, k) :- ReadVarint(s, j);
    var (value, _) :- ReadPrefixed(s, k);
    Ok((key, value))
  }

  lemma {:induction false} PrefixedReads(s: Bytes, i: nat, num: nat, p: Bytes)
    requires 0 < num < 16 && |p| < TWO63 && At(s, i, EncodeField(LenField(num, p)))
    ensures var j := i + |Varint(Tag(num, 2))|;
      && ReadVarint(s, i) == Ok((Tag(num, 2), j))
      && ReadPrefixed(s, j) == Ok((p, i + |EncodeField(LenField(num, p))|))
  {
    FieldTagReads(s, i, LenField(num, p));
    var j := i + |Varint(Tag(num, 2))|;
    AtSplit(s, j, Varint(|p|), p);
    VarintRoundTrip(s, j, |p|);
  }

  lemma {:induction false} EncodedPair(a: Field, b: Field)
    ensures EncodeFields([a, b]) == EncodeField(a) + EncodeField(b)
  {
    assert [a, b][1..] == [b] && [b][1..] == [];
    assert EncodeFields([b]) == EncodeField(b) + [];
  }

  lemma {:induction false} MapEntryReads(k: Bytes, v: Bytes)
    requires |k| < TWO63 && |v| < TWO63
    ensures ReadMapEntry(EncodeMapEntry(k, v)) == Ok((k, v))
  {
    hide At, EncodeField, VarintFrom, Varint, ReadPrefixed;
    var s, a, b := EncodeMapEntry(k, v), EncodeField(LenField(1, k)), EncodeField(LenField(2, v));
    EncodedPair(LenField(1, k), LenField(2, v));
    assert s[0..|s|] == s;
    AtSplit(s, 0, a, b);
    PrefixedReads(s, 0, 1, k);
    PrefixedReads(s, |a|, 2, v);
  }

  // --------------------------------------------------------------------- Source

  ghost predicate GoodSource(m: Source) { forall k | k in m.edgeGroups :: GoodEdges(m.edgeGroups[k]) }

  /** An order in which a loop may visit the keys of a map. */
  ghost predicate IsOrderOf(order: seq<Bytes>, keys: set<Bytes>) {
    && (forall k :: k in order <==> k in keys)
    && (forall i, j | 0 <= i < j < |order| :: order[i] != order[j])
  }

  ghost function FactFields(facts: map<Bytes, Bytes>, order: seq<Bytes>): (fs: seq<Field>)
    requires forall i | 0 <= i < |order| :: order[i] in facts
    ensures |fs| == |order| && forall i | 0 <= i < |order| ::
      fs[i] == LenField(2, EncodeMapEntry(order[i], facts[order[i]]))
  {
    seq(|order|, i requires 0 <= i < |order| => LenField(2, EncodeMapEntry(order[i], facts[order[i]])))
  }

  ghost function GroupFields(groups: map<Bytes, EdgeGroup>, order: seq<Bytes>): (fs: seq<Field>)
    requires forall i | 0 <= i < |order| :: order[i] in groups && GoodEdges(groups[order[i]])
    ensures |fs| == |order|
    ensures forall i | 0 <= i < |order| :: fs[i] == LenField(3, EncodeMapEntry(order[i], EncodeGroup(groups[order[i]])))
  {
    seq(|order|, i requires 0 <= i < |order| => LenField(3, EncodeMapEntry(order[i], EncodeGroup(groups[order[i]]))))
  }

  /** Edge groups under their keys, spelled by the given bytes. */
  ghost function SpelledFields(values: map<Bytes, Bytes>, order: seq<Bytes>): (fs: seq<Field>)
    requires forall i | 0 <= i < |order| :: order[i] in values
    ensures |fs| == |order|
    ensures forall i | 0 <= i < |order| :: fs[i] == LenField(3, EncodeMapEntry(order[i], values[order[i]]))
  {
    seq(|order|, i requires 0 <= i < |order| => LenField(3, EncodeMapEntry(order[i], values[order[i]])))
  }

  ghost function SourceFieldsWith(
      m: Source, values: map<Bytes, Bytes>, factOrder: seq<Bytes>, groupOrder: seq<Bytes>): seq<Field>
    requires IsOrderOf(factOrder, m.facts.Keys) && IsOrderOf(groupOrder, values.Keys)
  {
    TextField(1, m.ticket) + FactFields(m.facts, factOrder) + SpelledFields(values, groupOrder)
  }

  ghost function SourceFields(m: Source, factOrder: seq<Bytes>, groupOrder: seq<Bytes>): seq<Field>
    requires GoodSource(m) && IsOrderOf(factOrder, m.facts.Keys) && IsOrderOf(groupOrder, m.edgeGroups.Keys)
  {
    TextField(1, m.ticket) + FactFields(m.facts, factOrder) + GroupFields(m.edgeGroups, groupOrder)
  }

  function SourceText(m: Source, num: nat, s: Bytes): Result<Source> {
    match num
    case 1 => Ok(m.(ticket := s))
    case 2 => var (k, v) :- ReadMapEntry(s); Ok(m.(facts := m.facts[k := v]))
    case _ =>
      var (k, v) :- ReadMapEntry(s);
      var g :- Unmarshal(GroupHandler(), v, EMPTY_GROUP);
      Ok(m.(edgeGroups := m.edgeGroups[k := g]))
  }

  function SourceHandler(): Handler<Source> { Handler(map[1 := Text, 2 := Text, 3 := Text], NoNumber, SourceText) }

  /** The part of a map under the keys of `order`. */
  ghost function Part<T>(m: map<Bytes, T>, order: seq<Bytes>): map<Bytes, T> { map k | k in order && k in m :: m[k] }

  lemma {:induction false} PartStep<T>(m: map<Bytes, T>, whole: map<Bytes, T>, order: seq<Bytes>)
    requires |order| > 0 && order[0] in whole
    ensures m[order[0] := whole[order[0]]] + Part(whole, order[1..]) == m + Part(whole, order)
  {
    assert forall k :: k in order <==> k == order[0] || k in order[1..];
  }

  lemma {:induction false} FactStep(m: Source, k: Bytes, v: Bytes)
    requires |k| < TWO63 && |v| < TWO63
    ensures Sets(SourceHandler(), m, [LenField(2, EncodeMapEntry(k, v))], m.(facts := m.facts[k := v]))
  {
    MapEntryReads(k, v);
    One(SourceHandler(), m, LenField(2, EncodeMapEntry(k, v)), m.(facts := m.facts[k := v]));
  }

  lemma {:induction false} FactsSet(m: Source, facts: map<Bytes, Bytes>, order: seq<Bytes>)
    requires forall i | 0 <= i < |order| :: order[i] in facts && |order[i]| < TWO63 && |facts[order[i]]| < TWO63
    ensures Sets(SourceHandler(), m, FactFields(facts, order), m.(facts := m.facts + Part(facts, order)))
    decreases |order|
  {
    if |order| == 0 {
      assert m.facts + Part(facts, order) == m.facts;
    } else {
      var k, rest := order[0], order[1..];
      var m1 := m.(facts := m.facts[k := facts[k]]);
      FactStep(m, k, facts[k]);
      FactsSet(m1, facts, rest);
      PartStep(m.facts, facts, order);
      var fs := FactFields(facts, order);
      assert fs == [fs[0]] + FactFields(facts, rest);
      Then(SourceHandler(), m, [fs[0]], m1, FactFields(facts, rest), m1.(facts := m1.facts + Part(facts, rest)));
    }
  }

  ghost predicate SmallGroup(k: Bytes, g: EdgeGroup)
    requires GoodEdges(g)
  { |k| < TWO63 && |EncodeGroup(g)| < TWO63 }

  /** The bytes spell the edge groups, key by key, and are no larger than a Go slice can be. */
  ghost predicate SpellGroups(values: map<Bytes, Bytes>, groups: map<Bytes, EdgeGroup>) {
    && values.Keys == groups.Keys
    && forall k | k in values :: |k| < TWO63 && |values[k]| < TWO63 && SpellsGroup(values[k], groups[k])
  }

  lemma {:induction false} GroupStep(m: Source, k: Bytes, p: Bytes, g: EdgeGroup)
    requires |k| < TWO63 && |p| < TWO63 && SpellsGroup(p, g)
    ensures Sets(SourceHandler(), m, [LenField(3, EncodeMapEntry(k, p))], m.(edgeGroups := m.edgeGroups[k := g]))
  {
    MapEntryReads(k, p);
    GroupReads(p, g);
    One(SourceHandler(), m, LenField(3, EncodeMapEntry(k, p)), m.(edgeGroups := m.edgeGroups[k := g]));
  }

  lemma {:induction false} GroupsSet(
    m: Source, values: map<Bytes, Bytes>, groups: map<Bytes, EdgeGroup>, order: seq<Bytes>)
    requires SpellGroups(values, groups) && forall i | 0 <= i < |order| :: order[i] in values
    ensures Sets(SourceHandler(), m, SpelledFields(values, order), m.(edgeGroups := m.edgeGroups + Part(groups, order)))
    decreases |order|
  {
    hide SpellsGroup, Fold, EncodeMapEntry;
    if |order| == 0 {
      assert m.edgeGroups + Part(groups, order) == m.edgeGroups;
      Nothing(SourceHandler(), m);
    } else {
      var k, rest := order[0], order[1..];
      var m1 := m.(edgeGroups := m.edgeGroups[k := groups[k]]);
      GroupStep(m, k, values[k], groups[k]);
      GroupsSet(m1, values, groups, rest);
      PartStep(m.edgeGroups, groups, order);
      var fs := SpelledFields(values, order);
      assert fs == [fs[0]] + SpelledFields(values, rest);
      var last := m1.(edgeGroups := m1.edgeGroups + Part(groups, rest));
      Then(SourceHandler(), m, [fs[0]], m1, SpelledFields(values, rest), last);
    }
  }

  ghost predicate SmallFacts(facts: map<Bytes, Bytes>) {
    forall k | k in facts :: |k| < TWO63 && |facts[k]| < TWO63
  }

  ghost predicate SmallSource(m: Source)
    requires GoodSource(m)
  {
    SmallFacts(m.facts) && forall k | k in m.edgeGroups :: SmallGroup(k, m.edgeGroups[k])
  }

  /** For every source, every order in which its maps are visited, and any undeclared fields
      between its own, inside its edge groups and inside their edges. */
  lemma {:induction false} SourceRoundTrip(
      m: Source, values: map<Bytes, Bytes>, factOrder: seq<Bytes>, groupOrder: seq<Bytes>, fs: seq<Field>)
    requires SmallFacts(m.facts) && SpellGroups(values, m.edgeGroups)
    requires IsOrderOf(factOrder, m.facts.Keys) && IsOrderOf(groupOrder, values.Keys)
    requires Carries(SourceHandler().schema, fs, SourceFieldsWith(m, values, factOrder, groupOrder))
    ensures Unmarshal(SourceHandler(), EncodeFields(fs), EMPTY_SOURCE) == Ok(m)
  {
    var h, own := SourceHandler(), SourceFieldsWith(m, values, factOrder, groupOrder);
    SourceSets(m, values, factOrder, groupOrder);
    SourceIsDeclared(m, values, factOrder, groupOrder);
    DeclaredIsKnown(h.schema, own);
    Decodes(h, EMPTY_SOURCE, fs, own);
  }

  lemma {:induction false} PartOfAll<T>(m: map<Bytes, T>, order: seq<Bytes>)
    requires IsOrderOf(order, m.Keys)
    ensures map[] + Part(m, order) == m
  {
  }

  lemma {:induction false} SourceIsDeclared(
      m: Source, values: map<Bytes, Bytes>, factOrder: seq<Bytes>, groupOrder: seq<Bytes>)
    requires IsOrderOf(factOrder, m.facts.Keys) && IsOrderOf(groupOrder, values.Keys)
    ensures Declared(SourceHandler().schema, SourceFieldsWith(m, values, factOrder, groupOrder))
  {
    var f1, f2, f3 := TextField(1, m.ticket), FactFields(m.facts, factOrder), SpelledFields(values, groupOrder);
    assert SourceFieldsWith(m, values, factOrder, groupOrder) == f1 + f2 + f3;
  }

  lemma {:induction false} SourceSets(
      m: Source, values: map<Bytes, Bytes>, factOrder: seq<Bytes>, groupOrder: seq<Bytes>)
    requires SmallFacts(m.facts) && SpellGroups(values, m.edgeGroups)
    requires IsOrderOf(factOrder, m.facts.Keys) && IsOrderOf(groupOrder, values.Keys)
    ensures Sets(SourceHandler(), EMPTY_SOURCE, SourceFieldsWith(m, values, factOrder, groupOrder), m)
  {
    hide Fold, Unmarshal;
    var h := SourceHandler();
    var f1, f2, f3 := TextField(1, m.ticket), FactFields(m.facts, factOrder), SpelledFields(values, groupOrder);
    var m1 := EMPTY_SOURCE.(ticket := m.ticket);
    var m2 := m1.(facts := m.facts);
    SetText(h, EMPTY_SOURCE, 1, m.ticket, m1);
    assert Sets(h, m1, f2, m2) by {
      FactsSet(m1, m.facts, factOrder);
      PartOfAll(m.facts, factOrder);
    }
    assert Sets(h, m2, f3, m) by {
      GroupsSet(m2, values, m.edgeGroups, groupOrder);
      PartOfAll(m.edgeGroups, groupOrder);
    }
    hide Sets;
    Then(h, EMPTY_SOURCE, f1, m1, f2, m2);
    Then(h, EMPTY_SOURCE, f1 + f2, m2, f3, m);
  }

  /** What `MarshalTo` writes for the edge groups. */
  ghost function OwnValues(m: Source): map<Bytes, Bytes>
    requires GoodSource(m)
  {
    map k | k in m.edgeGroups :: EncodeGroup(m.edgeGroups[k])
  }

  lemma {:induction false} OwnSpellsGroups(m: Source, factOrder: seq<Bytes>, groupOrder: seq<Bytes>)
    requires GoodSource(m) && SmallSource(m)
    requires IsOrderOf(factOrder, m.facts.Keys) && IsOrderOf(groupOrder, m.edgeGroups.Keys)
    ensures SpellGroups(OwnValues(m), m.edgeGroups) && OwnValues(m).Keys == m.edgeGroups.Keys
    ensures SourceFields(m, factOrder, groupOrder) == SourceFieldsWith(m, OwnValues(m), factOrder, groupOrder)
  {
    hide SpellsGroup, EncodeGroup, EncodeMapEntry;
    assert OwnValues(m).Keys == m.edgeGroups.Keys;
    forall k | k in m.edgeGroups ensures SpellsGroup(OwnValues(m)[k], m.edgeGroups[k]) {
      OwnSpellsGroup(m.edgeGroups[k]);
    }
    assert GroupFields(m.edgeGroups, groupOrder) == SpelledFields(OwnValues(m), groupOrder);
  }
}
