/** Writing the repeated and map fields of `EdgeGroup` and `Source` in
    place.  `Size` and `MarshalTo` each visit a map in an order of their own, and still
    agree on the number of bytes. */
module SourceMachine {
  import opened Wire
  import opened Messages
  import opened SourceMessages
  import opened WireMachine

  // ------------------------------------------------------- sizes of unordered fields

  /** The bytes taken by the fields of a map, in no particular order. */
  ghost function TotalSize(m: map<Bytes, Field>): nat
    decreases |m|
  {
    if m == map[] then 0
    else
      var k :| k in m;
      |EncodeField(m[k])| + TotalSize(m - {k})
  }

  lemma {:induction false} TotalSizeWithout(m: map<Bytes, Field>, k: Bytes)
    requires k in m
    ensures TotalSize(m) == |EncodeField(m[k])| + TotalSize(m - {k})
    decreases |m|
  {
    var first :| first in m && TotalSize(m) == |EncodeField(m[first])| + TotalSize(m - {first});
    if first != k {
      TotalSizeWithout(m - {first}, k);
      TotalSizeWithout(m - {k}, first);
      assert m - {first} - {k} == m - {k} - {first};
    }
  }

  ghost function FactEntries(facts: map<Bytes, Bytes>): map<Bytes, Field> {
    map k | k in facts :: LenField(2, EncodeMapEntry(k, facts[k]))
  }

  ghost function GroupEntries(groups: map<Bytes, EdgeGroup>): map<Bytes, Field>
    requires forall k | k in groups :: GoodEdges(groups[k])
  {
    map k | k in groups :: LenField(3, EncodeMapEntry(k, EncodeGroup(groups[k])))
  }

  /** The fields of `m` in the given order take `TotalSize(m)` bytes, whatever the order. */
  lemma {:induction false} OrderDoesNotMatter(m: map<Bytes, Field>, order: seq<Bytes>, fs: seq<Field>)
    requires IsOrderOf(order, m.Keys) && |fs| == |order| && forall i | 0 <= i < |order| :: fs[i] == m[order[i]]
    ensures |EncodeFields(fs)| == TotalSize(m)
    decreases |order|
  {
    if |order| == 0 {
      assert forall k :: k !in m.Keys;
    } else {
      var k := order[0];
      TotalSizeWithout(m, k);
      assert IsOrderOf(order[1..], (m - {k}).Keys);
      OrderDoesNotMatter(m - {k}, order[1..], fs[1..]);
    }
  }

  ghost function SourceSizeOf(m: Source): nat
    requires GoodSource(m)
  {
    |EncodeFields(TextField(1, m.ticket))| + TotalSize(FactEntries(m.facts)) + TotalSize(GroupEntries(m.edgeGroups))
  }

  /** So the size of a source does not depend on how its maps are visited. */
  lemma {:induction false} SourceSizeIsOrderFree(m: Source, factOrder: seq<Bytes>, groupOrder: seq<Bytes>)
    requires GoodSource(m) && IsOrderOf(factOrder, m.facts.Keys) && IsOrderOf(groupOrder, m.edgeGroups.Keys)
    ensures |EncodeFields(SourceFields(m, factOrder, groupOrder))| == SourceSizeOf(m)
  {
    assert FactEntries(m.facts).Keys == m.facts.Keys && GroupEntries(m.edgeGroups).Keys == m.edgeGroups.Keys;
    OrderDoesNotMatter(FactEntries(m.facts), factOrder, FactFields(m.facts, factOrder));
    OrderDoesNotMatter(GroupEntries(m.edgeGroups), groupOrder, GroupFields(m.edgeGroups, groupOrder));
    Concat3(TextField(1, m.ticket), FactFields(m.facts, factOrder), GroupFields(m.edgeGroups, groupOrder));
  }

  // ------------------------------------------------------------- edges and edge groups

  method EdgeSize(m: Edge) returns (n: nat)
    requires Int32(m.ordinal)
    ensures n == |EncodeEdge(m)|
  {
    n := TextSize(1, m.ticket);
    EncodeAppend(TextField(1, m.ticket), NumberField(2, FromSigned(m.ordinal)));
    if m.ordinal != 0 {
      var l := Sov(FromSigned(m.ordinal));
      n := n + 1 + l;
      EncodedOne(VarintField(2, FromSigned(m.ordinal)));
      TagByte(2, 0);
    }
  }

  method MarshalEdge(data: array<Byte>, offset: nat, m: Edge) returns (i: nat)
    requires Int32(m.ordinal) && offset + |EncodeEdge(m)| <= data.Length
    modifies data
    ensures i == offset + |EncodeEdge(m)| && data[..] == Splice(old(data[..]), offset, EncodeEdge(m))
  {
    var v := FromSigned(m.ordinal);
    EncodeAppend(TextField(1, m.ticket), NumberField(2, v));
    i := PutText(data, offset, 1, m.ticket);
    i := PutNumber(data, i, 2, v);
    SpliceTwice(old(data[..]), offset, EncodeFields(TextField(1, m.ticket)), EncodeFields(NumberField(2, v)));
  }

  method PutEdge(data: array<Byte>, offset: nat, m: Edge) returns (i: nat)
    requires Int32(m.ordinal) && offset + |EncodeField(LenField(1, EncodeEdge(m)))| <= data.Length
    modifies data
    ensures i == offset + |EncodeField(LenField(1, EncodeEdge(m)))|
    ensures data[..] == Splice(old(data[..]), offset, EncodeField(LenField(1, EncodeEdge(m))))
  {
    HeaderThen(1, EncodeEdge(m));
    var size := EdgeSize(m);
    i := PutHeader(data, offset, 1, size);
    i := MarshalEdge(data, i, m);
    SpliceTwice(old(data[..]), offset, [Tag(1, 2)] + Varint(size), EncodeEdge(m));
  }

  lemma {:induction false} EdgeListGrows(es: seq<Edge>, n: nat)
    requires n < |es| && forall i | 0 <= i < |es| :: Int32(es[i].ordinal)
    ensures EncodeFields(EdgeListFields(es[..n + 1]))
         == EncodeFields(EdgeListFields(es[..n])) + EncodeField(LenField(1, EncodeEdge(es[n])))
  {
    assert EdgeListFields(es[..n + 1]) == EdgeListFields(es[..n]) + [LenField(1, EncodeEdge(es[n]))];
    EncodeAppend(EdgeListFields(es[..n]), [LenField(1, EncodeEdge(es[n]))]);
    EncodedOne(LenField(1, EncodeEdge(es[n])));
  }

  lemma {:induction false} EdgePrefixFits(es: seq<Edge>, n: nat)
    requires n <= |es| && forall i | 0 <= i < |es| :: Int32(es[i].ordinal)
    ensures |EncodeFields(EdgeListFields(es[..n]))| <= |EncodeFields(EdgeListFields(es))|
  {
    assert EdgeListFields(es) == EdgeListFields(es[..n]) + EdgeListFields(es[n..]);
    EncodeAppend(EdgeListFields(es[..n]), EdgeListFields(es[n..]));
  }

  method GroupSize(m: EdgeGroup) returns (n: nat)
    requires GoodEdges(m)
    ensures n == |EncodeGroup(m)|
  {
    n := 0;
    for j := 0 to |m.edges|
      invariant n == |EncodeFields(EdgeListFields(m.edges[..j]))|
    {
      var l := EdgeSize(m.edges[j]);
      var s := Sov(l);
      n := n + 1 + l + s;
      EdgeListGrows(m.edges, j);
      HeaderThen(1, EncodeEdge(m.edges[j]));
    }
    assert m.edges[..|m.edges|] == m.edges;
  }

  method MarshalGroup(data: array<Byte>, offset: nat, m: EdgeGroup) returns (i: nat)
    requires GoodEdges(m) && offset + |EncodeGroup(m)| <= data.Length
    modifies data
    ensures i == offset + |EncodeGroup(m)| && data[..] == Splice(old(data[..]), offset, EncodeGroup(m))
  {
    hide Splice, EncodeFields, EncodeField;
    i := offset;
    SpliceNothing(data[..], offset);
    assert EdgeListFields(m.edges[..0]) == [];
    EncodeNothing();
    for j := 0 to |m.edges|
      invariant i == offset + |EncodeFields(EdgeListFields(m.edges[..j]))| <= data.Length
      invariant data[..] == Splice(old(data[..]), offset, EncodeFields(EdgeListFields(m.edges[..j])))
    {
      ghost var done, bytes := EncodeFields(EdgeListFields(m.edges[..j])),
        EncodeField(LenField(1, EncodeEdge(m.edges[j])));
      EdgeListGrows(m.edges, j);
      EdgePrefixFits(m.edges, j + 1);
      i := PutEdge(data, i, m.edges[j]);
      SpliceTwice(old(data[..]), offset, done, bytes);
    }
    assert m.edges[..|m.edges|] == m.edges;
  }

  // ------------------------------------------------------------------- map entries

  method PrefixedSize(num: nat, s: Bytes) returns (n: nat)
    requires num < 16
    ensures n == |EncodeField(LenField(num, s))|
  {
    var l := Sov(|s|);
    n := 1 + |s| + l;
    HeaderThen(num, s);
  }

  /** Keys and values are written even when they are empty. */
  method PutPrefixed(data: array<Byte>, offset: nat, num: nat, s: Bytes) returns (i: nat)
    requires num < 16 && offset + |EncodeField(LenField(num, s))| <= data.Length
    modifies data
    ensures i == offset + |EncodeField(LenField(num, s))|
    ensures data[..] == Splice(old(data[..]), offset, EncodeField(LenField(num, s)))
  {
    HeaderThen(num, s);
    i := PutHeader(data, offset, num, |s|);
    i := CopyInto(data, i, s);
    SpliceTwice(old(data[..]), offset, [Tag(num, 2)] + Varint(|s|), s);
  }

  method PairSize(k: Bytes, v: Bytes) returns (n: nat)
    ensures n == |EncodeMapEntry(k, v)|
  {
    var a := PrefixedSize(1, k);
    var b := PrefixedSize(2, v);
    EncodedPair(LenField(1, k), LenField(2, v));
    n := a + b;
  }

  method PutPair(data: array<Byte>, offset: nat, k: Bytes, v: Bytes) returns (i: nat)
    requires offset + |EncodeMapEntry(k, v)| <= data.Length
    modifies data
    ensures i == offset + |EncodeMapEntry(k, v)| && data[..] == Splice(old(data[..]), offset, EncodeMapEntry(k, v))
  {
    EncodedPair(LenField(1, k), LenField(2, v));
    i := PutPrefixed(data, offset, 1, k);
    i := PutPrefixed(data, i, 2, v);
    SpliceTwice(old(data[..]), offset, EncodeField(LenField(1, k)), EncodeField(LenField(2, v)));
  }

  method FactSize(k: Bytes, v: Bytes) returns (n: nat)
    ensures n == |EncodeField(LenField(2, EncodeMapEntry(k, v)))|
  {
    var size := PairSize(k, v);
    var l := Sov(size);
    HeaderThen(2, EncodeMapEntry(k, v));
    n := size + 1 + l;
  }

  method PutFact(data: array<Byte>, offset: nat, k: Bytes, v: Bytes) returns (i: nat)
    requires offset + |EncodeField(LenField(2, EncodeMapEntry(k, v)))| <= data.Length
    modifies data
    ensures i == offset + |EncodeField(LenField(2, EncodeMapEntry(k, v)))|
    ensures data[..] == Splice(old(data[..]), offset, EncodeField(LenField(2, EncodeMapEntry(k, v))))
  {
    HeaderThen(2, EncodeMapEntry(k, v));
    var size := PairSize(k, v);
    i := PutHeader(data, offset, 2, size);
    i := PutPair(data, i, k, v);
    SpliceTwice(old(data[..]), offset, [Tag(2, 2)] + Varint(size), EncodeMapEntry(k, v));
  }

  method PutNested(data: array<Byte>, offset: nat, g: EdgeGroup) returns (i: nat)
    requires GoodEdges(g) && offset + |EncodeField(LenField(2, EncodeGroup(g)))| <= data.Length
    modifies data
    ensures i == offset + |EncodeField(LenField(2, EncodeGroup(g)))|
    ensures data[..] == Splice(old(data[..]), offset, EncodeField(LenField(2, EncodeGroup(g))))
  {
    HeaderThen(2, EncodeGroup(g));
    var size := GroupSize(g);
    i := PutHeader(data, offset, 2, size);
    i := MarshalGroup(data, i, g);
    SpliceTwice(old(data[..]), offset, [Tag(2, 2)] + Varint(size), EncodeGroup(g));
  }

  method GroupPairSize(k: Bytes, g: EdgeGroup) returns (n: nat)
    requires GoodEdges(g)
    ensures n == |EncodeMapEntry(k, EncodeGroup(g))|
  {
    var msgSize := GroupSize(g);
    var a := PrefixedSize(1, k);
    var l := Sov(msgSize);
    HeaderThen(2, EncodeGroup(g));
    EncodedPair(LenField(1, k), LenField(2, EncodeGroup(g)));
    n := a + 1 + msgSize + l;
  }

  method PutGroupPair(data: array<Byte>, offset: nat, k: Bytes, g: EdgeGroup) returns (i: nat)
    requires GoodEdges(g) && offset + |EncodeMapEntry(k, EncodeGroup(g))| <= data.Length
    modifies data
    ensures i == offset + |EncodeMapEntry(k, EncodeGroup(g))|
    ensures data[..] == Splice(old(data[..]), offset, EncodeMapEntry(k, EncodeGroup(g)))
  {
    EncodedPair(LenField(1, k), LenField(2, EncodeGroup(g)));
    i := PutPrefixed(data, offset, 1, k);
    i := PutNested(data, i, g);
    SpliceTwice(old(data[..]), offset, EncodeField(LenField(1, k)), EncodeField(LenField(2, EncodeGroup(g))));
  }

  method GroupEntrySize(k: Bytes, g: EdgeGroup) returns (n: nat)
    requires GoodEdges(g)
    ensures n == |EncodeField(LenField(3, EncodeMapEntry(k, EncodeGroup(g))))|
  {
    var size := GroupPairSize(k, g);
    var l := Sov(size);
    HeaderThen(3, EncodeMapEntry(k, EncodeGroup(g)));
    n := size + 1 + l;
  }

  method PutGroup(data: array<Byte>, offset: nat, k: Bytes, g: EdgeGroup) returns (i: nat)
    requires GoodEdges(g) && offset + |EncodeField(LenField(3, EncodeMapEntry(k, EncodeGroup(g))))| <= data.Length
    modifies data
    ensures i == offset + |EncodeField(LenField(3, EncodeMapEntry(k, EncodeGroup(g))))|
    ensures data[..] == Splice(old(data[..]), offset, EncodeField(LenField(3, EncodeMapEntry(k, EncodeGroup(g)))))
  {
    HeaderThen(3, EncodeMapEntry(k, EncodeGroup(g)));
    var size := GroupPairSize(k, g);
    i := PutHeader(data, offset, 3, size);
    i := PutGroupPair(data, i, k, g);
    SpliceTwice(old(data[..]), offset, [Tag(3, 2)] + Varint(size), EncodeMapEntry(k, EncodeGroup(g)));
  }

  // ------------------------------------------------------------------------ Source

  method FactsSize(m: map<Bytes, Bytes>) returns (n: nat)
    ensures n == TotalSize(FactEntries(m))
  {
    n := 0;
    var facts := m;
    while facts != map[]
      invariant n + TotalSize(FactEntries(facts)) == TotalSize(FactEntries(m))
      decreases |facts|
    {
      var k :| k in facts;
      var size := FactSize(k, facts[k]);
      TotalSizeWithout(FactEntries(facts), k);
      assert FactEntries(facts - {k}) == FactEntries(facts) - {k};
      n, facts := n + size, facts - {k};
    }
    assert FactEntries(facts) == map[];
  }

  method GroupsSize(m: map<Bytes, EdgeGroup>) returns (n: nat)
    requires forall k | k in m :: GoodEdges(m[k])
    ensures n == TotalSize(GroupEntries(m))
  {
    n := 0;
    var groups := m;
    while groups != map[]
      invariant forall k | k in groups :: GoodEdges(groups[k])
      invariant n + TotalSize(GroupEntries(groups)) == TotalSize(GroupEntries(m))
      decreases |groups|
    {
      var k :| k in groups;
      var size := GroupEntrySize(k, groups[k]);
      TotalSizeWithout(GroupEntries(groups), k);
      assert GroupEntries(groups - {k}) == GroupEntries(groups) - {k};
      n, groups := n + size, groups - {k};
    }
    assert GroupEntries(groups) == map[];
  }

  method SourceSize(m: Source) returns (n: nat)
    requires GoodSource(m)
    ensures n == SourceSizeOf(m)
  {
    var a := TextSize(1, m.ticket);
    var b := FactsSize(m.facts);
    var c := GroupsSize(m.edgeGroups);
    n := a + b + c;
  }

  lemma {:induction false} OrderGrows(order: seq<Bytes>, done: set<Bytes>, k: Bytes)
    requires IsOrderOf(order, done) && k !in done
    ensures IsOrderOf(order + [k], done + {k})
  {
  }

  lemma {:induction false} KeysGrow<T>(m: map<Bytes, T>, left: map<Bytes, T>, order: seq<Bytes>, k: Bytes)
    requires left.Keys <= m.Keys && k in left && IsOrderOf(order, m.Keys - left.Keys)
    ensures IsOrderOf(order + [k], m.Keys - (left - {k}).Keys)
  {
    OrderGrows(order, m.Keys - left.Keys, k);
    assert m.Keys - (left - {k}).Keys == m.Keys - left.Keys + {k};
  }

  lemma {:induction false} FactsShrink(left: map<Bytes, Bytes>, k: Bytes)
    requires k in left
    ensures TotalSize(FactEntries(left))
         == |EncodeField(LenField(2, EncodeMapEntry(k, left[k])))| + TotalSize(FactEntries(left - {k}))
  {
    TotalSizeWithout(FactEntries(left), k);
    assert FactEntries(left - {k}) == FactEntries(left) - {k};
  }

  lemma {:induction false} FactsGrow(m: map<Bytes, Bytes>, left: map<Bytes, Bytes>, order: seq<Bytes>, k: Bytes)
    requires left.Keys <= m.Keys && (forall k | k in left :: left[k] == m[k]) && k in left
    requires IsOrderOf(order, m.Keys - left.Keys) && forall n | 0 <= n < |order| :: order[n] in m
    ensures var f := LenField(2, EncodeMapEntry(k, left[k]));
      && IsOrderOf(order + [k], m.Keys - (left - {k}).Keys)
      && (forall n | 0 <= n < |order + [k]| :: (order + [k])[n] in m)
      && EncodeFields(FactFields(m, order + [k])) == EncodeFields(FactFields(m, order)) + EncodeField(f)
      && TotalSize(FactEntries(left)) == |EncodeField(f)| + TotalSize(FactEntries(left - {k}))
  {
    hide TotalSize, FactEntries, EncodeMapEntry, EncodeField, EncodeFields;
    var f := LenField(2, EncodeMapEntry(k, left[k]));
    KeysGrow(m, left, order, k);
    assert FactFields(m, order + [k]) == FactFields(m, order) + [f];
    EncodeAppend(FactFields(m, order), [f]);
    EncodedOne(f);
    FactsShrink(left, k);
  }

  lemma {:induction false} FactsStartAndEnd(m: map<Bytes, Bytes>)
    ensures EncodeFields(FactFields(m, [])) == [] && IsOrderOf([], m.Keys - m.Keys)
    ensures TotalSize(FactEntries(map[])) == 0
  {
    assert FactFields(m, []) == [];
  }

  /** The entries of the keys no longer in `left` have been written, in `order`. */
  ghost predicate FactsWritten(
    m: map<Bytes, Bytes>, left: map<Bytes, Bytes>, order: seq<Bytes>, i: nat, offset: nat, before: Bytes, now: Bytes)
    requires offset + TotalSize(FactEntries(m)) <= |before|
  {
    && left.Keys <= m.Keys && (forall k | k in left :: left[k] == m[k])
    && IsOrderOf(order, m.Keys - left.Keys) && (forall n | 0 <= n < |order| :: order[n] in m)
    && i == offset + |EncodeFields(FactFields(m, order))|
    && i + TotalSize(FactEntries(left)) == offset + TotalSize(FactEntries(m))
    && now == Splice(before, offset, EncodeFields(FactFields(m, order)))
  }

  method PutOneOfFacts(data: array<Byte>, at: nat, k: Bytes, ghost m: map<Bytes, Bytes>, left: map<Bytes, Bytes>,
                     ghost order: seq<Bytes>, ghost offset: nat, ghost before: Bytes)
    returns (i: nat)
    requires k in left && offset + TotalSize(FactEntries(m)) <= |before| == data.Length
    requires FactsWritten(m, left, order, at, offset, before, data[..])
    modifies data
    ensures FactsWritten(m, left - {k}, order + [k], i, offset, before, data[..])
  {
    FactsGrow(m, left, order, k);
    ghost var done, bytes := EncodeFields(FactFields(m, order)), EncodeField(LenField(2, EncodeMapEntry(k, left[k])));
    hide Splice, EncodeFields, EncodeField, TotalSize, IsOrderOf, FactEntries;
    i := PutFact(data, at, k, left[k]);
    SpliceTwice(before, offset, done, bytes);
  }

  /** Writes the entries in the order the keys happen to come. */
  method PutFacts(data: array<Byte>, offset: nat, m: map<Bytes, Bytes>) returns (i: nat, ghost order: seq<Bytes>)
    requires offset + TotalSize(FactEntries(m)) <= data.Length
    modifies data
    ensures IsOrderOf(order, m.Keys)
      && i == offset + TotalSize(FactEntries(m)) == offset + |EncodeFields(FactFields(m, order))|
    ensures data[..] == Splice(old(data[..]), offset, EncodeFields(FactFields(m, order)))
  {
    FactsStartAndEnd(m);
    SpliceNothing(data[..], offset);
    i, order := offset, [];
    var left := m;
    while left != map[]
      invariant FactsWritten(m, left, order, i, offset, old(data[..]), data[..])
      decreases |left|
    {
      var k :| k in left;
      i := PutOneOfFacts(data, i, k, m, left, order, offset, old(data[..]));
      left, order := left - {k}, order + [k];
    }
    assert m.Keys - left.Keys == m.Keys;
  }

  lemma {:induction false} GroupsShrink(left: map<Bytes, EdgeGroup>, k: Bytes)
    requires (forall k | k in left :: GoodEdges(left[k])) && k in left
    ensures TotalSize(GroupEntries(left))
         == |EncodeField(LenField(3, EncodeMapEntry(k, EncodeGroup(left[k]))))| + TotalSize(GroupEntries(left - {k}))
  {
    TotalSizeWithout(GroupEntries(left), k);
    assert GroupEntries(left - {k}) == GroupEntries(left) - {k};
  }

  lemma {:induction false} GroupsGrow(
    m: map<Bytes, EdgeGroup>, left: map<Bytes, EdgeGroup>, order: seq<Bytes>, k: Bytes)
    requires (forall k | k in m :: GoodEdges(m[k])) && left.Keys <= m.Keys
      && (forall k | k in left :: left[k] == m[k]) && k in left
    requires IsOrderOf(order, m.Keys - left.Keys) && forall n | 0 <= n < |order| :: order[n] in m
    ensures var f := LenField(3, EncodeMapEntry(k, EncodeGroup(left[k])));
      && IsOrderOf(order + [k], m.Keys - (left - {k}).Keys)
      && (forall n | 0 <= n < |order + [k]| :: (order + [k])[n] in m)
      && EncodeFields(GroupFields(m, order + [k])) == EncodeFields(GroupFields(m, order)) + EncodeField(f)
      && TotalSize(GroupEntries(left)) == |EncodeField(f)| + TotalSize(GroupEntries(left - {k}))
  {
    hide TotalSize, GroupEntries, EncodeMapEntry, EncodeField, EncodeFields;
    var f := LenField(3, EncodeMapEntry(k, EncodeGroup(left[k])));
    KeysGrow(m, left, order, k);
    assert GroupFields(m, order + [k]) == GroupFields(m, order) + [f];
    EncodeAppend(GroupFields(m, order), [f]);
    EncodedOne(f);
    GroupsShrink(left, k);
  }

  lemma {:induction false} GroupsStartAndEnd(m: map<Bytes, EdgeGroup>)
    requires forall k | k in m :: GoodEdges(m[k])
    ensures EncodeFields(GroupFields(m, [])) == [] && IsOrderOf([], m.Keys - m.Keys)
    ensures TotalSize(GroupEntries(map[])) == 0
  {
    assert GroupFields(m, []) == [];
  }

  /** The entries of the keys no longer in `left` have been written, in `order`. */
  ghost predicate GroupsWritten(
    m: map<Bytes, EdgeGroup>, left: map<Bytes, EdgeGroup>, order: seq<Bytes>, i: nat, offset: nat, before: Bytes,
    now: Bytes)
    requires (forall k | k in m :: GoodEdges(m[k])) && offset + TotalSize(GroupEntries(m)) <= |before|
  {
    && left.Keys <= m.Keys && (forall k | k in left :: left[k] == m[k])
    && IsOrderOf(order, m.Keys - left.Keys) && (forall n | 0 <= n < |order| :: order[n] in m)
    && i == offset + |EncodeFields(GroupFields(m, order))|
    && i + TotalSize(GroupEntries(left)) == offset + TotalSize(GroupEntries(m))
    && now == Splice(before, offset, EncodeFields(GroupFields(m, order)))
  }

  method PutOneOfGroups(
    data: array<Byte>, at: nat, k: Bytes, ghost m: map<Bytes, EdgeGroup>, left: map<Bytes, EdgeGroup>,
    ghost order: seq<Bytes>, ghost offset: nat, ghost before: Bytes)
    returns (i: nat)
    requires (forall k | k in m :: GoodEdges(m[k])) && k in left
      && offset + TotalSize(GroupEntries(m)) <= |before| == data.Length
    requires GroupsWritten(m, left, order, at, offset, before, data[..])
    modifies data
    ensures GroupsWritten(m, left - {k}, order + [k], i, offset, before, data[..])
  {
    hide Splice, EncodeFields, EncodeField, TotalSize, IsOrderOf, GroupEntries;
    GroupsGrow(m, left, order, k);
    ghost var done, bytes := EncodeFields(GroupFields(m, order)),
      EncodeField(LenField(3, EncodeMapEntry(k, EncodeGroup(left[k]))));
    i := PutGroup(data, at, k, left[k]);
    SpliceTwice(before, offset, done, bytes);
  }

  /** Writes the entries in the order the keys happen to come. */
  method PutGroups(data: array<Byte>, offset: nat, m: map<Bytes, EdgeGroup>) returns (i: nat, ghost order: seq<Bytes>)
    requires (forall k | k in m :: GoodEdges(m[k])) && offset + TotalSize(GroupEntries(m)) <= data.Length
    modifies data
    ensures IsOrderOf(order, m.Keys)
      && i == offset + TotalSize(GroupEntries(m)) == offset + |EncodeFields(GroupFields(m, order))|
    ensures data[..] == Splice(old(data[..]), offset, EncodeFields(GroupFields(m, order)))
  {
    GroupsStartAndEnd(m);
    SpliceNothing(data[..], offset);
    i, order := offset, [];
    var left := m;
    while left != map[]
      invariant GroupsWritten(m, left, order, i, offset, old(data[..]), data[..])
      decreases |left|
    {
      var k :| k in left;
      i := PutOneOfGroups(data, i, k, m, left, order, offset, old(data[..]));
      left, order := left - {k}, order + [k];
    }
    assert m.Keys - left.Keys == m.Keys;
  }

  /** Writes exactly `Size()` bytes, whatever order the maps are visited in. */
  method MarshalSource(data: array<Byte>, offset: nat, m: Source)
    returns (i: nat, ghost factOrder: seq<Bytes>, ghost groupOrder: seq<Bytes>)
    requires GoodSource(m) && offset + SourceSizeOf(m) <= data.Length
    modifies data
    ensures IsOrderOf(factOrder, m.facts.Keys) && IsOrderOf(groupOrder, m.edgeGroups.Keys)
    ensures i == offset + SourceSizeOf(m) == offset + |EncodeFields(SourceFields(m, factOrder, groupOrder))|
    ensures data[..] == Splice(old(data[..]), offset, EncodeFields(SourceFields(m, factOrder, groupOrder)))
  {
    hide *;
    ghost var before := data[..];
    SourceSizeParts(m);
    i := PutText(data, offset, 1, m.ticket);
    i, factOrder := PutFacts(data, i, m.facts);
    ghost var e1, e2 := EncodeFields(TextField(1, m.ticket)), EncodeFields(FactFields(m.facts, factOrder));
    SpliceTwice(before, offset, e1, e2);
    i, groupOrder := PutGroups(data, i, m.edgeGroups);
    SpliceTwice(before, offset, e1 + e2, EncodeFields(GroupFields(m.edgeGroups, groupOrder)));
    SourceConcat(m, factOrder, groupOrder);
  }

  lemma {:induction false} SourceSizeParts(m: Source)
    requires GoodSource(m)
    ensures SourceSizeOf(m)
         == |EncodeFields(TextField(1, m.ticket))| + TotalSize(FactEntries(m.facts))
           + TotalSize(GroupEntries(m.edgeGroups))
    ensures forall k | k in m.edgeGroups :: GoodEdges(m.edgeGroups[k])
  {
  }

  lemma {:induction false} SourceConcat(m: Source, factOrder: seq<Bytes>, groupOrder: seq<Bytes>)
    requires GoodSource(m) && IsOrderOf(factOrder, m.facts.Keys) && IsOrderOf(groupOrder, m.edgeGroups.Keys)
    ensures forall n | 0 <= n < |factOrder| :: factOrder[n] in m.facts
    ensures forall n | 0 <= n < |groupOrder| :: groupOrder[n] in m.edgeGroups && GoodEdges(m.edgeGroups[groupOrder[n]])
    ensures EncodeFields(SourceFields(m, factOrder, groupOrder)) == EncodeFields(TextField(1, m.ticket))
      + EncodeFields(FactFields(m.facts, factOrder)) + EncodeFields(GroupFields(m.edgeGroups, groupOrder))
  {
    Concat3(TextField(1, m.ticket), FactFields(m.facts, factOrder), GroupFields(m.edgeGroups, groupOrder));
  }

  lemma {:induction false} SourceReadsBack(m: Source, factOrder: seq<Bytes>, groupOrder: seq<Bytes>)
    requires GoodSource(m) && SmallSource(m) && SourceSizeOf(m) <= TWO63
    requires IsOrderOf(factOrder, m.facts.Keys) && IsOrderOf(groupOrder, m.edgeGroups.Keys)
    ensures Unmarshal(SourceHandler(), EncodeFields(SourceFields(m, factOrder, groupOrder)), EMPTY_SOURCE) == Ok(m)
  {
    var own := SourceFields(m, factOrder, groupOrder);
    SourceSizeIsOrderFree(m, factOrder, groupOrder);
    OwnSpellsGroups(m, factOrder, groupOrder);
    SourceIsSmall(m, factOrder, groupOrder);
    hide SourceFields, SourceFieldsWith, EncodeFields, SpellGroups;
    SourceIsDeclared(m, OwnValues(m), factOrder, groupOrder);
    DeclaredIsKnown(SourceHandler().schema, own);
    SourceRoundTrip(m, OwnValues(m), factOrder, groupOrder, own);
  }

  lemma {:induction false} SourceIsSmall(m: Source, factOrder: seq<Bytes>, groupOrder: seq<Bytes>)
    requires GoodSource(m) && IsOrderOf(factOrder, m.facts.Keys) && IsOrderOf(groupOrder, m.edgeGroups.Keys)
    requires |EncodeFields(SourceFields(m, factOrder, groupOrder))| <= TWO63
    ensures AllWellFormed(SourceFields(m, factOrder, groupOrder))
  {
    hide EncodeFields, EncodeMapEntry, EncodeGroup, WellFormed;
    var f1, f2, f3 := TextField(1, m.ticket), FactFields(m.facts, factOrder), GroupFields(m.edgeGroups, groupOrder);
    assert forall f | f in f1 || f in f2 || f in f3 :: f.LenField? && 0 < f.num < 16;
    hide TextField, FactFields, GroupFields;
    OwnIsWellFormed(f1 + f2 + f3);
  }

  /** A marshalled source reads back as itself. */
  method MarshalAndRead(m: Source) returns (data: array<Byte>, r: Result<Source>)
    requires GoodSource(m) && SmallSource(m) && SourceSizeOf(m) <= TWO63
    ensures fresh(data) && data.Length == SourceSizeOf(m) && r == Ok(m)
  {
    var size := SourceSize(m);
    data := new Byte[size](_ => 0);
    hide *;
    ghost var before := data[..];
    var n;
    ghost var factOrder, groupOrder;
    n, factOrder, groupOrder := MarshalSource(data, 0, m);
    SpliceWhole(before, EncodeFields(SourceFields(m, factOrder, groupOrder)));
    SourceReadsBack(m, factOrder, groupOrder);
    r := UnmarshalLoop(SourceHandler(), data[..], EMPTY_SOURCE);
  }
}
