/** The bytes on the wire, spelled out: which tag each member of a message has, how numbers are
    laid out, and what is read from, skipped over and refused in literal bytes. */
module WireBytes {
  import opened Wrappers
  import opened Wire
  import opened Messages
  import opened SourceMessages
  import WireMachine
  import RequestMachine

  // ------------------------------------------------------------------- numbers

  function Pow128(n: nat): (p: nat)
    ensures p >= 1
  {
    if n == 0 then 1 else 128 * Pow128(n - 1)
  }

  lemma {:induction false} DivTwice(v: nat, p: nat)
    requires p >= 1
    ensures v / 128 / p == v / (128 * p)
  {
    var a, q := v / 128, v / 128 / p;
    var r := a - p * q;
    assert 0 <= r < p by {
      assert a == p * q + a % p;
    }
    var s := v - 128 * p * q;
    assert s == v % 128 + 128 * r;
    assert 0 <= s <= 127 + 128 * (p - 1);
    DivIs(v, 128 * p, q, s);
  }

  lemma {:induction false} DivIs(v: nat, d: nat, q: nat, s: nat)
    requires d > 0 && v == d * q + s && s < d
    ensures v / d == q
  {
    var q', r := v / d, v % d;
    assert d * q' - d * q == s - r;
    if q' > q { FurtherApart(d, q, q'); }
    if q > q' { FurtherApart(d, q', q); }
  }

  lemma {:induction false} FurtherApart(d: nat, x: nat, y: nat)
    requires x < y
    ensures d * y - d * x >= d
    decreases y - x
  {
    assert d * (y - 1) == d * y - d;
    if x + 1 < y { FurtherApart(d, x, y - 1); }
  }

  /** Byte `i` of a varint is the `i`th digit of the number to the base 128, lowest first, and has
      128 added unless it is the last; there are no more digits, and none too many. */
  lemma {:induction false} VarintDigits(v: nat, i: nat)
    requires i < |Varint(v)|
    ensures Varint(v)[i] == v / Pow128(i) % 128 + (if i + 1 < |Varint(v)| then 128 else 0)
    ensures v < Pow128(|Varint(v)|) && (|Varint(v)| > 1 ==> Pow128(|Varint(v)| - 1) <= v)
    decreases v
  {
    if v >= 128 {
      var w := v / 128;
      VarintDigits(w, if i > 0 then i - 1 else 0);
      if i > 0 { DivTwice(v, Pow128(i - 1)); }
      var n := |Varint(w)|;
      assert |Varint(v)| == n + 1 && Pow128(n + 1) == 128 * Pow128(n);
      if n == 1 { assert Pow128(0) == 1; }
    }
  }

  // ------------------------------------------------------------- fields of a message

  /** A string or bytes member, which is left out when it is empty. */
  function Opt(tag: Byte, s: Bytes): Bytes { if s == [] then [] else [tag] + Varint(|s|) + s }

  /** A message member, which is left out when it is missing. */
  function OptMessage(tag: Byte, s: Option<Bytes>): Bytes {
    if s.None? then [] else [tag] + Varint(|s.value|) + s.value
  }

  /** A signed number as 64 bits in two's complement, which is left out when it is zero. */
  function OptNumber(tag: Byte, x: int): Bytes
    requires -0x8000_0000_0000_0000 <= x
  {
    if x == 0 then [] else [tag] + Varint(if x < 0 then x + 0x1_0000_0000_0000_0000 else x)
  }

  /** The elements of a repeated member. */
  function Repeated(tag: Byte, ps: seq<Bytes>): Bytes {
    if |ps| == 0 then [] else [tag] + Varint(|ps[0]|) + ps[0] + Repeated(tag, ps[1..])
  }

  lemma {:induction false} LenBytes(num: nat, s: Bytes)
    requires num < 16
    ensures EncodeField(LenField(num, s)) == [8 * num + 2] + Varint(|s|) + s
  {
    WireMachine.TagByte(num, 2);
  }

  lemma {:induction false} TextBytes(num: nat, s: Bytes)
    requires num < 16
    ensures EncodeFields(TextField(num, s)) == Opt(8 * num + 2, s)
  {
    if s != [] {
      WireMachine.EncodedOne(LenField(num, s));
      LenBytes(num, s);
    }
  }

  lemma {:induction false} MessageBytes(num: nat, s: Option<Bytes>)
    requires num < 16
    ensures EncodeFields(MessageField(num, s)) == OptMessage(8 * num + 2, s)
  {
    if s.Some? {
      WireMachine.EncodedOne(LenField(num, s.value));
      LenBytes(num, s.value);
    }
  }

  lemma {:induction false} NumberBytes(num: nat, x: int)
    requires num < 16 && Int64(x)
    ensures EncodeFields(NumberField(num, FromSigned(x))) == OptNumber(8 * num, x)
  {
    if x != 0 {
      WireMachine.EncodedOne(VarintField(num, FromSigned(x)));
      WireMachine.TagByte(num, 0);
      hide Varint, EncodeFields;
    }
  }

  lemma {:induction false} ListBytes(num: nat, ps: seq<Bytes>)
    requires num < 16
    ensures EncodeFields(ListFields(num, ps)) == Repeated(8 * num + 2, ps)
    decreases |ps|
  {
    if |ps| > 0 {
      LenBytes(num, ps[0]);
      ListBytes(num, ps[1..]);
      assert ListFields(num, ps)[1..] == ListFields(num, ps[1..]);
    }
  }

  // --------------------------------------------------------------------- messages

  lemma {:induction false} VNameBytes(m: VName)
    ensures EncodeVName(m)
         == Opt(0x0A, m.signature) + Opt(0x12, m.corpus) + Opt(0x1A, m.root) + Opt(0x22, m.path)
            + Opt(0x2A, m.language)
  {
    hide EncodeFields, Opt, TextField;
    TextBytes(1, m.signature);
    TextBytes(2, m.corpus);
    TextBytes(3, m.root);
    TextBytes(4, m.path);
    TextBytes(5, m.language);
    WireMachine.Concat5(TextField(1, m.signature), TextField(2, m.corpus), TextField(3, m.root), TextField(4, m.path),
                        TextField(5, m.language));
  }

  lemma {:induction false} EntryBytes(m: Entry)
    ensures EncodeEntry(m)
         == OptMessage(0x0A, OptionalVName(m.source)) + Opt(0x12, m.edgeKind)
            + OptMessage(0x1A, OptionalVName(m.target)) + Opt(0x22, m.factName) + Opt(0x2A, m.factValue)
  {
    hide EncodeFields, Opt, OptMessage, TextField, MessageField, OptionalVName;
    var source, target := OptionalVName(m.source), OptionalVName(m.target);
    MessageBytes(1, source);
    TextBytes(2, m.edgeKind);
    MessageBytes(3, target);
    TextBytes(4, m.factName);
    TextBytes(5, m.factValue);
    WireMachine.Concat5(MessageField(1, source), TextField(2, m.edgeKind), MessageField(3, target),
                        TextField(4, m.factName), TextField(5, m.factValue));
  }

  lemma {:induction false} UpdateBytes(m: Update)
    ensures EncodeUpdate(m)
         == Opt(0x0A, m.edgeKind) + OptMessage(0x12, OptionalVName(m.target)) + Opt(0x1A, m.factName)
            + Opt(0x22, m.factValue)
  {
    hide EncodeFields, Opt, OptMessage, TextField, MessageField, OptionalVName;
    var target := OptionalVName(m.target);
    TextBytes(1, m.edgeKind);
    MessageBytes(2, target);
    TextBytes(3, m.factName);
    TextBytes(4, m.factValue);
    RequestMachine.Concat4(TextField(1, m.edgeKind), MessageField(2, target), TextField(3, m.factName),
                           TextField(4, m.factValue));
  }

  function EncodedUpdates(us: seq<Update>): seq<Bytes> {
    seq(|us|, i requires 0 <= i < |us| => EncodeUpdate(us[i]))
  }

  lemma {:induction false} RequestBytes(m: WriteRequest)
    ensures EncodeFields(RequestFields(m))
         == OptMessage(0x0A, OptionalVName(m.source)) + Repeated(0x12, EncodedUpdates(m.updates))
  {
    hide EncodeFields, OptMessage, Repeated, MessageField, OptionalVName, EncodeUpdate;
    var source, ps := OptionalVName(m.source), EncodedUpdates(m.updates);
    assert UpdateListFields(m.updates) == ListFields(2, ps);
    MessageBytes(1, source);
    ListBytes(2, ps);
    EncodeAppend(MessageField(1, source), ListFields(2, ps));
  }

  lemma {:induction false} CountBytes(m: CountRequest)
    requires Int64(m.index) && Int64(m.shards)
    ensures EncodeFields(CountFields(m)) == OptNumber(0x08, m.index) + OptNumber(0x10, m.shards)
  {
    NumberBytes(1, m.index);
    NumberBytes(2, m.shards);
    hide EncodeFields, NumberField, FromSigned, OptNumber;
    EncodeAppend(NumberField(1, FromSigned(m.index)), NumberField(2, FromSigned(m.shards)));
  }

  lemma {:induction false} EdgeBytes(m: Edge)
    requires Int32(m.ordinal)
    ensures EncodeEdge(m) == Opt(0x0A, m.ticket) + OptNumber(0x10, m.ordinal)
  {
    TextBytes(1, m.ticket);
    NumberBytes(2, m.ordinal);
    hide EncodeFields, NumberField, TextField, FromSigned, OptNumber, Opt;
    EncodeAppend(TextField(1, m.ticket), NumberField(2, FromSigned(m.ordinal)));
  }

  function EncodedEdges(es: seq<Edge>): seq<Bytes>
    requires forall i | 0 <= i < |es| :: Int32(es[i].ordinal)
  {
    seq(|es|, i requires 0 <= i < |es| => EncodeEdge(es[i]))
  }

  lemma {:induction false} GroupBytes(m: EdgeGroup)
    requires GoodEdges(m)
    ensures EncodeGroup(m) == Repeated(0x0A, EncodedEdges(m.edges))
  {
    hide EncodeFields, EncodeEdge;
    assert EdgeListFields(m.edges) == ListFields(1, EncodedEdges(m.edges));
    ListBytes(1, EncodedEdges(m.edges));
  }

  /** A map entry has its key and value even when they are empty. */
  lemma {:induction false} MapEntryBytes(k: Bytes, v: Bytes)
    ensures EncodeMapEntry(k, v) == [0x0A] + Varint(|k|) + k + ([0x12] + Varint(|v|) + v)
  {
    EncodedPair(LenField(1, k), LenField(2, v));
    LenBytes(1, k);
    LenBytes(2, v);
  }

  ghost function FactEntriesIn(facts: map<Bytes, Bytes>, order: seq<Bytes>): seq<Bytes>
    requires forall i | 0 <= i < |order| :: order[i] in facts
  {
    seq(|order|, i requires 0 <= i < |order| => EncodeMapEntry(order[i], facts[order[i]]))
  }

  ghost function GroupEntriesIn(groups: map<Bytes, EdgeGroup>, order: seq<Bytes>): seq<Bytes>
    requires forall i | 0 <= i < |order| :: order[i] in groups && GoodEdges(groups[order[i]])
  {
    seq(|order|, i requires 0 <= i < |order| => EncodeMapEntry(order[i], EncodeGroup(groups[order[i]])))
  }

  lemma {:induction false} SourceBytes(m: Source, factOrder: seq<Bytes>, groupOrder: seq<Bytes>)
    requires GoodSource(m) && IsOrderOf(factOrder, m.facts.Keys) && IsOrderOf(groupOrder, m.edgeGroups.Keys)
    ensures EncodeFields(SourceFields(m, factOrder, groupOrder))
         == Opt(0x0A, m.ticket) + Repeated(0x12, FactEntriesIn(m.facts, factOrder))
            + Repeated(0x1A, GroupEntriesIn(m.edgeGroups, groupOrder))
  {
    hide EncodeFields, EncodeMapEntry, EncodeGroup, Repeated, Opt, TextField;
    var facts, groups := FactFields(m.facts, factOrder), GroupFields(m.edgeGroups, groupOrder);
    assert facts == ListFields(2, FactEntriesIn(m.facts, factOrder));
    assert groups == ListFields(3, GroupEntriesIn(m.edgeGroups, groupOrder));
    TextBytes(1, m.ticket);
    ListBytes(2, FactEntriesIn(m.facts, factOrder));
    ListBytes(3, GroupEntriesIn(m.edgeGroups, groupOrder));
    EncodeAppend(TextField(1, m.ticket), facts);
    EncodeAppend(TextField(1, m.ticket) + facts, groups);
  }

  // ----------------------------------------------------------- reading one field

  /** A tag byte, a length and that many bytes. */
  function Literal(tag: Byte, s: Bytes): Bytes { [tag] + Varint(|s|) + s }

  lemma {:induction false} ReadsText<M(!new)>(h: Handler<M>, m: M, num: nat, s: Bytes)
    requires 0 < num < 16 && num in h.schema && h.schema[num] == Text && |s| < TWO63
    ensures Unmarshal(h, Literal(8 * num + 2, s), m) == h.text(m, num, s)
  {
    var f := LenField(num, s);
    LenBytes(num, s);
    WireMachine.EncodedOne(f);
    assert [f][1..] == [];
    assert KnownFields(h.schema, [f]) == [f];
    hide EncodeFields, Unmarshal;
    Decodes(h, m, [f], [f]);
  }

  lemma {:induction false} ReadsNumber<M(!new)>(h: Handler<M>, m: M, num: nat, v: U64)
    requires 0 < num < 16 && num in h.schema && h.schema[num] == Number
    ensures Unmarshal(h, [8 * num] + Varint(v), m) == h.number(m, num, v)
  {
    var f := VarintField(num, v);
    WireMachine.TagByte(num, 0);
    WireMachine.EncodedOne(f);
    assert [f][1..] == [];
    assert KnownFields(h.schema, [f]) == [f];
    hide EncodeFields, Unmarshal;
    Decodes(h, m, [f], [f]);
  }

  /** Each literal field of a VName sets the member of that name, and no other. */
  lemma {:induction false} VNameMembers(m: VName, s: Bytes)
    requires |s| < TWO63
    ensures Unmarshal(VNameHandler(), Literal(0x0A, s), m) == Ok(m.(signature := s))
    ensures Unmarshal(VNameHandler(), Literal(0x12, s), m) == Ok(m.(corpus := s))
    ensures Unmarshal(VNameHandler(), Literal(0x1A, s), m) == Ok(m.(root := s))
    ensures Unmarshal(VNameHandler(), Literal(0x22, s), m) == Ok(m.(path := s))
    ensures Unmarshal(VNameHandler(), Literal(0x2A, s), m) == Ok(m.(language := s))
  {
    hide Unmarshal, Literal;
    var h := VNameHandler();
    ReadsText(h, m, 1, s);
    ReadsText(h, m, 2, s);
    ReadsText(h, m, 3, s);
    ReadsText(h, m, 4, s);
    ReadsText(h, m, 5, s);
  }

  /** Each literal field of an entry sets the member of that name. */
  lemma {:induction false} EntryMembers(m: Entry, s: Bytes, v: VName)
    requires |s| < TWO63
    ensures Unmarshal(EntryHandler(), Literal(0x12, s), m) == Ok(m.(edgeKind := s))
    ensures Unmarshal(EntryHandler(), Literal(0x22, s), m) == Ok(m.(factName := s))
    ensures Unmarshal(EntryHandler(), Literal(0x2A, s), m) == Ok(m.(factValue := s))
    ensures m.source.None? && SpellsVName(s, v) ==>
      Unmarshal(EntryHandler(), Literal(0x0A, s), m) == Ok(m.(source := Some(v)))
    ensures m.target.None? && SpellsVName(s, v) ==>
      Unmarshal(EntryHandler(), Literal(0x1A, s), m) == Ok(m.(target := Some(v)))
  {
    hide Unmarshal, Literal, SpellsVName;
    var h := EntryHandler();
    ReadsText(h, m, 1, s);
    ReadsText(h, m, 2, s);
    ReadsText(h, m, 3, s);
    ReadsText(h, m, 4, s);
    ReadsText(h, m, 5, s);
    if SpellsVName(s, v) { SpelledReads(s, v); }
  }

  lemma {:induction false} UpdateMembers(m: Update, s: Bytes, v: VName)
    requires |s| < TWO63
    ensures Unmarshal(UpdateHandler(), Literal(0x0A, s), m) == Ok(m.(edgeKind := s))
    ensures Unmarshal(UpdateHandler(), Literal(0x1A, s), m) == Ok(m.(factName := s))
    ensures Unmarshal(UpdateHandler(), Literal(0x22, s), m) == Ok(m.(factValue := s))
    ensures m.target.None? && SpellsVName(s, v) ==>
      Unmarshal(UpdateHandler(), Literal(0x12, s), m) == Ok(m.(target := Some(v)))
  {
    hide Unmarshal, Literal, SpellsVName;
    var h := UpdateHandler();
    ReadsText(h, m, 1, s);
    ReadsText(h, m, 2, s);
    ReadsText(h, m, 3, s);
    ReadsText(h, m, 4, s);
    if SpellsVName(s, v) { SpelledReads(s, v); }
  }

  lemma {:induction false} RequestMembers(m: WriteRequest, s: Bytes, v: VName, u: Update)
    requires |s| < TWO63
    ensures m.source.None? && SpellsVName(s, v) ==>
      Unmarshal(RequestHandler(), Literal(0x0A, s), m) == Ok(m.(source := Some(v)))
    ensures SpellsUpdate(s, u) ==>
      Unmarshal(RequestHandler(), Literal(0x12, s), m) == Ok(m.(updates := m.updates + [u]))
  {
    hide Unmarshal, Literal, SpellsVName, SpellsUpdate;
    var h := RequestHandler();
    ReadsText(h, m, 1, s);
    ReadsText(h, m, 2, s);
    if SpellsVName(s, v) { SpelledReads(s, v); }
    if SpellsUpdate(s, u) { UpdateReads(s, u); }
  }

  /** Numbers from 2^63 on are read as negative. */
  lemma {:induction false} CountMembers(m: CountRequest, v: U64)
    ensures var x: int := if v < 0x8000_0000_0000_0000 then v else v - 0x1_0000_0000_0000_0000;
      && Unmarshal(CountHandler(), [0x08] + Varint(v), m) == Ok(m.(index := x))
      && Unmarshal(CountHandler(), [0x10] + Varint(v), m) == Ok(m.(shards := x))
  {
    hide Unmarshal, Varint;
    ReadsNumber(CountHandler(), m, 1, v);
    ReadsNumber(CountHandler(), m, 2, v);
  }

  /** An ordinal is the low 32 bits of the number, signed. */
  lemma {:induction false} EdgeMembers(m: Edge, s: Bytes, v: U64)
    requires |s| < TWO63
    ensures Unmarshal(EdgeHandler(), Literal(0x0A, s), m) == Ok(m.(ticket := s))
    ensures var low := v % 0x1_0000_0000;
      Unmarshal(EdgeHandler(), [0x10] + Varint(v), m)
      == Ok(m.(ordinal := if low < 0x8000_0000 then low else low - 0x1_0000_0000))
  {
    hide Unmarshal, Varint;
    ReadsText(EdgeHandler(), m, 1, s);
    ReadsNumber(EdgeHandler(), m, 2, v);
  }

  lemma {:induction false} GroupMembers(m: EdgeGroup, s: Bytes, e: Edge)
    requires |s| < TWO63 && SpellsEdge(s, e)
    ensures Unmarshal(GroupHandler(), Literal(0x0A, s), m) == Ok(EdgeGroup(m.edges + [e]))
  {
    hide Unmarshal, Literal, SpellsEdge;
    EdgeReads(s, e);
    ReadsText(GroupHandler(), m, 1, s);
  }

  /** The bytes of a map entry. */
  function LiteralPair(k: Bytes, v: Bytes): Bytes { Literal(0x0A, k) + Literal(0x12, v) }

  lemma {:induction false} PairReads(k: Bytes, v: Bytes)
    requires |k| < TWO63 && |v| < TWO63
    ensures ReadMapEntry(LiteralPair(k, v)) == Ok((k, v))
  {
    MapEntryBytes(k, v);
    assert EncodeMapEntry(k, v) == LiteralPair(k, v);
    MapEntryReads(k, v);
  }

  lemma {:induction false} SourceMembers(m: Source, s: Bytes)
    requires |s| < TWO63
    ensures Unmarshal(SourceHandler(), Literal(0x0A, s), m) == Ok(m.(ticket := s))
  {
    hide Unmarshal, Literal;
    ReadsText(SourceHandler(), m, 1, s);
  }

  lemma {:induction false} SourceMapMembers(m: Source, k: Bytes, v: Bytes)
    requires |k| < TWO63 && |v| < TWO63 && |LiteralPair(k, v)| < TWO63
    ensures Unmarshal(SourceHandler(), Literal(0x12, LiteralPair(k, v)), m) == Ok(m.(facts := m.facts[k := v]))
  {
    hide Unmarshal, Literal, LiteralPair, ReadMapEntry;
    PairReads(k, v);
    ReadsText(SourceHandler(), m, 2, LiteralPair(k, v));
  }

  lemma {:induction false} SourceGroupMembers(m: Source, k: Bytes, v: Bytes, g: EdgeGroup)
    requires |k| < TWO63 && |v| < TWO63 && |LiteralPair(k, v)| < TWO63 && SpellsGroup(v, g)
    ensures Unmarshal(SourceHandler(), Literal(0x1A, LiteralPair(k, v)), m)
         == Ok(m.(edgeGroups := m.edgeGroups[k := g]))
  {
    hide Unmarshal, Literal, LiteralPair, ReadMapEntry, SpellsGroup;
    PairReads(k, v);
    GroupReads(v, g);
    ReadsText(SourceHandler(), m, 3, LiteralPair(k, v));
  }

  // ------------------------------------------------------ skipping and refusing bytes

  /** From a one-byte tag on: what is skipped after it, by its low three bits. */
  lemma {:induction false} SkippedWidths(data: Bytes, i: nat)
    requires i < |data| && data[i] < 128
    ensures data[i] % 8 == 1 ==> Skip(data, i) == Ok(i + 9)
    ensures data[i] % 8 == 5 ==> Skip(data, i) == Ok(i + 5)
    ensures data[i] % 8 == 4 ==> Skip(data, i) == Ok(i + 1)
    ensures data[i] % 8 == 0 && i + 1 < |data| && data[i + 1] < 128 ==> Skip(data, i) == Ok(i + 2)
    ensures data[i] % 8 == 2 && i + 1 < |data| && data[i + 1] < 128 ==> Skip(data, i) == Ok(i + 2 + data[i + 1])
    ensures data[i] % 8 == 3 && i + 1 < |data| && data[i + 1] < 128 && data[i + 1] % 8 == 4 ==>
      Skip(data, i) == Ok(i + 2)
    ensures data[i] % 8 == 6 || data[i] % 8 == 7 ==> Skip(data, i) == Err(IllegalWireType)
  {
    OneByte(data, i);
    if i + 1 < |data| && data[i + 1] < 128 { OneByte(data, i + 1); }
    hide VarintFrom;
  }

  /** The same behind tags of any length: eight bytes for wire type 1, four for wire type 5. */
  lemma {:induction false} FixedWidths(data: Bytes, i: nat, num: nat)
    requires num < 0x2000_0000
    ensures At(data, i, Varint(num * 8 + 1)) ==> Skip(data, i) == Ok(i + |Varint(num * 8 + 1)| + 8)
    ensures At(data, i, Varint(num * 8 + 5)) ==> Skip(data, i) == Ok(i + |Varint(num * 8 + 5)| + 4)
  {
    hide VarintFrom, Varint, At;
    if At(data, i, Varint(num * 8 + 1)) { TagReads(data, i, num, 1); }
    if At(data, i, Varint(num * 8 + 5)) { TagReads(data, i, num, 5); }
  }

  lemma {:induction false} OneByte(data: Bytes, i: nat)
    requires i < |data| && data[i] < 128
    ensures ReadVarint(data, i) == Ok((data[i], i + 1)) && SkipVarint(data, i, 0) == Ok(i + 1)
  {
    assert Pow2(0) == 1;
    assert (0 + data[i] % 128 * Pow2(0)) % TWO64 == data[i];
  }

  /** Tags that no message accepts, and declared members with a wire type that is not theirs. */
  lemma {:induction false} RefusedTags<M>(h: Handler<M>, m: M, data: Bytes)
    requires |data| > 0 && data[0] < 128
    ensures data[0] % 8 == 4 ==> Unmarshal(h, data, m) == Err(EndGroup)
    ensures data[0] % 8 != 4 && data[0] / 8 == 0 ==> Unmarshal(h, data, m) == Err(IllegalTag)
    ensures 0 < data[0] / 8 && data[0] / 8 in h.schema && data[0] % 8 != 4
            && data[0] % 8 != (if h.schema[data[0] / 8] == Number then 0 else 2) ==>
      Unmarshal(h, data, m) == Err(WrongWireType)
    ensures 0 < data[0] / 8 && data[0] / 8 !in h.schema && data[0] % 8 >= 6 ==>
      Unmarshal(h, data, m) == Err(IllegalWireType)
  {
    OneByte(data, 0);
    SkippedWidths(data, 0);
    assert ToInt32(data[0] / 8) == data[0] / 8;
    hide VarintFrom, Skip;
  }
}
