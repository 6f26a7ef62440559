/** Sizes and in-place marshalling of write and count requests. */
module RequestMachine {
  import opened Wire
  import opened Messages
  import opened WireMachine

  lemma {:induction false} Concat4(a: seq<Field>, b: seq<Field>, c: seq<Field>, d: seq<Field>)
    ensures EncodeFields(a + b + c + d) == EncodeFields(a) + EncodeFields(b) + EncodeFields(c) + EncodeFields(d)
  {
    EncodeAppend(a + b + c, d);
    Concat3(a, b, c);
  }

  method UpdateSize(m: Update) returns (n: nat)
    ensures n == |EncodeUpdate(m)|
  {
    var a := TextSize(1, m.edgeKind);
    var b := OptionalVNameSize(2, m.target);
    var c := TextSize(3, m.factName);
    var d := TextSize(4, m.factValue);
    n := a + b + c + d;
    Concat4(TextField(1, m.edgeKind), MessageField(2, OptionalVName(m.target)), TextField(3, m.factName),
      TextField(4, m.factValue));
  }

  method MarshalUpdate(data: array<Byte>, offset: nat, m: Update) returns (i: nat)
    requires offset + |EncodeUpdate(m)| <= data.Length
    modifies data
    ensures i == offset + |EncodeUpdate(m)| && data[..] == Splice(old(data[..]), offset, EncodeUpdate(m))
  {
    hide Splice, EncodeFields, EncodeVName;
    ghost var before := data[..];
    ghost var e1, e2 := EncodeFields(TextField(1, m.edgeKind)), EncodeFields(MessageField(2, OptionalVName(m.target)));
    ghost var e3, e4 := EncodeFields(TextField(3, m.factName)), EncodeFields(TextField(4, m.factValue));
    Concat4(TextField(1, m.edgeKind), MessageField(2, OptionalVName(m.target)), TextField(3, m.factName),
      TextField(4, m.factValue));
    assert EncodeUpdate(m) == e1 + e2 + e3 + e4;
    i := PutText(data, offset, 1, m.edgeKind);
    i := PutVName(data, i, 2, m.target);
    SpliceTwice(before, offset, e1, e2);
    i := AppendText(data, i, 3, m.factName, before, offset, e1 + e2);
    i := AppendText(data, i, 4, m.factValue, before, offset, e1 + e2 + e3);
  }

  method PutUpdate(data: array<Byte>, offset: nat, m: Update) returns (i: nat)
    requires offset + |EncodeField(LenField(2, EncodeUpdate(m)))| <= data.Length
    modifies data
    ensures i == offset + |EncodeField(LenField(2, EncodeUpdate(m)))|
    ensures data[..] == Splice(old(data[..]), offset, EncodeField(LenField(2, EncodeUpdate(m))))
  {
    hide Splice, EncodeUpdate, EncodeField, Varint;
    HeaderThen(2, EncodeUpdate(m));
    var size := UpdateSize(m);
    i := PutHeader(data, offset, 2, size);
    i := MarshalUpdate(data, i, m);
    SpliceTwice(old(data[..]), offset, [Tag(2, 2)] + Varint(size), EncodeUpdate(m));
  }

  lemma {:induction false} UpdateListGrows(us: seq<Update>, n: nat)
    requires n < |us|
    ensures EncodeFields(UpdateListFields(us[..n + 1]))
         == EncodeFields(UpdateListFields(us[..n])) + EncodeField(LenField(2, EncodeUpdate(us[n])))
  {
    hide EncodeUpdate;
    assert UpdateListFields(us[..n + 1]) == UpdateListFields(us[..n]) + [LenField(2, EncodeUpdate(us[n]))];
    EncodeAppend(UpdateListFields(us[..n]), [LenField(2, EncodeUpdate(us[n]))]);
    EncodedOne(LenField(2, EncodeUpdate(us[n])));
  }

  lemma {:induction false} UpdatePrefixFits(us: seq<Update>, n: nat)
    requires n <= |us|
    ensures |EncodeFields(UpdateListFields(us[..n]))| <= |EncodeFields(UpdateListFields(us))|
  {
    hide EncodeUpdate;
    assert UpdateListFields(us) == UpdateListFields(us[..n]) + UpdateListFields(us[n..]);
    EncodeAppend(UpdateListFields(us[..n]), UpdateListFields(us[n..]));
  }

  ghost function EncodeRequest(m: WriteRequest): Bytes { EncodeFields(RequestFields(m)) }

  method RequestSize(m: WriteRequest) returns (n: nat)
    ensures n == |EncodeRequest(m)|
  {
    hide EncodeUpdate, EncodeVName;
    var source := OptionalVNameSize(1, m.source);
    EncodeAppend(MessageField(1, OptionalVName(m.source)), UpdateListFields(m.updates));
    n := source;
    assert UpdateListFields(m.updates[..0]) == [];
    for j := 0 to |m.updates|
      invariant n == source + |EncodeFields(UpdateListFields(m.updates[..j]))|
    {
      var l := UpdateSize(m.updates[j]);
      var s := Sov(l);
      n := n + 1 + l + s;
      UpdateListGrows(m.updates, j);
      HeaderThen(2, EncodeUpdate(m.updates[j]));
    }
    assert m.updates[..|m.updates|] == m.updates;
  }

  method MarshalRequest(data: array<Byte>, offset: nat, m: WriteRequest) returns (i: nat)
    requires offset + |EncodeRequest(m)| <= data.Length
    modifies data
    ensures i == offset + |EncodeRequest(m)| && data[..] == Splice(old(data[..]), offset, EncodeRequest(m))
  {
    ghost var e1 := EncodeFields(MessageField(1, OptionalVName(m.source)));
    EncodeAppend(MessageField(1, OptionalVName(m.source)), UpdateListFields(m.updates));
    i := PutVName(data, offset, 1, m.source);
    i := MarshalUpdates(data, i, m.updates);
    SpliceTwice(old(data[..]), offset, e1, EncodeFields(UpdateListFields(m.updates)));
  }

  method MarshalUpdates(data: array<Byte>, offset: nat, us: seq<Update>) returns (i: nat)
    requires offset + |EncodeFields(UpdateListFields(us))| <= data.Length
    modifies data
    ensures i == offset + |EncodeFields(UpdateListFields(us))|
    ensures data[..] == Splice(old(data[..]), offset, EncodeFields(UpdateListFields(us)))
  {
    hide Splice, EncodeFields, EncodeField, EncodeUpdate;
    i := offset;
    SpliceNothing(data[..], offset);
    assert UpdateListFields(us[..0]) == [];
    EncodeNothing();
    for j := 0 to |us|
      invariant i == offset + |EncodeFields(UpdateListFields(us[..j]))| <= data.Length
      invariant data[..] == Splice(old(data[..]), offset, EncodeFields(UpdateListFields(us[..j])))
    {
      ghost var done, bytes := EncodeFields(UpdateListFields(us[..j])), EncodeField(LenField(2, EncodeUpdate(us[j])));
      UpdateListGrows(us, j);
      UpdatePrefixFits(us, j + 1);
      i := PutUpdate(data, i, us[j]);
      SpliceTwice(old(data[..]), offset, done, bytes);
    }
    assert us[..|us|] == us;
  }

  /** A request is written into exactly `Size()` bytes and reads back as it was. */
  method MarshalAndReadRequest(m: WriteRequest) returns (data: array<Byte>, r: Result<WriteRequest>)
    requires |EncodeRequest(m)| <= TWO63
    ensures data.Length == |EncodeRequest(m)| && data[..] == EncodeRequest(m) && r == Ok(m)
  {
    var size := RequestSize(m);
    data := new Byte[size](_ => 0);
    var n := MarshalRequest(data, 0, m);
    SpliceWhole(seq(size, _ => 0), EncodeRequest(m));
    assert data[..] == EncodeRequest(m);
    RequestReadsBack(m);
    r := UnmarshalLoop(RequestHandler(), data[..], EMPTY_REQUEST);
  }

  lemma {:induction false} RequestReadsBack(m: WriteRequest)
    requires |EncodeRequest(m)| <= TWO63
    ensures Unmarshal(RequestHandler(), EncodeRequest(m), EMPTY_REQUEST) == Ok(m)
  {
    hide Unmarshal, EncodeFields, EncodeUpdate, EncodeVName, WellFormed, SpellsUpdate, Spells;
    var own := RequestFields(m);
    if m.source.Some? {
      assert own[0] == LenField(1, EncodeVName(m.source.value));
      NestedIsSmall(own, own[0]);
    }
    SmallSpells(m.source);
    var first := |MessageField(1, OptionalVName(m.source))|;
    var ps := seq(|m.updates|, i requires 0 <= i < |m.updates| => EncodeUpdate(m.updates[i]));
    forall i | 0 <= i < |m.updates| ensures SpellsUpdate(ps[i], m.updates[i]) {
      assert own[first + i] == LenField(2, EncodeUpdate(m.updates[i]));
      NestedIsSmall(own, own[first + i]);
      OwnSpellsUpdate(m.updates[i]);
    }
    assert own == RequestFieldsWith(OptionalVName(m.source), ps);
    OwnIsWellFormed(own);
    DeclaredIsKnown(RequestHandler().schema, own);
    RequestRoundTrip(m, OptionalVName(m.source), ps, own);
  }

  // ------------------------------------------------------------------ CountRequest

  method CountSize(m: CountRequest) returns (n: nat)
    requires Int64(m.index) && Int64(m.shards)
    ensures n == |EncodeFields(CountFields(m))|
  {
    n := 0;
    EncodeAppend(NumberField(1, FromSigned(m.index)), NumberField(2, FromSigned(m.shards)));
    if m.index != 0 {
      var l := Sov(FromSigned(m.index));
      n := n + 1 + l;
      EncodedOne(VarintField(1, FromSigned(m.index)));
      TagByte(1, 0);
    }
    if m.shards != 0 {
      var l := Sov(FromSigned(m.shards));
      n := n + 1 + l;
      EncodedOne(VarintField(2, FromSigned(m.shards)));
      TagByte(2, 0);
    }
  }

  method MarshalCount(data: array<Byte>, offset: nat, m: CountRequest) returns (i: nat)
    requires Int64(m.index) && Int64(m.shards) && offset + |EncodeFields(CountFields(m))| <= data.Length
    modifies data
    ensures i == offset + |EncodeFields(CountFields(m))|
    ensures data[..] == Splice(old(data[..]), offset, EncodeFields(CountFields(m)))
  {
    hide Splice, EncodeFields;
    var a, b := FromSigned(m.index), FromSigned(m.shards);
    EncodeAppend(NumberField(1, a), NumberField(2, b));
    i := PutNumber(data, offset, 1, a);
    i := PutNumber(data, i, 2, b);
    SpliceTwice(old(data[..]), offset, EncodeFields(NumberField(1, a)), EncodeFields(NumberField(2, b)));
  }
}
