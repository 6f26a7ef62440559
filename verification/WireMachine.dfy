/** The byte loops themselves: buffers written in place, and the index-driven loops
    that read and skip.  Each computes what its function in `Wire` and `Messages` says. */
module WireMachine {
  import opened Wrappers
  import opened Wire
  import opened Messages

  // -------------------------------------------------------------------- writing

  /** `s` with `bs` written over it at `i`. */
  ghost function Splice(s: Bytes, i: nat, bs: Bytes): (r: Bytes)
    requires i + |bs| <= |s|
    ensures |r| == |s|
  {
    s[..i] + bs + s[i + |bs|..]
  }

  lemma {:induction false} SpliceTwice(s: Bytes, i: nat, a: Bytes, b: Bytes)
    requires i + |a| + |b| <= |s|
    ensures Splice(Splice(s, i, a), i + |a|, b) == Splice(s, i, a + b)
  {
  }

  lemma {:induction false} SpliceWhole(s: Bytes, bs: Bytes)
    requires |s| == |bs|
    ensures Splice(s, 0, bs) == bs
  {
  }

  lemma {:induction false} SpliceNothing(s: Bytes, i: nat)
    requires i <= |s|
    ensures Splice(s, i, []) == s
  {
  }

  /** Writing one byte is a splice. */
  method PutByte(data: array<Byte>, i: nat, b: Byte, ghost before: Bytes, ghost offset: nat, ghost done: Bytes)
    requires i == offset + |done| < data.Length == |before| && data[..] == Splice(before, offset, done)
    modifies data
    ensures data[..] == Splice(before, offset, done + [b])
  {
    data[i] := b;
    assert data[..] == Splice(before, offset, done)[..i] + [b] + Splice(before, offset, done)[i + 1..];
  }

  method EncodeVarint(data: array<Byte>, offset: nat, v: nat) returns (i: nat)
    requires offset + |Varint(v)| <= data.Length
    modifies data
    ensures i == offset + |Varint(v)| && data[..] == Splice(old(data[..]), offset, Varint(v))
  {
    var w: nat := v;
    i := offset;
    ghost var before, done: Bytes := data[..], [];
    SpliceNothing(before, offset);
    hide Splice;
    while w >= 128
      invariant done + Varint(w) == Varint(v) && i == offset + |done|
      invariant data[..] == Splice(before, offset, done)
    {
      PutByte(data, i, w % 128 + 128, before, offset, done);
      done := done + [w % 128 + 128];
      assert done + Varint(w / 128) == Varint(v);
      w, i := w / 128, i + 1;
    }
    PutByte(data, i, w, before, offset, done);
    i := i + 1;
  }

  method CopyInto(data: array<Byte>, offset: nat, s: Bytes) returns (i: nat)
    requires offset + |s| <= data.Length
    modifies data
    ensures i == offset + |s| && data[..] == Splice(old(data[..]), offset, s)
  {
    forall j | 0 <= j < |s| { data[offset + j] := s[j]; }
    i := offset + |s|;
  }

  /** `sovStorage`: how many bytes a varint takes. */
  method Sov(x: nat) returns (n: nat)
    ensures n == |Varint(x)|
  {
    var w: nat := x / 128;
    n := 1;
    while w != 0
      invariant n + (if w == 0 then 0 else |Varint(w)|) == |Varint(x)|
    {
      w, n := w / 128, n + 1;
    }
  }

  lemma {:induction false} TagByte(num: nat, wireType: nat)
    requires num < 16 && wireType < 8
    ensures Varint(Tag(num, wireType)) == [Tag(num, wireType)]
  {
  }

  lemma {:induction false} EncodedOne(f: Field)
    ensures EncodeFields([f]) == EncodeField(f)
  {
    assert [f][1..] == [];
  }

  /** A tag byte, a length and the bytes, unless there are none. */
  method PutText(data: array<Byte>, offset: nat, num: nat, s: Bytes) returns (i: nat)
    requires num < 16 && offset + |EncodeFields(TextField(num, s))| <= data.Length
    modifies data
    ensures i == offset + |EncodeFields(TextField(num, s))|
    ensures data[..] == Splice(old(data[..]), offset, EncodeFields(TextField(num, s)))
  {
    i := offset;
    if |s| == 0 {
      SpliceNothing(data[..], offset);
      return;
    }
    EncodedOne(LenField(num, s));
    i := PutHeader(data, offset, num, |s|);
    i := CopyInto(data, i, s);
    SpliceTwice(old(data[..]), offset, [Tag(num, 2)] + Varint(|s|), s);
    HeaderThen(num, s);
  }

  /** A tag byte and a varint, unless the number is zero. */
  method PutNumber(data: array<Byte>, offset: nat, num: nat, v: nat) returns (i: nat)
    requires num < 16 && offset + |EncodeFields(NumberField(num, v))| <= data.Length
    modifies data
    ensures i == offset + |EncodeFields(NumberField(num, v))|
    ensures data[..] == Splice(old(data[..]), offset, EncodeFields(NumberField(num, v)))
  {
    i := offset;
    if v == 0 {
      SpliceNothing(data[..], offset);
      return;
    }
    EncodedOne(VarintField(num, v));
    TagByte(num, 0);
    data[i] := Tag(num, 0);
    assert data[..] == Splice(old(data[..]), offset, [Tag(num, 0)]);
    i := EncodeVarint(data, i + 1, v);
    SpliceTwice(old(data[..]), offset, [Tag(num, 0)], Varint(v));
  }

  /** A text field, following what has been written since the start of a message. */
  method AppendText(
    data: array<Byte>, offset: nat, num: nat, s: Bytes, ghost before: Bytes, ghost base: nat, ghost done: Bytes)
    returns (i: nat)
    requires num < 16 && offset == base + |done| && offset + |EncodeFields(TextField(num, s))| <= data.Length
    requires |before| == data.Length && data[..] == Splice(before, base, done)
    modifies data
    ensures i == base + |done + EncodeFields(TextField(num, s))|
    ensures data[..] == Splice(before, base, done + EncodeFields(TextField(num, s)))
  {
    i := PutText(data, offset, num, s);
    SpliceTwice(before, base, done, EncodeFields(TextField(num, s)));
  }

  lemma {:induction false} HeaderThen(num: nat, s: Bytes)
    requires num < 16
    ensures EncodeField(LenField(num, s)) == [Tag(num, 2)] + Varint(|s|) + s
  {
    hide Varint;
    TagByte(num, 2);
    assert EncodeBody(LenField(num, s)) == Varint(|s|) + s;
  }

  method PutHeader(data: array<Byte>, offset: nat, num: nat, length: nat) returns (i: nat)
    requires num < 16 && offset + 1 + |Varint(length)| <= data.Length
    modifies data
    ensures i == offset + 1 + |Varint(length)|
    ensures data[..] == Splice(old(data[..]), offset, [Tag(num, 2)] + Varint(length))
  {
    data[offset] := Tag(num, 2);
    assert data[..] == Splice(old(data[..]), offset, [Tag(num, 2)]);
    i := EncodeVarint(data, offset + 1, length);
    SpliceTwice(old(data[..]), offset, [Tag(num, 2)], Varint(length));
  }

  // --------------------------------------------------- Size and MarshalTo, by message

  lemma {:induction false} EncodeNothing()
    ensures EncodeFields([]) == []
  {
  }

  lemma {:induction false} Concat3(a: seq<Field>, b: seq<Field>, c: seq<Field>)
    ensures EncodeFields(a + b + c) == EncodeFields(a) + EncodeFields(b) + EncodeFields(c)
  {
    EncodeAppend(a + b, c);
    EncodeAppend(a, b);
  }

  lemma {:induction false} Concat5(a: seq<Field>, b: seq<Field>, c: seq<Field>, d: seq<Field>, e: seq<Field>)
    ensures EncodeFields(a + b + c + d + e)
         == EncodeFields(a) + EncodeFields(b) + EncodeFields(c) + EncodeFields(d) + EncodeFields(e)
  {
    EncodeAppend(a + b + c + d, e);
    EncodeAppend(a + b + c, d);
    Concat3(a, b, c);
  }

  /** What one text field adds to the size. */
  method TextSize(num: nat, s: Bytes) returns (n: nat)
    requires num < 16
    ensures n == |EncodeFields(TextField(num, s))|
  {
    n := 0;
    if |s| > 0 {
      var l := Sov(|s|);
      n := 1 + |s| + l;
      EncodedOne(LenField(num, s));
      HeaderThen(num, s);
    }
  }

  method VNameSize(m: VName) returns (n: nat)
    ensures n == |EncodeVName(m)|
  {
    var a := TextSize(1, m.signature);
    var b := TextSize(2, m.corpus);
    var c := TextSize(3, m.root);
    var d := TextSize(4, m.path);
    var e := TextSize(5, m.language);
    n := a + b + c + d + e;
    Concat5(TextField(1, m.signature), TextField(2, m.corpus), TextField(3, m.root), TextField(4, m.path),
      TextField(5, m.language));
  }

  method MarshalVName(data: array<Byte>, offset: nat, m: VName) returns (i: nat)
    requires offset + |EncodeVName(m)| <= data.Length
    modifies data
    ensures i == offset + |EncodeVName(m)| && data[..] == Splice(old(data[..]), offset, EncodeVName(m))
  {
    ghost var before := data[..];
    ghost var e1, e2, e3 := EncodeFields(TextField(1, m.signature)), EncodeFields(TextField(2, m.corpus)),
      EncodeFields(TextField(3, m.root));
    ghost var e4, e5 := EncodeFields(TextField(4, m.path)), EncodeFields(TextField(5, m.language));
    Concat5(TextField(1, m.signature), TextField(2, m.corpus), TextField(3, m.root), TextField(4, m.path),
      TextField(5, m.language));
    assert EncodeVName(m) == e1 + e2 + e3 + e4 + e5;
    i := PutText(data, offset, 1, m.signature);
    i := AppendText(data, i, 2, m.corpus, before, offset, e1);
    i := AppendText(data, i, 3, m.root, before, offset, e1 + e2);
    i := AppendText(data, i, 4, m.path, before, offset, e1 + e2 + e3);
    i := AppendText(data, i, 5, m.language, before, offset, e1 + e2 + e3 + e4);
  }

  method OptionalVNameSize(num: nat, m: Option<VName>) returns (n: nat)
    requires num < 16
    ensures n == |EncodeFields(MessageField(num, OptionalVName(m)))|
  {
    n := 0;
    if m.Some? {
      var l := VNameSize(m.value);
      var s := Sov(l);
      n := 1 + l + s;
      EncodedOne(LenField(num, EncodeVName(m.value)));
      HeaderThen(num, EncodeVName(m.value));
    }
  }

  /** A nested message is preceded by its own size and then written in place. */
  method PutVName(data: array<Byte>, offset: nat, num: nat, m: Option<VName>) returns (i: nat)
    requires num < 16 && offset + |EncodeFields(MessageField(num, OptionalVName(m)))| <= data.Length
    modifies data
    ensures i == offset + |EncodeFields(MessageField(num, OptionalVName(m)))|
    ensures data[..] == Splice(old(data[..]), offset, EncodeFields(MessageField(num, OptionalVName(m))))
  {
    hide Splice, EncodeVName, EncodeField, EncodeFields, Varint;
    i := offset;
    EncodeNothing();
    SpliceNothing(data[..], offset);
    if m.Some? {
      var size := VNameSize(m.value);
      EncodedOne(LenField(num, EncodeVName(m.value)));
      HeaderThen(num, EncodeVName(m.value));
      i := PutHeader(data, offset, num, size);
      i := MarshalVName(data, i, m.value);
      SpliceTwice(old(data[..]), offset, [Tag(num, 2)] + Varint(size), EncodeVName(m.value));
    }
  }

  method EntrySize(m: Entry) returns (n: nat)
    ensures n == |EncodeEntry(m)|
  {
    var a := OptionalVNameSize(1, m.source);
    var b := TextSize(2, m.edgeKind);
    var c := OptionalVNameSize(3, m.target);
    var d := TextSize(4, m.factName);
    var e := TextSize(5, m.factValue);
    n := a + b + c + d + e;
    Concat5(MessageField(1, OptionalVName(m.source)), TextField(2, m.edgeKind),
            MessageField(3, OptionalVName(m.target)), TextField(4, m.factName), TextField(5, m.factValue));
  }

  method MarshalEntry(data: array<Byte>, offset: nat, m: Entry) returns (i: nat)
    requires offset + |EncodeEntry(m)| <= data.Length
    modifies data
    ensures i == offset + |EncodeEntry(m)| && data[..] == Splice(old(data[..]), offset, EncodeEntry(m))
  {
    hide Splice, EncodeFields, EncodeVName;
    ghost var before := data[..];
    ghost var e1, e2 := EncodeFields(MessageField(1, OptionalVName(m.source))), EncodeFields(TextField(2, m.edgeKind));
    ghost var e3 := EncodeFields(MessageField(3, OptionalVName(m.target)));
    ghost var e4, e5 := EncodeFields(TextField(4, m.factName)), EncodeFields(TextField(5, m.factValue));
    Concat5(MessageField(1, OptionalVName(m.source)), TextField(2, m.edgeKind),
            MessageField(3, OptionalVName(m.target)), TextField(4, m.factName), TextField(5, m.factValue));
    assert EncodeEntry(m) == e1 + e2 + e3 + e4 + e5;
    i := PutVName(data, offset, 1, m.source);
    i := AppendText(data, i, 2, m.edgeKind, before, offset, e1);
    i := PutVName(data, i, 3, m.target);
    SpliceTwice(before, offset, e1 + e2, e3);
    i := AppendText(data, i, 4, m.factName, before, offset, e1 + e2 + e3);
    i := AppendText(data, i, 5, m.factValue, before, offset, e1 + e2 + e3 + e4);
  }

  /** `Marshal` fills a buffer of exactly `Size()` bytes, and what it returns reads back. */
  method Marshal(m: Entry) returns (data: array<Byte>)
    requires |EncodeEntry(m)| <= TWO63
    ensures fresh(data) && data[..] == EncodeEntry(m)
    ensures Unmarshal(EntryHandler(), data[..], EMPTY_ENTRY) == Ok(m)
  {
    var size := EntrySize(m);
    data := new Byte[size](_ => 0);
    var n := MarshalEntry(data, 0, m);
    assert data[..] == EncodeEntry(m);
    EntryDecodes(m);
  }

  // -------------------------------------------------------------------- reading

  method ReadVarintAt(data: Bytes, i: nat) returns (r: Result<(nat, nat)>)
    ensures r == ReadVarint(data, i)
  {
    var j, wire: nat, shift := i, 0, 0;
    while true
      invariant 0 <= shift && i <= j && VarintFrom(data, j, shift, wire) == ReadVarint(data, i)
      decreases 71 - shift
    {
      if shift >= 64 { return Err(IntOverflow); }
      if j >= |data| { return Err(UnexpectedEof); }
      var b := data[j];
      j := j + 1;
      wire := (wire + b % 128 * Pow2(shift)) % TWO64;
      if b < 128 { return Ok((wire, j)); }
      shift := shift + 7;
    }
  }

  method SkipAt(data: Bytes, i: nat) returns (r: Result<nat>)
    ensures r == Skip(data, i)
    decreases Left(data, i), 0
  {
    VarintFromBounds(data, i, 0, 0);
    var tag := ReadVarintAt(data, i);
    if tag.Err? { return Err(tag.error); }
    var (wire, j) := tag.value;
    match wire % 8 {
      case 0 =>
        var shift, k := 0, j;
        while true
          invariant 0 <= shift && j <= k && SkipVarint(data, k, shift) == SkipVarint(data, j, 0)
          decreases 71 - shift
        {
          if shift >= 64 { return Err(IntOverflow); }
          if k >= |data| { return Err(UnexpectedEof); }
          k := k + 1;
          if data[k - 1] < 128 { return Ok(k); }
          shift := shift + 7;
        }
      case 1 => return Ok(j + 8);
      case 2 =>
        var length := ReadVarintAt(data, j);
        if length.Err? { return Err(length.error); }
        if length.value.0 >= TWO63 { return Err(InvalidLength); }
        return Ok(length.value.1 + length.value.0);
      case 3 => r := SkipGroupAt(data, j);
      case 4 => return Ok(j);
      case 5 => return Ok(j + 4);
      case _ => return Err(IllegalWireType);
    }
  }

  method SkipGroupAt(data: Bytes, i: nat) returns (r: Result<nat>)
    ensures r == SkipGroup(data, i)
    decreases Left(data, i), 1
  {
    var k := i;
    while true
      invariant i <= k && SkipGroup(data, k) == SkipGroup(data, i)
      decreases Left(data, k)
    {
      VarintFromBounds(data, k, 0, 0);
      var inner := ReadVarintAt(data, k);
      if inner.Err? { return Err(inner.error); }
      if inner.value.0 % 8 == 4 { return Ok(inner.value.1); }
      var next := SkipAt(data, k);
      if next.Err? { return next; }
      k := next.value;
    }
  }

  /** The body every Unmarshal method shares. */
  method UnmarshalLoop<M>(h: Handler<M>, data: Bytes, start: M) returns (r: Result<M>)
    ensures r == Unmarshal(h, data, start)
  {
    var i, m := 0, start;
    while i < |data|
      invariant 0 <= i && UnmarshalFrom(h, data, i, m) == Unmarshal(h, data, start)
      decreases |data| - i
    {
      VarintFromBounds(data, i, 0, 0);
      var tag := ReadVarintAt(data, i);
      if tag.Err? { return Err(tag.error); }
      var (wire, j) := tag.value;
      VarintFromBounds(data, j, 0, 0);
      var fieldNum, wireType := ToInt32(wire / 8), wire % 8;
      if wireType == 4 { return Err(EndGroup); }
      if fieldNum <= 0 { return Err(IllegalTag); }
      if fieldNum !in h.schema {
        var next := SkipAt(data, i);
        if next.Err? { return Err(next.error); }
        if next.value > |data| { return Err(UnexpectedEof); }
        i := next.value;
      } else if h.schema[fieldNum] == Number {
        if wireType != 0 { return Err(WrongWireType); }
        var number := ReadVarintAt(data, j);
        if number.Err? { return Err(number.error); }
        var updated := h.number(m, fieldNum, number.value.0);
        if updated.Err? { return updated; }
        i, m := number.value.1, updated.value;
      } else {
        if wireType != 2 { return Err(WrongWireType); }
        var length := ReadVarintAt(data, j);
        if length.Err? { return Err(length.error); }
        if length.value.0 >= TWO63 { return Err(InvalidLength); }
        var post := length.value.1 + length.value.0;
        if post > |data| { return Err(UnexpectedEof); }
        var updated := h.text(m, fieldNum, data[length.value.1..post]);
        if updated.Err? { return updated; }
        i, m := post, updated.value;
      }
    }
    r := Ok(m);
  }
}
