/** The wire format of the storage and internal messages: base 128 varints, fields,
    and the byte loops that write, read and skip them.  Follows the sections
    "Base 128 Varints" and "Message Structure" of the Protocol Buffers Encoding
    specification. */
module Wire {

  type Byte = b: int | 0 <= b < 256
  type Bytes = seq<Byte>

  const TWO32: nat := 0x1_0000_0000
  const TWO63: nat := 0x8000_0000_0000_0000
  const TWO64: nat := 0x1_0000_0000_0000_0000

  type U64 = v: nat | v < TWO64

  datatype Error = IntOverflow | UnexpectedEof | InvalidLength | EndGroup | IllegalTag | WrongWireType | IllegalWireType

  datatype Result<+T> = Ok(value: T) | Err(error: Error) {
    predicate IsFailure() { Err? }
    function PropagateFailure<U>(): Result<U> requires Err? { Err(error) }
    function Extract(): T requires Ok? { value }
  }

  // -------------------------------------------------------------------- varints

  function Varint(v: nat): (bs: Bytes)
    ensures |bs| >= 1
  {
    if v < 128 then [v] else [v % 128 + 128] + Varint(v / 128)
  }

  function Pow2(n: nat): (p: nat)
    ensures p >= 1
  {
    if n == 0 then 1 else 2 * Pow2(n - 1)
  }

  /** The reading loop: `acc` holds the bits below `shift`. */
  function VarintFrom(data: Bytes, i: nat, shift: nat, acc: nat): Result<(nat, nat)>
    decreases |data| - i
  {
    if shift >= 64 then Err(IntOverflow)
    else if i >= |data| then Err(UnexpectedEof)
    else
      var b := data[i];
      var acc' := (acc + b % 128 * Pow2(shift)) % TWO64;
      if b < 128 then Ok((acc', i + 1)) else VarintFrom(data, i + 1, shift + 7, acc')
  }

  function ReadVarint(data: Bytes, i: nat): Result<(nat, nat)> { VarintFrom(data, i, 0, 0) }

  lemma {:induction false} VarintFromBounds(data: Bytes, i: nat, shift: nat, acc: nat)
    ensures var r := VarintFrom(data, i, shift, acc); r.Ok? ==> i < r.value.1 <= |data| && r.value.0 < TWO64
    decreases |data| - i
  {
    if shift < 64 && i < |data| && data[i] >= 128 {
      VarintFromBounds(data, i + 1, shift + 7, (acc + data[i] % 128 * Pow2(shift)) % TWO64);
    }
  }

  /** `bs` lies in `data` at `i`. */
  ghost predicate At(data: Bytes, i: nat, bs: Bytes) {
    i + |bs| <= |data| && data[i..i + |bs|] == bs
  }

  lemma {:induction false} AtSplit(data: Bytes, i: nat, a: Bytes, b: Bytes)
    ensures At(data, i, a + b) <==> At(data, i, a) && At(data, i + |a|, b)
  {
    if At(data, i, a + b) {
      assert data[i..i + |a|] == data[i..i + |a + b|][..|a|];
      assert data[i + |a|..i + |a| + |b|] == data[i..i + |a + b|][|a|..];
    }
    if At(data, i, a) && At(data, i + |a|, b) {
      assert data[i..i + |a + b|] == data[i..i + |a|] + data[i + |a|..i + |a| + |b|];
    }
  }

  lemma {:induction false} AtInside(data: Bytes, i: nat, bs: Bytes)
    requires At(data, i, bs)
    ensures i + |bs| <= |data| && data[i..i + |bs|] == bs
  {
  }

  lemma {:induction false} Pow2Seven(n: nat)
    ensures Pow2(n + 7) == 128 * Pow2(n)
  {
    assert Pow2(n + 7) == 2 * Pow2(n + 6) == 4 * Pow2(n + 5) == 8 * Pow2(n + 4);
    assert Pow2(n + 4) == 2 * Pow2(n + 3) == 4 * Pow2(n + 2) == 8 * Pow2(n + 1) == 16 * Pow2(n);
  }

  lemma {:induction false} Pow2AtLeast64(n: nat)
    requires n >= 64
    ensures Pow2(n) >= TWO64
    decreases n
  {
    if n == 64 { Pow2Is64(); } else { Pow2AtLeast64(n - 1); }
  }

  lemma {:induction false} Pow2Is64()
    ensures Pow2(64) == TWO64
  {
    assert Pow2(8) == 256 by { assert Pow2(4) == 16; }
    Pow2Seven(1); Pow2Seven(8); Pow2Seven(15); Pow2Seven(22);
    Pow2Seven(29); Pow2Seven(36); Pow2Seven(43); Pow2Seven(50);
    assert Pow2(57) == 0x200_0000_0000_0000;
    Pow2Seven(57);
  }

  lemma {:induction false} SplitSeven(v: nat, p: nat)
    ensures v % 128 * p + v / 128 * (128 * p) == v * p
  {
    var lo, hi := v % 128, v / 128;
    assert v == 128 * hi + lo;
    assert lo * p + hi * (128 * p) == (lo + 128 * hi) * p;
  }

  lemma {:induction false} MulAtMost(lo: nat, hi: nat, p: nat)
    requires lo <= hi
    ensures lo * p <= hi * p
  {
    assert hi * p - lo * p == (hi - lo) * p;
  }

  /** One step of the loop takes over the low seven bits. */
  lemma {:induction false} Accumulate(acc: nat, v: nat, p: nat)
    requires acc < p && acc + v * p < TWO64
    ensures var acc' := acc + v % 128 * p;
      && acc' % TWO64 == acc' && acc' < 128 * p && acc' + v / 128 * (128 * p) == acc + v * p
  {
    SplitSeven(v, p);
    MulAtMost(v % 128, 127, p);
    MulAtMost(0, v / 128, 128 * p);
    var lo, hi := v % 128 * p, v / 128 * (128 * p);
    assert lo + hi == v * p && 0 <= hi && lo <= 127 * p;
  }

  lemma {:induction false} ShiftInRange(shift: nat, acc: nat, v: nat)
    requires acc + v * Pow2(shift) < TWO64 && v > 0
    ensures shift < 64
  {
    MulAtMost(1, v, Pow2(shift));
    if shift >= 64 { Pow2AtLeast64(shift); }
  }

  /** Reading undoes writing, from any point of the loop. */
  lemma {:induction false} VarintRoundTripFrom(data: Bytes, i: nat, shift: nat, acc: nat, v: nat)
    requires At(data, i, Varint(v))
    requires acc < Pow2(shift) && acc + v * Pow2(shift) < TWO64 && (shift > 0 ==> v > 0)
    ensures VarintFrom(data, i, shift, acc) == Ok((acc + v * Pow2(shift), i + |Varint(v)|))
    decreases v
  {
    hide Pow2, VarintFrom, At;
    var p := Pow2(shift);
    if v > 0 { ShiftInRange(shift, acc, v); }
    Accumulate(acc, v, p);
    Pow2Seven(shift);
    VarintStep(data, i, shift, acc, v);
    if v >= 128 {
      VarintRoundTripFrom(data, i + 1, shift + 7, acc + v % 128 * p, v / 128);
    }
  }

  /** What one turn of the loop does with the first byte of a varint. */
  lemma {:induction false} VarintStep(data: Bytes, i: nat, shift: nat, acc: nat, v: nat)
    requires At(data, i, Varint(v)) && shift < 64
    ensures var acc' := (acc + v % 128 * Pow2(shift)) % TWO64;
      VarintFrom(data, i, shift, acc) == if v < 128 then Ok((acc', i + 1)) else VarintFrom(data, i + 1, shift + 7, acc')
    ensures v >= 128 ==> At(data, i + 1, Varint(v / 128))
  {
    hide Pow2;
    if v < 128 {
      assert data[i] == data[i..i + 1][0] == v;
    } else {
      AtSplit(data, i, [v % 128 + 128], Varint(v / 128));
      assert data[i] == data[i..i + 1][0] == v % 128 + 128;
    }
  }

  lemma {:induction false} VarintRoundTrip(data: Bytes, i: nat, v: U64)
    requires At(data, i, Varint(v))
    ensures ReadVarint(data, i) == Ok((v, i + |Varint(v)|))
  {
    VarintRoundTripFrom(data, i, 0, 0, v);
  }

  // --------------------------------------------------------------------- fields

  datatype Field =
    | VarintField(num: nat, value: nat)
    | Fixed64Field(num: nat, bits: Bytes)
    | LenField(num: nat, payload: Bytes)
    | GroupField(num: nat, fields: seq<Field>)
    | Fixed32Field(num: nat, bits: Bytes)
  {
    function WireType(): nat {
      match this
      case VarintField(_, _) => 0
      case Fixed64Field(_, _) => 1
      case LenField(_, _) => 2
      case GroupField(_, _) => 3
      case Fixed32Field(_, _) => 5
    }
  }

  /** A field as the format allows it to be written. */
  ghost predicate WellFormed(f: Field) {
    && 0 < f.num < 0x2000_0000
    && match f
       case VarintField(_, v) => v < TWO64
       case Fixed64Field(_, bits) => |bits| == 8
       case LenField(_, p) => |p| < TWO63
       case GroupField(_, fs) => forall i | 0 <= i < |fs| :: WellFormed(fs[i])
       case Fixed32Field(_, bits) => |bits| == 4
  }

  ghost predicate AllWellFormed(fs: seq<Field>) { forall i | 0 <= i < |fs| :: WellFormed(fs[i]) }

  function Tag(num: nat, wireType: nat): nat { num * 8 + wireType }

  function EncodeField(f: Field): (bs: Bytes)
    ensures |bs| >= 1
    decreases f, 1
  {
    Varint(Tag(f.num, f.WireType())) + EncodeBody(f)
  }

  function EncodeBody(f: Field): Bytes
    decreases f, 0
  {
    match f
    case VarintField(_, v) => Varint(v)
    case Fixed64Field(_, bits) => bits
    case LenField(_, p) => Varint(|p|) + p
    case GroupField(num, fs) => EncodeFields(fs) + Varint(Tag(num, 4))
    case Fixed32Field(_, bits) => bits
  }

  function EncodeFields(fs: seq<Field>): Bytes
    decreases fs
  {
    if |fs| == 0 then [] else EncodeField(fs[0]) + EncodeFields(fs[1..])
  }

  lemma {:induction false} EncodeAppend(a: seq<Field>, b: seq<Field>)
    ensures EncodeFields(a + b) == EncodeFields(a) + EncodeFields(b)
  {
    if |a| == 0 {
      assert a + b == b;
    } else {
      assert (a + b)[1..] == a[1..] + b;
      EncodeAppend(a[1..], b);
    }
  }

  // ------------------------------------------------------------------- skipping

  function SkipVarint(data: Bytes, i: nat, shift: nat): Result<nat>
    decreases |data| - i
  {
    if shift >= 64 then Err(IntOverflow)
    else if i >= |data| then Err(UnexpectedEof)
    else if data[i] < 128 then Ok(i + 1)
    else SkipVarint(data, i + 1, shift + 7)
  }

  lemma {:induction false} SkipVarintReads(data: Bytes, i: nat, shift: nat, acc: nat)
    ensures var r := VarintFrom(data, i, shift, acc);
      SkipVarint(data, i, shift) == if r.Ok? then Ok(r.value.1) else Err(r.error)
    decreases |data| - i
  {
    if shift < 64 && i < |data| && data[i] >= 128 {
      SkipVarintReads(data, i + 1, shift + 7, (acc + data[i] % 128 * Pow2(shift)) % TWO64);
    }
  }

  ghost function Left(data: Bytes, i: nat): nat { if i < |data| then |data| - i else 0 }

  /** `skipStorage`: the index just after the field that starts at `i`.  Like the
      original it does not look whether that index is still inside `data`. */
  function Skip(data: Bytes, i: nat): (r: Result<nat>)
    ensures r.Ok? ==> i < |data| && r.value > i
    decreases Left(data, i), 0
  {
    VarintFromBounds(data, i, 0, 0);
    var (wire, j) :- ReadVarint(data, i);
    VarintFromBounds(data, j, 0, 0);
    SkipVarintReads(data, j, 0, 0);
    match wire % 8
    case 0 => SkipVarint(data, j, 0)
    case 1 => Ok(j + 8)
    case 2 =>
      var (length, k) :- ReadVarint(data, j);
      if length >= TWO63 then Err(InvalidLength) else Ok(k + length)
    case 3 => SkipGroup(data, j)
    case 4 => Ok(j)
    case 5 => Ok(j + 4)
    case _ => Err(IllegalWireType)
  }

  function SkipGroup(data: Bytes, i: nat): (r: Result<nat>)
    ensures r.Ok? ==> r.value > i
    decreases Left(data, i), 1
  {
    VarintFromBounds(data, i, 0, 0);
    var (inner, j) :- ReadVarint(data, i);
    if inner % 8 == 4 then Ok(j)
    else
      var next :- Skip(data, i);
      SkipGroup(data, next)
  }

  lemma {:induction false} TagReads(data: Bytes, i: nat, num: nat, wireType: nat)
    requires num < 0x2000_0000 && wireType < 8 && At(data, i, Varint(Tag(num, wireType)))
    ensures ReadVarint(data, i) == Ok((Tag(num, wireType), i + |Varint(Tag(num, wireType))|))
    ensures Tag(num, wireType) % 8 == wireType && Tag(num, wireType) / 8 == num
  {
    VarintRoundTrip(data, i, Tag(num, wireType));
  }

  lemma {:induction false} FieldTagReads(data: Bytes, i: nat, f: Field)
    requires WellFormed(f) && At(data, i, EncodeField(f))
    ensures var j := i + |Varint(Tag(f.num, f.WireType()))|;
      && ReadVarint(data, i) == Ok((Tag(f.num, f.WireType()), j))
      && At(data, j, EncodeBody(f)) && i + |EncodeField(f)| == j + |EncodeBody(f)|
    ensures Tag(f.num, f.WireType()) % 8 == f.WireType() && Tag(f.num, f.WireType()) / 8 == f.num
  {
    AtSplit(data, i, Varint(Tag(f.num, f.WireType())), EncodeBody(f));
    TagReads(data, i, f.num, f.WireType());
  }

  /** Skipping advances by exactly the length of a well-formed field, nested groups included. */
  lemma {:induction false} SkipsExactly(data: Bytes, i: nat, f: Field)
    requires WellFormed(f) && At(data, i, EncodeField(f))
    ensures Skip(data, i) == Ok(i + |EncodeField(f)|)
    decreases f, 0
  {
    FieldTagReads(data, i, f);
    var j := i + |Varint(Tag(f.num, f.WireType()))|;
    match f
    case VarintField(_, v) =>
      VarintRoundTrip(data, j, v);
      SkipVarintReads(data, j, 0, 0);
    case LenField(_, p) =>
      AtSplit(data, j, Varint(|p|), p);
      VarintRoundTrip(data, j, |p|);
    case GroupField(num, fs) => SkipsGroupExactly(data, j, num, fs);
    case Fixed64Field(_, _) =>
    case Fixed32Field(_, _) =>
  }

  ghost predicate GroupEndsAt(data: Bytes, i: nat, n: nat) { SkipGroup(data, i) == Ok(n) }

  lemma {:induction false} SkipsGroupExactly(data: Bytes, i: nat, num: nat, fs: seq<Field>)
    requires AllWellFormed(fs) && num < 0x2000_0000
    requires At(data, i, EncodeFields(fs) + Varint(Tag(num, 4)))
    ensures GroupEndsAt(data, i, i + |EncodeFields(fs)| + |Varint(Tag(num, 4))|)
    decreases fs
  {
    hide At, Varint, Skip, SkipGroup, EncodeField, GroupEndsAt;
    var end := Varint(Tag(num, 4));
    AtSplit(data, i, EncodeFields(fs), end);
    if |fs| == 0 {
      SkipsGroupEnd(data, i, num);
    } else {
      var f, rest := fs[0], fs[1..];
      var n := i + |EncodeField(f)|;
      AtSplit(data, i, EncodeField(f), EncodeFields(rest));
      SkipsExactly(data, i, f);
      AtSplit(data, n, EncodeFields(rest), end);
      SkipsGroupExactly(data, n, num, rest);
      SkipsOneInGroup(data, i, f, n + |EncodeFields(rest)| + |end|);
    }
  }

  lemma {:induction false} SkipsGroupEnd(data: Bytes, i: nat, num: nat)
    requires num < 0x2000_0000 && At(data, i, Varint(Tag(num, 4)))
    ensures GroupEndsAt(data, i, i + |Varint(Tag(num, 4))|)
  {
    TagReads(data, i, num, 4);
  }

  lemma {:induction false} SkipsOneInGroup(data: Bytes, i: nat, f: Field, n: nat)
    requires WellFormed(f) && At(data, i, EncodeField(f)) && Skip(data, i) == Ok(i + |EncodeField(f)|)
    requires GroupEndsAt(data, i + |EncodeField(f)|, n)
    ensures GroupEndsAt(data, i, n)
  {
    FieldTagReads(data, i, f);
  }

  // ------------------------------------------------- the template of every Unmarshal

  /** What the fields of a message are declared as. */
  datatype Kind = Number | Text

  type Schema = map<nat, Kind>

  /** One step of the reading loop: a known field with its number or the bounds of its
      content, or an unknown one passed over. */
  datatype Item = Num(num: nat, value: nat) | Span(num: nat, lo: nat, hi: nat) | Unknown

  /** `int32(x)`. */
  function ToInt32(x: nat): (r: int)
    ensures -0x8000_0000 <= r < 0x8000_0000
  {
    var low := x % TWO32;
    if low < 0x8000_0000 then low else low - TWO32
  }

  /** `int64(x)`. */
  function ToInt64(x: nat): (r: int)
    ensures -(TWO63 as int) <= r < TWO63
  {
    var low := x % TWO64;
    if low < TWO63 then low else low - TWO64
  }

  function ReadItem(schema: Schema, data: Bytes, i: nat): (r: Result<(Item, nat)>)
    ensures r.Ok? ==> i < r.value.1 <= |data|
    ensures r.Ok? && r.value.0.Span? ==> r.value.0.lo <= r.value.0.hi == r.value.1
    ensures r.Ok? && !r.value.0.Unknown? ==>
      r.value.0.num in schema && (r.value.0.Num? <==> schema[r.value.0.num] == Number)
  {
    VarintFromBounds(data, i, 0, 0);
    var (wire, j) :- ReadVarint(data, i);
    VarintFromBounds(data, j, 0, 0);
    var fieldNum := ToInt32(wire / 8);
    var wireType := wire % 8;
    if wireType == 4 then Err(EndGroup)
    else if fieldNum <= 0 then Err(IllegalTag)
    else if fieldNum in schema then
      match schema[fieldNum]
      case Number =>
        if wireType != 0 then Err(WrongWireType)
        else
          var (value, k) :- ReadVarint(data, j);
          Ok((Num(fieldNum, value), k))
      case Text =>
        if wireType != 2 then Err(WrongWireType)
        else
          var (length, k) :- ReadVarint(data, j);
          if length >= TWO63 then Err(InvalidLength)
          else if k + length > |data| then Err(UnexpectedEof)
          else Ok((Span(fieldNum, k, k + length), k + length))
    else
      var next :- Skip(data, i);
      if next > |data| then Err(UnexpectedEof) else Ok((Unknown, next))
  }

  /** What the `switch` of an Unmarshal method does with a known field. */
  datatype Handler<!M> = Handler(schema: Schema, number: (M, nat, nat) -> Result<M>, text: (M, nat, Bytes) -> Result<M>)

  /** The loop of an Unmarshal method, from index `i` with message `m` so far. */
  function UnmarshalFrom<M>(h: Handler<M>, data: Bytes, i: nat, m: M): Result<M>
    decreases |data| - i
  {
    if i >= |data| then Ok(m)
    else
      var (item, next) :- ReadItem(h.schema, data, i);
      match item
      case Unknown => UnmarshalFrom(h, data, next, m)
      case Num(num, value) =>
        var m' :- h.number(m, num, value);
        UnmarshalFrom(h, data, next, m')
      case Span(num, lo, hi) =>
        var m' :- h.text(m, num, data[lo..hi]);
        UnmarshalFrom(h, data, next, m')
  }

  function Unmarshal<M>(h: Handler<M>, data: Bytes, m: M): Result<M> { UnmarshalFrom(h, data, 0, m) }

  /** A field has the wire type its number is declared with, or an undeclared number. */
  predicate Fits(schema: Schema, f: Field) {
    f.num in schema ==> match schema[f.num] case Number => f.VarintField? case Text => f.LenField?
  }

  /** Where the content of a length-delimited field starts. */
  function ContentStart(f: Field): nat
    requires f.LenField?
  {
    |Varint(Tag(f.num, 2))| + |Varint(|f.payload|)|
  }

  /** Reading a well-formed field: its content if it is known, nothing if it is not. */
  lemma {:induction false} ItemOfField(schema: Schema, data: Bytes, i: nat, f: Field)
    requires WellFormed(f) && Fits(schema, f) && At(data, i, EncodeField(f))
    ensures var next := i + |EncodeField(f)|;
      ReadItem(schema, data, i) ==
      if f.num !in schema then Ok((Unknown, next))
      else if f.VarintField? then Ok((Num(f.num, f.value), next))
      else Ok((Span(f.num, i + ContentStart(f), next), next))
    ensures f.LenField? ==>
      At(data, i + ContentStart(f), f.payload) && i + ContentStart(f) + |f.payload| == i + |EncodeField(f)|
  {
    hide At, Varint, VarintFrom, Skip;
    FieldTagReads(data, i, f);
    var j := i + |Varint(Tag(f.num, f.WireType()))|;
    if f.LenField? {
      AtSplit(data, j, Varint(|f.payload|), f.payload);
      VarintRoundTrip(data, j, |f.payload|);
      AtInside(data, j + |Varint(|f.payload|)|, f.payload);
    } else if f.VarintField? {
      VarintRoundTrip(data, j, f.value);
    }
    if f.num !in schema {
      SkipsExactly(data, i, f);
      AtInside(data, i, EncodeField(f));
    }
  }

  // ------------------------------------------------------- what a message decodes to

  function Step<M>(h: Handler<M>, m: M, f: Field): Result<M> {
    match f
    case VarintField(num, value) => h.number(m, num, value)
    case LenField(num, payload) => h.text(m, num, payload)
    case _ => Err(WrongWireType)
  }

  /** The fields of a message taken in order, the unknown ones ignored. */
  function Fold<M>(h: Handler<M>, m: M, fs: seq<Field>): Result<M> {
    if |fs| == 0 then Ok(m)
    else if fs[0].num !in h.schema then Fold(h, m, fs[1..])
    else
      var m' :- Step(h, m, fs[0]);
      Fold(h, m', fs[1..])
  }

  ghost predicate AllFit(schema: Schema, fs: seq<Field>) { forall i | 0 <= i < |fs| :: Fits(schema, fs[i]) }

  /** Unmarshalling any sequence of well-formed fields takes them in order. */
  lemma {:induction false} UnmarshalIsFold<M(!new)>(h: Handler<M>, data: Bytes, i: nat, m: M, fs: seq<Field>)
    requires AllWellFormed(fs) && AllFit(h.schema, fs)
    requires At(data, i, EncodeFields(fs)) && i + |EncodeFields(fs)| == |data|
    ensures UnmarshalFrom(h, data, i, m) == Fold(h, m, fs)
    decreases |fs|
  {
    hide At, EncodeField, ReadItem, ContentStart;
    if |fs| > 0 {
      var f, rest := fs[0], fs[1..];
      var next := i + |EncodeField(f)|;
      AtSplit(data, i, EncodeField(f), EncodeFields(rest));
      ItemOfField(h.schema, data, i, f);
      if f.LenField? { AtInside(data, i + ContentStart(f), f.payload); }
      if f.num !in h.schema {
        UnmarshalIsFold(h, data, next, m, rest);
      } else {
        var r := Step(h, m, f);
        if r.Ok? { UnmarshalIsFold(h, data, next, r.value, rest); }
      }
    }
  }

  lemma {:induction false} FoldAppend<M(!new)>(h: Handler<M>, m: M, a: seq<Field>, b: seq<Field>)
    ensures var r := Fold(h, m, a);
      Fold(h, m, a + b) == if r.Ok? then Fold(h, r.value, b) else r
    decreases |a|
  {
    if |a| == 0 {
      assert a + b == b;
    } else {
      assert (a + b)[0] == a[0] && (a + b)[1..] == a[1..] + b;
      if a[0].num !in h.schema {
        FoldAppend(h, m, a[1..], b);
      } else if Step(h, m, a[0]).Ok? {
        FoldAppend(h, Step(h, m, a[0]).value, a[1..], b);
      }
    }
  }

  /** The declared fields among `fs`, in order. */
  function KnownFields(schema: Schema, fs: seq<Field>): seq<Field> {
    if |fs| == 0 then []
    else (if fs[0].num in schema then [fs[0]] else []) + KnownFields(schema, fs[1..])
  }

  /** Unknown fields are transparent, wherever they stand. */
  lemma {:induction false} UnknownFieldsAreTransparent<M(!new)>(h: Handler<M>, m: M, fs: seq<Field>)
    ensures Fold(h, m, fs) == Fold(h, m, KnownFields(h.schema, fs))
    decreases |fs|
  {
    if |fs| > 0 {
      var known := KnownFields(h.schema, fs[1..]);
      if fs[0].num !in h.schema {
        UnknownFieldsAreTransparent(h, m, fs[1..]);
        assert KnownFields(h.schema, fs) == known;
      } else {
        assert ([fs[0]] + known)[1..] == known;
        if Step(h, m, fs[0]).Ok? { UnknownFieldsAreTransparent(h, Step(h, m, fs[0]).value, fs[1..]); }
      }
    }
  }

  lemma {:induction false} KnownFieldsFit(schema: Schema, fs: seq<Field>)
    requires AllFit(schema, KnownFields(schema, fs))
    ensures AllFit(schema, fs)
    decreases |fs|
  {
    if |fs| > 0 {
      var k := KnownFields(schema, fs);
      var rest := KnownFields(schema, fs[1..]);
      assert forall i | 0 <= i < |rest| :: rest[i] == k[i + |k| - |rest|];
      KnownFieldsFit(schema, fs[1..]);
      assert fs[0].num in schema ==> k[0] == fs[0];
      forall i | 0 <= i < |fs| ensures Fits(schema, fs[i]) {
        if i > 0 { assert fs[i] == fs[1..][i - 1]; }
      }
    }
  }

  /** Decoding a message whose known fields are `known`, with any unknown fields between them. */
  lemma {:induction false} Decodes<M(!new)>(h: Handler<M>, m: M, fs: seq<Field>, known: seq<Field>)
    requires AllWellFormed(fs) && KnownFields(h.schema, fs) == known && AllFit(h.schema, known)
    ensures Unmarshal(h, EncodeFields(fs), m) == Fold(h, m, known)
  {
    KnownFieldsFit(h.schema, fs);
    var data := EncodeFields(fs);
    assert data[0..|data|] == data;
    UnmarshalIsFold(h, data, 0, m, fs);
    UnknownFieldsAreTransparent(h, m, fs);
  }
}
