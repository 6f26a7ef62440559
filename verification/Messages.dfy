/** The storage and internal messages: what they are written as, and that reading
    what was written gives the message back, whatever unknown fields stand between. */
module Messages {
  import opened Wrappers
  import opened Wire

  // ----------------------------------------------------------- fields that may be absent

  function TextField(num: nat, s: Bytes): seq<Field> {
    if |s| > 0 then [LenField(num, s)] else []
  }

  function NumberField(num: nat, value: nat): seq<Field> {
    if value != 0 then [VarintField(num, value)] else []
  }

  function MessageField(num: nat, encoded: Option<Bytes>): seq<Field> {
    if encoded.Some? then [LenField(num, encoded.value)] else []
  }

  function NoNumber<M>(m: M, num: nat, value: nat): Result<M> { Err(WrongWireType) }

  /** `uint64(x)` of a signed integer. */
  function FromSigned(x: int): (v: nat)
    requires -(TWO63 as int) <= x < TWO63
    ensures v < TWO64
  {
    if x < 0 then x + TWO64 else x
  }

  /** Sign extension on writing and truncation on reading cancel out. */
  lemma {:induction false} SignedRoundTrip(x: int)
    requires -(TWO63 as int) <= x < TWO63
    ensures ToInt64(FromSigned(x)) == x
    ensures -0x8000_0000 <= x < 0x8000_0000 ==> ToInt32(FromSigned(x)) == x
    ensures x < 0 ==> |Varint(FromSigned(x))| == 10
  {
    if x < 0 { TenBytes(FromSigned(x)); }
    if -0x8000_0000 <= x < 0 { assert FromSigned(x) % TWO32 == x + TWO32; }
  }

  /** A varint has one byte for each seven bits. */
  lemma {:induction false} VarintLength(v: nat, n: nat)
    requires (n == 0 || Pow2(7 * n) <= v) && v < Pow2(7 * n + 7)
    ensures |Varint(v)| == n + 1
    decreases n
  {
    Pow2Seven(7 * n);
    if n == 0 {
      assert Pow2(0) == 1;
    } else {
      var m := n - 1;
      Pow2Seven(7 * m);
      assert 7 * m + 7 == 7 * n;
      VarintLength(v / 128, m);
    }
  }

  lemma {:induction false} TenBytes(v: nat)
    requires TWO63 <= v < TWO64
    ensures |Varint(v)| == 10
  {
    Pow2Is64();
    assert Pow2(64) == 2 * Pow2(63);
    Pow2Seven(63);
    VarintLength(v, 9);
  }

  /** Folding a text field that is at most once present sets it. */
  ghost predicate Sets<M>(h: Handler<M>, m: M, fs: seq<Field>, m': M) { Fold(h, m, fs) == Ok(m') }

  lemma {:induction false} Then<M(!new)>(h: Handler<M>, m: M, a: seq<Field>, m1: M, b: seq<Field>, m2: M)
    requires Sets(h, m, a, m1) && Sets(h, m1, b, m2)
    ensures Sets(h, m, a + b, m2)
  {
    FoldAppend(h, m, a, b);
  }

  lemma {:induction false} One<M(!new)>(h: Handler<M>, m: M, f: Field, m': M)
    requires f.num in h.schema && Step(h, m, f) == Ok(m')
    ensures Sets(h, m, [f], m')
  {
    assert [f][1..] == [];
  }

  lemma {:induction false} Nothing<M(!new)>(h: Handler<M>, m: M)
    ensures Sets(h, m, [], m)
  {
  }

  lemma {:induction false} SetText<M(!new)>(h: Handler<M>, m: M, num: nat, s: Bytes, m': M)
    requires num in h.schema && if |s| > 0 then h.text(m, num, s) == Ok(m') else m == m'
    ensures Sets(h, m, TextField(num, s), m')
  {
    if |s| > 0 { One(h, m, LenField(num, s), m'); }
  }

  lemma {:induction false} SetMessage<M(!new)>(h: Handler<M>, m: M, num: nat, encoded: Option<Bytes>, m': M)
    requires num in h.schema && if encoded.Some? then h.text(m, num, encoded.value) == Ok(m') else m == m'
    ensures Sets(h, m, MessageField(num, encoded), m')
  {
    if encoded.Some? { One(h, m, LenField(num, encoded.value), m'); }
  }

  lemma {:induction false} SetNumber<M(!new)>(h: Handler<M>, m: M, num: nat, v: nat, m': M)
    requires num in h.schema && if v != 0 then h.number(m, num, v) == Ok(m') else m == m'
    ensures Sets(h, m, NumberField(num, v), m')
  {
    if v != 0 { One(h, m, VarintField(num, v), m'); }
  }

  /** Every field is declared with its wire type: the sequence is its own known part. */
  ghost predicate Declared(schema: Schema, fs: seq<Field>) {
    forall i | 0 <= i < |fs| :: fs[i].num in schema && Fits(schema, fs[i])
  }

  lemma {:induction false} DeclaredIsKnown(schema: Schema, fs: seq<Field>)
    requires Declared(schema, fs)
    ensures KnownFields(schema, fs) == fs && AllFit(schema, fs)
  {
    if |fs| > 0 {
      assert forall i | 0 <= i < |fs[1..]| :: fs[1..][i] == fs[i + 1];
      DeclaredIsKnown(schema, fs[1..]);
      assert fs == [fs[0]] + fs[1..];
    }
  }

  /** `fs` is the fields `own` with any undeclared fields put between them. */
  ghost predicate Carries(schema: Schema, fs: seq<Field>, own: seq<Field>) {
    AllWellFormed(fs) && KnownFields(schema, fs) == own
  }

  /** The size of a field bounds the size of what it carries. */
  lemma {:induction false} SmallPayloads(fs: seq<Field>, i: nat)
    requires i < |fs| && fs[i].LenField?
    ensures |fs[i].payload| < |EncodeFields(fs)|
  {
    if i > 0 {
      SmallPayloads(fs[1..], i - 1);
    } else {
      assert |EncodeBody(fs[0])| >= |fs[0].payload|;
    }
  }

  lemma {:induction false} OwnIsWellFormed(fs: seq<Field>)
    requires |EncodeFields(fs)| <= TWO63
    requires forall i | 0 <= i < |fs| ::
      0 < fs[i].num < 16 && (fs[i].LenField? || (fs[i].VarintField? && fs[i].value < TWO64))
    ensures AllWellFormed(fs)
  {
    forall i | 0 <= i < |fs| ensures WellFormed(fs[i]) {
      if fs[i].LenField? { SmallPayloads(fs, i); }
    }
  }

  // ---------------------------------------------------------------------- VName

  datatype VName = VName(signature: Bytes, corpus: Bytes, root: Bytes, path: Bytes, language: Bytes)

  const EMPTY_VNAME: VName := VName([], [], [], [], [])

  function VNameFields(m: VName): seq<Field> {
    TextField(1, m.signature) + TextField(2, m.corpus) + TextField(3, m.root) + TextField(4, m.path)
      + TextField(5, m.language)
  }

  function VNameText(m: VName, num: nat, s: Bytes): Result<VName> {
    match num
    case 1 => Ok(m.(signature := s))
    case 2 => Ok(m.(corpus := s))
    case 3 => Ok(m.(root := s))
    case 4 => Ok(m.(path := s))
    case _ => Ok(m.(language := s))
  }

  function VNameHandler(): Handler<VName> {
    Handler(map[1 := Text, 2 := Text, 3 := Text, 4 := Text, 5 := Text], NoNumber, VNameText)
  }

  lemma {:induction false} VNameSets(m: VName)
    ensures Sets(VNameHandler(), EMPTY_VNAME, VNameFields(m), m)
    ensures Declared(VNameHandler().schema, VNameFields(m))
  {
    hide Sets, Fold;
    var h := VNameHandler();
    var m1 := EMPTY_VNAME.(signature := m.signature);
    var m2 := m1.(corpus := m.corpus);
    var m3 := m2.(root := m.root);
    var m4 := m3.(path := m.path);
    var f1, f2, f3, f4, f5 := TextField(1, m.signature), TextField(2, m.corpus), TextField(3, m.root),
      TextField(4, m.path), TextField(5, m.language);
    SetText(h, EMPTY_VNAME, 1, m.signature, m1);
    SetText(h, m1, 2, m.corpus, m2);
    SetText(h, m2, 3, m.root, m3);
    SetText(h, m3, 4, m.path, m4);
    SetText(h, m4, 5, m.language, m);
    Then(h, EMPTY_VNAME, f1, m1, f2, m2);
    Then(h, EMPTY_VNAME, f1 + f2, m2, f3, m3);
    Then(h, EMPTY_VNAME, f1 + f2 + f3, m3, f4, m4);
    Then(h, EMPTY_VNAME, f1 + f2 + f3 + f4, m4, f5, m);
  }

  function EncodeVName(m: VName): Bytes { EncodeFields(VNameFields(m)) }

  lemma {:induction false} VNameRoundTrip(m: VName, fs: seq<Field>)
    requires Carries(VNameHandler().schema, fs, VNameFields(m))
    ensures Unmarshal(VNameHandler(), EncodeFields(fs), EMPTY_VNAME) == Ok(m)
  {
    VNameSets(m);
    Decodes(VNameHandler(), EMPTY_VNAME, fs, VNameFields(m));
  }

  /** Nothing but the message's own fields, as `Marshal` writes them. */
  lemma {:induction false} VNameDecodes(m: VName)
    requires |EncodeVName(m)| <= TWO63
    ensures Unmarshal(VNameHandler(), EncodeVName(m), EMPTY_VNAME) == Ok(m)
  {
    VNameSets(m);
    OwnIsWellFormed(VNameFields(m));
    DeclaredIsKnown(VNameHandler().schema, VNameFields(m));
    VNameRoundTrip(m, VNameFields(m));
  }

  /** `p` is an encoding of `m`, with any undeclared fields put between its own. */
  ghost predicate SpellsVName(p: Bytes, m: VName) { exists gs :: IsVNameIn(gs, p, m) }

  ghost predicate IsVNameIn(gs: seq<Field>, p: Bytes, m: VName) {
    Carries(VNameHandler().schema, gs, VNameFields(m)) && p == EncodeFields(gs)
  }

  ghost predicate Spells(p: Option<Bytes>, m: Option<VName>) {
    p.Some? == m.Some? && (m.Some? ==> SpellsVName(p.value, m.value))
  }

  lemma {:induction false} SpelledReads(p: Bytes, m: VName)
    requires SpellsVName(p, m)
    ensures Unmarshal(VNameHandler(), p, EMPTY_VNAME) == Ok(m)
  {
    var gs :| IsVNameIn(gs, p, m);
    VNameRoundTrip(m, gs);
  }

  lemma {:induction false} OwnSpells(m: VName)
    requires |EncodeVName(m)| <= TWO63
    ensures SpellsVName(EncodeVName(m), m)
  {
    VNameSets(m);
    OwnIsWellFormed(VNameFields(m));
    DeclaredIsKnown(VNameHandler().schema, VNameFields(m));
    assert IsVNameIn(VNameFields(m), EncodeVName(m), m);
  }

  // ---------------------------------------------------------------------- Entry

  datatype Entry =
    Entry(source: Option<VName>, edgeKind: Bytes, target: Option<VName>, factName: Bytes, factValue: Bytes)

  const EMPTY_ENTRY: Entry := Entry(None, [], None, [], [])

  function OptionalVName(m: Option<VName>): Option<Bytes> {
    if m.Some? then Some(EncodeVName(m.value)) else None
  }

  /** A nested VName is read into the one already there, or into a new one. */
  function ReadVName(m: Option<VName>, s: Bytes): Result<VName> {
    Unmarshal(VNameHandler(), s, if m.Some? then m.value else EMPTY_VNAME)
  }

  function EntryFields(m: Entry): seq<Field> { EntryFieldsWith(m, OptionalVName(m.source), OptionalVName(m.target)) }

  /** The fields of an entry whose nested VNames are spelled by the given bytes. */
  function EntryFieldsWith(m: Entry, source: Option<Bytes>, target: Option<Bytes>): seq<Field> {
    MessageField(1, source) + TextField(2, m.edgeKind) + MessageField(3, target)
    + TextField(4, m.factName) + TextField(5, m.factValue)
  }

  function EntryText(m: Entry, num: nat, s: Bytes): Result<Entry> {
    match num
    case 1 => var v :- ReadVName(m.source, s); Ok(m.(source := Some(v)))
    case 2 => Ok(m.(edgeKind := s))
    case 3 => var v :- ReadVName(m.target, s); Ok(m.(target := Some(v)))
    case 4 => Ok(m.(factName := s))
    case _ => Ok(m.(factValue := s))
  }

  function EntryHandler(): Handler<Entry> {
    Handler(map[1 := Text, 2 := Text, 3 := Text, 4 := Text, 5 := Text], NoNumber, EntryText)
  }

  function EncodeEntry(m: Entry): Bytes { EncodeFields(EntryFields(m)) }

  /** The nested messages are no larger than a Go slice can be. */
  ghost predicate SmallVName(m: Option<VName>) { m.Some? ==> |EncodeVName(m.value)| <= TWO63 }

  lemma {:induction false} SmallSpells(m: Option<VName>)
    requires SmallVName(m)
    ensures Spells(OptionalVName(m), m)
  {
    if m.Some? { OwnSpells(m.value); }
  }

  lemma {:induction false} EntrySets(m: Entry, source: Option<Bytes>, target: Option<Bytes>)
    requires Spells(source, m.source) && Spells(target, m.target)
    ensures Sets(EntryHandler(), EMPTY_ENTRY, EntryFieldsWith(m, source, target), m)
  {
    hide Sets, Fold, EncodeVName, EncodeFields, Unmarshal, SpellsVName;
    var h := EntryHandler();
    if m.source.Some? { SpelledReads(source.value, m.source.value); }
    if m.target.Some? { SpelledReads(target.value, m.target.value); }
    var m1 := EMPTY_ENTRY.(source := m.source);
    var m2 := m1.(edgeKind := m.edgeKind);
    var m3 := m2.(target := m.target);
    var m4 := m3.(factName := m.factName);
    var f1, f2, f3 := MessageField(1, source), TextField(2, m.edgeKind), MessageField(3, target);
    var f4, f5 := TextField(4, m.factName), TextField(5, m.factValue);
    SetMessage(h, EMPTY_ENTRY, 1, source, m1);
    SetText(h, m1, 2, m.edgeKind, m2);
    SetMessage(h, m2, 3, target, m3);
    SetText(h, m3, 4, m.factName, m4);
    SetText(h, m4, 5, m.factValue, m);
    hide EntryHandler, TextField, MessageField;
    Then(h, EMPTY_ENTRY, f1, m1, f2, m2);
    Then(h, EMPTY_ENTRY, f1 + f2, m2, f3, m3);
    Then(h, EMPTY_ENTRY, f1 + f2 + f3, m3, f4, m4);
    Then(h, EMPTY_ENTRY, f1 + f2 + f3 + f4, m4, f5, m);
  }

  lemma {:induction false} EntryIsDeclared(m: Entry, source: Option<Bytes>, target: Option<Bytes>)
    ensures Declared(EntryHandler().schema, EntryFieldsWith(m, source, target))
  {
  }

  /** For every entry, with any undeclared fields between its own and inside its VNames. */
  lemma {:induction false} EntryRoundTrip(m: Entry, source: Option<Bytes>, target: Option<Bytes>, fs: seq<Field>)
    requires Spells(source, m.source) && Spells(target, m.target)
    requires Carries(EntryHandler().schema, fs, EntryFieldsWith(m, source, target))
    ensures Unmarshal(EntryHandler(), EncodeFields(fs), EMPTY_ENTRY) == Ok(m)
  {
    EntrySets(m, source, target);
    EntryIsDeclared(m, source, target);
    hide EntryFieldsWith, Declared;
    DeclaredIsKnown(EntryHandler().schema, EntryFieldsWith(m, source, target));
    Decodes(EntryHandler(), EMPTY_ENTRY, fs, EntryFieldsWith(m, source, target));
  }

  /** A payload of a message that fits is itself small. */
  lemma {:induction false} NestedIsSmall(own: seq<Field>, f: Field)
    requires f in own && f.LenField? && |EncodeFields(own)| <= TWO63
    ensures |f.payload| <= TWO63
  {
    var i :| 0 <= i < |own| && own[i] == f;
    SmallPayloads(own, i);
  }

  lemma {:induction false} EntryDecodes(m: Entry)
    requires |EncodeEntry(m)| <= TWO63
    ensures Unmarshal(EntryHandler(), EncodeEntry(m), EMPTY_ENTRY) == Ok(m)
  {
    hide EncodeFields, EncodeVName, Unmarshal, Spells;
    var own, source, target := EntryFields(m), OptionalVName(m.source), OptionalVName(m.target);
    if m.source.Some? { NestedIsSmall(own, MessageField(1, source)[0]); }
    if m.target.Some? { NestedIsSmall(own, MessageField(3, target)[0]); }
    SmallSpells(m.source);
    SmallSpells(m.target);
    EntryIsDeclared(m, source, target);
    OwnIsWellFormed(own);
    DeclaredIsKnown(EntryHandler().schema, own);
    EntryRoundTrip(m, source, target, own);
  }

  // --------------------------------------------------------------- WriteRequest

  datatype Update = Update(edgeKind: Bytes, target: Option<VName>, factName: Bytes, factValue: Bytes)

  const EMPTY_UPDATE: Update := Update([], None, [], [])

  function UpdateFields(m: Update): seq<Field> { UpdateFieldsWith(m, OptionalVName(m.target)) }

  function UpdateFieldsWith(m: Update, target: Option<Bytes>): seq<Field> {
    TextField(1, m.edgeKind) + MessageField(2, target) + TextField(3, m.factName) + TextField(4, m.factValue)
  }

  function UpdateText(m: Update, num: nat, s: Bytes): Result<Update> {
    match num
    case 1 => Ok(m.(edgeKind := s))
    case 2 => var v :- ReadVName(m.target, s); Ok(m.(target := Some(v)))
    case 3 => Ok(m.(factName := s))
    case _ => Ok(m.(factValue := s))
  }

  function UpdateHandler(): Handler<Update> {
    Handler(map[1 := Text, 2 := Text, 3 := Text, 4 := Text], NoNumber, UpdateText)
  }

  function EncodeUpdate(m: Update): Bytes { EncodeFields(UpdateFields(m)) }

  /** `p` is an encoding of `m`, with any undeclared fields in it and in its VName. */
  ghost predicate SpellsUpdate(p: Bytes, m: Update) { exists gs, target :: IsUpdateIn(gs, target, p, m) }

  ghost predicate IsUpdateIn(gs: seq<Field>, target: Option<Bytes>, p: Bytes, m: Update) {
    && Spells(target, m.target) && Carries(UpdateHandler().schema, gs, UpdateFieldsWith(m, target))
    && p == EncodeFields(gs)
  }

  lemma {:induction false} UpdateSets(m: Update, target: Option<Bytes>)
    requires Spells(target, m.target)
    ensures Sets(UpdateHandler(), EMPTY_UPDATE, UpdateFieldsWith(m, target), m)
  {
    if m.target.Some? { SpelledReads(target.value, m.target.value); }
    hide Sets, Fold, EncodeVName, EncodeFields, Unmarshal, SpellsVName;
    var h := UpdateHandler();
    var m1 := EMPTY_UPDATE.(edgeKind := m.edgeKind);
    var m2 := m1.(target := m.target);
    var m3 := m2.(factName := m.factName);
    var f1, f2 := TextField(1, m.edgeKind), MessageField(2, target);
    var f3, f4 := TextField(3, m.factName), TextField(4, m.factValue);
    SetText(h, EMPTY_UPDATE, 1, m.edgeKind, m1);
    SetMessage(h, m1, 2, target, m2);
    SetText(h, m2, 3, m.factName, m3);
    SetText(h, m3, 4, m.factValue, m);
    hide UpdateHandler, TextField, MessageField;
    Then(h, EMPTY_UPDATE, f1, m1, f2, m2);
    Then(h, EMPTY_UPDATE, f1 + f2, m2, f3, m3);
    Then(h, EMPTY_UPDATE, f1 + f2 + f3, m3, f4, m);
  }

  lemma {:induction false} UpdateIsDeclared(m: Update, target: Option<Bytes>)
    ensures Declared(UpdateHandler().schema, UpdateFieldsWith(m, target))
  {
  }

  /** Every update is read back, with any undeclared fields in it and in its VName. */
  lemma {:induction false} UpdateReads(p: Bytes, m: Update)
    requires SpellsUpdate(p, m)
    ensures Unmarshal(UpdateHandler(), p, EMPTY_UPDATE) == Ok(m)
  {
    var gs, target :| IsUpdateIn(gs, target, p, m);
    UpdateSets(m, target);
    UpdateIsDeclared(m, target);
    DeclaredIsKnown(UpdateHandler().schema, UpdateFieldsWith(m, target));
    Decodes(UpdateHandler(), EMPTY_UPDATE, gs, UpdateFieldsWith(m, target));
  }

  lemma {:induction false} OwnSpellsUpdate(m: Update)
    requires |EncodeUpdate(m)| <= TWO63
    ensures SpellsUpdate(EncodeUpdate(m), m)
  {
    var own, target := UpdateFields(m), OptionalVName(m.target);
    if m.target.Some? { NestedIsSmall(own, MessageField(2, target)[0]); }
    SmallSpells(m.target);
    hide Spells, OptionalVName;
    UpdateIsDeclared(m, target);
    OwnIsWellFormed(own);
    DeclaredIsKnown(UpdateHandler().schema, own);
    assert IsUpdateIn(own, target, EncodeUpdate(m), m);
  }

  datatype WriteRequest = WriteRequest(source: Option<VName>, updates: seq<Update>)

  const EMPTY_REQUEST: WriteRequest := WriteRequest(None, [])

  function UpdateListFields(us: seq<Update>): (fs: seq<Field>)
    ensures |fs| == |us| && forall i | 0 <= i < |us| :: fs[i] == LenField(2, EncodeUpdate(us[i]))
  {
    seq(|us|, i requires 0 <= i < |us| => LenField(2, EncodeUpdate(us[i])))
  }

  function RequestFields(m: WriteRequest): seq<Field> {
    MessageField(1, OptionalVName(m.source)) + UpdateListFields(m.updates)
  }

  /** Length-delimited fields with one number, as a repeated field has them. */
  function ListFields(num: nat, ps: seq<Bytes>): (fs: seq<Field>)
    ensures |fs| == |ps| && forall i | 0 <= i < |ps| :: fs[i] == LenField(num, ps[i])
  {
    seq(|ps|, i requires 0 <= i < |ps| => LenField(num, ps[i]))
  }

  function RequestFieldsWith(source: Option<Bytes>, ps: seq<Bytes>): seq<Field> {
    MessageField(1, source) + ListFields(2, ps)
  }

  function RequestText(m: WriteRequest, num: nat, s: Bytes): Result<WriteRequest> {
    match num
    case 1 => var v :- ReadVName(m.source, s); Ok(m.(source := Some(v)))
    case _ => var u :- Unmarshal(UpdateHandler(), s, EMPTY_UPDATE); Ok(m.(updates := m.updates + [u]))
  }

  function RequestHandler(): Handler<WriteRequest> {
    Handler(map[1 := Text, 2 := Text], NoNumber, RequestText)
  }

  ghost predicate SpellUpdates(ps: seq<Bytes>, us: seq<Update>) {
    |ps| == |us| && forall i | 0 <= i < |us| :: SpellsUpdate(ps[i], us[i])
  }

  lemma {:induction false} UpdatesSet(m: WriteRequest, ps: seq<Bytes>, us: seq<Update>)
    requires SpellUpdates(ps, us)
    ensures Sets(RequestHandler(), m, ListFields(2, ps), m.(updates := m.updates + us))
    decreases |us|
  {
    hide Fold, EncodeUpdate, EncodeFields, Unmarshal, SpellsUpdate;
    var h := RequestHandler();
    if |us| == 0 {
      assert m.updates + us == m.updates;
      Nothing(h, m);
    } else {
      var m1 := m.(updates := m.updates + [us[0]]);
      UpdateReads(ps[0], us[0]);
      One(h, m, LenField(2, ps[0]), m1);
      UpdatesSet(m1, ps[1..], us[1..]);
      assert m1.updates + us[1..] == m.updates + us;
      assert ListFields(2, ps) == [LenField(2, ps[0])] + ListFields(2, ps[1..]);
      Then(h, m, [LenField(2, ps[0])], m1, ListFields(2, ps[1..]), m.(updates := m.updates + us));
    }
  }

  /** For every write request, with any undeclared fields between its own, inside its VName,
      and inside its updates and theirs. */
  lemma {:induction false} RequestRoundTrip(m: WriteRequest, source: Option<Bytes>, ps: seq<Bytes>, fs: seq<Field>)
    requires Spells(source, m.source) && SpellUpdates(ps, m.updates)
    requires Carries(RequestHandler().schema, fs, RequestFieldsWith(source, ps))
    ensures Unmarshal(RequestHandler(), EncodeFields(fs), EMPTY_REQUEST) == Ok(m)
  {
    if m.source.Some? { SpelledReads(source.value, m.source.value); }
    hide Fold, EncodeUpdate, EncodeVName, EncodeFields, Unmarshal, SpellsVName, SpellUpdates;
    var h, own := RequestHandler(), RequestFieldsWith(source, ps);
    var m1 := EMPTY_REQUEST.(source := m.source);
    SetMessage(h, EMPTY_REQUEST, 1, source, m1);
    UpdatesSet(m1, ps, m.updates);
    assert m1.updates + m.updates == m.updates;
    Then(h, EMPTY_REQUEST, MessageField(1, source), m1, ListFields(2, ps), m);
    assert Declared(h.schema, own);
    DeclaredIsKnown(h.schema, own);
    Decodes(h, EMPTY_REQUEST, fs, own);
  }

  // --------------------------------------------------------------- CountRequest

  datatype CountRequest = CountRequest(index: int, shards: int)

  ghost predicate Int64(x: int) { -(TWO63 as int) <= x < TWO63 }

  const EMPTY_COUNT: CountRequest := CountRequest(0, 0)

  ghost function CountFields(m: CountRequest): seq<Field>
    requires Int64(m.index) && Int64(m.shards)
  {
    NumberField(1, FromSigned(m.index)) + NumberField(2, FromSigned(m.shards))
  }

  function CountNumber(m: CountRequest, num: nat, value: nat): Result<CountRequest> {
    match num
    case 1 => Ok(m.(index := ToInt64(value)))
    case _ => Ok(m.(shards := ToInt64(value)))
  }

  function NoText<M>(m: M, num: nat, s: Bytes): Result<M> { Err(WrongWireType) }

  function CountHandler(): Handler<CountRequest> { Handler(map[1 := Number, 2 := Number], CountNumber, NoText) }

  lemma {:induction false} CountRoundTrip(m: CountRequest, fs: seq<Field>)
    requires Int64(m.index) && Int64(m.shards) && Carries(CountHandler().schema, fs, CountFields(m))
    ensures Unmarshal(CountHandler(), EncodeFields(fs), EMPTY_COUNT) == Ok(m)
  {
    var h := CountHandler();
    var m1 := EMPTY_COUNT.(index := m.index);
    var f1, f2 := NumberField(1, FromSigned(m.index)), NumberField(2, FromSigned(m.shards));
    SignedRoundTrip(m.index);
    SignedRoundTrip(m.shards);
    SetNumber(h, EMPTY_COUNT, 1, FromSigned(m.index), m1);
    SetNumber(h, m1, 2, FromSigned(m.shards), m);
    Then(h, EMPTY_COUNT, f1, m1, f2, m);
    DeclaredIsKnown(h.schema, f1 + f2);
    Decodes(h, EMPTY_COUNT, fs, f1 + f2);
  }
}
