/** Looking goals up in the sorted database: the partial key of an atom, how
    facts compare with it, and why the range found by the two binary searches
    holds every fact that could unify with the atom. */
module FactIndex {
  import opened Wrappers
  import opened Terms
  import opened Facts

  /** `DerefEVar`: `None` stands for the null pointer. */
  function Deref(st: Store, t: Term): (r: Option<Term>)
    requires Acyclic(st) && Scoped(|st|, t)
    ensures r.Some? ==> Scoped(|st|, r.value) && !r.value.EVar?
    decreases Level(RankOf(st), t)
  {
    match t
    case EVar(e) => if st[e].Some? then Deref(st, st[e].value) else None
    case _ => Some(t)
  }

  lemma {:induction false} DerefKeepsValue(st: Store, t: Term, sigma: seq<Value>)
    requires Acyclic(st) && Scoped(|st|, t) && Consistent(sigma, st)
    ensures Deref(st, t).Some? ==> Eval(sigma, t) == Eval(sigma, Deref(st, t).value)
    decreases Level(RankOf(st), t)
  {
    if t.EVar? && st[t.id].Some? { DerefKeepsValue(st, st[t.id].value, sigma); }
  }

  datatype AtomFactKey = AtomFactKey(
    edgeKind: Option<nat>, name: Option<nat>, value: Option<nat>,
    source: seq<Option<nat>>, target: seq<Option<nat>>)

  function SymbolOf(st: Store, t: Term): Option<nat>
    requires Acyclic(st) && Scoped(|st|, t)
  {
    match Deref(st, t)
    case Some(Ident(s, _)) => Some(s)
    case _ => None
  }

  function VNameFields(st: Store, t: Term): (r: seq<Option<nat>>)
    requires Acyclic(st) && Scoped(|st|, t)
    ensures |r| == 5
  {
    match Deref(st, t)
    case Some(App(l, r)) =>
      if Deref(st, l) != Some(Ident(VNAME, true)) then [None, None, None, None, None]
      else
        (match Deref(st, r)
         case Some(Tuple(es)) =>
           if |es| != 5 then [None, None, None, None, None]
           else
             [SymbolOf(st, es[0]), SymbolOf(st, es[1]), SymbolOf(st, es[2]), SymbolOf(st, es[3]), SymbolOf(st, es[4])]
         case _ => [None, None, None, None, None])
    case _ => [None, None, None, None, None]
  }

  function KeyFor(st: Store, fields: seq<Term>): (k: AtomFactKey)
    requires Acyclic(st) && |fields| == 5 && forall i | 0 <= i < 5 :: Scoped(|st|, fields[i])
    ensures |k.source| == |k.target| == 5
  {
    AtomFactKey(SymbolOf(st, fields[1]), SymbolOf(st, fields[3]), SymbolOf(st, fields[4]),
                VNameFields(st, fields[0]), VNameFields(st, fields[2]))
  }

  datatype Order = LT | EQ | GT

  function CompareVName(incomplete: Order, parts: seq<nat>, k: seq<Option<nat>>, i: nat): Order
    requires |parts| == |k| == 5 && i <= 5
    decreases 5 - i
  {
    if i == 5 then EQ
    else if k[i].None? then incomplete
    else if parts[i] < k[i].value then LT
    else if parts[i] != k[i].value then GT
    else CompareVName(incomplete, parts, k, i + 1)
  }

  /** How a fact compares with an incomplete key depends on which bound is sought.
      The source must be a vname, as in every validated fact. */
  function CompareFactWithKey(incomplete: Order, f: Fact, k: AtomFactKey): Order
    requires f.source.Named? && |k.source| == |k.target| == 5
  {
    if k.edgeKind.None? then incomplete
    else if f.edgeKind < k.edgeKind.value then LT
    else if f.edgeKind != k.edgeKind.value then GT
    else if k.name.None? then incomplete
    else if f.name < k.name.value then LT
    else if f.name != k.name.value then GT
    else if k.value.None? then incomplete
    else if f.value < k.value.value then LT
    else if f.value != k.value.value then GT
    else
      var bySource := CompareVName(incomplete, f.source.vname.Parts(), k.source, 0);
      if bySource != EQ then bySource
      else if f.target.Named? then CompareVName(incomplete, f.target.vname.Parts(), k.target, 0)
      else EQ
  }

  /** The part of `PrepareDatabase`'s validation that lookups rely on: every fact
      has a source, and has a target exactly when it has an edge kind. */
  predicate Indexable(f: Fact) {
    f.source.Named? && (f.edgeKind == EMPTY <==> f.target.Plain?)
  }

  ghost predicate LookupReady(db: seq<Fact>) {
    && (forall i | 0 <= i < |db| :: Indexable(db[i]))
    && (forall i, j | 0 <= i < j < |db| :: !FastLookupFactLessThan(db[j], db[i]))
  }

  predicate FactLessThanKey(f: Fact, k: AtomFactKey)
    requires Indexable(f) && |k.source| == |k.target| == 5
  { CompareFactWithKey(GT, f, k) == LT }

  predicate KeyLessThanFact(k: AtomFactKey, f: Fact)
    requires Indexable(f) && |k.source| == |k.target| == 5
  { CompareFactWithKey(LT, f, k) == GT }

  // --------------------------------------------------- comparing position by position

  function Columns(f: Fact): seq<nat>
    requires f.source.Named?
  {
    [f.edgeKind, f.name, f.value] + (f.source.vname.Parts() + if f.target.Named? then f.target.vname.Parts() else [])
  }

  function Pattern(k: AtomFactKey): seq<Option<nat>> {
    [k.edgeKind, k.name, k.value] + (k.source + k.target)
  }

  function Compare(incomplete: Order, xs: seq<nat>, ps: seq<Option<nat>>): Order
    requires |xs| <= |ps|
  {
    if |xs| == 0 then EQ
    else if ps[0].None? then incomplete
    else if xs[0] < ps[0].value then LT
    else if xs[0] > ps[0].value then GT
    else Compare(incomplete, xs[1..], ps[1..])
  }

  lemma {:induction false} CompareAppend(
    inc: Order, xs: seq<nat>, ys: seq<nat>, ps: seq<Option<nat>>, qs: seq<Option<nat>>)
    requires |xs| == |ps| && |ys| <= |qs| && inc != EQ
    ensures Compare(inc, xs + ys, ps + qs)
      == (var c := Compare(inc, xs, ps); if c != EQ then c else Compare(inc, ys, qs))
  {
    if |xs| == 0 {
      assert xs + ys == ys && ps + qs == qs;
    } else {
      assert (xs + ys)[1..] == xs[1..] + ys && (ps + qs)[1..] == ps[1..] + qs;
      CompareAppend(inc, xs[1..], ys, ps[1..], qs);
    }
  }

  lemma {:induction false} CompareVNameIsCompare(inc: Order, parts: seq<nat>, k: seq<Option<nat>>, i: nat)
    requires |parts| == |k| == 5 && i <= 5
    ensures CompareVName(inc, parts, k, i) == Compare(inc, parts[i..], k[i..])
    decreases 5 - i
  {
    if i < 5 {
      CompareVNameIsCompare(inc, parts, k, i + 1);
      assert parts[i..][1..] == parts[i + 1..] && k[i..][1..] == k[i + 1..];
    }
  }

  lemma {:induction false} FactCompareIsCompare(inc: Order, f: Fact, k: AtomFactKey)
    requires f.source.Named? && |k.source| == |k.target| == 5 && inc != EQ
    ensures CompareFactWithKey(inc, f, k) == Compare(inc, Columns(f), Pattern(k))
  {
    var src := f.source.vname.Parts();
    var tgt := if f.target.Named? then f.target.vname.Parts() else [];
    CompareVNameIsCompare(inc, src, k.source, 0);
    if f.target.Named? { CompareVNameIsCompare(inc, tgt, k.target, 0); }
    assert src[0..] == src && k.source[0..] == k.source && k.target[0..] == k.target;
    CompareAppend(inc, src, tgt, k.source, k.target);
    var xs, ps := [f.edgeKind, f.name, f.value], [k.edgeKind, k.name, k.value];
    CompareAppend(inc, xs, src + tgt, ps, k.source + k.target);
    assert xs == [f.edgeKind] + ([f.name] + [f.value]) && ps == [k.edgeKind] + ([k.name] + [k.value]);
    CompareAppend(inc, [f.name], [f.value], [k.name], [k.value]);
    CompareAppend(inc, [f.edgeKind], [f.name] + [f.value], [k.edgeKind], [k.name] + [k.value]);
  }

  /** Smaller facts compare no greater, so both predicates split a sorted database in two. */
  lemma {:induction false} CompareMonotone(xs: seq<nat>, ys: seq<nat>, ps: seq<Option<nat>>)
    requires |xs| == |ys| <= |ps|
    requires !LexLess(ys, xs)
    ensures Compare(GT, ys, ps) == LT ==> Compare(GT, xs, ps) == LT
    ensures Compare(LT, xs, ps) == GT ==> Compare(LT, ys, ps) == GT
  {
    if |xs| > 0 && ps[0].Some? && xs[0] == ys[0] == ps[0].value { CompareMonotone(xs[1..], ys[1..], ps[1..]); }
  }

  lemma {:induction false} LexLessByFirst(a: seq<nat>, b: seq<nat>)
    requires |a| > 0 && |b| > 0 && a[0] != b[0]
    ensures LexLess(a, b) == (a[0] < b[0])
  {
  }

  lemma {:induction false} ColumnsOrder(a: Fact, b: Fact)
    requires Indexable(a) && Indexable(b) && !FastLookupFactLessThan(b, a)
    ensures !LexLess(Columns(b), Columns(a))
  {
    if a.edgeKind != b.edgeKind {
      LexLessByFirst(Columns(b), Columns(a));
    } else {
      var sa, sb := a.source.vname.Parts(), b.source.vname.Parts();
      var ta := if a.target.Named? then a.target.vname.Parts() else [];
      var tb := if b.target.Named? then b.target.vname.Parts() else [];
      VNameLessIsLex(sb, sa, 0);
      if a.target.Named? { VNameLessIsLex(tb, ta, 0); }
      assert sa[0..] == sa && sb[0..] == sb && ta[0..] == ta && tb[0..] == tb;
      LexAppend(sb, tb, sa, ta);
      var xa, xb := [a.edgeKind, a.name, a.value], [b.edgeKind, b.name, b.value];
      LexAppend(xb, sb + tb, xa, sa + ta);
      assert xa == [a.edgeKind] + ([a.name] + [a.value]) && xb == [b.edgeKind] + ([b.name] + [b.value]);
      LexAppend([b.edgeKind], [b.name] + [b.value], [a.edgeKind], [a.name] + [a.value]);
      LexAppend([b.name], [b.value], [a.name], [a.value]);
    }
  }

  lemma {:induction false} PartitionedByKey(db: seq<Fact>, k: AtomFactKey, i: nat, j: nat)
    requires LookupReady(db) && i <= j < |db| && |k.source| == |k.target| == 5
    ensures FactLessThanKey(db[j], k) ==> FactLessThanKey(db[i], k)
    ensures KeyLessThanFact(k, db[i]) ==> KeyLessThanFact(k, db[j])
  {
    if i < j {
      var a, b := db[i], db[j];
      FactCompareIsCompare(GT, a, k); FactCompareIsCompare(LT, a, k);
      FactCompareIsCompare(GT, b, k); FactCompareIsCompare(LT, b, k);
      ColumnsOrder(a, b);
      if a.edgeKind == b.edgeKind {
        CompareMonotone(Columns(a), Columns(b), Pattern(k));
      } else {
        LexLessByFirst(Columns(b), Columns(a));
      }
    }
  }

  // ---------------------------------------------------------------- the two bounds

  /** `std::lower_bound` over the database, as a linear definition. */
  function Lower(db: seq<Fact>, k: AtomFactKey, i: nat): (r: nat)
    requires (forall j | 0 <= j < |db| :: Indexable(db[j])) && |k.source| == |k.target| == 5 && i <= |db|
    ensures i <= r <= |db|
    ensures forall j | i <= j < r :: FactLessThanKey(db[j], k)
    ensures r < |db| ==> !FactLessThanKey(db[r], k)
    decreases |db| - i
  {
    if i == |db| || !FactLessThanKey(db[i], k) then i else Lower(db, k, i + 1)
  }

  /** `std::upper_bound` over the database, as a linear definition. */
  function Upper(db: seq<Fact>, k: AtomFactKey, i: nat): (r: nat)
    requires (forall j | 0 <= j < |db| :: Indexable(db[j])) && |k.source| == |k.target| == 5 && i <= |db|
    ensures i <= r <= |db|
    ensures forall j | i <= j < r :: !KeyLessThanFact(k, db[j])
    ensures r < |db| ==> KeyLessThanFact(k, db[r])
    decreases |db| - i
  {
    if i == |db| || KeyLessThanFact(k, db[i]) then i else Upper(db, k, i + 1)
  }

  lemma {:induction false} LowerIs(db: seq<Fact>, k: AtomFactKey, i: nat, r: nat)
    requires (forall j | 0 <= j < |db| :: Indexable(db[j])) && |k.source| == |k.target| == 5 && i <= r <= |db|
    requires forall j | i <= j < r :: FactLessThanKey(db[j], k)
    requires r < |db| ==> !FactLessThanKey(db[r], k)
    ensures Lower(db, k, i) == r
    decreases r - i
  {
    if i < r { LowerIs(db, k, i + 1, r); }
  }

  lemma {:induction false} UpperIs(db: seq<Fact>, k: AtomFactKey, i: nat, r: nat)
    requires (forall j | 0 <= j < |db| :: Indexable(db[j])) && |k.source| == |k.target| == 5 && i <= r <= |db|
    requires forall j | i <= j < r :: !KeyLessThanFact(k, db[j])
    requires r < |db| ==> KeyLessThanFact(k, db[r])
    ensures Upper(db, k, i) == r
    decreases r - i
  {
    if i < r { UpperIs(db, k, i + 1, r); }
  }

  lemma {:induction false} AllIndexable(db: seq<Fact>)
    requires LookupReady(db)
    ensures forall i | 0 <= i < |db| :: Indexable(db[i])
  {
  }

  /** The binary searches land on the same places. */
  method LowerBound(db: seq<Fact>, k: AtomFactKey) returns (r: nat)
    requires LookupReady(db) && |k.source| == |k.target| == 5
    ensures r == Lower(db, k, 0)
  {
    hide *;
    AllIndexable(db);
    r := 0;
    var count: nat := |db|;
    while count > 0
      invariant r + count <= |db|
      invariant forall j | 0 <= j < r :: FactLessThanKey(db[j], k)
      invariant forall j | r + count <= j < |db| :: !FactLessThanKey(db[j], k)
    {
      var step := count / 2;
      if FactLessThanKey(db[r + step], k) {
        forall j | r <= j < r + step + 1 ensures FactLessThanKey(db[j], k) {
          PartitionedByKey(db, k, j, r + step);
        }
        r, count := r + step + 1, count - (step + 1);
      } else {
        forall j | r + step <= j < |db| ensures !FactLessThanKey(db[j], k) {
          PartitionedByKey(db, k, r + step, j);
        }
        count := step;
      }
    }
    LowerIs(db, k, 0, r);
  }

  method UpperBound(db: seq<Fact>, k: AtomFactKey) returns (r: nat)
    requires LookupReady(db) && |k.source| == |k.target| == 5
    ensures r == Upper(db, k, 0)
  {
    hide *;
    AllIndexable(db);
    r := 0;
    var count: nat := |db|;
    while count > 0
      invariant r + count <= |db|
      invariant forall j | 0 <= j < r :: !KeyLessThanFact(k, db[j])
      invariant forall j | r + count <= j < |db| :: KeyLessThanFact(k, db[j])
    {
      var step := count / 2;
      if !KeyLessThanFact(k, db[r + step]) {
        forall j | r <= j < r + step + 1 ensures !KeyLessThanFact(k, db[j]) {
          PartitionedByKey(db, k, j, r + step);
        }
        r, count := r + step + 1, count - (step + 1);
      } else {
        forall j | r + step <= j < |db| ensures KeyLessThanFact(k, db[j]) {
          PartitionedByKey(db, k, r + step, j);
        }
        count := step;
      }
    }
    UpperIs(db, k, 0, r);
  }

  lemma {:induction false} CompareIncomplete(xs: seq<nat>, ps: seq<Option<nat>>)
    requires |xs| <= |ps|
    ensures Compare(LT, xs, ps) == GT ==> Compare(GT, xs, ps) == GT
  {
    if |xs| > 0 && ps[0].Some? && xs[0] == ps[0].value { CompareIncomplete(xs[1..], ps[1..]); }
  }

  /** The range is never inverted, so the scan from one bound to the other ends. */
  lemma {:induction false} BoundsInOrder(db: seq<Fact>, k: AtomFactKey)
    requires LookupReady(db) && |k.source| == |k.target| == 5
    ensures Lower(db, k, 0) <= Upper(db, k, 0)
  {
    var u := Upper(db, k, 0);
    if u < Lower(db, k, 0) {
      FactCompareIsCompare(GT, db[u], k);
      FactCompareIsCompare(LT, db[u], k);
      CompareIncomplete(Columns(db[u]), Pattern(k));
    }
  }

  // ------------------------------------------------ no unifiable fact is left out

  ghost predicate Matches(xs: seq<nat>, ps: seq<Option<nat>>)
    requires |xs| <= |ps|
  {
    forall i | 0 <= i < |xs| && ps[i].Some? :: xs[i] == ps[i].value
  }

  lemma {:induction false} MatchingCompare(inc: Order, xs: seq<nat>, ps: seq<Option<nat>>)
    requires |xs| <= |ps| && Matches(xs, ps)
    ensures Compare(inc, xs, ps) == inc || Compare(inc, xs, ps) == EQ
  {
    if |xs| > 0 && ps[0].Some? {
      assert forall i | 0 <= i < |xs| - 1 && ps[1..][i].Some? :: xs[1..][i] == xs[i + 1];
      MatchingCompare(inc, xs[1..], ps[1..]);
    }
  }

  lemma {:induction false} SymbolMatches(st: Store, t: Term, sigma: seq<Value>, s: nat)
    requires Acyclic(st) && Scoped(|st|, t) && Consistent(sigma, st)
    requires Eval(sigma, t) == VIdent(s)
    ensures SymbolOf(st, t).Some? ==> SymbolOf(st, t).value == s
  {
    DerefKeepsValue(st, t, sigma);
  }

  lemma {:induction false} EvalVName(sigma: seq<Value>, v: VName)
    requires Scoped(|sigma|, VNameTerm(v))
    ensures Eval(sigma, VNameTerm(v))
      == VApp(VIdent(VNAME), VTuple(seq(5, i requires 0 <= i < 5 => VIdent(v.Parts()[i]))))
  {
    var t := VNameTerm(v).rhs;
    assert forall i | 0 <= i < 5 :: t.elements[i] == IdentTerm(v.Parts()[i]);
    assert Eval(sigma, t).elements == seq(5, i requires 0 <= i < 5 => VIdent(v.Parts()[i]));
  }

  lemma {:induction false} PartsMatch(st: Store, es: seq<Term>, sigma: seq<Value>, parts: seq<nat>)
    requires Acyclic(st) && Consistent(sigma, st) && |es| == |parts| == 5
    requires forall i | 0 <= i < 5 :: Scoped(|st|, es[i]) && Eval(sigma, es[i]) == VIdent(parts[i])
    ensures forall i | 0 <= i < 5 :: SymbolOf(st, es[i]).Some? ==> SymbolOf(st, es[i]).value == parts[i]
  {
    forall i | 0 <= i < 5 ensures SymbolOf(st, es[i]).Some? ==> SymbolOf(st, es[i]).value == parts[i] {
      SymbolMatches(st, es[i], sigma, parts[i]);
    }
  }

  lemma {:induction false} VNameMatches(st: Store, t: Term, sigma: seq<Value>, v: VName)
    requires Acyclic(st) && Scoped(|st|, t) && Consistent(sigma, st)
    requires Scoped(|st|, VNameTerm(v)) && Eval(sigma, t) == Eval(sigma, VNameTerm(v))
    ensures Matches(v.Parts(), VNameFields(st, t))
  {
    DerefKeepsValue(st, t, sigma);
    EvalVName(sigma, v);
    var d := Deref(st, t);
    if d.Some? && d.value.App? && Deref(st, d.value.lhs) == Some(Ident(VNAME, true)) {
      DerefKeepsValue(st, d.value.rhs, sigma);
      var body := Deref(st, d.value.rhs);
      if body.Some? && body.value.Tuple? && |body.value.elements| == 5 {
        var es := body.value.elements;
        var vs := Eval(sigma, body.value).elements;
        assert forall i | 0 <= i < 5 :: Eval(sigma, es[i]) == vs[i];
        PartsMatch(st, es, sigma, v.Parts());
      }
    }
  }

  /** A fact that some valuation agreeing with the store makes equal to the atom
      agrees with every known part of the atom's key. */
  lemma {:induction false} UnifiableMatchesKey(st: Store, fields: seq<Term>, sigma: seq<Value>, f: Fact)
    requires Acyclic(st) && |fields| == 5 && (forall i | 0 <= i < 5 :: Scoped(|st|, fields[i]))
    requires Consistent(sigma, st) && Indexable(f)
    requires Scoped(|st|, FactTerm(f)) && Eval(sigma, Tuple(fields)) == Eval(sigma, FactTerm(f).rhs)
    ensures Matches(Columns(f), Pattern(KeyFor(st, fields)))
  {
    FieldValues(fields, sigma, f);
    SymbolMatches(st, fields[1], sigma, f.edgeKind);
    SymbolMatches(st, fields[3], sigma, f.name);
    SymbolMatches(st, fields[4], sigma, f.value);
    VNameMatches(st, fields[0], sigma, f.source.vname);
    if f.target.Named? { VNameMatches(st, fields[2], sigma, f.target.vname); }
    hide SymbolOf, VNameFields, VNameTerm, FactTerm, Eval;
    var k := KeyFor(st, fields);
    var xs, ps := Columns(f), Pattern(k);
    forall i | 0 <= i < |xs| && ps[i].Some? ensures xs[i] == ps[i].value {
      if 3 <= i < 8 {
        assert ps[i] == k.source[i - 3] && xs[i] == f.source.vname.Parts()[i - 3];
      } else if 8 <= i {
        assert ps[i] == k.target[i - 8] && xs[i] == f.target.vname.Parts()[i - 8];
      }
    }
  }

  lemma {:induction false} FieldValues(fields: seq<Term>, sigma: seq<Value>, f: Fact)
    requires |fields| == 5 && (forall i | 0 <= i < 5 :: Scoped(|sigma|, fields[i])) && Scoped(|sigma|, FactTerm(f))
    requires Eval(sigma, Tuple(fields)) == Eval(sigma, FactTerm(f).rhs)
    ensures Eval(sigma, fields[0]) == Eval(sigma, NodeTerm(f.source))
      && Eval(sigma, fields[2]) == Eval(sigma, NodeTerm(f.target))
    ensures Eval(sigma, fields[1]) == VIdent(f.edgeKind) && Eval(sigma, fields[3]) == VIdent(f.name)
    ensures Eval(sigma, fields[4]) == VIdent(f.value)
  {
    var vs, fs := Eval(sigma, Tuple(fields)).elements, FactTerm(f).rhs.elements;
    assert forall i | 0 <= i < 5 :: Eval(sigma, fields[i]) == vs[i] == Eval(sigma, fs[i]);
  }

  /** The range between the bounds holds every fact that unifies with the atom. */
  lemma {:induction false} RangeHoldsUnifiable(db: seq<Fact>, st: Store, fields: seq<Term>, sigma: seq<Value>, i: nat)
    requires LookupReady(db) && i < |db|
    requires Acyclic(st) && |fields| == 5 && (forall j | 0 <= j < 5 :: Scoped(|st|, fields[j]))
    requires Consistent(sigma, st) && Scoped(|st|, FactTerm(db[i]))
    requires Eval(sigma, Tuple(fields)) == Eval(sigma, FactTerm(db[i]).rhs)
    ensures Lower(db, KeyFor(st, fields), 0) <= i < Upper(db, KeyFor(st, fields), 0)
  {
    var k := KeyFor(st, fields);
    UnifiableMatchesKey(st, fields, sigma, db[i]);
    FactCompareIsCompare(GT, db[i], k);
    FactCompareIsCompare(LT, db[i], k);
    MatchingCompare(GT, Columns(db[i]), Pattern(k));
    MatchingCompare(LT, Columns(db[i]), Pattern(k));
    if Upper(db, k, 0) <= i { PartitionedByKey(db, k, Upper(db, k, 0), i); }
  }
}
