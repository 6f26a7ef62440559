/** Facts as the verifier stores them, and the two orders it sorts them by.

    A stored fact always has the form `fact(vname | ident, ident, vname | ident,
    ident, ident)` over interned identifiers, and an identifier for the empty
    string in it is always the one node made for the empty string, so symbols
    alone decide every comparison made on facts. */
module Facts {
  import opened Terms

  // Symbols in the order the Verifier constructor interns its tokens.
  const EMPTY: nat := 0
  const FACT: nat := 1
  const VNAME: nat := 2
  const KIND: nat := 3
  const ANCHOR: nat := 4
  const START: nat := 5
  const END: nat := 6
  const ROOT: nat := 7
  const EQUALS: nat := 8
  const ORDINAL_NAME: nat := 9

  datatype VName = VName(signature: nat, corpus: nat, root: nat, path: nat, language: nat) {
    function Parts(): (s: seq<nat>) ensures |s| == 5 { [signature, corpus, root, path, language] }
  }

  /** The source or target of a fact: a vname, or an identifier standing alone. */
  datatype Node = Named(vname: VName) | Plain(symbol: nat)

  datatype Fact = Fact(source: Node, edgeKind: nat, target: Node, name: nat, value: nat)

  function IdentTerm(symbol: nat): (t: Term)
    ensures Ground(t) && forall n: nat :: Scoped(n, t)
  { Ident(symbol, symbol == EMPTY) }

  function VNameTerm(v: VName): (t: Term)
    ensures Ground(t) && forall n: nat :: Scoped(n, t)
  {
    var parts := [IdentTerm(v.signature), IdentTerm(v.corpus), IdentTerm(v.root), IdentTerm(v.path),
      IdentTerm(v.language)];
    assert Ground(Tuple(parts)) && forall n: nat :: Scoped(n, Tuple(parts));
    App(Ident(VNAME, true), Tuple(parts))
  }

  function NodeTerm(n: Node): (t: Term)
    ensures Ground(t) && forall n: nat :: Scoped(n, t)
  {
    match n case Named(v) => VNameTerm(v) case Plain(s) => IdentTerm(s)
  }

  /** The node `AssertSingleFact` builds. */
  function FactTerm(f: Fact): (t: Term)
    ensures Ground(t) && forall n: nat :: Scoped(n, t)
  {
    var fields := [NodeTerm(f.source), IdentTerm(f.edgeKind), NodeTerm(f.target), IdentTerm(f.name),
      IdentTerm(f.value)];
    assert Ground(Tuple(fields)) && forall n: nat :: Scoped(n, Tuple(fields));
    App(Ident(FACT, true), Tuple(fields))
  }

  // ---------------------------------------------------------------- comparators

  function VNameLessFrom(a: seq<nat>, b: seq<nat>, i: nat): bool
    requires |a| == |b| == 5 && i <= 4
    decreases 4 - i
  {
    if i == 4 then a[4] < b[4]
    else if a[i] < b[i] then true
    else if a[i] != b[i] then false
    else VNameLessFrom(a, b, i + 1)
  }

  predicate VNameLessThan(a: VName, b: VName) { VNameLessFrom(a.Parts(), b.Parts(), 0) }

  predicate NodeLessThan(a: Node, b: Node) {
    match (a, b)
    case (Named(va), Named(vb)) => VNameLessThan(va, vb)
    case (Plain(_), Named(_)) => true
    case (Named(_), Plain(_)) => false
    case (Plain(sa), Plain(sb)) => sa < sb
  }

  /** Sort entries such that those that set fact values are adjacent. */
  predicate EncodedFactLessThan(a: Fact, b: Fact) {
    if NodeLessThan(a.source, b.source) then true
    else if a.source != b.source then false
    else if a.edgeKind < b.edgeKind then true
    else if a.edgeKind != b.edgeKind then false
    else if NodeLessThan(a.target, b.target) then true
    else if a.target != b.target then false
    else if a.name < b.name then true
    else if a.name != b.name then false
    else a.value < b.value
  }

  /** Collate as (edge_kind, fact_name, fact_value, source_node, target_node). */
  predicate FastLookupFactLessThan(a: Fact, b: Fact) {
    if a.edgeKind < b.edgeKind then true
    else if a.edgeKind != b.edgeKind then false
    else if a.name < b.name then true
    else if a.name != b.name then false
    else if a.value < b.value then true
    else if a.value != b.value then false
    else if NodeLessThan(a.source, b.source) then true
    else if a.source != b.source then false
    else NodeLessThan(a.target, b.target)
  }

  // ----------------------------------------- both orders are lexicographic orders

  predicate LexLess(a: seq<nat>, b: seq<nat>) {
    if |b| == 0 then false
    else if |a| == 0 then true
    else a[0] < b[0] || (a[0] == b[0] && LexLess(a[1..], b[1..]))
  }

  lemma {:induction false} LexTotal(a: seq<nat>, b: seq<nat>)
    ensures a == b || LexLess(a, b) || LexLess(b, a)
    ensures !(LexLess(a, b) && LexLess(b, a))
    ensures !LexLess(a, a)
  {
    if |a| > 0 && |b| > 0 {
      LexTotal(a[1..], b[1..]);
      assert a == [a[0]] + a[1..] && b == [b[0]] + b[1..];
    }
    if |a| > 0 { LexTotal(a[1..], a[1..]); }
  }

  lemma {:induction false} LexTransitive(a: seq<nat>, b: seq<nat>, c: seq<nat>)
    requires LexLess(a, b) && LexLess(b, c)
    ensures LexLess(a, c)
  {
    if |a| > 0 && a[0] == b[0] == c[0] { LexTransitive(a[1..], b[1..], c[1..]); }
  }

  lemma {:induction false} LexAppend(a: seq<nat>, a': seq<nat>, b: seq<nat>, b': seq<nat>)
    requires |a| == |b|
    ensures LexLess(a + a', b + b') == (LexLess(a, b) || (a == b && LexLess(a', b')))
  {
    if |a| == 0 {
      assert a + a' == a' && b + b' == b';
    } else {
      assert (a + a')[1..] == a[1..] + a' && (b + b')[1..] == b[1..] + b';
      assert a == [a[0]] + a[1..] && b == [b[0]] + b[1..];
      LexAppend(a[1..], a', b[1..], b');
    }
  }

  function NodeKey(n: Node): (k: seq<nat>)
    ensures |k| == 6
  {
    match n case Named(v) => [1] + v.Parts() case Plain(s) => [0, s, 0, 0, 0, 0]
  }

  lemma {:induction false} NodeKeyInjective(a: Node, b: Node)
    ensures NodeKey(a) == NodeKey(b) <==> a == b
  {
    assert NodeKey(a)[0] == (if a.Named? then 1 else 0) && NodeKey(b)[0] == (if b.Named? then 1 else 0);
    if a.Plain? { assert NodeKey(a)[1] == a.symbol; }
    if b.Plain? { assert NodeKey(b)[1] == b.symbol; }
    if a.Named? && b.Named? && NodeKey(a) == NodeKey(b) {
      assert forall i | 0 <= i < 5 :: a.vname.Parts()[i] == NodeKey(a)[i + 1];
      assert forall i | 0 <= i < 5 :: b.vname.Parts()[i] == NodeKey(b)[i + 1];
      assert a.vname.Parts() == b.vname.Parts();
    }
  }

  lemma {:induction false} VNameLessIsLex(a: seq<nat>, b: seq<nat>, i: nat)
    requires |a| == |b| == 5 && i <= 4
    ensures VNameLessFrom(a, b, i) == LexLess(a[i..], b[i..])
    decreases 4 - i
  {
    if i < 4 {
      VNameLessIsLex(a, b, i + 1);
      assert a[i..][1..] == a[i + 1..] && b[i..][1..] == b[i + 1..];
    } else {
      assert a[i..] == [a[4]] && b[i..] == [b[4]];
    }
  }

  lemma {:induction false} NodeLessIsLex(a: Node, b: Node)
    ensures NodeLessThan(a, b) == LexLess(NodeKey(a), NodeKey(b))
  {
    match (a, b)
    case (Named(va), Named(vb)) =>
      VNameLessIsLex(va.Parts(), vb.Parts(), 0);
      LexAppend([1], va.Parts(), [1], vb.Parts());
      LexTotal([1], [1]);
    case (Plain(_), Named(_)) =>
    case (Named(_), Plain(_)) =>
    case (Plain(sa), Plain(sb)) =>
      LexAppend([0], [sa, 0, 0, 0, 0], [0], [sb, 0, 0, 0, 0]);
      assert NodeKey(a) == [0] + [sa, 0, 0, 0, 0] && NodeKey(b) == [0] + [sb, 0, 0, 0, 0];
      LexTotal([0], [0]);
      LexTotal([0, 0, 0, 0], [0, 0, 0, 0]);
  }

  function EncodedKey(f: Fact): seq<nat> {
    NodeKey(f.source) + ([f.edgeKind] + (NodeKey(f.target) + ([f.name] + [f.value])))
  }

  function LookupKey(f: Fact): seq<nat> {
    [f.edgeKind] + ([f.name] + ([f.value] + (NodeKey(f.source) + NodeKey(f.target))))
  }

  lemma {:induction false} EncodedIsLex(a: Fact, b: Fact)
    ensures EncodedFactLessThan(a, b) == LexLess(EncodedKey(a), EncodedKey(b))
    ensures EncodedKey(a) == EncodedKey(b) <==> a == b
  {
    NodeKeyInjective(a.source, b.source);
    NodeKeyInjective(a.target, b.target);
    NodeLessIsLex(a.source, b.source);
    NodeLessIsLex(a.target, b.target);
    var a1, b1 := NodeKey(a.target) + ([a.name] + [a.value]), NodeKey(b.target) + ([b.name] + [b.value]);
    LexAppend([a.name], [a.value], [b.name], [b.value]);
    LexAppend(NodeKey(a.target), [a.name] + [a.value], NodeKey(b.target), [b.name] + [b.value]);
    LexAppend([a.edgeKind], a1, [b.edgeKind], b1);
    LexAppend(NodeKey(a.source), [a.edgeKind] + a1, NodeKey(b.source), [b.edgeKind] + b1);
    Split2(NodeKey(a.source), [a.edgeKind] + a1, NodeKey(b.source), [b.edgeKind] + b1);
    Split2([a.edgeKind], a1, [b.edgeKind], b1);
    Split2(NodeKey(a.target), [a.name] + [a.value], NodeKey(b.target), [b.name] + [b.value]);
    Split2([a.name], [a.value], [b.name], [b.value]);
  }

  lemma {:induction false} LookupIsLex(a: Fact, b: Fact)
    ensures FastLookupFactLessThan(a, b) == LexLess(LookupKey(a), LookupKey(b))
    ensures LookupKey(a) == LookupKey(b) <==> a == b
  {
    NodeKeyInjective(a.source, b.source);
    NodeKeyInjective(a.target, b.target);
    NodeLessIsLex(a.source, b.source);
    NodeLessIsLex(a.target, b.target);
    var a1, b1 := NodeKey(a.source) + NodeKey(a.target), NodeKey(b.source) + NodeKey(b.target);
    LexAppend(NodeKey(a.source), NodeKey(a.target), NodeKey(b.source), NodeKey(b.target));
    LexAppend([a.value], a1, [b.value], b1);
    LexAppend([a.name], [a.value] + a1, [b.name], [b.value] + b1);
    LexAppend([a.edgeKind], [a.name] + ([a.value] + a1), [b.edgeKind], [b.name] + ([b.value] + b1));
    Split2(NodeKey(a.source), NodeKey(a.target), NodeKey(b.source), NodeKey(b.target));
    Split2([a.value], a1, [b.value], b1);
    Split2([a.name], [a.value] + a1, [b.name], [b.value] + b1);
    Split2([a.edgeKind], [a.name] + ([a.value] + a1), [b.edgeKind], [b.name] + ([b.value] + b1));
  }

  lemma {:induction false} Split2(a: seq<nat>, a': seq<nat>, b: seq<nat>, b': seq<nat>)
    requires |a| == |b|
    ensures a + a' == b + b' <==> a == b && a' == b'
  {
    if a + a' == b + b' {
      assert a == (a + a')[..|a|] && b == (b + b')[..|a|];
      assert a' == (a + a')[|a|..] && b' == (b + b')[|a|..];
    }
  }

  /** Both comparators are strict total orders: this is what `std::sort` and the
      binary searches require of them. */
  ghost predicate StrictTotal<T(!new)>(less: (T, T) -> bool) {
    && (forall a, b :: a == b || less(a, b) || less(b, a))
    && (forall a, b :: less(a, b) ==> a != b && !less(b, a))
    && (forall a, b, c :: less(a, b) && less(b, c) ==> less(a, c))
  }

  lemma {:induction false} ComparatorsAreTotalOrders()
    ensures StrictTotal(EncodedFactLessThan)
    ensures StrictTotal(FastLookupFactLessThan)
  {
    forall a, b ensures a == b || EncodedFactLessThan(a, b) || EncodedFactLessThan(b, a)
      ensures EncodedFactLessThan(a, b) ==> a != b && !EncodedFactLessThan(b, a)
      ensures a == b || FastLookupFactLessThan(a, b) || FastLookupFactLessThan(b, a)
      ensures FastLookupFactLessThan(a, b) ==> a != b && !FastLookupFactLessThan(b, a)
    {
      EncodedIsLex(a, b); EncodedIsLex(b, a);
      LookupIsLex(a, b); LookupIsLex(b, a);
      LexTotal(EncodedKey(a), EncodedKey(b));
      LexTotal(LookupKey(a), LookupKey(b));
    }
    forall a, b, c | EncodedFactLessThan(a, b) && EncodedFactLessThan(b, c) ensures EncodedFactLessThan(a, c) {
      EncodedIsLex(a, b); EncodedIsLex(b, c); EncodedIsLex(a, c);
      LexTransitive(EncodedKey(a), EncodedKey(b), EncodedKey(c));
    }
    forall a, b, c | FastLookupFactLessThan(a, b) && FastLookupFactLessThan(b, c) ensures FastLookupFactLessThan(a, c) {
      LookupIsLex(a, b); LookupIsLex(b, c); LookupIsLex(a, c);
      LexTransitive(LookupKey(a), LookupKey(b), LookupKey(c));
    }
  }
}
