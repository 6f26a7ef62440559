/** The terms the verifier manipulates, the assignments of its existential
    variables, and what it means for a valuation to agree with them.

    An `EVar` is named by its index in the store, which stands for the node's
    address.  Identifiers are compared by symbol almost everywhere; the few
    comparisons by address all test for a node that the `Verifier` constructor
    made, so `builtin` records whether the node is that one. */
module Terms {
  import opened Wrappers

  datatype Term =
    | Ident(symbol: nat, builtin: bool)
    | Range(begin: nat, end: nat)
    | App(lhs: Term, rhs: Term)
    | Tuple(elements: seq<Term>)
    | EVar(id: nat)

  /** `current_` of every existential variable, by index. */
  type Store = seq<Option<Term>>

  /** What a term denotes once every variable has a value.  `Unknown` is a value
      for a variable that nothing constrains. */
  datatype Value =
    | VIdent(symbol: nat)
    | VRange(begin: nat, end: nat)
    | VApp(lhs: Value, rhs: Value)
    | VTuple(elements: seq<Value>)
    | Unknown(id: nat)

  ghost predicate Scoped(n: nat, t: Term) {
    match t
    case Ident(_, _) => true
    case Range(_, _) => true
    case App(l, r) => Scoped(n, l) && Scoped(n, r)
    case Tuple(es) => forall i | 0 <= i < |es| :: Scoped(n, es[i])
    case EVar(id) => id < n
  }

  /** No variable occurs in the text of `t`. */
  predicate Ground(t: Term) {
    match t
    case Ident(_, _) => true
    case Range(_, _) => true
    case App(l, r) => Ground(l) && Ground(r)
    case Tuple(es) => forall i | 0 <= i < |es| :: Ground(es[i])
    case EVar(_) => false
  }

  ghost predicate ScopedStore(st: Store) {
    forall e | 0 <= e < |st| && st[e].Some? :: Scoped(|st|, st[e].value)
  }

  // ---------------------------------------------------------------- valuations

  function Eval(sigma: seq<Value>, t: Term): (v: Value)
    requires Scoped(|sigma|, t)
  {
    match t
    case Ident(s, _) => VIdent(s)
    case Range(b, e) => VRange(b, e)
    case App(l, r) => VApp(Eval(sigma, l), Eval(sigma, r))
    case Tuple(es) => VTuple(seq(|es|, i requires 0 <= i < |es| => Eval(sigma, es[i])))
    case EVar(id) => sigma[id]
  }

  /** `sigma` gives every assigned variable the value of its assignment. */
  ghost predicate Consistent(sigma: seq<Value>, st: Store)
    requires ScopedStore(st)
  {
    && |sigma| == |st|
    && forall e | 0 <= e < |st| && st[e].Some? :: sigma[e] == Eval(sigma, st[e].value)
  }

  /** `st'` keeps every assignment of `st` and may add more. */
  ghost predicate Extends(st: Store, st': Store) {
    |st| == |st'| && forall e | 0 <= e < |st| && st[e].Some? :: st'[e] == st[e]
  }

  // ------------------------------------------------------------- acyclic stores

  /** One more than the greatest rank of a variable in `t`; zero when it has none. */
  ghost function Level(rank: seq<nat>, t: Term): nat
    requires Scoped(|rank|, t)
    decreases t, 0
  {
    match t
    case Ident(_, _) => 0
    case Range(_, _) => 0
    case App(l, r) => Max(Level(rank, l), Level(rank, r))
    case Tuple(es) => LevelOfAll(rank, es)
    case EVar(id) => rank[id] + 1
  }

  ghost function LevelOfAll(rank: seq<nat>, es: seq<Term>): (m: nat)
    requires forall i | 0 <= i < |es| :: Scoped(|rank|, es[i])
    ensures forall i | 0 <= i < |es| :: Level(rank, es[i]) <= m
    decreases es, 1
  {
    if |es| == 0 then 0
    else Max(Level(rank, es[|es| - 1]), LevelOfAll(rank, es[..|es| - 1]))
  }

  function Max(a: nat, b: nat): nat { if a < b then b else a }

  /** Every assignment mentions only variables of smaller rank than its own. */
  ghost predicate IsRank(st: Store, rank: seq<nat>) {
    && |rank| == |st|
    && ScopedStore(st)
    && forall e | 0 <= e < |st| && st[e].Some? :: Level(rank, st[e].value) <= rank[e]
  }

  ghost predicate Acyclic(st: Store) {
    ScopedStore(st) && exists rank :: IsRank(st, rank)
  }

  ghost function RankOf(st: Store): (rank: seq<nat>)
    requires Acyclic(st)
    ensures IsRank(st, rank)
  {
    var rank :| IsRank(st, rank);
    rank
  }

  /** The occurs check, looking through assignments. */
  predicate Occurs(st: Store, e: nat, t: Term)
    requires Acyclic(st) && Scoped(|st|, t)
    decreases Level(RankOf(st), t), t
  {
    match t
    case App(l, r) => Occurs(st, e, l) || Occurs(st, e, r)
    case EVar(ev) =>
      if st[ev].Some? then Occurs(st, e, st[ev].value) else e == ev
    case Tuple(es) => exists i | 0 <= i < |es| :: Occurs(st, e, es[i])
    case Range(_, _) => false
    case Ident(_, _) => false
  }

  /** A weight for `t` read through the assignments; following one counts twice. */
  ghost function Size(st: Store, t: Term): (n: nat)
    requires Acyclic(st) && Scoped(|st|, t)
    decreases Level(RankOf(st), t), t, 0
  {
    match t
    case Ident(_, _) => 1
    case Range(_, _) => 1
    case App(l, r) => 1 + Size(st, l) + Size(st, r)
    case Tuple(es) => 1 + SizeFrom(st, es, 0)
    case EVar(ev) => if st[ev].Some? then 2 + Size(st, st[ev].value) else 1
  }

  ghost function SizeFrom(st: Store, es: seq<Term>, i: nat): nat
    requires Acyclic(st) && i <= |es|
    requires forall j | 0 <= j < |es| :: Scoped(|st|, es[j])
    decreases LevelOfAll(RankOf(st), es), es, |es| - i
  {
    if i == |es| then 0
    else 1 + Size(st, es[i]) + SizeFrom(st, es, i + 1)
  }

  /** The value of `t` read through the assignments. */
  ghost function Resolve(st: Store, t: Term): Value
    requires Acyclic(st) && Scoped(|st|, t)
    decreases Level(RankOf(st), t), t
  {
    match t
    case Ident(s, _) => VIdent(s)
    case Range(b, e) => VRange(b, e)
    case App(l, r) => VApp(Resolve(st, l), Resolve(st, r))
    case Tuple(es) => VTuple(seq(|es|, i requires 0 <= i < |es| => Resolve(st, es[i])))
    case EVar(ev) => if st[ev].Some? then Resolve(st, st[ev].value) else Unknown(ev)
  }

  ghost function Solution(st: Store): (sigma: seq<Value>)
    requires Acyclic(st)
    ensures |sigma| == |st|
  {
    seq(|st|, i requires 0 <= i < |st| => Resolve(st, EVar(i)))
  }

  lemma {:induction false} ResolveIsEval(st: Store, t: Term)
    requires Acyclic(st) && Scoped(|st|, t)
    ensures Resolve(st, t) == Eval(Solution(st), t)
    decreases t
  {
    match t
    case Ident(_, _) =>
    case Range(_, _) =>
    case App(l, r) => ResolveIsEval(st, l); ResolveIsEval(st, r);
    case Tuple(es) =>
      forall i | 0 <= i < |es| ensures Resolve(st, es[i]) == Eval(Solution(st), es[i]) {
        ResolveIsEval(st, es[i]);
      }
    case EVar(_) =>
  }

  /** An acyclic store has a solution, so statements about every valuation that
      agrees with a store are never vacuous. */
  lemma {:induction false} SolutionIsConsistent(st: Store)
    requires Acyclic(st)
    ensures Consistent(Solution(st), st)
  {
    forall e | 0 <= e < |st| && st[e].Some?
      ensures Solution(st)[e] == Eval(Solution(st), st[e].value)
    {
      ResolveIsEval(st, st[e].value);
    }
  }

  lemma {:induction false} ExtendsConsistent(sigma: seq<Value>, st: Store, st': Store)
    requires ScopedStore(st) && ScopedStore(st') && Extends(st, st') && Consistent(sigma, st')
    ensures Consistent(sigma, st)
  {
  }

  lemma {:induction false} EvalGround(sigma: seq<Value>, sigma': seq<Value>, t: Term)
    requires Ground(t) && Scoped(|sigma|, t) && Scoped(|sigma'|, t)
    ensures Eval(sigma, t) == Eval(sigma', t)
  {
    match t
    case Ident(_, _) =>
    case Range(_, _) =>
    case App(l, r) => EvalGround(sigma, sigma', l); EvalGround(sigma, sigma', r);
    case Tuple(es) =>
      forall i | 0 <= i < |es| ensures Eval(sigma, es[i]) == Eval(sigma', es[i]) {
        EvalGround(sigma, sigma', es[i]);
      }
  }

  lemma {:induction false} GroundIsScoped(n: nat, t: Term)
    requires Ground(t)
    ensures Scoped(n, t)
  {
    match t
    case Ident(_, _) =>
    case Range(_, _) =>
    case App(l, r) => GroundIsScoped(n, l); GroundIsScoped(n, r);
    case Tuple(es) =>
      forall i | 0 <= i < |es| ensures Scoped(n, es[i]) { GroundIsScoped(n, es[i]); }
  }

  lemma {:induction false} GroundNeverOccurs(st: Store, e: nat, t: Term)
    requires Acyclic(st) && Scoped(|st|, t) && Ground(t)
    ensures !Occurs(st, e, t)
  {
    match t
    case Ident(_, _) =>
    case Range(_, _) =>
    case App(l, r) => GroundNeverOccurs(st, e, l); GroundNeverOccurs(st, e, r);
    case Tuple(es) =>
      forall i | 0 <= i < |es| ensures !Occurs(st, e, es[i]) { GroundNeverOccurs(st, e, es[i]); }
  }

  // ------------------------------------------------- binding keeps acyclicity

  /** The ranks after assigning `e`: everything that reaches `e` moves up. */
  ghost function Lifted(st: Store, rank: seq<nat>, e: nat, lift: nat): (rank': seq<nat>)
    requires Acyclic(st) && |rank| == |st|
    ensures |rank'| == |rank|
  {
    seq(|st|, v requires 0 <= v < |st| => if Occurs(st, e, EVar(v)) then rank[v] + lift else rank[v])
  }

  lemma {:induction false} LevelLifted(st: Store, rank: seq<nat>, e: nat, lift: nat, t: Term)
    requires Acyclic(st) && IsRank(st, rank) && Scoped(|st|, t)
    ensures Level(Lifted(st, rank, e, lift), t) <= Level(rank, t) + lift
    ensures !Occurs(st, e, t) ==> Level(Lifted(st, rank, e, lift), t) == Level(rank, t)
    decreases t, 0
  {
    match t
    case Ident(_, _) =>
    case Range(_, _) =>
    case App(l, r) => LevelLifted(st, rank, e, lift, l); LevelLifted(st, rank, e, lift, r);
    case Tuple(es) => LevelOfAllLifted(st, rank, e, lift, es);
    case EVar(_) =>
  }

  lemma {:induction false} LevelOfAllLifted(st: Store, rank: seq<nat>, e: nat, lift: nat, es: seq<Term>)
    requires Acyclic(st) && IsRank(st, rank)
    requires forall i | 0 <= i < |es| :: Scoped(|st|, es[i])
    ensures LevelOfAll(Lifted(st, rank, e, lift), es) <= LevelOfAll(rank, es) + lift
    ensures (forall i | 0 <= i < |es| :: !Occurs(st, e, es[i]))
            ==> LevelOfAll(Lifted(st, rank, e, lift), es) == LevelOfAll(rank, es)
    decreases es, 1
  {
    if |es| > 0 {
      LevelLifted(st, rank, e, lift, es[|es| - 1]);
      LevelOfAllLifted(st, rank, e, lift, es[..|es| - 1]);
    }
  }

  /** The occurs check is what keeps assignments acyclic. */
  lemma {:induction false} BindKeepsAcyclic(st: Store, e: nat, t: Term)
    requires Acyclic(st) && e < |st| && st[e].None? && Scoped(|st|, t)
    requires !Occurs(st, e, t)
    ensures Acyclic(st[e := Some(t)])
    ensures Extends(st, st[e := Some(t)])
  {
    var rank := RankOf(st);
    var lift := Level(rank, t);
    var rank', st' := Lifted(st, rank, e, lift), st[e := Some(t)];
    LevelLifted(st, rank, e, lift, t);
    forall u | 0 <= u < |st'| && st'[u].Some? ensures Level(rank', st'[u].value) <= rank'[u] {
      if u == e {
        assert Occurs(st, e, EVar(e));
      } else {
        LevelLifted(st, rank, e, lift, st[u].value);
      }
    }
    assert IsRank(st', rank');
  }

  /** And it refuses exactly the assignments that would close a cycle. */
  lemma {:induction false} BindOfOccurringIsCyclic(st: Store, e: nat, t: Term)
    requires Acyclic(st) && e < |st| && st[e].None? && Scoped(|st|, t)
    requires Occurs(st, e, t)
    ensures !Acyclic(st[e := Some(t)])
  {
    var st' := st[e := Some(t)];
    if Acyclic(st') {
      var rank := RankOf(st');
      OccursRaisesLevel(st, st', rank, e, t);
    }
  }

  lemma {:induction false} OccursRaisesLevel(st: Store, st': Store, rank: seq<nat>, e: nat, t: Term)
    requires Acyclic(st) && Scoped(|st|, t) && e < |st|
    requires Extends(st, st') && IsRank(st', rank)
    requires Occurs(st, e, t)
    ensures Level(rank, t) > rank[e]
    decreases Level(RankOf(st), t), t
  {
    match t
    case App(l, r) =>
      if Occurs(st, e, l) { OccursRaisesLevel(st, st', rank, e, l); } else { OccursRaisesLevel(st, st', rank, e, r); }
    case EVar(ev) =>
      if st[ev].Some? { OccursRaisesLevel(st, st', rank, e, st[ev].value); }
    case Tuple(es) =>
      var i :| 0 <= i < |es| && Occurs(st, e, es[i]);
      OccursRaisesLevel(st, st', rank, e, es[i]);
    case Range(_, _) =>
    case Ident(_, _) =>
  }

  // ------------------------------------------------------- counting unassigned

  ghost function Unbound(st: Store): nat {
    if |st| == 0 then 0 else (if st[|st| - 1].None? then 1 else 0) + Unbound(st[..|st| - 1])
  }

  lemma {:induction false} BindLowersUnbound(st: Store, e: nat, t: Term)
    requires e < |st| && st[e].None?
    ensures Unbound(st[e := Some(t)]) + 1 == Unbound(st)
  {
    var n := |st| - 1;
    if e == n {
      assert st[e := Some(t)][..n] == st[..n];
    } else {
      assert st[e := Some(t)][..n] == st[..n][e := Some(t)];
      BindLowersUnbound(st[..n], e, t);
    }
  }

  lemma {:induction false} ExtendsUnbound(st: Store, st': Store)
    requires Extends(st, st')
    ensures Unbound(st') <= Unbound(st)
    ensures Unbound(st') == Unbound(st) ==> st' == st
    decreases |st|
  {
    if |st| > 0 {
      var n := |st| - 1;
      ExtendsUnbound(st[..n], st'[..n]);
      assert st == st[..n] + [st[n]] && st' == st'[..n] + [st'[n]];
    }
  }

  // ----------------------------------------------- what a positive occurs check means

  /** Following assignments from `t` leads to the unassigned variable `e` itself. */
  ghost predicate Alias(st: Store, e: nat, t: Term)
    requires Acyclic(st) && Scoped(|st|, t)
    decreases Level(RankOf(st), t)
  {
    t.EVar? && if st[t.id].Some? then Alias(st, e, st[t.id].value) else t.id == e
  }

  ghost function Height(v: Value): nat
    decreases v, 0
  {
    match v
    case VApp(l, r) => 1 + Max(Height(l), Height(r))
    case VTuple(vs) => 1 + HeightOfAll(vs)
    case _ => 0
  }

  ghost function HeightOfAll(vs: seq<Value>): (h: nat)
    ensures forall i | 0 <= i < |vs| :: Height(vs[i]) <= h
    decreases vs, 1
  {
    if |vs| == 0 then 0 else Max(Height(vs[|vs| - 1]), HeightOfAll(vs[..|vs| - 1]))
  }

  /** A term in which `e` occurs is at least as high as `e`, and higher unless it is `e`. */
  lemma {:induction false} OccursRaisesHeight(st: Store, e: nat, t: Term, sigma: seq<Value>)
    requires Acyclic(st) && Scoped(|st|, t) && e < |st| && Occurs(st, e, t) && Consistent(sigma, st)
    ensures Alias(st, e, t) ==> Eval(sigma, t) == sigma[e]
    ensures !Alias(st, e, t) ==> Height(Eval(sigma, t)) > Height(sigma[e])
    decreases Level(RankOf(st), t), t
  {
    match t
    case App(l, r) =>
      if Occurs(st, e, l) { OccursRaisesHeight(st, e, l, sigma); } else { OccursRaisesHeight(st, e, r, sigma); }
    case EVar(ev) =>
      if st[ev].Some? { OccursRaisesHeight(st, e, st[ev].value, sigma); }
    case Tuple(es) =>
      var i :| 0 <= i < |es| && Occurs(st, e, es[i]);
      OccursRaisesHeight(st, e, es[i], sigma);
      assert Eval(sigma, t).elements[i] == Eval(sigma, es[i]);
    case Range(_, _) =>
    case Ident(_, _) =>
  }

  /** When the occurs check stops an equation, the equation holds under every valuation of
      the assignments if the term is an alias of the variable, and under none if it is not.
      So the check is a false alarm exactly on aliases. */
  lemma {:induction false} OccursDecides(st: Store, e: nat, t: Term)
    requires Acyclic(st) && Scoped(|st|, t) && e < |st| && Occurs(st, e, t)
    ensures (exists sigma :: Consistent(sigma, st) && sigma[e] == Eval(sigma, t)) <==> Alias(st, e, t)
    ensures (forall sigma | Consistent(sigma, st) :: sigma[e] == Eval(sigma, t)) <==> Alias(st, e, t)
  {
    forall sigma | Consistent(sigma, st) ensures sigma[e] == Eval(sigma, t) <==> Alias(st, e, t) {
      OccursRaisesHeight(st, e, t, sigma);
    }
    SolutionIsConsistent(st);
  }
}
