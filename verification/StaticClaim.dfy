/** The static claim tool: who may own each dependency, and the greedy assignment of
    exactly one owner. */
module StaticClaim {
  import opened Sets
  import opened V = VNames

  datatype Input = Input(vname: V.VName, rows: seq<string>)

  datatype Unit = Unit(vname: V.VName, inputs: seq<Input>)

  type Candidates = map<V.VName, set<V.VName>>

  // -------------------------------------------------------------- what is claimable

  /** An input is claimed once per transcript, or once if it has none. */
  ghost function InputKeys(input: Input): set<V.VName> {
    if |input.rows| > 0
    then set i | 0 <= i < |input.rows| :: input.vname.(signature := input.rows[i] + input.vname.signature)
    else {input.vname}
  }

  ghost function UnitKeys(u: Unit): set<V.VName> {
    set i, k | 0 <= i < |u.inputs| && k in InputKeys(u.inputs[i]) :: k
  }

  /** For each claimable, the units that have it among their inputs. */
  ghost predicate AreCandidates(units: seq<Unit>, cand: Candidates) {
    && (forall k :: k in cand <==> exists u :: u in units && k in UnitKeys(u))
    && (forall k, v :: k in cand ==> (v in cand[k] <==> exists u :: u in units && u.vname == v && k in UnitKeys(u)))
  }

  /** Which units there are decides the candidates, not their order. */
  lemma {:induction false} CandidatesAreOrderFree(
    units: seq<Unit>, units': seq<Unit>, cand: Candidates, cand': Candidates)
    requires AreCandidates(units, cand) && AreCandidates(units', cand') && forall u :: u in units <==> u in units'
    ensures cand == cand'
  {
    forall k ensures k in cand <==> k in cand' { }
    forall k | k in cand ensures cand[k] == cand'[k] {
      forall v ensures v in cand[k] <==> v in cand'[k] { }
    }
  }

  // ------------------------------------------------------------ the greedy assignment

  /** The keys handled before `k`. */
  ghost function Before(keys: set<V.VName>, k: V.VName): set<V.VName> { set x | x in keys && VNameLess(x, k) }

  /** What `c` owns among `keys`. */
  ghost function Owned(elected: map<V.VName, V.VName>, keys: set<V.VName>, c: V.VName): set<V.VName> {
    set x | x in keys && x in elected && elected[x] == c
  }

  /** The least loaded candidate, the first in VName order among equals. */
  ghost predicate Emptiest(cands: set<V.VName>, elected: map<V.VName, V.VName>, keys: set<V.VName>, c: V.VName) {
    && c in cands
    && forall d | d in cands && d != c ::
         var m, n := |Owned(elected, keys, c)|, |Owned(elected, keys, d)|; m < n || (m == n && VNameLess(c, d))
  }

  /** Every claimable has one owner, the emptiest candidate when its turn came. */
  ghost predicate Greedy(cand: Candidates, elected: map<V.VName, V.VName>) {
    && elected.Keys == cand.Keys
    && forall k | k in cand :: Emptiest(cand[k], elected, Before(cand.Keys, k), elected[k])
  }

  lemma {:induction false} GreedyAt(cand: Candidates, e1: map<V.VName, V.VName>, e2: map<V.VName, V.VName>, k: V.VName)
    requires Greedy(cand, e1) && Greedy(cand, e2) && k in cand
    ensures e1[k] == e2[k]
    decreases |Before(cand.Keys, k)|
  {
    VNameLessIsTotal();
    var before := Before(cand.Keys, k);
    forall x | x in before ensures e1[x] == e2[x] {
      assert Before(cand.Keys, x) < before by { assert x !in Before(cand.Keys, x); }
      SmallerSet(Before(cand.Keys, x), before);
      GreedyAt(cand, e1, e2, x);
    }
    forall c ensures Owned(e1, before, c) == Owned(e2, before, c) { }
    assert Emptiest(cand[k], e1, before, e1[k]) && Emptiest(cand[k], e2, before, e2[k]);
  }

  /** The assignment is a function of the candidates ... */
  lemma {:induction false} GreedyIsUnique(cand: Candidates, e1: map<V.VName, V.VName>, e2: map<V.VName, V.VName>)
    requires Greedy(cand, e1) && Greedy(cand, e2)
    ensures e1 == e2
  {
    forall k | k in cand ensures e1[k] == e2[k] { GreedyAt(cand, e1, e2, k); }
  }

  /** ... so it is the same for every order in which the units were handled. */
  lemma {:induction false} AssignmentIsOrderFree(
    units: seq<Unit>, units': seq<Unit>, cand: Candidates, cand': Candidates,
    elected: map<V.VName, V.VName>, elected': map<V.VName, V.VName>)
    requires AreCandidates(units, cand) && AreCandidates(units', cand') && multiset(units) == multiset(units')
    requires Greedy(cand, elected) && Greedy(cand', elected')
    ensures cand == cand' && elected == elected'
  {
    assert forall u :: u in units <==> u in multiset(units);
    assert forall u :: u in units' <==> u in multiset(units');
    CandidatesAreOrderFree(units, units', cand, cand');
    GreedyIsUnique(cand, elected, elected');
  }

  /** The greatest claim in VName order was the last one made. */
  ghost predicate IsGreatest(s: set<V.VName>, x: V.VName) { x in s && forall y | y in s :: y == x || VNameLess(y, x) }

  /** Loads are balanced up to one at the last claim: the other candidates of an owner's
      greatest claim own at most one claim less than the owner does. */
  lemma {:induction false} LastClaimIsBalanced(
    cand: Candidates, elected: map<V.VName, V.VName>, c: V.VName, k: V.VName, d: V.VName)
    requires Greedy(cand, elected) && IsGreatest(Owned(elected, cand.Keys, c), k) && d in cand[k]
    ensures |Owned(elected, cand.Keys, d)| >= |Owned(elected, cand.Keys, c)| - 1
  {
    VNameLessIsTotal();
    var before := Before(cand.Keys, k);
    assert Emptiest(cand[k], elected, before, c);
    assert Owned(elected, before, c) == Owned(elected, cand.Keys, c) - {k};
    assert Owned(elected, before, d) <= Owned(elected, cand.Keys, d);
    SubsetSize(Owned(elected, before, d), Owned(elected, cand.Keys, d));
  }

  /** One claimant holds `k`, and it may. */
  ghost predicate HeldOnce(cand: Candidates, claims: map<V.VName, set<V.VName>>, k: V.VName)
    requires k in cand
  {
    exists c :: c in claims && c in cand[k] && k in claims[c] && forall d | d in claims && k in claims[d] :: d == c
  }

  /** The sets of claims partition the claimables, each among those that may own it. */
  ghost predicate IsPartition(cand: Candidates, claims: map<V.VName, set<V.VName>>) {
    (forall k | k in cand :: HeldOnce(cand, claims, k)) && forall c | c in claims :: claims[c] <= cand.Keys
  }

  /** The other candidates of a claimant's greatest claim hold at most one claim less. */
  ghost predicate IsBalanced(cand: Candidates, claims: map<V.VName, set<V.VName>>) {
    forall c, k, d | c in claims && IsGreatest(claims[c], k) && k in cand && d in cand[k] && d in claims ::
      |claims[d]| >= |claims[c]| - 1
  }

  /** Sets of claims that follow the greedy assignment are a balanced partition. */
  lemma {:induction false} AssignmentIsPartition(
      cand: Candidates, elected: map<V.VName, V.VName>, claims: map<V.VName, set<V.VName>>)
    requires Greedy(cand, elected) && forall c | c in claims :: claims[c] == Owned(elected, cand.Keys, c)
    requires forall k | k in cand :: cand[k] <= claims.Keys
    ensures IsPartition(cand, claims) && IsBalanced(cand, claims)
  {
    forall k | k in cand ensures HeldOnce(cand, claims, k) {
      assert Emptiest(cand[k], elected, Before(cand.Keys, k), elected[k]);
      assert elected[k] in claims && k in claims[elected[k]];
    }
    forall c, k, d | c in claims && IsGreatest(claims[c], k) && k in cand && d in cand[k] && d in claims
      ensures |claims[d]| >= |claims[c]| - 1
    {
      LastClaimIsBalanced(cand, elected, c, k, d);
    }
  }

  // -------------------------------------------------------------------------- the tool

  /** `claimants` are the names of the units. */
  ghost predicate AreClaimants(units: seq<Unit>, claimants: set<V.VName>) {
    forall v :: v in claimants <==> exists u :: u in units && u.vname == v
  }

  class ClaimTool {
    /** Each claimant with its confirmed claims. */
    var claimants: map<V.VName, set<V.VName>>
    /** Each claimable with the claimants that may own it. */
    var claimables: Candidates
    var elected: map<V.VName, V.VName>
    ghost var units: seq<Unit>

    ghost predicate Valid()
      reads this
    {
      && AreCandidates(units, claimables)
      && AreClaimants(units, claimants.Keys)
      && elected.Keys <= claimables.Keys
    }

    constructor ()
      ensures Valid() && units == [] && elected == map[] && claimants == map[]
    {
      claimants, claimables, elected, units := map[], map[], map[], [];
    }

    method AddCandidate(k: V.VName, v: V.VName)
      modifies this`claimables
      ensures claimables == Added(old(claimables), {k}, v)
    {
      if k !in claimables { claimables := claimables[k := {}]; }
      claimables := claimables[k := claimables[k] + {v}];
      ghost var after := Added(old(claimables), {k}, v);
      assert claimables.Keys == after.Keys;
      forall x | x in after ensures claimables[x] == after[x] {
        if x != k { assert old(claimables)[x] + {} == old(claimables)[x]; }
      }
    }

    method HandleInput(input: Input, v: V.VName)
      modifies this`claimables
      ensures claimables == Added(old(claimables), InputKeys(input), v)
    {
      hide Added;
      if |input.rows| == 0 {
        AddCandidate(input.vname, v);
        return;
      }
      ghost var done: set<V.VName> := {};
      AddedNothing(claimables, v);
      for r := 0 to |input.rows|
        invariant done == set j | 0 <= j < r :: input.vname.(signature := input.rows[j] + input.vname.signature)
        invariant claimables == Added(old(claimables), done, v)
      {
        var k := input.vname.(signature := input.rows[r] + input.vname.signature);
        AddCandidate(k, v);
        AddedTwice(old(claimables), done, {k}, v);
        done := done + {k};
      }
    }

    /** Remembers the unit as a claimant, and as a candidate for each of its inputs. */
    method HandleCompilationUnit(u: Unit)
      requires Valid()
      modifies this`claimants, this`claimables, this`units
      ensures Valid() && units == old(units) + [u]
      ensures forall v | v in old(claimants) :: claimants[v] == old(claimants)[v]
      ensures u.vname !in old(claimants) ==> claimants[u.vname] == {}
    {
      AddedUnit(units, u, claimables);
      AddInputs(u);
      if u.vname !in claimants { claimants := claimants[u.vname := {}]; }
      assert forall x :: x in units + [u] <==> x in units || x == u;
      units := units + [u];
    }

    method AddInputs(u: Unit)
      modifies this`claimables
      ensures claimables == Added(old(claimables), UnitKeys(u), u.vname)
      ensures old(claimables).Keys <= claimables.Keys
    {
      hide Added, InputKeys;
      AddedNothing(claimables, u.vname);
      assert KeysUpTo(u, 0) == {};
      for i := 0 to |u.inputs|
        invariant claimables == Added(old(claimables), KeysUpTo(u, i), u.vname)
      {
        HandleInput(u.inputs[i], u.vname);
        AddedTwice(old(claimables), KeysUpTo(u, i), InputKeys(u.inputs[i]), u.vname);
        KeysGrow(u, i);
      }
      assert KeysUpTo(u, |u.inputs|) == UnitKeys(u);
      forall k | k in old(claimables) ensures k in claimables { AddedAt(old(claimables), UnitKeys(u), u.vname, k); }
    }

    /** Elects the emptiest candidate of each claimable, in VName order. */
    method AssignClaims()
      requires Valid() && elected == map[] && forall c | c in claimants :: claimants[c] == {}
      modifies this`claimants, this`elected
      ensures Valid() && Greedy(claimables, elected) && claimants.Keys == old(claimants).Keys
      ensures forall c | c in claimants :: claimants[c] == Owned(elected, claimables.Keys, c)
      ensures IsPartition(claimables, claimants) && IsBalanced(claimables, claimants)
    {
      NoneElected(claimables, claimants);
      hide *;
      var rest := claimables.Keys;
      while rest != {}
        invariant rest <= claimables.Keys && claimants.Keys == old(claimants).Keys && Valid()
        invariant SoFar(claimables, rest, elected, claimants)
        decreases |rest|
      {
        var k := FirstOf(rest);
        FirstIsIn(rest, k);
        ElectOne(rest, k);
        rest := rest - {k};
      }
      AllElected(claimables, elected, claimants);
      forall k | k in claimables ensures claimables[k] <= claimants.Keys { CandidatesAreClaimants(k); }
      AssignmentIsPartition(claimables, elected, claimants);
    }

    method ElectOne(ghost rest: set<V.VName>, k: V.VName)
      requires Valid() && IsFirst(rest, k) && SoFar(claimables, rest, elected, claimants) && k in claimables
      modifies this`claimants, this`elected
      ensures Valid() && SoFar(claimables, rest - {k}, elected, claimants) && claimants.Keys == old(claimants).Keys
    {
      CandidatesAreClaimants(k);
      hide SoFar, AreCandidates, AreClaimants, IsFirst, LeastLoaded;
      var c := EmptiestOf(claimables[k], claimants);
      assert c in claimables[k] by { EmptiestIsIn(claimables[k], claimants, c); }
      ElectNext(claimables, rest, elected, claimants, k, c);
      claimants := claimants[c := claimants[c] + {k}];
      elected := elected[k := c];
      assert claimants.Keys == old(claimants).Keys;
    }

    lemma {:induction false} CandidatesAreClaimants(k: V.VName)
      requires Valid() && k in claimables
      ensures claimables[k] != {} && claimables[k] <= claimants.Keys
    {
      var u :| u in units && k in UnitKeys(u);
      assert u.vname in claimables[k];
    }
  }

  lemma {:induction false} FirstIsIn(s: set<V.VName>, k: V.VName)
    requires IsFirst(s, k)
    ensures k in s
  {
  }

  /** The next key of an ordered map. */
  method FirstOf(s: set<V.VName>) returns (k: V.VName)
    requires s != {}
    ensures IsFirst(s, k)
  {
    var x := HasFirst(s);
    k :| k in s && forall y | y in s :: k == y || VNameLess(k, y);
  }

  /** The first of the least loaded candidates, found by looking at them in VName order. */
  method EmptiestOf(cands: set<V.VName>, claims: map<V.VName, set<V.VName>>) returns (c: V.VName)
    requires cands != {} && cands <= claims.Keys
    ensures LeastLoaded(cands, claims, c)
  {
    hide VNameLess;
    c := FirstOf(cands);
    var rest := cands;
    while rest != {}
      invariant rest <= cands && c in cands
      invariant forall d | d in cands - rest && d != c ::
        |claims[c]| < |claims[d]| || (|claims[c]| == |claims[d]| && VNameLess(c, d))
      invariant forall d | d in rest :: d == c || VNameLess(c, d)
      invariant forall d, e | d in cands - rest && e in rest :: VNameLess(d, e)
      decreases |rest|
    {
      var d := FirstOf(rest);
      if |claims[d]| < |claims[c]| { c := d; }
      rest := rest - {d};
    }
  }

  ghost predicate LeastLoaded(cands: set<V.VName>, claims: map<V.VName, set<V.VName>>, c: V.VName)
    requires cands <= claims.Keys
  {
    c in cands && forall d | d in cands && d != c ::
      |claims[c]| < |claims[d]| || (|claims[c]| == |claims[d]| && VNameLess(c, d))
  }

  lemma {:induction false} EmptiestIsIn(cands: set<V.VName>, claims: map<V.VName, set<V.VName>>, c: V.VName)
    requires cands <= claims.Keys && LeastLoaded(cands, claims, c)
    ensures c in cands
  {
  }

  /** The claimables not in `rest` have been elected greedily, and the claims agree. */
  ghost predicate SoFar(
    cand: Candidates, rest: set<V.VName>, elected: map<V.VName, V.VName>, claims: map<V.VName, set<V.VName>>) {
    && rest <= cand.Keys && elected.Keys == cand.Keys - rest
    && (forall d, e | d in elected && e in rest :: VNameLess(d, e))
    && (forall k | k in elected :: Emptiest(cand[k], elected, Before(cand.Keys, k), elected[k]))
    && (forall c | c in claims :: claims[c] == Owned(elected, cand.Keys, c))
  }

  lemma {:induction false} EarlierAreElected(
    cand: Candidates, rest: set<V.VName>, elected: map<V.VName, V.VName>, claims: map<V.VName, set<V.VName>>,
    k: V.VName)
    requires SoFar(cand, rest, elected, claims) && IsFirst(rest, k)
    ensures Before(cand.Keys, k) == elected.Keys
    ensures forall x | x in elected :: k !in Before(cand.Keys, x)
  {
    hide VNameLess;
    VNameLessIsAsymmetric();
  }

  /** A later election does not change what was owned before. */
  lemma {:induction false} StaysEmptiest(
    cands: set<V.VName>, elected: map<V.VName, V.VName>, before: set<V.VName>, k: V.VName, c: V.VName, owner: V.VName)
    requires k !in before && Emptiest(cands, elected, before, owner)
    ensures Emptiest(cands, elected[k := c], before, owner)
  {
    hide VNameLess;
    forall d ensures Owned(elected[k := c], before, d) == Owned(elected, before, d) { }
  }

  lemma {:induction false} ElectedIsEmptiest(
    cand: Candidates, elected: map<V.VName, V.VName>, claims: map<V.VName, set<V.VName>>, k: V.VName, c: V.VName)
    requires k in cand && k !in elected && elected.Keys <= cand.Keys && cand[k] <= claims.Keys
      && LeastLoaded(cand[k], claims, c)
    requires forall d | d in claims :: claims[d] == Owned(elected, cand.Keys, d)
    ensures Emptiest(cand[k], elected[k := c], elected.Keys, c)
  {
    hide VNameLess;
    forall d | d in cand[k] ensures Owned(elected[k := c], elected.Keys, d) == claims[d] { }
  }

  lemma {:induction false} ElectNext(
    cand: Candidates, rest: set<V.VName>, elected: map<V.VName, V.VName>, claims: map<V.VName, set<V.VName>>,
    k: V.VName, c: V.VName)
    requires SoFar(cand, rest, elected, claims) && IsFirst(rest, k)
    requires cand[k] <= claims.Keys && LeastLoaded(cand[k], claims, c)
    ensures SoFar(cand, rest - {k}, elected[k := c], claims[c := claims[c] + {k}])
  {
    hide VNameLess, Emptiest;
    var e' := elected[k := c];
    EarlierAreElected(cand, rest, elected, claims, k);
    ElectedIsEmptiest(cand, elected, claims, k, c);
    forall x | x in elected ensures Emptiest(cand[x], e', Before(cand.Keys, x), e'[x]) {
      StaysEmptiest(cand[x], elected, Before(cand.Keys, x), k, c, elected[x]);
    }
    ClaimsFollow(cand.Keys, elected, claims, k, c);
    hide Before, Owned;
  }

  /** Giving `k` to `c` adds it to what `c` owns and changes nothing else. */
  lemma {:induction false} ClaimsFollow(
    keys: set<V.VName>, elected: map<V.VName, V.VName>, claims: map<V.VName, set<V.VName>>, k: V.VName, c: V.VName)
    requires k in keys && k !in elected && c in claims
    requires forall d | d in claims :: claims[d] == Owned(elected, keys, d)
    ensures forall d | d in claims :: claims[c := claims[c] + {k}][d] == Owned(elected[k := c], keys, d)
  {
  }

  lemma {:induction false} NoneElected(cand: Candidates, claims: map<V.VName, set<V.VName>>)
    requires forall c | c in claims :: claims[c] == {}
    ensures SoFar(cand, cand.Keys, map[], claims)
  {
  }

  lemma {:induction false} AllElected(
    cand: Candidates, elected: map<V.VName, V.VName>, claims: map<V.VName, set<V.VName>>)
    requires SoFar(cand, {}, elected, claims)
    ensures Greedy(cand, elected) && forall c | c in claims :: claims[c] == Owned(elected, cand.Keys, c)
  {
  }

  /** `v` made a candidate for each of `keys`. */
  ghost function Added(cand: Candidates, keys: set<V.VName>, v: V.VName): Candidates {
    map k | k in cand.Keys + keys :: (if k in cand then cand[k] else {}) + (if k in keys then {v} else {})
  }

  lemma {:induction false} AddedTwice(cand: Candidates, a: set<V.VName>, b: set<V.VName>, v: V.VName)
    ensures Added(Added(cand, a, v), b, v) == Added(cand, a + b, v)
  {
    var l, r := Added(Added(cand, a, v), b, v), Added(cand, a + b, v);
    assert l.Keys == r.Keys == cand.Keys + a + b;
    forall k | k in l ensures l[k] == r[k] { AddedAt(cand, a, v, k); }
  }

  lemma {:induction false} AddedAt(cand: Candidates, keys: set<V.VName>, v: V.VName, k: V.VName)
    ensures k in Added(cand, keys, v) <==> k in cand || k in keys
    ensures k in Added(cand, keys, v) ==>
      Added(cand, keys, v)[k] == (if k in cand then cand[k] else {}) + (if k in keys then {v} else {})
  {
  }

  lemma {:induction false} AddedNothing(cand: Candidates, v: V.VName)
    ensures Added(cand, {}, v) == cand
  {
    forall k | k in cand ensures Added(cand, {}, v)[k] == cand[k] { assert cand[k] + {} == cand[k]; }
  }

  ghost function KeysUpTo(u: Unit, n: nat): set<V.VName>
    requires n <= |u.inputs|
  {
    set i, k | 0 <= i < n && k in InputKeys(u.inputs[i]) :: k
  }

  lemma {:induction false} KeysGrow(u: Unit, n: nat)
    requires n < |u.inputs|
    ensures KeysUpTo(u, n + 1) == KeysUpTo(u, n) + InputKeys(u.inputs[n])
  {
  }

  lemma {:induction false} AddedUnit(units: seq<Unit>, u: Unit, cand: Candidates)
    requires AreCandidates(units, cand)
    ensures AreCandidates(units + [u], Added(cand, UnitKeys(u), u.vname))
  {
    assert forall x :: x in units + [u] <==> x in units || x == u;
  }
}
