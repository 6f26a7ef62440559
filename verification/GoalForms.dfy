/** What the goals that a verifier user writes ask of the database, read off their text. */
module GoalForms {
  import opened Terms
  import opened Facts
  import opened FactIndex
  import opened Solver
  import opened SolverMeaning
  import opened GroundTerms
  import opened GoalGroups
  import opened DecidedGroups

  /** The goal `=(a, b)`. */
  function EqualsGoal(c: bool, a: Term, b: Term): Term { App(Ident(EQUALS, c), Tuple([a, b])) }

  /** The goal `fact(source, edgeKind, target, name, value)`. */
  function FactGoal(c: bool, source: Term, edgeKind: Term, target: Term, name: Term, value: Term): Term {
    App(Ident(FACT, c), Tuple([source, edgeKind, target, name, value]))
  }

  function VNameValue(v: VName): Value {
    VApp(VIdent(VNAME), VTuple([VIdent(v.signature), VIdent(v.corpus), VIdent(v.root), VIdent(v.path),
                                VIdent(v.language)]))
  }

  /** An end of a fact is a vname, or the empty identifier. */
  function NodeValue(n: Node): Value {
    match n case Named(v) => VNameValue(v) case Plain(s) => VIdent(s)
  }

  lemma {:induction false} VNameTermMeans(sigma: seq<Value>, v: VName)
    ensures Scoped(|sigma|, VNameTerm(v)) && Eval(sigma, VNameTerm(v)) == VNameValue(v)
  {
    EvalVName(sigma, v);
    var parts := v.Parts();
    assert parts == [v.signature, v.corpus, v.root, v.path, v.language];
    assert seq(5, i requires 0 <= i < 5 => VIdent(parts[i])) == VNameValue(v).rhs.elements;
  }

  lemma {:induction false} NodeTermMeans(sigma: seq<Value>, n: Node)
    ensures Scoped(|sigma|, NodeTerm(n)) && Eval(sigma, NodeTerm(n)) == NodeValue(n)
  {
    if n.Named? { VNameTermMeans(sigma, n.vname); }
  }

  lemma {:induction false} ScopedEquals(n: nat, c: bool, a: Term, b: Term)
    ensures Scoped(n, EqualsGoal(c, a, b)) <==> Scoped(n, a) && Scoped(n, b)
  {
    var t := Tuple([a, b]);
    if Scoped(n, t) { assert Scoped(n, t.elements[0]) && Scoped(n, t.elements[1]); }
  }

  ghost predicate NamesAnchor(db: Database, sigma: seq<Value>, begin: nat, end: nat, t: Term)
    requires Scoped(|sigma|, t)
  {
    exists v :: Anchor(begin, end, v) in db.anchors && Eval(sigma, t) == VNameValue(v)
  }

  /** `=(range, t)` says that `t` is a vname that some anchor has over exactly that range. */
  lemma {:induction false} AnchorGoalMeans(db: Database, sigma: seq<Value>, c: bool, begin: nat, end: nat, t: Term)
    requires Scoped(|sigma|, t)
    ensures Scoped(|sigma|, EqualsGoal(c, Range(begin, end), t))
    ensures SatGoal(db, sigma, EqualsGoal(c, Range(begin, end), t))
        <==> NamesAnchor(db, sigma, begin, end, t)
  {
    var goal := EqualsGoal(c, Range(begin, end), t);
    ScopedEquals(|sigma|, c, Range(begin, end), t);
    assert EqualsArgs(goal).value == Equation(Range(begin, end), t);
    forall v ensures Scoped(|sigma|, VNameTerm(v)) && Eval(sigma, VNameTerm(v)) == VNameValue(v) {
      VNameTermMeans(sigma, v);
    }
    hide VNameTerm, VNameValue, Eval;
  }

  /** `=(a, b)` with anything else on the left says that both sides have one value. */
  lemma {:induction false} EqualityGoalMeans(db: Database, sigma: seq<Value>, c: bool, a: Term, b: Term)
    requires Scoped(|sigma|, a) && Scoped(|sigma|, b) && !a.Range?
    ensures Scoped(|sigma|, EqualsGoal(c, a, b))
    ensures SatGoal(db, sigma, EqualsGoal(c, a, b)) <==> Eval(sigma, a) == Eval(sigma, b)
  {
    ScopedEquals(|sigma|, c, a, b);
    assert EqualsArgs(EqualsGoal(c, a, b)).value == Equation(a, b);
  }

  lemma {:induction false} FactTermMeans(sigma: seq<Value>, f: Fact)
    ensures Scoped(|sigma|, FactTerm(f))
    ensures Eval(sigma, FactTerm(f))
         == VApp(VIdent(FACT), VTuple([NodeValue(f.source), VIdent(f.edgeKind), NodeValue(f.target), VIdent(f.name),
                                       VIdent(f.value)]))
  {
    NodeTermMeans(sigma, f.source);
    NodeTermMeans(sigma, f.target);
    var t := FactTerm(f).rhs;
    assert Scoped(|sigma|, t);
    hide NodeTerm, NodeValue;
    assert Eval(sigma, t).elements
        == [NodeValue(f.source), VIdent(f.edgeKind), NodeValue(f.target), VIdent(f.name), VIdent(f.value)];
  }

  /** `fact(..)` says that some fact has the values of its five parts. */
  lemma {:induction false} FactGoalMeans(
    db: Database, sigma: seq<Value>, c: bool, source: Term, edgeKind: Term, target: Term, name: Term, value: Term)
    requires Scoped(|sigma|, FactGoal(c, source, edgeKind, target, name, value))
    ensures Scoped(|sigma|, source) && Scoped(|sigma|, edgeKind) && Scoped(|sigma|, target)
    ensures Scoped(|sigma|, name) && Scoped(|sigma|, value)
    ensures SatGoal(db, sigma, FactGoal(c, source, edgeKind, target, name, value))
        <==> NamesFact(db, sigma, source, edgeKind, target, name, value)
  {
    var goal := FactGoal(c, source, edgeKind, target, name, value);
    var es := goal.rhs.elements;
    assert Scoped(|sigma|, goal.rhs);
    assert Scoped(|sigma|, es[0]) && Scoped(|sigma|, es[1]) && Scoped(|sigma|, es[2]) && Scoped(|sigma|, es[3])
        && Scoped(|sigma|, es[4]);
    assert EqualsArgs(goal).None?;
    forall f
      ensures Scoped(|sigma|, FactTerm(f))
      ensures Eval(sigma, goal) == Eval(sigma, FactTerm(f))
          <==> HasParts(sigma, f, source, edgeKind, target, name, value)
    {
      SamePartsAsFact(sigma, f, c, source, edgeKind, target, name, value);
    }
    hide Eval, FactTerm, HasParts;
  }

  ghost predicate HasParts(
    sigma: seq<Value>, f: Fact, source: Term, edgeKind: Term, target: Term, name: Term, value: Term)
    requires Scoped(|sigma|, source) && Scoped(|sigma|, edgeKind) && Scoped(|sigma|, target)
    requires Scoped(|sigma|, name) && Scoped(|sigma|, value)
  {
    && Eval(sigma, source) == NodeValue(f.source) && Eval(sigma, edgeKind) == VIdent(f.edgeKind)
    && Eval(sigma, target) == NodeValue(f.target) && Eval(sigma, name) == VIdent(f.name)
    && Eval(sigma, value) == VIdent(f.value)
  }

  ghost predicate NamesFact(
    db: Database, sigma: seq<Value>, source: Term, edgeKind: Term, target: Term, name: Term, value: Term)
    requires Scoped(|sigma|, source) && Scoped(|sigma|, edgeKind) && Scoped(|sigma|, target)
    requires Scoped(|sigma|, name) && Scoped(|sigma|, value)
  {
    exists f :: f in db.facts && HasParts(sigma, f, source, edgeKind, target, name, value)
  }

  lemma {:induction false} SamePartsAsFact(
    sigma: seq<Value>, f: Fact, c: bool, source: Term, edgeKind: Term, target: Term, name: Term, value: Term)
    requires Scoped(|sigma|, source) && Scoped(|sigma|, edgeKind) && Scoped(|sigma|, target)
    requires Scoped(|sigma|, name) && Scoped(|sigma|, value)
    requires Scoped(|sigma|, FactGoal(c, source, edgeKind, target, name, value))
    ensures Scoped(|sigma|, FactTerm(f))
    ensures Eval(sigma, FactGoal(c, source, edgeKind, target, name, value)) == Eval(sigma, FactTerm(f))
        <==> HasParts(sigma, f, source, edgeKind, target, name, value)
  {
    FactTermMeans(sigma, f);
    var goal := FactGoal(c, source, edgeKind, target, name, value);
    var vs := Eval(sigma, goal.rhs).elements;
    assert vs == [Eval(sigma, source), Eval(sigma, edgeKind), Eval(sigma, target), Eval(sigma, name),
                  Eval(sigma, value)];
    assert Eval(sigma, goal) == VApp(VIdent(FACT), VTuple(vs));
    hide FactTerm, NodeValue, Eval;
    var ws := [NodeValue(f.source), VIdent(f.edgeKind), NodeValue(f.target), VIdent(f.name), VIdent(f.value)];
    if vs == ws {
      assert vs[0] == ws[0] && vs[1] == ws[1] && vs[2] == ws[2] && vs[3] == ws[3] && vs[4] == ws[4];
    }
  }

  /** Any other application matches no fact: only `fact(..)` and `=(..)` can hold. */
  lemma {:induction false} OtherGoalsFail(db: Database, sigma: seq<Value>, goal: Term)
    requires Scoped(|sigma|, goal) && goal.App? && goal.lhs.Ident? && goal.lhs.symbol != FACT
    requires goal.lhs.symbol != EQUALS || !goal.rhs.Tuple? || |goal.rhs.elements| != 2
    ensures !SatGoal(db, sigma, goal)
  {
    assert EqualsArgs(goal).None?;
    assert Eval(sigma, goal).lhs == VIdent(goal.lhs.symbol);
    forall f ensures Scoped(|sigma|, FactTerm(f)) && Eval(sigma, goal) != Eval(sigma, FactTerm(f)) {
      FactTermMeans(sigma, f);
    }
    hide FactTerm, Eval;
  }

  lemma {:induction false} FirstAnchor(anchors: seq<Anchor>, begin: nat, end: nat)
    requires |AnchorsAt(anchors, begin, end)| > 0
    ensures Anchor(begin, end, AnchorsAt(anchors, begin, end)[0]) in anchors
  {
    assert AnchorsAt(anchors, begin, end)[0] in AnchorsAt(anchors, begin, end);
  }

  /** The search answers `=(range, t)` as impossible when no anchor has the range. */
  lemma {:induction false} AnchorGoalWithoutAnchor(
    db: Database, st: Store, c: bool, begin: nat, end: nat, t: Term, cut: ThunkRet)
    requires LookupReady(db.facts) && Acyclic(st) && Scoped(|st|, t) && cut >= FIRST_CUT
    requires forall v :: Anchor(begin, end, v) !in db.anchors
    ensures ScopedGoals(|st|, [EqualsGoal(c, Range(begin, end), t)])
    ensures SolveGroup(db, st, [EqualsGoal(c, Range(begin, end), t)], cut) == Outcome(IMPOSSIBLE, st)
  {
    var goal := EqualsGoal(c, Range(begin, end), t);
    var goals := [goal];
    ScopedEquals(|st|, c, Range(begin, end), t);
    assert ScopedGoals(|st|, goals);
    var rest := Pending(Goals(goals, 1), Done);
    assert EqualsArgs(goal).value == Equation(Range(begin, end), t);
    var vs := AnchorsAt(db.anchors, begin, end);
    if |vs| > 0 { FirstAnchor(db.anchors, begin, end); }
    assert MatchAtom(db, true, st, goal, rest, cut) == Outcome(IMPOSSIBLE, st);
    hide MatchAtom;
    assert SolveGoal(db, true, st, goal, rest, cut) == Outcome(IMPOSSIBLE, st);
  }

  /** Whatever the database, a group with such a goal is not solved. */
  lemma {:induction false} UnanchoredGroupIsNotSolved(
    db: Database, st: Store, goals: seq<Term>, i: nat, c: bool, begin: nat, end: nat, t: Term, cut: ThunkRet)
    requires LookupReady(db.facts) && Acyclic(st) && ScopedGoals(|st|, goals) && cut >= FIRST_CUT
    requires i < |goals| && goals[i] == EqualsGoal(c, Range(begin, end), t)
    requires forall v :: Anchor(begin, end, v) !in db.anchors
    ensures SolveGroup(db, st, goals, cut).ret != cut
  {
    GroupDecides(db, st, goals, cut);
    var o := SolveGroup(db, st, goals, cut);
    assert o.ret == cut ==> SatGoal(db, Solution(o.store), goals[i]);
    ScopedEquals(|st|, c, Range(begin, end), t);
    if o.ret == cut { AnchorGoalMeans(db, Solution(o.store), c, begin, end, t); }
  }

  // ------------------------------------------------------- goals on their own

  lemma {:induction false} AnyStoreFits(st: Store) returns (known: Known)
    requires Acyclic(st)
    ensures Fits(st, known)
  {
    known := Known(set e | 0 <= e < |st| && Scoped(|st|, EVar(e)), {});
    forall e | 0 <= e < |st| && st[e].Some? ensures e in known.used && Vars(st[e].value) <= known.used {
      GroundVars(st, st[e].value);
    }
  }

  /** A goal that is no equality of terms is decided on its own, from any assignments. */
  lemma {:induction false} SingleGoalIsDecided(db: Database, st: Store, goal: Term, cut: ThunkRet)
    requires LookupReady(db.facts) && Acyclic(st) && Scoped(|st|, goal) && goal.App? && !IsEquality(goal)
    requires cut >= FIRST_CUT
    ensures SolveGroup(db, st, [goal], cut).ret == cut
        <==> exists sigma :: Consistent(sigma, st) && SatGoal(db, sigma, goal)
  {
    var known := AnyStoreFits(st);
    hide Fits;
    var goals := [goal];
    assert SafeGoals(goals, 1, known.used + Vars(goal), GroundAfter(goal, known.ground));
    SafeGroupIsDecided(db, st, goals, known, cut);
    forall sigma: seq<Value> | |sigma| == |st| ensures SatGoals(db, sigma, goals, 0) == SatGoal(db, sigma, goal) {
      assert SatGoals(db, sigma, goals, 0) ==> SatGoal(db, sigma, goals[0]);
    }
    hide SolveGroup, SatGoal, SatGoals;
  }

  /** `=(range, t)` is solved exactly when the assignments allow `t` to be the vname of an
      anchor over that range. */
  lemma {:induction false} AnchorGoalIsDecided(
    db: Database, st: Store, c: bool, begin: nat, end: nat, t: Term, cut: ThunkRet)
    requires LookupReady(db.facts) && Acyclic(st) && Scoped(|st|, t) && cut >= FIRST_CUT
    ensures ScopedGoals(|st|, [EqualsGoal(c, Range(begin, end), t)])
    ensures SolveGroup(db, st, [EqualsGoal(c, Range(begin, end), t)], cut).ret == cut
        <==> exists sigma :: Consistent(sigma, st) && NamesAnchor(db, sigma, begin, end, t)
  {
    var goal := EqualsGoal(c, Range(begin, end), t);
    ScopedEquals(|st|, c, Range(begin, end), t);
    assert EqualsArgs(goal).value == Equation(Range(begin, end), t);
    SingleGoalIsDecided(db, st, goal, cut);
    forall sigma: seq<Value> | |sigma| == |st|
      ensures SatGoal(db, sigma, goal) == NamesAnchor(db, sigma, begin, end, t)
    {
      AnchorGoalMeans(db, sigma, c, begin, end, t);
    }
    hide SolveGroup, SatGoal, NamesAnchor;
  }

  /** `fact(..)` is solved exactly when the assignments allow its parts to be those of a fact. */
  lemma {:induction false} FactGoalIsDecided(
    db: Database, st: Store, c: bool, source: Term, edgeKind: Term, target: Term, name: Term, value: Term,
    cut: ThunkRet)
    requires LookupReady(db.facts) && Acyclic(st) && cut >= FIRST_CUT
    requires Scoped(|st|, source) && Scoped(|st|, edgeKind) && Scoped(|st|, target)
    requires Scoped(|st|, name) && Scoped(|st|, value)
    ensures ScopedGoals(|st|, [FactGoal(c, source, edgeKind, target, name, value)])
    ensures SolveGroup(db, st, [FactGoal(c, source, edgeKind, target, name, value)], cut).ret == cut
        <==> exists sigma :: Consistent(sigma, st)
                             && NamesFact(db, sigma, source, edgeKind, target, name, value)
  {
    var goal := FactGoal(c, source, edgeKind, target, name, value);
    assert Scoped(|st|, goal.rhs);
    assert EqualsArgs(goal).None?;
    SingleGoalIsDecided(db, st, goal, cut);
    forall sigma: seq<Value> | |sigma| == |st|
      ensures SatGoal(db, sigma, goal) == NamesFact(db, sigma, source, edgeKind, target, name, value)
    {
      FactGoalMeans(db, sigma, c, source, edgeKind, target, name, value);
    }
    hide SolveGroup, SatGoal, NamesFact;
  }
}
