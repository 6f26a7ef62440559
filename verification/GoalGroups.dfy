/** Goal groups: what `SolveGoalArray` decides about one, and what `Solve` decides
    about a whole program of positive and negated groups. */
module GoalGroups {
  import opened Wrappers
  import opened Terms
  import opened Facts
  import opened FactIndex
  import opened Solver
  import opened SolverMeaning
  import opened SolverIndex
  import opened SearchTree

  datatype Acceptance = NoneMayFail | SomeMustFail

  datatype GoalGroup = GoalGroup(acceptIf: Acceptance, goals: seq<Term>)

  ghost predicate ScopedGoals(n: nat, goals: seq<Term>) {
    forall i | 0 <= i < |goals| :: Scoped(n, goals[i])
  }

  ghost predicate ScopedGroups(n: nat, groups: seq<GoalGroup>) {
    forall i | 0 <= i < |groups| :: ScopedGoals(n, groups[i].goals)
  }

  function SolveGroup(db: Database, st: Store, goals: seq<Term>, cut: ThunkRet): (o: Outcome)
    requires LookupReady(db.facts) && Acyclic(st) && ScopedGoals(|st|, goals) && cut >= FIRST_CUT
    ensures Good(st, cut, o)
  {
    Run(db, true, st, Pending(Goals(goals, 0), Done), cut)
  }

  /** `inspect` stands for what the inspection callbacks answer. */
  function SolveGoalGroups(db: Database, st: Store, groups: seq<GoalGroup>, cur: nat, inspect: bool): (o: Outcome)
    requires LookupReady(db.facts) && Acyclic(st) && ScopedGroups(|st|, groups) && cur <= |groups|
    ensures Acyclic(o.store) && Extends(st, o.store)
    ensures o.ret == SOLVED || o.ret == NO_EXCEPTION || o.ret == INVALID_PROGRAM
    decreases |groups| - cur
  {
    if cur == |groups| then Outcome(if inspect then SOLVED else INVALID_PROGRAM, st)
    else
      var cut := FIRST_CUT + cur;
      var o := SolveGroup(db, st, groups[cur].goals, cut);
      if o.ret == cut then
        if groups[cur].acceptIf != NoneMayFail
        then Outcome(if inspect then NO_EXCEPTION else INVALID_PROGRAM, o.store)
        else SolveGoalGroups(db, o.store, groups, cur + 1, inspect)
      else if o.ret == NO_EXCEPTION || o.ret == IMPOSSIBLE then
        if groups[cur].acceptIf != SomeMustFail
        then Outcome(if inspect then NO_EXCEPTION else INVALID_PROGRAM, o.store)
        else SolveGoalGroups(db, o.store, groups, cur + 1, inspect)
      else o
  }

  // ------------------------------------------------------------------ one group

  /** Where the search for a group begins. */
  function Start(st: Store, goals: seq<Term>): Config { Config(st, Pending(Goals(goals, 0), Done)) }

  /** Why a group is called invalid: a branch of the search comes to a goal that is no
      application, or to an equation that the occurs check refuses. */
  ghost predicate InvalidGroup(db: Database, st: Store, goals: seq<Term>) {
    exists d :: Reaches(db, Start(st, goals), d) && Proper(d) && AtInvalid(d)
  }

  ghost predicate Satisfiable(db: Database, st: Store, goals: seq<Term>)
    requires ScopedStore(st) && ScopedGoals(|st|, goals)
  {
    exists sigma :: Consistent(sigma, st) && SatGoals(db, sigma, goals, 0)
  }

  lemma {:induction false} StartHolds(db: Database, st: Store, goals: seq<Term>)
    requires Acyclic(st) && ScopedGoals(|st|, goals)
    ensures Proper(Start(st, goals))
    ensures forall sigma :: Holds(db, sigma, Start(st, goals))
                       <==> Consistent(sigma, st) && SatGoals(db, sigma, goals, 0)
  {
    forall sigma: seq<Value> | |sigma| == |st|
      ensures Sat(db, sigma, Start(st, goals).k) == SatGoals(db, sigma, goals, 0)
    {
      assert Sat(db, sigma, Done);
    }
  }

  /** Sound and refuting, from any acyclic starting assignments. */
  lemma {:induction false} GroupDecides(db: Database, st: Store, goals: seq<Term>, cut: ThunkRet)
    requires LookupReady(db.facts) && Acyclic(st) && ScopedGoals(|st|, goals) && cut >= FIRST_CUT
    ensures var o := SolveGroup(db, st, goals, cut);
      && (o.ret == cut ==>
            && Consistent(Solution(o.store), o.store)
            && forall sigma | Consistent(sigma, o.store) :: SatGoals(db, sigma, goals, 0))
      && (o.ret == NO_EXCEPTION || o.ret == IMPOSSIBLE ==>
            forall sigma | Consistent(sigma, st) :: !SatGoals(db, sigma, goals, 0))
      && (o.ret == INVALID_PROGRAM ==> InvalidGroup(db, st, goals))
      && (o.ret != cut ==> o.store == st)
  {
    var k := Pending(Goals(goals, 0), Done);
    var o := SolveGroup(db, st, goals, cut);
    RunDecides(db, true, st, k, cut);
    StartHolds(db, st, goals);
    CalledInvalid(db, st, goals, cut);
    assert Verdict(db, st, k, cut, o);
    hide Run, SolveGroup, InvalidGroup, Proper;
    SolutionIsConsistent(o.store);
    forall sigma: seq<Value> | |sigma| == |st| ensures Sat(db, sigma, k) == SatGoals(db, sigma, goals, 0) {
    }
    if o.ret == IMPOSSIBLE {
      forall sigma: seq<Value> | |sigma| == |st| ensures !Sat(db, sigma, k) { DeadIsUnsatisfiable(db, sigma, k); }
    }
  }

  lemma {:induction false} CalledInvalid(db: Database, st: Store, goals: seq<Term>, cut: ThunkRet)
    requires LookupReady(db.facts) && Acyclic(st) && ScopedGoals(|st|, goals) && cut >= FIRST_CUT
    ensures SolveGroup(db, st, goals, cut).ret == INVALID_PROGRAM ==> InvalidGroup(db, st, goals)
  {
    var c := Start(st, goals);
    StartHolds(db, st, goals);
    ResultIsExact(db, c, cut);
    assert SolveGroup(db, st, goals, cut) == Run(db, true, c.st, c.k, cut);
    hide Run, SolveGroup, Reaches, Proper, AtInvalid;
  }

  /** A group of which no branch is invalid reaches its cut exactly when it is satisfiable;
      and a group that is not satisfiable is called invalid exactly when a branch is, unless
      it comes to a range without anchors. */
  lemma {:induction false} GroupIsExact(db: Database, st: Store, goals: seq<Term>, cut: ThunkRet)
    requires LookupReady(db.facts) && Acyclic(st) && ScopedGoals(|st|, goals) && cut >= FIRST_CUT
    ensures var r := SolveGroup(db, st, goals, cut).ret;
      && (!InvalidGroup(db, st, goals) ==> (r == cut <==> Satisfiable(db, st, goals)))
      && (!Satisfiable(db, st, goals) && r != IMPOSSIBLE ==> (r == INVALID_PROGRAM <==> InvalidGroup(db, st, goals)))
  {
    var o := SolveGroup(db, st, goals, cut);
    GroupDecides(db, st, goals, cut);
    FailureIsNotInvalid(db, st, goals, cut);
    hide SolveGroup, InvalidGroup, SatGoals;
    if o.ret == cut { ExtendsConsistent(Solution(o.store), st, o.store); }
  }

  lemma {:induction false} FailureIsNotInvalid(db: Database, st: Store, goals: seq<Term>, cut: ThunkRet)
    requires LookupReady(db.facts) && Acyclic(st) && ScopedGoals(|st|, goals) && cut >= FIRST_CUT
    ensures SolveGroup(db, st, goals, cut).ret == NO_EXCEPTION ==> !InvalidGroup(db, st, goals)
  {
    var c := Start(st, goals);
    StartHolds(db, st, goals);
    ResultIsExact(db, c, cut);
    assert SolveGroup(db, st, goals, cut) == Run(db, true, c.st, c.k, cut);
    hide Run, SolveGroup, Reaches, Proper, AtInvalid, AtGoal;
    if InvalidGroup(db, st, goals) {
      var d :| Reaches(db, c, d) && Proper(d) && AtInvalid(d);
      InvalidIsNotDone(d);
      assert EndOf(db, d, cut) == INVALID_PROGRAM;
      assert CanEnd(db, c, cut, INVALID_PROGRAM);
    }
  }

  lemma {:induction false} InvalidIsNotDone(d: Config)
    requires Proper(d) && AtInvalid(d)
    ensures !d.k.Done?
  {
  }

  /** The result and the assignments are those of scanning every fact for every goal. */
  lemma {:induction false} GroupIgnoresIndex(db: Database, st: Store, goals: seq<Term>, cut: ThunkRet)
    requires LookupReady(db.facts) && Acyclic(st) && ScopedGoals(|st|, goals) && cut >= FIRST_CUT
    ensures SolveGroup(db, st, goals, cut) == Run(db, false, st, Pending(Goals(goals, 0), Done), cut)
  {
    RunSame(db, st, Pending(Goals(goals, 0), Done), cut);
  }

  // -------------------------------------------------------------- whole programs

  ghost predicate GroupHolds(db: Database, st: Store, group: GoalGroup)
    requires ScopedStore(st) && ScopedGoals(|st|, group.goals)
  {
    match group.acceptIf
    case NoneMayFail => forall sigma | Consistent(sigma, st) :: SatGoals(db, sigma, group.goals, 0)
    case SomeMustFail => forall sigma | Consistent(sigma, st) :: !SatGoals(db, sigma, group.goals, 0)
  }

  lemma {:induction false} HoldsInExtension(db: Database, st: Store, st': Store, group: GoalGroup)
    requires ScopedStore(st) && ScopedStore(st') && Extends(st, st') && ScopedGoals(|st|, group.goals)
    requires GroupHolds(db, st, group)
    ensures GroupHolds(db, st', group)
  {
    forall sigma | Consistent(sigma, st')
      ensures SatGoals(db, sigma, group.goals, 0) == group.acceptIf.NoneMayFail?
    {
      ExtendsConsistent(sigma, st, st');
    }
  }

  /** If the program is solved, every positive group holds and every negated group
      fails under the final assignments and under anything that extends them, even
      though later groups assigned more variables after a negated one was refuted. */
  lemma {:induction false} SolvedProgramHolds(db: Database, st: Store, groups: seq<GoalGroup>, cur: nat, inspect: bool)
    requires LookupReady(db.facts) && Acyclic(st) && ScopedGroups(|st|, groups) && cur <= |groups|
    requires SolveGoalGroups(db, st, groups, cur, inspect).ret == SOLVED
    ensures var final := SolveGoalGroups(db, st, groups, cur, inspect).store;
      forall i, st' | cur <= i < |groups| && ScopedStore(st') && Extends(final, st') :: GroupHolds(db, st', groups[i])
    decreases |groups| - cur
  {
    var final := SolveGoalGroups(db, st, groups, cur, inspect).store;
    if cur < |groups| {
      var o := SolveGroup(db, st, groups[cur].goals, FIRST_CUT + cur);
      GroupDecides(db, st, groups[cur].goals, FIRST_CUT + cur);
      SolvedProgramHolds(db, o.store, groups, cur + 1, inspect);
      assert GroupHolds(db, o.store, groups[cur]);
    }
    hide SolveGoalGroups, SolveGroup, GroupHolds;
    forall i, st' | cur <= i < |groups| && ScopedStore(st') && Extends(final, st')
      ensures GroupHolds(db, st', groups[i])
    {
      if i == cur {
        var o := SolveGroup(db, st, groups[cur].goals, FIRST_CUT + cur);
        HoldsInExtension(db, o.store, st', groups[cur]);
      }
    }
  }

  // ------------------------------------------------------ programs that are not solved

  /** The group does not hold: a positive group cannot be satisfied, or a negated one can. */
  ghost predicate GroupFails(db: Database, st: Store, group: GoalGroup)
    requires ScopedStore(st) && ScopedGoals(|st|, group.goals)
  {
    group.acceptIf.SomeMustFail? <==> Satisfiable(db, st, group.goals)
  }

  /** The search for a group, which is the `cur`th. */
  function Solved(db: Database, st: Store, groups: seq<GoalGroup>, cur: nat): (o: Outcome)
    requires LookupReady(db.facts) && Acyclic(st) && ScopedGroups(|st|, groups) && cur < |groups|
    ensures Good(st, FIRST_CUT + cur, o)
  {
    SolveGroup(db, st, groups[cur].goals, FIRST_CUT + cur)
  }

  /** The search goes on behind the group. */
  predicate Passes(db: Database, st: Store, groups: seq<GoalGroup>, cur: nat)
    requires LookupReady(db.facts) && Acyclic(st) && ScopedGroups(|st|, groups) && cur < |groups|
  {
    var o := Solved(db, st, groups, cur);
    o.ret != INVALID_PROGRAM && (o.ret == FIRST_CUT + cur <==> groups[cur].acceptIf.NoneMayFail?)
  }

  /** Some group fails under the assignments that the groups before it leave behind. */
  ghost predicate FailsSomewhere(db: Database, st: Store, groups: seq<GoalGroup>, cur: nat)
    requires LookupReady(db.facts) && Acyclic(st) && ScopedGroups(|st|, groups)
    decreases |groups| - cur
  {
    cur < |groups|
    && (GroupFails(db, st, groups[cur])
        || (Passes(db, st, groups, cur) && FailsSomewhere(db, Solved(db, st, groups, cur).store, groups, cur + 1)))
  }

  /** Some group is invalid under the assignments that the groups before it leave behind. */
  ghost predicate InvalidSomewhere(db: Database, st: Store, groups: seq<GoalGroup>, cur: nat)
    requires LookupReady(db.facts) && Acyclic(st) && ScopedGroups(|st|, groups)
    decreases |groups| - cur
  {
    cur < |groups|
    && (InvalidGroup(db, st, groups[cur].goals)
        || (Passes(db, st, groups, cur) && InvalidSomewhere(db, Solved(db, st, groups, cur).store, groups, cur + 1)))
  }

  /** A group that is passed holds, and one that fails is not passed; one that is neither
      passed nor fails is invalid. */
  lemma {:induction false} PassedHolds(db: Database, st: Store, groups: seq<GoalGroup>, cur: nat)
    requires LookupReady(db.facts) && Acyclic(st) && ScopedGroups(|st|, groups) && cur < |groups|
    ensures Passes(db, st, groups, cur) ==> GroupHolds(db, Solved(db, st, groups, cur).store, groups[cur])
    ensures Passes(db, st, groups, cur) ==> !GroupFails(db, st, groups[cur])
    ensures Solved(db, st, groups, cur).ret == INVALID_PROGRAM ==> InvalidGroup(db, st, groups[cur].goals)
    ensures !Passes(db, st, groups, cur) && Solved(db, st, groups, cur).ret != INVALID_PROGRAM ==>
      GroupFails(db, st, groups[cur])
  {
    var goals, o := groups[cur].goals, Solved(db, st, groups, cur);
    GroupDecides(db, st, goals, FIRST_CUT + cur);
    hide SolveGroup, SatGoals, InvalidGroup;
    if o.ret == FIRST_CUT + cur { ExtendsConsistent(Solution(o.store), st, o.store); }
    assert o.ret == FIRST_CUT + cur ==> Satisfiable(db, st, goals);
  }

  /** Why a program is not solved.  If inspections succeed, a group fails where it was reached,
      or is invalid there; and if a group fails there, the program is not solved. */
  lemma {:induction false} UnsolvedProgram(db: Database, st: Store, groups: seq<GoalGroup>, cur: nat, inspect: bool)
    requires LookupReady(db.facts) && Acyclic(st) && ScopedGroups(|st|, groups) && cur <= |groups|
    ensures var r := SolveGoalGroups(db, st, groups, cur, inspect).ret;
      && (!inspect ==> r == INVALID_PROGRAM)
      && (r == NO_EXCEPTION ==> FailsSomewhere(db, st, groups, cur))
      && (r == INVALID_PROGRAM && inspect ==> InvalidSomewhere(db, st, groups, cur))
      && (r == SOLVED ==> !FailsSomewhere(db, st, groups, cur))
    decreases |groups| - cur
  {
    if cur < |groups| {
      var o := Solved(db, st, groups, cur);
      PassedHolds(db, st, groups, cur);
      assert o == SolveGroup(db, st, groups[cur].goals, FIRST_CUT + cur);
      hide SolveGroup, GroupFails, InvalidGroup, GroupHolds;
      if Passes(db, st, groups, cur) { UnsolvedProgram(db, o.store, groups, cur + 1, inspect); }
    }
  }

  // ------------------------------------------------------- what is not guaranteed

  function Equality(a: Term, b: Term): Term { App(Ident(EQUALS, true), Tuple([a, b])) }

  const X: Term := EVar(0)
  const Y: Term := EVar(1)
  const ALIASED: seq<Term> := [Equality(X, Y), Equality(Y, X)]

  /** Satisfiable goals can be called invalid: once X stands for Y, equating Y with
      X is taken for a cycle. */
  lemma {:induction false} AliasedVariablesAreInvalid(db: Database)
    requires LookupReady(db.facts)
    ensures var st := [None, None];
      && Acyclic(st) && ScopedGoals(|st|, ALIASED)
      && SolveGroup(db, st, ALIASED, FIRST_CUT).ret == INVALID_PROGRAM
      && SatGoals(db, [Unknown(0), Unknown(0)], ALIASED, 0)
  {
    var st: Store := [None, None];
    AliasedIsScoped();
    var goal, k := ALIASED[0], Pending(Goals(ALIASED, 1), Done);
    assert !Occurs(st, 0, Y);
    SecondIsRefused(db);
    BindKeepsAcyclic(st, 0, Y);
    assert st[0 := Some(Y)] == [Some(Y), None];
    assert UnifyEVar(db, true, st, 0, Y, k, FIRST_CUT).ret == INVALID_PROGRAM;
    hide Run, UnifyEVar;
    assert MatchAtom(db, true, st, goal, k, FIRST_CUT) == UnifyEVar(db, true, st, 0, Y, k, FIRST_CUT);
    FirstGoal(db, st);
  }

  lemma {:induction false} FirstGoal(db: Database, st: Store)
    requires LookupReady(db.facts) && Acyclic(st) && |st| == 2 && ScopedGoals(2, ALIASED)
    ensures SolveGroup(db, st, ALIASED, FIRST_CUT)
         == MatchAtom(db, true, st, ALIASED[0], Pending(Goals(ALIASED, 1), Done), FIRST_CUT)
  {
    var k := Pending(Goals(ALIASED, 1), Done);
    assert ALIASED[0].App? && |ALIASED| == 2;
    assert Run(db, true, st, Pending(Goals(ALIASED, 0), Done), FIRST_CUT)
        == SolveGoal(db, true, st, ALIASED[0], k, FIRST_CUT);
    hide MatchAtom, Run;
  }

  lemma {:induction false} AliasedIsScoped()
    ensures Acyclic([None, None]) && ScopedGoals(2, ALIASED)
  {
    assert IsRank([None, None], [0, 0]);
    assert Scoped(2, ALIASED[0].rhs) && Scoped(2, ALIASED[1].rhs);
  }

  /** The second goal, once X stands for Y. */
  lemma {:induction false} SecondIsRefused(db: Database)
    requires LookupReady(db.facts)
    ensures var st := [Some(Y), None];
      && Acyclic(st) && ScopedGoals(2, ALIASED)
      && Run(db, true, st, Pending(Goals(ALIASED, 1), Done), FIRST_CUT).ret == INVALID_PROGRAM
  {
    var st: Store := [Some(Y), None];
    AliasedIsScoped();
    assert IsRank(st, [1, 0]);
    assert Occurs(st, 1, Y);
    assert Occurs(st, 1, X);
    var goal, k := ALIASED[1], Pending(Goals(ALIASED, 2), Done);
    assert UnifyEVar(db, true, st, 1, X, k, FIRST_CUT) == Outcome(INVALID_PROGRAM, st);
    assert MatchAtom(db, true, st, goal, k, FIRST_CUT) == Outcome(INVALID_PROGRAM, st);
  }
}
