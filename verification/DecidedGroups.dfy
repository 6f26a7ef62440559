/** Goals that the search never calls invalid, so that it decides them: goals about facts and
    anchors, equalities with a side that earlier goals have made ground, and equalities that
    introduce a variable. */
module DecidedGroups {
  import opened Wrappers
  import opened Terms
  import opened FactIndex
  import opened Solver
  import opened SolverMeaning
  import opened GroundTerms
  import opened GoalGroups

  // --------------------------------------------------- which goals, in which order

  /** An equality between terms, rather than about a range. */
  predicate IsEquality(goal: Term) { EqualsArgs(goal).Some? && !EqualsArgs(goal).value.lhs.Range? }

  /** `x = t` with a variable that nothing has mentioned yet, and that `t` does not mention
      unless it is the variable. */
  ghost predicate Introduces(goal: Term, used: set<nat>) {
    && IsEquality(goal)
    && var Equation(a, b) := EqualsArgs(goal).value;
       a.EVar? && a.id !in used && (a.id !in Vars(b) || b == a)
  }

  /** A side of the equality has only variables that are ground by now. */
  ghost predicate HasGroundSide(goal: Term, ground: set<nat>)
    requires IsEquality(goal)
  {
    Vars(EqualsArgs(goal).value.lhs) <= ground || Vars(EqualsArgs(goal).value.rhs) <= ground
  }

  /** With `used` mentioned so far, and `ground` of them ground. */
  ghost predicate SafeGoal(goal: Term, used: set<nat>, ground: set<nat>) {
    goal.App? && (IsEquality(goal) ==> HasGroundSide(goal, ground) || Introduces(goal, used))
  }

  /** What is ground after the goal: everything in it, unless it only introduces a variable. */
  ghost function GroundAfter(goal: Term, ground: set<nat>): set<nat> {
    if IsEquality(goal) && !HasGroundSide(goal, ground) then ground else ground + Vars(goal)
  }

  ghost predicate SafeGoals(goals: seq<Term>, cur: nat, used: set<nat>, ground: set<nat>)
    decreases |goals| - cur
  {
    cur >= |goals|
    || (SafeGoal(goals[cur], used, ground)
        && SafeGoals(goals, cur + 1, used + Vars(goals[cur]), GroundAfter(goals[cur], ground)))
  }

  ghost function UsedByAll(goals: seq<Term>, cur: nat, used: set<nat>): set<nat>
    decreases |goals| - cur
  {
    if cur >= |goals| then used else UsedByAll(goals, cur + 1, used + Vars(goals[cur]))
  }

  ghost function GroundAfterAll(goals: seq<Term>, cur: nat, ground: set<nat>): set<nat>
    decreases |goals| - cur
  {
    if cur >= |goals| then ground else GroundAfterAll(goals, cur + 1, GroundAfter(goals[cur], ground))
  }

  // ---------------------------------------------------------------- what is promised

  ghost predicate AllGround(st: Store, ground: set<nat>)
    requires Acyclic(st)
  {
    forall v | v in ground :: v < |st| && GroundIn(st, EVar(v))
  }

  /** What is known of the assignments. */
  datatype Known = Known(used: set<nat>, ground: set<nat>)

  ghost predicate Fits(st: Store, known: Known) {
    Acyclic(st) && Touches(st, known.used) && AllGround(st, known.ground)
  }

  /** Later assignments that mention only `used`. */
  ghost predicate Later(st: Store, st': Store, used: set<nat>) {
    Acyclic(st') && Extends(st, st') && Touches(st', used)
  }

  /** The work ends with an answer, and if with the cut, then with assignments that fit. */
  ghost predicate Answers(o: Outcome, cut: ThunkRet, known: Known) {
    o.ret != INVALID_PROGRAM && (o.ret == cut ==> Fits(o.store, known))
  }

  ghost predicate RunAnswers(db: Database, st: Store, k: Cont, cut: ThunkRet, known: Known) {
    && LookupReady(db.facts) && Acyclic(st) && ScopedCont(|st|, k) && cut >= FIRST_CUT
    && Answers(Run(db, true, st, k, cut), cut, known)
  }

  /** The work that remains is answered from all later assignments that make `s` and `t`
      ground. */
  ghost predicate AnswersAfter(
    db: Database, st: Store, used: set<nat>, s: Term, t: Term, k: Cont, cut: ThunkRet, known: Known)
    requires Scoped(|st|, s) && Scoped(|st|, t)
  {
    forall st' | Later(st, st', used) && GroundIn(st', s) && GroundIn(st', t) :: RunAnswers(db, st', k, cut, known)
  }

  // ------------------------------------------------------ unification with a ground side

  lemma {:induction false} UnifyAnswers(
      db: Database, st: Store, used: set<nat>, s: Term, t: Term, k: Cont, cut: ThunkRet, known: Known)
    requires LookupReady(db.facts) && Acyclic(st) && ScopedCont(|st|, k) && cut >= FIRST_CUT
    requires Scoped(|st|, s) && Scoped(|st|, t) && Touches(st, used) && Vars(s) + Vars(t) <= used
    requires GroundIn(st, s) || GroundIn(st, t)
    requires AnswersAfter(db, st, used, s, t, k, cut, known)
    ensures Answers(Unify(db, true, st, s, t, k, cut), cut, known)
    decreases Unbound(st), Size(st, s) + Size(st, t), 1
  {
    GroundParts(st, s);
    GroundParts(st, t);
    if s.EVar? {
      EVarAnswers(db, st, used, s.id, t, k, cut, known);
    } else if t.EVar? {
      EVarAnswers(db, st, used, t.id, s, k, cut, known);
    } else if s.App? && t.App? {
      AppAnswers(db, st, used, s, t, k, cut, known);
    } else if s.Tuple? && t.Tuple? {
      if |s.elements| == |t.elements| {
        ElementsAnswer(db, st, used, s, t, k, cut, known);
      }
    } else if (s.Ident? && t.Ident?) || (s.Range? && t.Range?) {
      SimpleIsGround(st, s);
      SimpleIsGround(st, t);
      assert Later(st, st, used);
      assert RunAnswers(db, st, k, cut, known);
    }
  }

  lemma {:induction false} AppAnswers(
      db: Database, st: Store, used: set<nat>, s: Term, t: Term, k: Cont, cut: ThunkRet, known: Known)
    requires LookupReady(db.facts) && Acyclic(st) && ScopedCont(|st|, k) && cut >= FIRST_CUT
    requires Scoped(|st|, s) && Scoped(|st|, t) && Touches(st, used) && Vars(s) + Vars(t) <= used
    requires s.App? && t.App? && (GroundIn(st, s) || GroundIn(st, t))
    requires AnswersAfter(db, st, used, s, t, k, cut, known)
    ensures Answers(Unify(db, true, st, s, t, k, cut), cut, known)
    decreases Unbound(st), Size(st, s) + Size(st, t), 0
  {
    GroundParts(st, s);
    GroundParts(st, t);
    var rest := Pending(Equate(s.rhs, t.rhs), k);
    forall st' | Later(st, st', used) && GroundIn(st', s.lhs) && GroundIn(st', t.lhs)
      ensures RunAnswers(db, st', rest, cut, known)
    {
      ExtendsUnbound(st, st');
      if GroundIn(st, s) { StaysGround(st, st', s.rhs); } else { StaysGround(st, st', t.rhs); }
      forall st'' | Later(st', st'', used) && GroundIn(st'', s.rhs) && GroundIn(st'', t.rhs)
        ensures RunAnswers(db, st'', k, cut, known)
      {
        StaysGround(st', st'', s.lhs);
        StaysGround(st', st'', t.lhs);
        GroundParts(st'', s);
        GroundParts(st'', t);
        assert Later(st, st'', used);
      }
      UnifyAnswers(db, st', used, s.rhs, t.rhs, k, cut, known);
    }
    UnifyAnswers(db, st, used, s.lhs, t.lhs, rest, cut, known);
  }

  lemma {:induction false} EVarAnswers(
      db: Database, st: Store, used: set<nat>, e: nat, t: Term, k: Cont, cut: ThunkRet, known: Known)
    requires LookupReady(db.facts) && Acyclic(st) && ScopedCont(|st|, k) && cut >= FIRST_CUT
    requires e < |st| && Scoped(|st|, t) && Touches(st, used) && e in used && Vars(t) <= used
    requires GroundIn(st, EVar(e)) || GroundIn(st, t)
    requires AnswersAfter(db, st, used, EVar(e), t, k, cut, known)
    ensures Answers(UnifyEVar(db, true, st, e, t, k, cut), cut, known)
    decreases Unbound(st), Size(st, EVar(e)) + Size(st, t), 0
  {
    GroundParts(st, EVar(e));
    if st[e].Some? {
      var value := st[e].value;
      forall st' | Later(st, st', used) && GroundIn(st', value) && GroundIn(st', t)
        ensures RunAnswers(db, st', k, cut, known)
      {
        GroundParts(st', EVar(e));
      }
      UnifyAnswers(db, st, used, value, t, k, cut, known);
    } else {
      assert !Occurs(st, e, t);
      BindKeepsAcyclic(st, e, t);
      var st' := st[e := Some(t)];
      StaysGround(st, st', t);
      GroundParts(st', EVar(e));
      assert Later(st, st', used);
      assert RunAnswers(db, st', k, cut, known);
    }
  }

  ghost predicate TailGround(st: Store, es: seq<Term>, ofs: nat)
    requires Acyclic(st) && forall i | 0 <= i < |es| :: Scoped(|st|, es[i])
  {
    forall i | ofs <= i < |es| :: GroundIn(st, es[i])
  }

  lemma {:induction false} ElementsAnswer(
      db: Database, st: Store, used: set<nat>, s: Term, t: Term, k: Cont, cut: ThunkRet, known: Known)
    requires LookupReady(db.facts) && Acyclic(st) && ScopedCont(|st|, k) && cut >= FIRST_CUT
    requires Scoped(|st|, s) && Scoped(|st|, t) && Touches(st, used) && Vars(s) + Vars(t) <= used
    requires s.Tuple? && t.Tuple? && |s.elements| == |t.elements| && (GroundIn(st, s) || GroundIn(st, t))
    requires AnswersAfter(db, st, used, s, t, k, cut, known)
    ensures Answers(Unify(db, true, st, s, t, k, cut), cut, known)
    decreases Unbound(st), Size(st, s) + Size(st, t), 0
  {
    GroundParts(st, s);
    GroundParts(st, t);
    var ss, ts := s.elements, t.elements;
    forall i | 0 <= i < |ss| ensures Vars(ss[i]) + Vars(ts[i]) <= used {
      assert Vars(ss[i]) <= Vars(s) && Vars(ts[i]) <= Vars(t);
    }
    forall st' | Later(st, st', used) && TailGround(st', ss, 0) && TailGround(st', ts, 0)
      ensures RunAnswers(db, st', k, cut, known)
    {
      GroundParts(st', s);
      GroundParts(st', t);
    }
    TupleAnswers(db, st, used, ss, ts, 0, k, cut, known);
  }

  lemma {:induction false} TupleAnswers(
    db: Database, st: Store, used: set<nat>, ss: seq<Term>, ts: seq<Term>, ofs: nat, k: Cont, cut: ThunkRet,
    known: Known)
    requires LookupReady(db.facts) && Acyclic(st) && ScopedCont(|st|, Pending(EquateFrom(ss, ts, ofs), k))
      && cut >= FIRST_CUT
    requires Touches(st, used) && forall i | 0 <= i < |ss| :: Vars(ss[i]) + Vars(ts[i]) <= used
    requires TailGround(st, ss, ofs) || TailGround(st, ts, ofs)
    requires forall st' | Later(st, st', used) && TailGround(st', ss, ofs) && TailGround(st', ts, ofs) ::
        RunAnswers(db, st', k, cut, known)
    ensures Answers(Run(db, true, st, Pending(EquateFrom(ss, ts, ofs), k), cut), cut, known)
    decreases Unbound(st), SizeFrom(st, ss, ofs) + SizeFrom(st, ts, ofs), 2
  {
    hide GroundIn, Touches, Answers;
    if ofs == |ss| {
      assert Later(st, st, used);
      assert RunAnswers(db, st, k, cut, known);
    } else {
      var rest := Pending(EquateFrom(ss, ts, ofs + 1), k);
      forall st' | Later(st, st', used) && GroundIn(st', ss[ofs]) && GroundIn(st', ts[ofs])
        ensures RunAnswers(db, st', rest, cut, known)
      {
        ExtendsUnbound(st, st');
        TailStays(st, st', ss, ofs);
        TailStays(st, st', ts, ofs);
        forall st'' | Later(st', st'', used) && TailGround(st'', ss, ofs + 1) && TailGround(st'', ts, ofs + 1)
          ensures RunAnswers(db, st'', k, cut, known)
        {
          StaysGround(st', st'', ss[ofs]);
          StaysGround(st', st'', ts[ofs]);
          assert TailGround(st'', ss, ofs) && TailGround(st'', ts, ofs);
          assert Later(st, st'', used);
        }
        TupleAnswers(db, st', used, ss, ts, ofs + 1, k, cut, known);
      }
      UnifyAnswers(db, st, used, ss[ofs], ts[ofs], rest, cut, known);
    }
  }

  lemma {:induction false} TailStays(st: Store, st': Store, es: seq<Term>, ofs: nat)
    requires Acyclic(st) && Acyclic(st') && Extends(st, st') && forall i | 0 <= i < |es| :: Scoped(|st|, es[i])
    ensures TailGround(st, es, ofs) ==> TailGround(st', es, ofs + 1)
  {
    if TailGround(st, es, ofs) {
      forall i | ofs + 1 <= i < |es| ensures GroundIn(st', es[i]) { StaysGround(st, st', es[i]); }
    }
  }

  // ------------------------------------------------------------------------ goals

  /** The work that remains is answered from all assignments that solving the goal can leave. */
  ghost predicate AnswersAfterGoal(
    db: Database, st: Store, goal: Term, known: Known, k: Cont, cut: ThunkRet, last: Known)
    requires Scoped(|st|, goal)
  {
    forall st' | Later(st, st', known.used + Vars(goal))
      && Fits(st', Known(known.used + Vars(goal), GroundAfter(goal, known.ground))) ::
      RunAnswers(db, st', k, cut, last)
  }

  lemma {:induction false} TryAnswers(
      db: Database, st: Store, used: set<nat>, eqs: seq<Equation>, i: nat, k: Cont, cut: ThunkRet, known: Known)
    requires LookupReady(db.facts) && Acyclic(st) && ScopedCont(|st|, k) && cut >= FIRST_CUT
    requires i <= |eqs| && ScopedEquations(|st|, eqs) && Touches(st, used)
    requires forall n | 0 <= n < |eqs| :: Vars(eqs[n].lhs) + Vars(eqs[n].rhs) <= used
    requires forall n | 0 <= n < |eqs| :: GroundIn(st, eqs[n].lhs) || GroundIn(st, eqs[n].rhs)
    requires forall n | 0 <= n < |eqs| :: AnswersAfter(db, st, used, eqs[n].lhs, eqs[n].rhs, k, cut, known)
    ensures Answers(Try(db, true, st, eqs, i, k, cut), cut, known)
    decreases |eqs| - i
  {
    if i < |eqs| {
      hide AnswersAfter, GroundIn, Touches;
      UnifyAnswers(db, st, used, eqs[i].lhs, eqs[i].rhs, k, cut, known);
      TryAnswers(db, st, used, eqs, i + 1, k, cut, known);
    }
  }

  /** Solving `s` against a ground term leaves the variables of `s` ground. */
  lemma {:induction false} AfterGround(
      db: Database, st: Store, goal: Term, s: Term, t: Term, known: Known, k: Cont, cut: ThunkRet, last: Known)
    requires Fits(st, known) && Scoped(|st|, goal) && Scoped(|st|, s) && Scoped(|st|, t)
    requires AnswersAfterGoal(db, st, goal, known, k, cut, last)
    requires Vars(goal) <= Vars(s) + Vars(t) && (forall v | v in Vars(goal) :: v < |st|)
    ensures AnswersAfter(db, st, known.used + Vars(goal), s, t, k, cut, last)
  {
    var used := known.used + Vars(goal);
    forall st' | Later(st, st', used) && GroundIn(st', s) && GroundIn(st', t)
      ensures RunAnswers(db, st', k, cut, last)
    {
      GroundVars(st', s);
      GroundVars(st', t);
      forall v | v in known.ground ensures v < |st'| && GroundIn(st', EVar(v)) { StaysGround(st, st', EVar(v)); }
      hide GroundIn;
      assert AllGround(st', GroundAfter(goal, known.ground));
    }
  }

  lemma {:induction false} FactAnswers(
    db: Database, st: Store, goal: Term, known: Known, k: Cont, cut: ThunkRet, last: Known)
    requires LookupReady(db.facts) && Fits(st, known) && ScopedCont(|st|, k) && cut >= FIRST_CUT
    requires Scoped(|st|, goal) && goal.App? && EqualsArgs(goal).None?
    requires AnswersAfterGoal(db, st, goal, known, k, cut, last)
    ensures Answers(MatchAtom(db, true, st, goal, k, cut), cut, last)
  {
    var fs := Candidates(db, true, st, goal);
    var eqs := AgainstFacts(goal, fs);
    var used := known.used + Vars(goal);
    GroundVars(st, goal);
    forall n | 0 <= n < |eqs|
      ensures Vars(eqs[n].lhs) + Vars(eqs[n].rhs) <= used && GroundIn(st, eqs[n].rhs)
      ensures AnswersAfter(db, st, used, eqs[n].lhs, eqs[n].rhs, k, cut, last)
    {
      GroundIsGroundIn(st, eqs[n].rhs);
      AfterGround(db, st, goal, eqs[n].lhs, eqs[n].rhs, known, k, cut, last);
    }
    hide AnswersAfter, GroundIn, AnswersAfterGoal;
    TryAnswers(db, st, used, eqs, 0, k, cut, last);
  }

  lemma {:induction false} EqualityVars(goal: Term)
    requires EqualsArgs(goal).Some?
    ensures Vars(goal) == Vars(EqualsArgs(goal).value.lhs) + Vars(EqualsArgs(goal).value.rhs)
  {
    var es := goal.rhs.elements;
    assert forall v | v in Vars(goal.rhs) :: v in Vars(es[0]) || v in Vars(es[1]);
    assert forall v | v in Vars(es[0]) :: v in Vars(goal.rhs);
    assert forall v | v in Vars(es[1]) :: v in Vars(goal.rhs);
  }

  lemma {:induction false} AnchorAnswers(
    db: Database, st: Store, goal: Term, known: Known, k: Cont, cut: ThunkRet, last: Known)
    requires LookupReady(db.facts) && Fits(st, known) && ScopedCont(|st|, k) && cut >= FIRST_CUT
    requires Scoped(|st|, goal) && EqualsArgs(goal).Some? && EqualsArgs(goal).value.lhs.Range?
    requires AnswersAfterGoal(db, st, goal, known, k, cut, last)
    ensures Answers(MatchAtom(db, true, st, goal, k, cut), cut, last)
  {
    var Equation(a, b) := EqualsArgs(goal).value;
    assert Scoped(|st|, goal.rhs);
    var vs := AnchorsAt(db.anchors, a.begin, a.end);
    var eqs := AgainstAnchors(vs, b);
    var used := known.used + Vars(goal);
    EqualityVars(goal);
    GroundVars(st, goal);
    forall n | 0 <= n < |eqs|
      ensures Vars(eqs[n].lhs) + Vars(eqs[n].rhs) <= used && GroundIn(st, eqs[n].lhs)
      ensures AnswersAfter(db, st, used, eqs[n].lhs, eqs[n].rhs, k, cut, last)
    {
      GroundIsGroundIn(st, eqs[n].lhs);
      AfterGround(db, st, goal, eqs[n].lhs, eqs[n].rhs, known, k, cut, last);
    }
    hide AnswersAfter, GroundIn, AnswersAfterGoal;
    if |vs| > 0 { TryAnswers(db, st, used, eqs, 0, k, cut, last); }
  }

  lemma {:induction false} GroundSideAnswers(
    db: Database, st: Store, goal: Term, known: Known, k: Cont, cut: ThunkRet, last: Known)
    requires LookupReady(db.facts) && Fits(st, known) && ScopedCont(|st|, k) && cut >= FIRST_CUT
    requires Scoped(|st|, goal) && IsEquality(goal) && HasGroundSide(goal, known.ground)
    requires AnswersAfterGoal(db, st, goal, known, k, cut, last)
    ensures Answers(MatchAtom(db, true, st, goal, k, cut), cut, last)
  {
    var Equation(a, b) := EqualsArgs(goal).value;
    assert Scoped(|st|, goal.rhs);
    EqualityVars(goal);
    GroundVars(st, goal);
    GroundVars(st, a);
    GroundVars(st, b);
    AfterGround(db, st, goal, a, b, known, k, cut, last);
    UnifyAnswers(db, st, known.used + Vars(goal), a, b, k, cut, last);
  }

  lemma {:induction false} IntroducingAnswers(
    db: Database, st: Store, goal: Term, known: Known, k: Cont, cut: ThunkRet, last: Known)
    requires LookupReady(db.facts) && Fits(st, known) && ScopedCont(|st|, k) && cut >= FIRST_CUT
    requires Scoped(|st|, goal) && Introduces(goal, known.used) && !HasGroundSide(goal, known.ground)
    requires AnswersAfterGoal(db, st, goal, known, k, cut, last)
    ensures Answers(MatchAtom(db, true, st, goal, k, cut), cut, last)
  {
    var Equation(a, b) := EqualsArgs(goal).value;
    assert Scoped(|st|, goal.rhs);
    EqualityVars(goal);
    var x := a.id;
    var st' := st;
    if b != a {
      FreshNeverOccurs(st, known.used, x, b);
      BindKeepsAcyclic(st, x, b);
      st' := st[x := Some(b)];
    }
    forall v | v in known.ground ensures v < |st'| && GroundIn(st', EVar(v)) { StaysGround(st, st', EVar(v)); }
    assert Later(st, st', known.used + Vars(goal));
    assert RunAnswers(db, st', k, cut, last);
    assert st[x].None?;
    assert MatchAtom(db, true, st, goal, k, cut) == Unify(db, true, st, a, b, k, cut);
    assert Unify(db, true, st, a, b, k, cut) == UnifyEVar(db, true, st, x, b, k, cut);
  }

  lemma {:induction false} GoalAnswers(
    db: Database, st: Store, goal: Term, known: Known, k: Cont, cut: ThunkRet, last: Known)
    requires LookupReady(db.facts) && Fits(st, known) && ScopedCont(|st|, k) && cut >= FIRST_CUT
    requires Scoped(|st|, goal) && SafeGoal(goal, known.used, known.ground)
    requires AnswersAfterGoal(db, st, goal, known, k, cut, last)
    ensures Answers(SolveGoal(db, true, st, goal, k, cut), cut, last)
  {
    hide MatchAtom, Fits, AnswersAfterGoal;
    if EqualsArgs(goal).None? {
      FactAnswers(db, st, goal, known, k, cut, last);
    } else if EqualsArgs(goal).value.lhs.Range? {
      AnchorAnswers(db, st, goal, known, k, cut, last);
    } else if HasGroundSide(goal, known.ground) {
      GroundSideAnswers(db, st, goal, known, k, cut, last);
    } else {
      IntroducingAnswers(db, st, goal, known, k, cut, last);
    }
  }

  lemma {:induction false} GoalsAnswer(db: Database, st: Store, goals: seq<Term>, cur: nat, known: Known, cut: ThunkRet)
    requires LookupReady(db.facts) && Fits(st, known) && ScopedGoals(|st|, goals) && cur <= |goals| && cut >= FIRST_CUT
    requires SafeGoals(goals, cur, known.used, known.ground)
    ensures Answers(Run(db, true, st, Pending(Goals(goals, cur), Done), cut), cut,
                    Known(UsedByAll(goals, cur, known.used), GroundAfterAll(goals, cur, known.ground)))
    decreases |goals| - cur
  {
    if cur < |goals| {
      var goal, k := goals[cur], Pending(Goals(goals, cur + 1), Done);
      var next := Known(known.used + Vars(goal), GroundAfter(goal, known.ground));
      var last := Known(UsedByAll(goals, cur, known.used), GroundAfterAll(goals, cur, known.ground));
      forall st' | Later(st, st', next.used) && Fits(st', next) ensures RunAnswers(db, st', k, cut, last) {
        GoalsAnswer(db, st', goals, cur + 1, next, cut);
      }
      GoalAnswers(db, st, goal, known, k, cut, last);
    } else {
      assert Run(db, true, st, Done, cut) == Outcome(cut, st);
    }
  }

  /** A group of safe goals is decided: it reaches its cut exactly when it is satisfiable. */
  lemma {:induction false} SafeGroupIsDecided(db: Database, st: Store, goals: seq<Term>, known: Known, cut: ThunkRet)
    requires LookupReady(db.facts) && Fits(st, known) && ScopedGoals(|st|, goals) && cut >= FIRST_CUT
    requires SafeGoals(goals, 0, known.used, known.ground)
    ensures var o := SolveGroup(db, st, goals, cut);
      && o.ret != INVALID_PROGRAM
      && (o.ret == cut <==> exists sigma :: Consistent(sigma, st) && SatGoals(db, sigma, goals, 0))
      && (o.ret == cut ==>
            Fits(o.store, Known(UsedByAll(goals, 0, known.used), GroundAfterAll(goals, 0, known.ground))))
  {
    var o := SolveGroup(db, st, goals, cut);
    GoalsAnswer(db, st, goals, 0, known, cut);
    GroupDecides(db, st, goals, cut);
    if o.ret == cut { ExtendsConsistent(Solution(o.store), st, o.store); }
  }

  // -------------------------------------------------------------- whole programs

  ghost predicate SafeGroups(groups: seq<GoalGroup>, cur: nat, known: Known)
    decreases |groups| - cur
  {
    cur >= |groups|
    || (SafeGoals(groups[cur].goals, 0, known.used, known.ground)
       && SafeGroups(groups, cur + 1, KnownAfter(groups[cur], known)))
  }

  /** A negated group that is passed leaves the assignments as they were. */
  ghost function KnownAfter(group: GoalGroup, known: Known): Known {
    if group.acceptIf.SomeMustFail? then known
    else Known(UsedByAll(group.goals, 0, known.used), GroundAfterAll(group.goals, 0, known.ground))
  }

  /** A program of safe groups is never called invalid: it is solved exactly when no group
      fails under the assignments that the groups before it leave behind. */
  lemma {:induction false} SafeProgramIsDecided(db: Database, st: Store, groups: seq<GoalGroup>, cur: nat, known: Known)
    requires LookupReady(db.facts) && Fits(st, known) && ScopedGroups(|st|, groups) && cur <= |groups|
    requires SafeGroups(groups, cur, known)
    ensures var o := SolveGoalGroups(db, st, groups, cur, true);
      && (o.ret == SOLVED || o.ret == NO_EXCEPTION)
      && (o.ret == SOLVED <==> !FailsSomewhere(db, st, groups, cur))
      && (o.ret == SOLVED ==> forall i | cur <= i < |groups| :: GroupHolds(db, o.store, groups[i]))
  {
    NeverInvalid(db, st, groups, cur, known);
    var o := SolveGoalGroups(db, st, groups, cur, true);
    if o.ret == SOLVED { SolvedProgramHolds(db, st, groups, cur, true); }
    UnsolvedProgram(db, st, groups, cur, true);
  }

  lemma {:induction false} NeverInvalid(db: Database, st: Store, groups: seq<GoalGroup>, cur: nat, known: Known)
    requires LookupReady(db.facts) && Fits(st, known) && ScopedGroups(|st|, groups) && cur <= |groups|
    requires SafeGroups(groups, cur, known)
    ensures SolveGoalGroups(db, st, groups, cur, true).ret != INVALID_PROGRAM
    decreases |groups| - cur
  {
    if cur < |groups| {
      var cut := FIRST_CUT + cur;
      SafeGroupIsDecided(db, st, groups[cur].goals, known, cut);
      var o := SolveGroup(db, st, groups[cur].goals, cut);
      if (o.ret == cut) == groups[cur].acceptIf.NoneMayFail? {
        NeverInvalid(db, o.store, groups, cur + 1, KnownAfter(groups[cur], known));
      }
    }
  }
}
