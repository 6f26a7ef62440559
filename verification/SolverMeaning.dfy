/** What the search decides: soundness of its cut and refutation by its failures. */
module SolverMeaning {
  import opened Wrappers
  import opened Terms
  import opened Facts
  import opened FactIndex
  import opened Solver

  // --------------------------------------------------------------- satisfaction

  /** `sigma` makes the goal true of the database.  A goal that equates a range is
      about the anchors with that range. */
  ghost predicate SatGoal(db: Database, sigma: seq<Value>, goal: Term)
    requires Scoped(|sigma|, goal)
  {
    && goal.App?
    && match EqualsArgs(goal)
       case Some(Equation(a, b)) =>
         assert Scoped(|sigma|, goal.rhs);
         if a.Range? then
           exists v :: Anchor(a.begin, a.end, v) in db.anchors && Eval(sigma, VNameTerm(v)) == Eval(sigma, b)
         else Eval(sigma, a) == Eval(sigma, b)
       case None => exists f :: f in db.facts && Eval(sigma, goal) == Eval(sigma, FactTerm(f))
  }

  ghost predicate SatGoals(db: Database, sigma: seq<Value>, goals: seq<Term>, cur: nat)
    requires forall i | 0 <= i < |goals| :: Scoped(|sigma|, goals[i])
  {
    forall i | cur <= i < |goals| :: SatGoal(db, sigma, goals[i])
  }

  ghost predicate SatTask(db: Database, sigma: seq<Value>, task: Task)
    requires ScopedTask(|sigma|, task)
  {
    match task
    case Equate(s, t) => Eval(sigma, s) == Eval(sigma, t)
    case EquateFrom(ss, ts, ofs) => forall i | ofs <= i < |ss| :: Eval(sigma, ss[i]) == Eval(sigma, ts[i])
    case Goals(goals, cur) => SatGoals(db, sigma, goals, cur)
  }

  ghost predicate Sat(db: Database, sigma: seq<Value>, k: Cont)
    requires ScopedCont(|sigma|, k)
  {
    k.Done? || (SatTask(db, sigma, k.task) && Sat(db, sigma, k.next))
  }

  /** A goal that names a range no anchor has. */
  predicate Dead(db: Database, goal: Term) {
    match EqualsArgs(goal)
    case Some(Equation(a, _)) => a.Range? && |AnchorsAt(db.anchors, a.begin, a.end)| == 0
    case None => false
  }

  ghost predicate HasDead(db: Database, k: Cont) {
    match k
    case Done => false
    case Pending(Goals(gs, cur), next) => (exists i | cur <= i < |gs| :: Dead(db, gs[i])) || HasDead(db, next)
    case Pending(_, next) => HasDead(db, next)
  }

  lemma {:induction false} DeadIsUnsatisfiable(db: Database, sigma: seq<Value>, k: Cont)
    requires ScopedCont(|sigma|, k) && HasDead(db, k)
    ensures !Sat(db, sigma, k)
  {
    if !k.task.Goals? || !exists i | k.task.cur <= i < |k.task.goals| :: Dead(db, k.task.goals[i]) {
      DeadIsUnsatisfiable(db, sigma, k.next);
    } else {
      var i :| k.task.cur <= i < |k.task.goals| && Dead(db, k.task.goals[i]);
      assert !SatGoal(db, sigma, k.task.goals[i]);
    }
  }

  // ------------------------------------------------------------------- verdicts

  ghost predicate Sound(db: Database, st: Store, k: Cont)
    requires ScopedStore(st) && ScopedCont(|st|, k)
  {
    forall sigma | Consistent(sigma, st) :: Sat(db, sigma, k)
  }

  ghost predicate Refuted(db: Database, st: Store, k: Cont)
    requires ScopedStore(st) && ScopedCont(|st|, k)
  {
    forall sigma | Consistent(sigma, st) :: !Sat(db, sigma, k)
  }

  /** What each result says about the work that was pending in store `st`. */
  ghost predicate Verdict(db: Database, st: Store, k: Cont, cut: ThunkRet, o: Outcome)
    requires Acyclic(st) && ScopedCont(|st|, k) && Good(st, cut, o)
  {
    && (o.ret == cut ==> Sound(db, o.store, k))
    && (o.ret == NO_EXCEPTION ==> Refuted(db, st, k))
    && (o.ret == IMPOSSIBLE ==> HasDead(db, k))
  }

  /** Work that every valuation satisfies or not alike gets the same verdict. */
  lemma {:induction false} SameVerdict(db: Database, st: Store, k: Cont, k1: Cont, cut: ThunkRet, o: Outcome)
    requires Acyclic(st) && ScopedCont(|st|, k) && ScopedCont(|st|, k1) && Good(st, cut, o)
    requires forall sigma: seq<Value> | |sigma| == |st| :: Sat(db, sigma, k) == Sat(db, sigma, k1)
    requires HasDead(db, k1) ==> HasDead(db, k)
    requires Verdict(db, st, k1, cut, o)
    ensures Verdict(db, st, k, cut, o)
  {
    hide Sat, HasDead, Acyclic;
  }

  lemma {:induction false} RunDecides(db: Database, indexed: bool, st: Store, k: Cont, cut: ThunkRet)
    requires LookupReady(db.facts) && Acyclic(st) && ScopedCont(|st|, k) && cut >= FIRST_CUT
    ensures Verdict(db, st, k, cut, Run(db, indexed, st, k, cut))
    decreases Unbound(st), GoalsLeft(k), Work(st, k), 2
  {
    hide Verdict;
    var o := Run(db, indexed, st, k, cut);
    match k
    case Done => DoneDecides(db, indexed, st, cut);
    case Pending(Equate(s, t), next) => UnifyDecides(db, indexed, st, s, t, next, cut);
    case Pending(EquateFrom(ss, ts, ofs), next) =>
      if ofs == |ss| {
        RunDecides(db, indexed, st, next, cut);
        SameVerdict(db, st, k, next, cut, o);
      } else {
        ElementDecides(db, indexed, st, ss, ts, ofs, next, cut);
      }
    case Pending(Goals(goals, cur), next) =>
      if cur == |goals| {
        RunDecides(db, indexed, st, next, cut);
        SameVerdict(db, st, k, next, cut, o);
      } else {
        SolveGoalDecides(db, indexed, st, goals, cur, next, cut);
      }
  }

  lemma {:induction false} ElementDecides(
    db: Database, indexed: bool, st: Store, ss: seq<Term>, ts: seq<Term>, ofs: nat, next: Cont, cut: ThunkRet)
    requires LookupReady(db.facts) && Acyclic(st) && cut >= FIRST_CUT
    requires ScopedCont(|st|, Pending(EquateFrom(ss, ts, ofs), next)) && ofs < |ss|
    ensures Verdict(db, st, Pending(EquateFrom(ss, ts, ofs), next), cut,
                    Run(db, indexed, st, Pending(EquateFrom(ss, ts, ofs), next), cut))
    decreases Unbound(st), GoalsLeft(next), Work(st, Pending(EquateFrom(ss, ts, ofs), next)), 1
  {
    hide Verdict, Sat, HasDead;
    var rest := Pending(EquateFrom(ss, ts, ofs + 1), next);
    UnifyDecides(db, indexed, st, ss[ofs], ts[ofs], rest, cut);
    SplitTuple(db, ss, ts, ofs, next, |st|);
    SameVerdict(db, st, Pending(EquateFrom(ss, ts, ofs), next), Pending(Equate(ss[ofs], ts[ofs]), rest), cut,
                Run(db, indexed, st, Pending(EquateFrom(ss, ts, ofs), next), cut));
  }

  lemma {:induction false} DoneDecides(db: Database, indexed: bool, st: Store, cut: ThunkRet)
    requires LookupReady(db.facts) && Acyclic(st) && cut >= FIRST_CUT
    ensures Verdict(db, st, Done, cut, Run(db, indexed, st, Done, cut))
  {
  }

  lemma {:induction false} SplitTuple(db: Database, ss: seq<Term>, ts: seq<Term>, ofs: nat, k: Cont, n: nat)
    requires ScopedCont(n, Pending(EquateFrom(ss, ts, ofs), k)) && ofs < |ss|
    ensures forall sigma: seq<Value> | |sigma| == n ::
      Sat(db, sigma, Pending(EquateFrom(ss, ts, ofs), k))
      == Sat(db, sigma, Pending(Equate(ss[ofs], ts[ofs]), Pending(EquateFrom(ss, ts, ofs + 1), k)))
    ensures HasDead(db, Pending(Equate(ss[ofs], ts[ofs]), Pending(EquateFrom(ss, ts, ofs + 1), k)))
            == HasDead(db, Pending(EquateFrom(ss, ts, ofs), k))
  {
    assert HasDead(db, Pending(EquateFrom(ss, ts, ofs + 1), k)) == HasDead(db, k);
  }

  lemma {:induction false} UnifyDecides(
    db: Database, indexed: bool, st: Store, s: Term, t: Term, k: Cont, cut: ThunkRet)
    requires LookupReady(db.facts) && Acyclic(st) && ScopedCont(|st|, k) && cut >= FIRST_CUT
    requires Scoped(|st|, s) && Scoped(|st|, t)
    ensures Verdict(db, st, Pending(Equate(s, t), k), cut, Unify(db, indexed, st, s, t, k, cut))
    decreases Unbound(st), GoalsLeft(k), 1 + Size(st, s) + Size(st, t) + Work(st, k), 1
  {
    hide Verdict, Sat, HasDead;
    var whole, o := Pending(Equate(s, t), k), Unify(db, indexed, st, s, t, k, cut);
    match (s, t)
    case (EVar(e), _) => UnifyEVarDecides(db, indexed, st, e, t, k, cut);
    case (_, EVar(e)) =>
      UnifyEVarDecides(db, indexed, st, e, s, k, cut);
      SwapSides(db, s, t, k, |st|);
      SameVerdict(db, st, whole, Pending(Equate(t, s), k), cut, o);
    case (Ident(a, _), Ident(b, _)) =>
      if a == b {
        RunDecides(db, indexed, st, k, cut);
        SameAtom(db, s, t, k, |st|);
        SameVerdict(db, st, whole, k, cut, o);
      } else {
        MismatchDecides(db, indexed, st, s, t, k, cut);
      }
    case (App(_, _), App(_, _)) => AppDecides(db, indexed, st, s, t, k, cut);
    case (Tuple(ss), Tuple(ts)) =>
      if |ss| == |ts| {
        TupleDecides(db, indexed, st, ss, ts, k, cut);
      } else {
        MismatchDecides(db, indexed, st, s, t, k, cut);
      }
    case (Range(b, e), Range(b', e')) =>
      if b == b' && e == e' {
        RunDecides(db, indexed, st, k, cut);
        SameAtom(db, s, t, k, |st|);
        SameVerdict(db, st, whole, k, cut, o);
      } else {
        MismatchDecides(db, indexed, st, s, t, k, cut);
      }
    case _ => MismatchDecides(db, indexed, st, s, t, k, cut);
  }

  lemma {:induction false} AppDecides(
    db: Database, indexed: bool, st: Store, s: Term, t: Term, k: Cont, cut: ThunkRet)
    requires LookupReady(db.facts) && Acyclic(st) && ScopedCont(|st|, k) && cut >= FIRST_CUT
    requires Scoped(|st|, s) && Scoped(|st|, t) && s.App? && t.App?
    ensures Verdict(db, st, Pending(Equate(s, t), k), cut, Unify(db, indexed, st, s, t, k, cut))
    decreases Unbound(st), GoalsLeft(k), 1 + Size(st, s) + Size(st, t) + Work(st, k), 0
  {
    hide Verdict;
    var rest := Pending(Equate(s.rhs, t.rhs), k);
    UnifyDecides(db, indexed, st, s.lhs, t.lhs, rest, cut);
    assert HasDead(db, rest) == HasDead(db, k);
    SplitApp(db, s, t, k, |st|);
    SameVerdict(db, st, Pending(Equate(s, t), k), Pending(Equate(s.lhs, t.lhs), rest), cut,
                Unify(db, indexed, st, s, t, k, cut));
  }

  lemma {:induction false} TupleDecides(
    db: Database, indexed: bool, st: Store, ss: seq<Term>, ts: seq<Term>, k: Cont, cut: ThunkRet)
    requires LookupReady(db.facts) && Acyclic(st) && ScopedCont(|st|, k) && cut >= FIRST_CUT
    requires Scoped(|st|, Tuple(ss)) && Scoped(|st|, Tuple(ts)) && |ss| == |ts|
    ensures Verdict(db, st, Pending(Equate(Tuple(ss), Tuple(ts)), k), cut,
                    Unify(db, indexed, st, Tuple(ss), Tuple(ts), k, cut))
    decreases Unbound(st), GoalsLeft(k), 1 + Size(st, Tuple(ss)) + Size(st, Tuple(ts)) + Work(st, k), 0
  {
    hide Verdict;
    var parts := Pending(EquateFrom(ss, ts, 0), k);
    RunDecides(db, indexed, st, parts, cut);
    OpenTuple(db, ss, ts, k, |st|);
    SameVerdict(db, st, Pending(Equate(Tuple(ss), Tuple(ts)), k), parts, cut,
                Unify(db, indexed, st, Tuple(ss), Tuple(ts), k, cut));
  }

  /** Terms of different make denote different values, and unification says so. */
  predicate Mismatch(s: Term, t: Term) {
    match (s, t)
    case (EVar(_), _) => false
    case (_, EVar(_)) => false
    case (Ident(a, _), Ident(b, _)) => a != b
    case (App(_, _), App(_, _)) => false
    case (Tuple(ss), Tuple(ts)) => |ss| != |ts|
    case (Range(b, e), Range(b', e')) => b != b' || e != e'
    case _ => true
  }

  lemma {:induction false} MismatchDecides(
    db: Database, indexed: bool, st: Store, s: Term, t: Term, k: Cont, cut: ThunkRet)
    requires LookupReady(db.facts) && Acyclic(st) && ScopedCont(|st|, k) && cut >= FIRST_CUT
    requires Scoped(|st|, s) && Scoped(|st|, t) && Mismatch(s, t)
    ensures Verdict(db, st, Pending(Equate(s, t), k), cut, Unify(db, indexed, st, s, t, k, cut))
  {
    forall sigma | Consistent(sigma, st) ensures Eval(sigma, s) != Eval(sigma, t) { MismatchMeans(sigma, s, t); }
  }

  lemma {:induction false} MismatchMeans(sigma: seq<Value>, s: Term, t: Term)
    requires Scoped(|sigma|, s) && Scoped(|sigma|, t) && Mismatch(s, t)
    ensures Eval(sigma, s) != Eval(sigma, t)
  {
    if s.Tuple? && t.Tuple? { assert |Eval(sigma, s).elements| != |Eval(sigma, t).elements|; }
  }

  lemma {:induction false} SameAtom(db: Database, s: Term, t: Term, k: Cont, n: nat)
    requires ScopedCont(n, k)
    requires (s.Ident? && t.Ident? && s.symbol == t.symbol) || (s.Range? && s == t)
    ensures forall sigma: seq<Value> | |sigma| == n ::
      Sat(db, sigma, Pending(Equate(s, t), k)) == Sat(db, sigma, k)
    ensures HasDead(db, Pending(Equate(s, t), k)) == HasDead(db, k)
  {
  }

  lemma {:induction false} SwapSides(db: Database, s: Term, t: Term, k: Cont, n: nat)
    requires ScopedCont(n, k) && Scoped(n, s) && Scoped(n, t)
    ensures forall sigma: seq<Value> | |sigma| == n ::
      Sat(db, sigma, Pending(Equate(s, t), k)) == Sat(db, sigma, Pending(Equate(t, s), k))
    ensures HasDead(db, Pending(Equate(s, t), k)) == HasDead(db, Pending(Equate(t, s), k))
  {
  }

  lemma {:induction false} SplitApp(db: Database, s: Term, t: Term, k: Cont, n: nat)
    requires ScopedCont(n, k) && Scoped(n, s) && Scoped(n, t) && s.App? && t.App?
    ensures forall sigma: seq<Value> | |sigma| == n ::
      Sat(db, sigma, Pending(Equate(s, t), k))
      == Sat(db, sigma, Pending(Equate(s.lhs, t.lhs), Pending(Equate(s.rhs, t.rhs), k)))
  {
  }

  lemma {:induction false} OpenTuple(db: Database, ss: seq<Term>, ts: seq<Term>, k: Cont, n: nat)
    requires ScopedCont(n, k) && Scoped(n, Tuple(ss)) && Scoped(n, Tuple(ts))
    ensures forall sigma: seq<Value> | |sigma| == n ::
      Sat(db, sigma, Pending(Equate(Tuple(ss), Tuple(ts)), k))
      == (|ss| == |ts| && Sat(db, sigma, Pending(EquateFrom(ss, ts, 0), k)))
  {
    forall sigma: seq<Value> | |sigma| == n
      ensures Sat(db, sigma, Pending(Equate(Tuple(ss), Tuple(ts)), k))
              == (|ss| == |ts| && Sat(db, sigma, Pending(EquateFrom(ss, ts, 0), k)))
    {
      if |ss| == |ts| {
        TupleValues(sigma, ss, ts);
      } else {
        assert |Eval(sigma, Tuple(ss)).elements| != |Eval(sigma, Tuple(ts)).elements|;
      }
    }
  }

  lemma {:induction false} TupleValues(sigma: seq<Value>, ss: seq<Term>, ts: seq<Term>)
    requires |ss| == |ts| && forall i | 0 <= i < |ss| :: Scoped(|sigma|, ss[i]) && Scoped(|sigma|, ts[i])
    ensures Eval(sigma, Tuple(ss)) == Eval(sigma, Tuple(ts))
            <==> forall i | 0 <= i < |ss| :: Eval(sigma, ss[i]) == Eval(sigma, ts[i])
  {
    var vs, ws := Eval(sigma, Tuple(ss)).elements, Eval(sigma, Tuple(ts)).elements;
    assert forall i | 0 <= i < |ss| :: vs[i] == Eval(sigma, ss[i]) && ws[i] == Eval(sigma, ts[i]);
    if forall i | 0 <= i < |ss| :: Eval(sigma, ss[i]) == Eval(sigma, ts[i]) { assert vs == ws; }
  }

  lemma {:induction false} UnifyEVarDecides(
    db: Database, indexed: bool, st: Store, e: nat, t: Term, k: Cont, cut: ThunkRet)
    requires LookupReady(db.facts) && Acyclic(st) && ScopedCont(|st|, k) && cut >= FIRST_CUT
    requires e < |st| && Scoped(|st|, t)
    ensures Verdict(db, st, Pending(Equate(EVar(e), t), k), cut, UnifyEVar(db, indexed, st, e, t, k, cut))
    decreases Unbound(st), GoalsLeft(k), Size(st, EVar(e)) + Size(st, t) + Work(st, k), 0
  {
    var whole := Pending(Equate(EVar(e), t), k);
    if st[e].Some? {
      var inner := Pending(Equate(st[e].value, t), k);
      UnifyDecides(db, indexed, st, st[e].value, t, k, cut);
      forall sigma | Consistent(sigma, st) ensures Sat(db, sigma, whole) == Sat(db, sigma, inner) {
        assert sigma[e] == Eval(sigma, st[e].value);
      }
      var o := UnifyEVar(db, indexed, st, e, t, k, cut);
      forall sigma | o.ret == cut && Consistent(sigma, o.store) ensures Sat(db, sigma, whole) {
        ExtendsConsistent(sigma, st, o.store);
      }
    } else if t == EVar(e) {
      RunDecides(db, indexed, st, k, cut);
    } else if !Occurs(st, e, t) {
      var st' := st[e := Some(t)];
      BindKeepsAcyclic(st, e, t);
      BindLowersUnbound(st, e, t);
      RunDecides(db, indexed, st', k, cut);
      var o := Run(db, indexed, st', k, cut);
      forall sigma | o.ret == cut && Consistent(sigma, o.store) ensures Sat(db, sigma, whole) {
        assert o.store[e] == st'[e];
      }
      forall sigma | o.ret == NO_EXCEPTION && Consistent(sigma, st) ensures !Sat(db, sigma, whole) {
        if Sat(db, sigma, whole) { assert Consistent(sigma, st'); }
      }
    }
  }

  lemma {:induction false} TryDecides(
    db: Database, indexed: bool, st: Store, eqs: seq<Equation>, i: nat, k: Cont, cut: ThunkRet)
    returns (j: nat)
    requires LookupReady(db.facts) && Acyclic(st) && ScopedCont(|st|, k) && cut >= FIRST_CUT
    requires i <= |eqs| && ScopedEquations(|st|, eqs)
    ensures var o := Try(db, indexed, st, eqs, i, k, cut);
      && (o.ret == cut ==>
            i <= j < |eqs| && forall sigma | Consistent(sigma, o.store) :: SatAlternative(db, sigma, eqs, j, k))
      && (o.ret == NO_EXCEPTION ==>
            forall n, sigma | i <= n < |eqs| && Consistent(sigma, st) :: !SatAlternative(db, sigma, eqs, n, k))
      && (o.ret == IMPOSSIBLE ==> HasDead(db, k))
    decreases Unbound(st), GoalsLeft(k) + 1, |eqs| - i, 0
  {
    j := i;
    if i < |eqs| {
      UnifyDecides(db, indexed, st, eqs[i].lhs, eqs[i].rhs, k, cut);
      if Unify(db, indexed, st, eqs[i].lhs, eqs[i].rhs, k, cut).ret == NO_EXCEPTION {
        j := TryDecides(db, indexed, st, eqs, i + 1, k, cut);
      }
    }
  }

  lemma {:induction false} SolveGoalDecides(
      db: Database, indexed: bool, st: Store, goals: seq<Term>, cur: nat, next: Cont, cut: ThunkRet)
    requires LookupReady(db.facts) && Acyclic(st) && cut >= FIRST_CUT
    requires ScopedCont(|st|, Pending(Goals(goals, cur), next)) && cur < |goals|
    ensures Verdict(db, st, Pending(Goals(goals, cur), next), cut,
                    SolveGoal(db, indexed, st, goals[cur], Pending(Goals(goals, cur + 1), next), cut))
    decreases Unbound(st), GoalsLeft(Pending(Goals(goals, cur + 1), next)) + 2, 0, 1
  {
    var goal, whole, k := goals[cur], Pending(Goals(goals, cur), next), Pending(Goals(goals, cur + 1), next);
    if goal.App? {
      AtomDecides(db, indexed, st, goal, k, cut);
      var o := MatchAtom(db, indexed, st, goal, k, cut);
      forall sigma | Consistent(sigma, o.store) && o.ret == cut ensures Sat(db, sigma, whole) {
        assert SatBoth(db, sigma, goal, k);
        SplitGoals(db, sigma, goals, cur, next);
      }
      forall sigma | Consistent(sigma, st) && o.ret == NO_EXCEPTION ensures !Sat(db, sigma, whole) {
        assert !SatBoth(db, sigma, goal, k);
        SplitGoals(db, sigma, goals, cur, next);
      }
      assert HasDead(db, k) || Dead(db, goal) ==> HasDead(db, whole);
    }
  }

  ghost predicate SatBoth(db: Database, sigma: seq<Value>, goal: Term, k: Cont)
    requires Scoped(|sigma|, goal) && ScopedCont(|sigma|, k)
  {
    SatGoal(db, sigma, goal) && Sat(db, sigma, k)
  }

  lemma {:induction false} SplitGoals(db: Database, sigma: seq<Value>, goals: seq<Term>, cur: nat, next: Cont)
    requires ScopedCont(|sigma|, Pending(Goals(goals, cur), next)) && cur < |goals|
    ensures ScopedCont(|sigma|, Pending(Goals(goals, cur + 1), next))
    ensures Sat(db, sigma, Pending(Goals(goals, cur), next))
         == SatBoth(db, sigma, goals[cur], Pending(Goals(goals, cur + 1), next))
  {
    hide SatGoal;
  }

  /** What each result says about a goal with work `k` pending after it. */
  ghost predicate GoalVerdict(db: Database, st: Store, goal: Term, k: Cont, cut: ThunkRet, o: Outcome)
    requires Acyclic(st) && Scoped(|st|, goal) && ScopedCont(|st|, k) && Good(st, cut, o)
  {
    && (o.ret == cut ==> forall sigma | Consistent(sigma, o.store) :: SatBoth(db, sigma, goal, k))
    && (o.ret == NO_EXCEPTION ==> forall sigma | Consistent(sigma, st) :: !SatBoth(db, sigma, goal, k))
    && (o.ret == IMPOSSIBLE ==> HasDead(db, k) || Dead(db, goal))
  }

  lemma {:induction false} AtomDecides(db: Database, indexed: bool, st: Store, goal: Term, k: Cont, cut: ThunkRet)
    requires LookupReady(db.facts) && Acyclic(st) && ScopedCont(|st|, k) && cut >= FIRST_CUT
    requires Scoped(|st|, goal) && goal.App?
    ensures GoalVerdict(db, st, goal, k, cut, MatchAtom(db, indexed, st, goal, k, cut))
    decreases Unbound(st), GoalsLeft(k) + 2, 0, 0
  {
    match EqualsArgs(goal)
    case Some(Equation(a, b)) =>
      if a.Range? {
        AnchorGoalDecides(db, indexed, st, goal, k, cut);
      } else {
        EqualityGoalDecides(db, indexed, st, goal, k, cut);
      }
    case None => FactGoalDecides(db, indexed, st, goal, k, cut);
  }

  lemma {:induction false} EqualityGoalDecides(
    db: Database, indexed: bool, st: Store, goal: Term, k: Cont, cut: ThunkRet)
    requires LookupReady(db.facts) && Acyclic(st) && ScopedCont(|st|, k) && cut >= FIRST_CUT
    requires Scoped(|st|, goal) && EqualsArgs(goal).Some? && !EqualsArgs(goal).value.lhs.Range?
    ensures GoalVerdict(db, st, goal, k, cut, MatchAtom(db, indexed, st, goal, k, cut))
    decreases Unbound(st), GoalsLeft(k) + 1, 0, 0
  {
    var Equation(a, b) := EqualsArgs(goal).value;
    assert Scoped(|st|, goal.rhs);
    UnifyDecides(db, indexed, st, a, b, k, cut);
    var o := MatchAtom(db, indexed, st, goal, k, cut);
    assert o == Unify(db, indexed, st, a, b, k, cut);
    hide Unify, MatchAtom;
    forall sigma: seq<Value> | |sigma| == |st|
      ensures SatBoth(db, sigma, goal, k) == Sat(db, sigma, Pending(Equate(a, b), k))
    {
    }
    assert o.ret == IMPOSSIBLE ==> HasDead(db, k);
    assert o.ret == NO_EXCEPTION ==> Refuted(db, st, Pending(Equate(a, b), k));
  }

  lemma {:induction false} AnchorGoalDecides(db: Database, indexed: bool, st: Store, goal: Term, k: Cont, cut: ThunkRet)
    requires LookupReady(db.facts) && Acyclic(st) && ScopedCont(|st|, k) && cut >= FIRST_CUT
    requires Scoped(|st|, goal) && EqualsArgs(goal).Some? && EqualsArgs(goal).value.lhs.Range?
    ensures GoalVerdict(db, st, goal, k, cut, MatchAtom(db, indexed, st, goal, k, cut))
    decreases Unbound(st), GoalsLeft(k) + 1,
      |AnchorsAt(db.anchors, EqualsArgs(goal).value.lhs.begin, EqualsArgs(goal).value.lhs.end)|, 1
  {
    var Equation(a, b) := EqualsArgs(goal).value;
    assert Scoped(|st|, goal.rhs);
    var vs := AnchorsAt(db.anchors, a.begin, a.end);
    var eqs := AgainstAnchors(vs, b);
    var o := MatchAtom(db, indexed, st, goal, k, cut);
    if |vs| > 0 {
      var j := TryDecides(db, indexed, st, eqs, 0, k, cut);
      assert o == Try(db, indexed, st, eqs, 0, k, cut);
      hide Try, MatchAtom, Sat;
      forall sigma | o.ret == cut && Consistent(sigma, o.store) ensures SatBoth(db, sigma, goal, k) {
        assert SatAlternative(db, sigma, eqs, j, k);
        AnchorSuffices(db, sigma, goal, k, j);
      }
      forall sigma | o.ret == NO_EXCEPTION && Consistent(sigma, st) ensures !SatBoth(db, sigma, goal, k) {
        if SatBoth(db, sigma, goal, k) { var n := AnchorAlternative(db, sigma, goal, k); }
      }
    }
  }

  lemma {:induction false} FactGoalDecides(db: Database, indexed: bool, st: Store, goal: Term, k: Cont, cut: ThunkRet)
    requires LookupReady(db.facts) && Acyclic(st) && ScopedCont(|st|, k) && cut >= FIRST_CUT
    requires Scoped(|st|, goal) && goal.App? && EqualsArgs(goal).None?
    ensures GoalVerdict(db, st, goal, k, cut, MatchAtom(db, indexed, st, goal, k, cut))
    decreases Unbound(st), GoalsLeft(k) + 1, |Candidates(db, indexed, st, goal)|, 1
  {
    var fs := Candidates(db, indexed, st, goal);
    var eqs := AgainstFacts(goal, fs);
    var o := MatchAtom(db, indexed, st, goal, k, cut);
    var j := TryDecides(db, indexed, st, eqs, 0, k, cut);
    assert o == Try(db, indexed, st, eqs, 0, k, cut);
    hide Try, MatchAtom, Sat, Candidates;
    forall sigma | o.ret == cut && Consistent(sigma, o.store) ensures SatBoth(db, sigma, goal, k) {
      assert SatAlternative(db, sigma, eqs, j, k);
      FactSuffices(db, sigma, goal, fs, k, j);
    }
    forall sigma | o.ret == NO_EXCEPTION && Consistent(sigma, st) ensures !SatBoth(db, sigma, goal, k) {
      if SatBoth(db, sigma, goal, k) { var n := FactAlternative(db, indexed, st, sigma, goal, k); }
    }
  }

  lemma {:induction false} AnchorSuffices(db: Database, sigma: seq<Value>, goal: Term, k: Cont, j: nat)
    requires Scoped(|sigma|, goal) && ScopedCont(|sigma|, k)
    requires EqualsArgs(goal).Some? && EqualsArgs(goal).value.lhs.Range?
    requires var Equation(a, b) := EqualsArgs(goal).value;
      var eqs := AgainstAnchors(AnchorsAt(db.anchors, a.begin, a.end), b);
      j < |eqs| && ScopedEquations(|sigma|, eqs) && SatAlternative(db, sigma, eqs, j, k)
    ensures SatBoth(db, sigma, goal, k)
  {
    var Equation(a, b) := EqualsArgs(goal).value;
    var vs := AnchorsAt(db.anchors, a.begin, a.end);
    assert vs[j] in vs;
    assert Anchor(a.begin, a.end, vs[j]) in db.anchors;
  }

  lemma {:induction false} FactSuffices(db: Database, sigma: seq<Value>, goal: Term, fs: seq<Fact>, k: Cont, j: nat)
    requires Scoped(|sigma|, goal) && ScopedCont(|sigma|, k) && goal.App? && EqualsArgs(goal).None?
    requires j < |fs| && (forall f | f in fs :: f in db.facts) && ScopedEquations(|sigma|, AgainstFacts(goal, fs))
    requires SatAlternative(db, sigma, AgainstFacts(goal, fs), j, k)
    ensures SatBoth(db, sigma, goal, k)
  {
    assert fs[j] in db.facts;
  }

  ghost predicate SatAlternative(db: Database, sigma: seq<Value>, eqs: seq<Equation>, n: nat, k: Cont)
    requires ScopedEquations(|sigma|, eqs) && n < |eqs| && ScopedCont(|sigma|, k)
  {
    Sat(db, sigma, Pending(Equate(eqs[n].lhs, eqs[n].rhs), k))
  }

  /** A satisfied goal is satisfied by one of the equations tried for it. */
  lemma {:induction false} AnchorAlternative(db: Database, sigma: seq<Value>, goal: Term, k: Cont) returns (n: nat)
    requires Scoped(|sigma|, goal) && ScopedCont(|sigma|, k) && SatBoth(db, sigma, goal, k)
    requires EqualsArgs(goal).Some? && EqualsArgs(goal).value.lhs.Range?
    ensures var Equation(a, b) := EqualsArgs(goal).value;
      var eqs := AgainstAnchors(AnchorsAt(db.anchors, a.begin, a.end), b);
      n < |eqs| && ScopedEquations(|sigma|, eqs) && SatAlternative(db, sigma, eqs, n, k)
  {
    hide ScopedCont, VNameTerm;
    var Equation(a, b) := EqualsArgs(goal).value;
    assert Scoped(|sigma|, goal.rhs);
    var v :| Anchor(a.begin, a.end, v) in db.anchors && Eval(sigma, VNameTerm(v)) == Eval(sigma, b);
    var vs := AnchorsAt(db.anchors, a.begin, a.end);
    assert v in vs;
    n :| 0 <= n < |vs| && vs[n] == v;
    assert AgainstAnchors(vs, b)[n] == Equation(VNameTerm(v), b);
  }

  lemma {:induction false} FactAlternative(
    db: Database, indexed: bool, st: Store, sigma: seq<Value>, goal: Term, k: Cont) returns (n: nat)
    requires LookupReady(db.facts) && Acyclic(st) && Consistent(sigma, st) && ScopedCont(|st|, k)
    requires Scoped(|st|, goal) && EqualsArgs(goal).None? && SatBoth(db, sigma, goal, k)
    ensures var eqs := AgainstFacts(goal, Candidates(db, indexed, st, goal));
      n < |eqs| && ScopedEquations(|sigma|, eqs) && SatAlternative(db, sigma, eqs, n, k)
  {
    hide FactTerm, Candidates;
    var f :| f in db.facts && Eval(sigma, goal) == Eval(sigma, FactTerm(f));
    n := CandidateIndex(db, indexed, st, goal, sigma, f);
  }

  /** A fact equal to the atom under some agreeing valuation is among its candidates. */
  lemma {:induction false} CandidateIndex(
    db: Database, indexed: bool, st: Store, atom: Term, sigma: seq<Value>, f: Fact) returns (n: nat)
    requires LookupReady(db.facts) && Acyclic(st) && Consistent(sigma, st) && Scoped(|st|, atom)
    requires f in db.facts && Eval(sigma, atom) == Eval(sigma, FactTerm(f))
    ensures n < |Candidates(db, indexed, st, atom)| && Candidates(db, indexed, st, atom)[n] == f
  {
    hide KeyFor;
    var i :| 0 <= i < |db.facts| && db.facts[i] == f;
    n := i;
    if indexed && IsFactAtom(atom) {
      assert Scoped(|st|, atom.rhs);
      RangeHoldsUnifiable(db.facts, st, atom.rhs.elements, sigma, i);
      n := i - Lower(db.facts, KeyFor(st, atom.rhs.elements), 0);
    }
  }
}
