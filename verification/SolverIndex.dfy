/** The indexed search and the linear scan are the same search: same result, same
    assignments, for every database in lookup order. */
module SolverIndex {
  import opened Wrappers
  import opened Terms
  import opened Facts
  import opened FactIndex
  import opened Solver
  import opened SolverMeaning

  function Append(p: Cont, k: Cont): Cont {
    if p.Done? then k else Pending(p.task, Append(p.next, k))
  }

  /** Pending equations whose right sides mention no variable. */
  ghost predicate GroundRight(p: Cont) {
    p.Done? ||
    (GroundRight(p.next) &&
     match p.task
     case Equate(_, t) => Ground(t)
     case EquateFrom(_, ts, _) => forall i | 0 <= i < |ts| :: Ground(ts[i])
     case Goals(_, _) => false)
  }

  lemma {:induction false} AppendScoped(n: nat, p: Cont, k: Cont)
    requires ScopedCont(n, p) && ScopedCont(n, k)
    ensures ScopedCont(n, Append(p, k))
  {
    if p.Pending? { AppendScoped(n, p.next, k); }
  }

  /** Equations against ground terms that no agreeing valuation satisfies fail
      before the rest of the work is looked at. */
  lemma {:induction false} RunFails(db: Database, st: Store, p: Cont, k: Cont, cut: ThunkRet)
    requires LookupReady(db.facts) && Acyclic(st) && cut >= FIRST_CUT
    requires ScopedCont(|st|, p) && ScopedCont(|st|, k) && GroundRight(p) && Refuted(db, st, p)
    ensures ScopedCont(|st|, Append(p, k))
    ensures Run(db, false, st, Append(p, k), cut) == Outcome(NO_EXCEPTION, st)
    decreases Unbound(st), Work(st, p), 1
  {
    AppendScoped(|st|, p, k);
    match p
    case Done =>
      SolutionIsConsistent(st);
      assert Sat(db, Solution(st), p);
    case Pending(Equate(s, t), next) => UnifyFails(db, st, s, t, next, k, cut);
    case Pending(EquateFrom(ss, ts, ofs), next) =>
      if ofs == |ss| {
        assert forall sigma | Consistent(sigma, st) :: Sat(db, sigma, next) ==> Sat(db, sigma, p);
        RunFails(db, st, next, k, cut);
      } else {
        ElementRefuted(db, st, ss, ts, ofs, next);
        UnifyFails(db, st, ss[ofs], ts[ofs], Pending(EquateFrom(ss, ts, ofs + 1), next), k, cut);
      }
  }

  lemma {:induction false} ElementRefuted(
    db: Database, st: Store, ss: seq<Term>, ts: seq<Term>, ofs: nat, next: Cont)
    requires ScopedStore(st) && ScopedCont(|st|, Pending(EquateFrom(ss, ts, ofs), next)) && ofs < |ss|
    requires Refuted(db, st, Pending(EquateFrom(ss, ts, ofs), next))
    ensures Refuted(db, st, Pending(Equate(ss[ofs], ts[ofs]), Pending(EquateFrom(ss, ts, ofs + 1), next)))
  {
    hide Sat;
    SplitTuple(db, ss, ts, ofs, next, |st|);
  }

  lemma {:induction false} UnifyFails(db: Database, st: Store, s: Term, t: Term, p: Cont, k: Cont, cut: ThunkRet)
    requires LookupReady(db.facts) && Acyclic(st) && cut >= FIRST_CUT
    requires ScopedCont(|st|, p) && ScopedCont(|st|, k) && GroundRight(p)
    requires Scoped(|st|, s) && Scoped(|st|, t) && Ground(t)
    requires Refuted(db, st, Pending(Equate(s, t), p))
    ensures ScopedCont(|st|, Append(p, k))
    ensures Unify(db, false, st, s, t, Append(p, k), cut) == Outcome(NO_EXCEPTION, st)
    decreases Unbound(st), 1 + Size(st, s) + Size(st, t) + Work(st, p), 0
  {
    AppendScoped(|st|, p, k);
    var whole := Pending(Equate(s, t), p);
    match (s, t)
    case (EVar(e), _) =>
      if st[e].Some? {
        forall sigma | Consistent(sigma, st) ensures !Sat(db, sigma, Pending(Equate(st[e].value, t), p)) {
          assert !Sat(db, sigma, whole);
        }
        UnifyFails(db, st, st[e].value, t, p, k, cut);
      } else {
        GroundNeverOccurs(st, e, t);
        BindKeepsAcyclic(st, e, t);
        BindLowersUnbound(st, e, t);
        var st' := st[e := Some(t)];
        forall sigma | Consistent(sigma, st') ensures !Sat(db, sigma, p) {
          ExtendsConsistent(sigma, st, st');
          assert st'[e] == Some(t);
          assert !Sat(db, sigma, whole);
        }
        RunFails(db, st', p, k, cut);
        assert st'[e := None] == st;
      }
    case (Ident(a, _), Ident(b, _)) =>
      if a == b {
        forall sigma | Consistent(sigma, st) ensures !Sat(db, sigma, p) { assert !Sat(db, sigma, whole); }
        RunFails(db, st, p, k, cut);
      }
    case (App(sl, sr), App(tl, tr)) =>
      forall sigma | Consistent(sigma, st)
        ensures !Sat(db, sigma, Pending(Equate(sl, tl), Pending(Equate(sr, tr), p)))
      {
        assert !Sat(db, sigma, whole);
      }
      UnifyFails(db, st, sl, tl, Pending(Equate(sr, tr), p), k, cut);
    case (Tuple(ss), Tuple(ts)) =>
      if |ss| == |ts| {
        var parts := Pending(EquateFrom(ss, ts, 0), p);
        forall sigma | Consistent(sigma, st) ensures !Sat(db, sigma, parts) {
          TupleValues(sigma, ss, ts);
          assert !Sat(db, sigma, whole);
        }
        RunFails(db, st, parts, k, cut);
      }
    case (Range(b, e), Range(b', e')) =>
      if b == b' && e == e' {
        forall sigma | Consistent(sigma, st) ensures !Sat(db, sigma, p) { assert !Sat(db, sigma, whole); }
        RunFails(db, st, p, k, cut);
      }
    case _ =>
  }

  /** The facts outside the index range fail when scanned. */
  lemma {:induction false} OutsideRangeFails(db: Database, st: Store, atom: Term, k: Cont, cut: ThunkRet, i: nat)
    requires LookupReady(db.facts) && Acyclic(st) && Scoped(|st|, atom) && ScopedCont(|st|, k) && cut >= FIRST_CUT
    requires IsFactAtom(atom) && i < |db.facts|
    requires Scoped(|st|, atom.rhs) &&
      var key := KeyFor(st, atom.rhs.elements); !(Lower(db.facts, key, 0) <= i < Upper(db.facts, key, 0))
    ensures Unify(db, false, st, atom, FactTerm(db.facts[i]), k, cut) == Outcome(NO_EXCEPTION, st)
  {
    var t := FactTerm(db.facts[i]);
    forall sigma | Consistent(sigma, st) ensures !Sat(db, sigma, Pending(Equate(atom, t), Done)) {
      if Eval(sigma, atom) == Eval(sigma, t) {
        RangeHoldsUnifiable(db.facts, st, atom.rhs.elements, sigma, i);
      }
    }
    UnifyFails(db, st, atom, t, Done, k, cut);
  }

  /** The equation fails and leaves the store alone. */
  ghost predicate Fails(db: Database, st: Store, eq: Equation, k: Cont, cut: ThunkRet)
    requires LookupReady(db.facts) && Acyclic(st) && ScopedCont(|st|, k) && cut >= FIRST_CUT
    requires Scoped(|st|, eq.lhs) && Scoped(|st|, eq.rhs)
  {
    Unify(db, false, st, eq.lhs, eq.rhs, k, cut) == Outcome(NO_EXCEPTION, st)
  }

  /** Scanning past failures, through the range, and past failures again. */
  lemma {:induction false} TryPrefix(
    db: Database, st: Store, eqs: seq<Equation>, i: nat, lo: nat, k: Cont, cut: ThunkRet)
    requires LookupReady(db.facts) && Acyclic(st) && ScopedCont(|st|, k) && cut >= FIRST_CUT
    requires i <= lo <= |eqs| && ScopedEquations(|st|, eqs)
    requires forall n | i <= n < lo :: Fails(db, st, eqs[n], k, cut)
    ensures Try(db, false, st, eqs, i, k, cut) == Try(db, false, st, eqs, lo, k, cut)
    decreases lo - i
  {
    if i < lo { TryPrefix(db, st, eqs, i + 1, lo, k, cut); }
  }

  lemma {:induction false} TrySlice(
    db: Database, st: Store, eqs: seq<Equation>, lo: nat, hi: nat, j: nat, k: Cont, cut: ThunkRet)
    requires LookupReady(db.facts) && Acyclic(st) && ScopedCont(|st|, k) && cut >= FIRST_CUT
    requires lo <= hi <= |eqs| && j <= hi - lo && ScopedEquations(|st|, eqs) && ScopedEquations(|st|, eqs[lo..hi])
    requires forall n | hi <= n < |eqs| :: Fails(db, st, eqs[n], k, cut)
    ensures Try(db, false, st, eqs, lo + j, k, cut) == Try(db, false, st, eqs[lo..hi], j, k, cut)
    decreases hi - lo - j
  {
    if j < hi - lo {
      TrySlice(db, st, eqs, lo, hi, j + 1, k, cut);
    } else {
      TryPrefix(db, st, eqs, hi, |eqs|, k, cut);
    }
  }

  lemma {:induction false} TryMiddle(
    db: Database, st: Store, eqs: seq<Equation>, lo: nat, hi: nat, k: Cont, cut: ThunkRet)
    requires LookupReady(db.facts) && Acyclic(st) && ScopedCont(|st|, k) && cut >= FIRST_CUT
    requires lo <= hi <= |eqs| && ScopedEquations(|st|, eqs)
    requires forall n | 0 <= n < |eqs| && !(lo <= n < hi) :: Fails(db, st, eqs[n], k, cut)
    ensures ScopedEquations(|st|, eqs[lo..hi])
    ensures Try(db, false, st, eqs[lo..hi], 0, k, cut) == Try(db, false, st, eqs, 0, k, cut)
  {
    TryPrefix(db, st, eqs, 0, lo, k, cut);
    TrySlice(db, st, eqs, lo, hi, 0, k, cut);
  }

  // ------------------------------------------------------------- the equivalence

  lemma {:induction false} RunSame(db: Database, st: Store, k: Cont, cut: ThunkRet)
    requires LookupReady(db.facts) && Acyclic(st) && ScopedCont(|st|, k) && cut >= FIRST_CUT
    ensures Run(db, true, st, k, cut) == Run(db, false, st, k, cut)
    decreases Unbound(st), GoalsLeft(k), Work(st, k), 1
  {
    match k
    case Done =>
    case Pending(Equate(s, t), next) => UnifySame(db, st, s, t, next, cut);
    case Pending(EquateFrom(ss, ts, ofs), next) =>
      if ofs == |ss| {
        RunSame(db, st, next, cut);
      } else {
        UnifySame(db, st, ss[ofs], ts[ofs], Pending(EquateFrom(ss, ts, ofs + 1), next), cut);
      }
    case Pending(Goals(goals, cur), next) =>
      if cur == |goals| {
        RunSame(db, st, next, cut);
      } else {
        SolveGoalSame(db, st, goals[cur], Pending(Goals(goals, cur + 1), next), cut);
      }
  }

  lemma {:induction false} UnifySame(db: Database, st: Store, s: Term, t: Term, k: Cont, cut: ThunkRet)
    requires LookupReady(db.facts) && Acyclic(st) && ScopedCont(|st|, k) && cut >= FIRST_CUT
    requires Scoped(|st|, s) && Scoped(|st|, t)
    ensures Unify(db, true, st, s, t, k, cut) == Unify(db, false, st, s, t, k, cut)
    decreases Unbound(st), GoalsLeft(k), 1 + Size(st, s) + Size(st, t) + Work(st, k), 0
  {
    match (s, t)
    case (EVar(e), _) => UnifyEVarSame(db, st, e, t, k, cut);
    case (_, EVar(e)) => UnifyEVarSame(db, st, e, s, k, cut);
    case (Ident(a, _), Ident(b, _)) => if a == b { RunSame(db, st, k, cut); }
    case (App(sl, sr), App(tl, tr)) => UnifySame(db, st, sl, tl, Pending(Equate(sr, tr), k), cut);
    case (Tuple(ss), Tuple(ts)) => if |ss| == |ts| { RunSame(db, st, Pending(EquateFrom(ss, ts, 0), k), cut); }
    case (Range(b, e), Range(b', e')) => if b == b' && e == e' { RunSame(db, st, k, cut); }
    case _ =>
  }

  lemma {:induction false} UnifyEVarSame(db: Database, st: Store, e: nat, t: Term, k: Cont, cut: ThunkRet)
    requires LookupReady(db.facts) && Acyclic(st) && ScopedCont(|st|, k) && cut >= FIRST_CUT
    requires e < |st| && Scoped(|st|, t)
    ensures UnifyEVar(db, true, st, e, t, k, cut) == UnifyEVar(db, false, st, e, t, k, cut)
    decreases Unbound(st), GoalsLeft(k), Size(st, EVar(e)) + Size(st, t) + Work(st, k), 0
  {
    if st[e].Some? {
      UnifySame(db, st, st[e].value, t, k, cut);
    } else if t == EVar(e) {
      RunSame(db, st, k, cut);
    } else if !Occurs(st, e, t) {
      BindKeepsAcyclic(st, e, t);
      BindLowersUnbound(st, e, t);
      RunSame(db, st[e := Some(t)], k, cut);
    }
  }

  lemma {:induction false} TrySame(db: Database, st: Store, eqs: seq<Equation>, i: nat, k: Cont, cut: ThunkRet)
    requires LookupReady(db.facts) && Acyclic(st) && ScopedCont(|st|, k) && cut >= FIRST_CUT
    requires i <= |eqs| && ScopedEquations(|st|, eqs)
    ensures Try(db, true, st, eqs, i, k, cut) == Try(db, false, st, eqs, i, k, cut)
    decreases Unbound(st), GoalsLeft(k) + 1, |eqs| - i, 0
  {
    if i < |eqs| {
      UnifySame(db, st, eqs[i].lhs, eqs[i].rhs, k, cut);
      TrySame(db, st, eqs, i + 1, k, cut);
    }
  }

  lemma {:induction false} SolveGoalSame(db: Database, st: Store, goal: Term, k: Cont, cut: ThunkRet)
    requires LookupReady(db.facts) && Acyclic(st) && ScopedCont(|st|, k) && cut >= FIRST_CUT
    requires Scoped(|st|, goal)
    ensures SolveGoal(db, true, st, goal, k, cut) == SolveGoal(db, false, st, goal, k, cut)
    decreases Unbound(st), GoalsLeft(k) + 2, 0, 1
  {
    if goal.App? {
      match EqualsArgs(goal)
      case Some(Equation(a, b)) =>
        assert Scoped(|st|, goal.rhs);
        if a.Range? {
          TrySame(db, st, AgainstAnchors(AnchorsAt(db.anchors, a.begin, a.end), b), 0, k, cut);
        } else {
          UnifySame(db, st, a, b, k, cut);
        }
      case None =>
        TrySame(db, st, AgainstFacts(goal, Candidates(db, true, st, goal)), 0, k, cut);
        if IsFactAtom(goal) { IndexSkipsOnlyFailures(db, st, goal, k, cut); }
    }
  }

  /** Trying the facts in the index range is trying all of them. */
  lemma {:induction false} IndexSkipsOnlyFailures(db: Database, st: Store, atom: Term, k: Cont, cut: ThunkRet)
    requires LookupReady(db.facts) && Acyclic(st) && ScopedCont(|st|, k) && cut >= FIRST_CUT
    requires Scoped(|st|, atom) && IsFactAtom(atom)
    ensures Try(db, false, st, AgainstFacts(atom, Candidates(db, true, st, atom)), 0, k, cut)
         == Try(db, false, st, AgainstFacts(atom, db.facts), 0, k, cut)
  {
    assert Scoped(|st|, atom.rhs);
    var key := KeyFor(st, atom.rhs.elements);
    BoundsInOrder(db.facts, key);
    TryRange(db, st, atom, Lower(db.facts, key, 0), Upper(db.facts, key, 0), k, cut);
  }

  lemma {:induction false} TryRange(db: Database, st: Store, atom: Term, lo: nat, hi: nat, k: Cont, cut: ThunkRet)
    requires LookupReady(db.facts) && Acyclic(st) && ScopedCont(|st|, k) && cut >= FIRST_CUT
    requires Scoped(|st|, atom) && IsFactAtom(atom) && Scoped(|st|, atom.rhs) && lo <= hi <= |db.facts|
    requires lo == Lower(db.facts, KeyFor(st, atom.rhs.elements), 0)
      && hi == Upper(db.facts, KeyFor(st, atom.rhs.elements), 0)
    ensures Try(db, false, st, AgainstFacts(atom, db.facts[lo..hi]), 0, k, cut)
         == Try(db, false, st, AgainstFacts(atom, db.facts), 0, k, cut)
  {
    hide Try, Unify, Lower, Upper, KeyFor, LookupReady, Acyclic, ScopedCont;
    var eqs := AgainstFacts(atom, db.facts);
    AgainstScoped(|st|, atom, db.facts, lo, hi);
    hide AgainstFacts, ScopedEquations, Scoped, FactTerm, IsFactAtom;
    forall n | 0 <= n < |eqs| && !(lo <= n < hi) ensures Fails(db, st, eqs[n], k, cut) {
      OutsideRangeFails(db, st, atom, k, cut, n);
    }
    TryMiddle(db, st, eqs, lo, hi, k, cut);
  }

  lemma {:induction false} AgainstScoped(size: nat, atom: Term, fs: seq<Fact>, lo: nat, hi: nat)
    requires Scoped(size, atom) && lo <= hi <= |fs|
    ensures ScopedEquations(size, AgainstFacts(atom, fs))
    ensures AgainstFacts(atom, fs)[lo..hi] == AgainstFacts(atom, fs[lo..hi])
    ensures forall n | 0 <= n < |fs| :: AgainstFacts(atom, fs)[n] == Equation(atom, FactTerm(fs[n]))
  {
    hide Scoped, FactTerm;
  }
}
