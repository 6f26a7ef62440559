/** The solver as it runs: existential variables are objects whose `current` field
    is assigned and unassigned in place, and each method computes exactly what the
    function of the same name says about the assignments it was entered with. */
module SolverMachine {
  import opened Wrappers
  import opened Terms
  import opened Facts
  import opened FactIndex
  import opened Solver
  import opened GoalGroups

  class EVarNode {
    var current: Option<Term>

    constructor ()
      ensures current == None
    {
      current := None;
    }
  }

  /** The number of goals of the longest group the continuation returns to. */
  ghost function LastGoal(k: Cont): nat {
    match k
    case Done => 0
    case Pending(Goals(gs, _), next) => Max(|gs|, LastGoal(next))
    case Pending(_, next) => LastGoal(next)
  }

  class Search {
    const db: Database
    const evars: seq<EVarNode>
    const groups: seq<GoalGroup>
    var highestGroupReached: nat
    var highestGoalReached: nat

    ghost predicate Valid()
      reads evars
    {
      && LookupReady(db.facts)
      && (forall i, j | 0 <= i < j < |evars| :: evars[i] != evars[j])
      && ScopedGroups(|evars|, groups)
      && Acyclic(Bindings())
    }

    ghost function Bindings(): (st: Store)
      reads evars
      ensures |st| == |evars|
    {
      seq(|evars|, i requires 0 <= i < |evars| reads evars => evars[i].current)
    }

    constructor (db: Database, evars: seq<EVarNode>, groups: seq<GoalGroup>)
      requires LookupReady(db.facts) && ScopedGroups(|evars|, groups)
      requires forall i, j | 0 <= i < j < |evars| :: evars[i] != evars[j]
      requires forall i | 0 <= i < |evars| :: evars[i].current.None?
      ensures this.db == db && this.evars == evars && this.groups == groups
      ensures Valid() && forall i | 0 <= i < |evars| :: Bindings()[i] == None
      ensures highestGroupReached == highestGoalReached == 0
    {
      this.db, this.evars, this.groups := db, evars, groups;
      highestGroupReached, highestGoalReached := 0, 0;
      new;
      assert IsRank(Bindings(), seq(|evars|, i => 0));
    }

    method SetCurrent(e: nat, to: Option<Term>)
      requires e < |evars| && forall i, j | 0 <= i < j < |evars| :: evars[i] != evars[j]
      modifies evars[e]
      ensures Bindings() == old(Bindings())[e := to]
    {
      evars[e].current := to;
    }

    method OccursIn(e: nat, t: Term) returns (b: bool)
      requires Valid() && Scoped(|evars|, t)
      ensures b == Occurs(Bindings(), e, t)
      decreases Level(RankOf(Bindings()), t), t
    {
      match t
      case App(l, r) =>
        b := OccursIn(e, l);
        if !b { b := OccursIn(e, r); }
      case EVar(ev) =>
        if evars[ev].current.Some? {
          b := OccursIn(e, evars[ev].current.value);
        } else {
          b := e == ev;
        }
      case Tuple(es) =>
        for i := 0 to |es|
          invariant forall j | 0 <= j < i :: !Occurs(Bindings(), e, es[j])
        {
          b := OccursIn(e, es[i]);
          if b { return; }
        }
        b := false;
      case Range(_, _) => b := false;
      case Ident(_, _) => b := false;
    }

    /** Calls the continuation. */
    method Resume(k: Cont, cut: ThunkRet) returns (r: ThunkRet)
      requires Valid() && ScopedCont(|evars|, k) && cut >= FIRST_CUT
      modifies evars, `highestGoalReached
      ensures Valid() && Outcome(r, Bindings()) == Run(db, true, old(Bindings()), k, cut)
      ensures old(highestGoalReached) <= highestGoalReached <= Max(old(highestGoalReached), LastGoal(k))
      ensures r == cut ==> LastGoal(k) <= highestGoalReached
      decreases Unbound(Bindings()), GoalsLeft(k), Work(Bindings(), k), 1
    {
      match k
      case Done => r := cut;
      case Pending(Equate(s, t), next) => r := UnifyTerms(s, t, next, cut);
      case Pending(EquateFrom(ss, ts, ofs), next) => r := UnifyTuple(ss, ts, ofs, next, cut);
      case Pending(Goals(goals, cur), next) => r := SolveGoalArray(goals, cur, next, cut);
    }

    method UnifyTuple(ss: seq<Term>, ts: seq<Term>, ofs: nat, k: Cont, cut: ThunkRet) returns (r: ThunkRet)
      requires Valid() && ScopedCont(|evars|, Pending(EquateFrom(ss, ts, ofs), k)) && cut >= FIRST_CUT
      modifies evars, `highestGoalReached
      ensures Valid()
      ensures Outcome(r, Bindings())
              == Run(db, true, old(Bindings()), Pending(EquateFrom(ss, ts, ofs), k), cut)
      ensures old(highestGoalReached) <= highestGoalReached <= Max(old(highestGoalReached), LastGoal(k))
      ensures r == cut ==> LastGoal(k) <= highestGoalReached
      decreases Unbound(Bindings()), GoalsLeft(k), Work(Bindings(), Pending(EquateFrom(ss, ts, ofs), k)), 0
    {
      if ofs == |ss| {
        r := Resume(k, cut);
      } else {
        r := UnifyTerms(ss[ofs], ts[ofs], Pending(EquateFrom(ss, ts, ofs + 1), k), cut);
      }
    }

    method UnifyTerms(s: Term, t: Term, k: Cont, cut: ThunkRet) returns (r: ThunkRet)
      requires Valid() && ScopedCont(|evars|, k) && cut >= FIRST_CUT && Scoped(|evars|, s) && Scoped(|evars|, t)
      modifies evars, `highestGoalReached
      ensures Valid() && Outcome(r, Bindings()) == Unify(db, true, old(Bindings()), s, t, k, cut)
      ensures old(highestGoalReached) <= highestGoalReached <= Max(old(highestGoalReached), LastGoal(k))
      ensures r == cut ==> LastGoal(k) <= highestGoalReached
      decreases Unbound(Bindings()), GoalsLeft(k),
        1 + Size(Bindings(), s) + Size(Bindings(), t) + Work(Bindings(), k), 0
    {
      hide Run, UnifyEVar;
      r := NO_EXCEPTION;
      match (s, t)
      case (EVar(e), _) => r := AssignEVar(e, t, k, cut);
      case (_, EVar(e)) => r := AssignEVar(e, s, k, cut);
      case (Ident(a, _), Ident(b, _)) => if a == b { r := Resume(k, cut); }
      case (App(sl, sr), App(tl, tr)) => r := UnifyTerms(sl, tl, Pending(Equate(sr, tr), k), cut);
      case (Tuple(ss), Tuple(ts)) => if |ss| == |ts| { r := UnifyTuple(ss, ts, 0, k, cut); }
      case (Range(b, e), Range(b', e')) => if b == b' && e == e' { r := Resume(k, cut); }
      case _ =>
    }

    method AssignEVar(e: nat, t: Term, k: Cont, cut: ThunkRet) returns (r: ThunkRet)
      requires Valid() && ScopedCont(|evars|, k) && cut >= FIRST_CUT && e < |evars| && Scoped(|evars|, t)
      modifies evars, `highestGoalReached
      ensures Valid() && Outcome(r, Bindings()) == UnifyEVar(db, true, old(Bindings()), e, t, k, cut)
      ensures old(highestGoalReached) <= highestGoalReached <= Max(old(highestGoalReached), LastGoal(k))
      ensures r == cut ==> LastGoal(k) <= highestGoalReached
      decreases Unbound(Bindings()), GoalsLeft(k),
        Size(Bindings(), EVar(e)) + Size(Bindings(), t) + Work(Bindings(), k), 0
    {
      if evars[e].current.Some? {
        r := UnifyTerms(evars[e].current.value, t, k, cut);
        return;
      }
      if t == EVar(e) {
        r := Resume(k, cut);
        return;
      }
      var cyclic := OccursIn(e, t);
      if cyclic {
        r := INVALID_PROGRAM;
        return;
      }
      r := BindAndResume(e, t, k, cut);
    }

    /** Assigns the variable, continues, and takes the assignment back unless the cut came. */
    method BindAndResume(e: nat, t: Term, k: Cont, cut: ThunkRet) returns (r: ThunkRet)
      requires Valid() && ScopedCont(|evars|, k) && cut >= FIRST_CUT && e < |evars| && Scoped(|evars|, t)
      requires Bindings()[e].None? && t != EVar(e) && !Occurs(Bindings(), e, t)
      modifies evars, `highestGoalReached
      ensures Valid() && Outcome(r, Bindings()) == UnifyEVar(db, true, old(Bindings()), e, t, k, cut)
      ensures old(highestGoalReached) <= highestGoalReached <= Max(old(highestGoalReached), LastGoal(k))
      ensures r == cut ==> LastGoal(k) <= highestGoalReached
      decreases Unbound(Bindings()), 0, 0, 0
    {
      ghost var st := Bindings();
      BindKeepsAcyclic(st, e, t);
      BindLowersUnbound(st, e, t);
      hide Run, LastGoal, Work, GoalsLeft, Unbound;
      SetCurrent(e, Some(t));
      r := Resume(k, cut);
      if r != cut {
        SetCurrent(e, None);
        assert Bindings() == st;
      }
    }

    method TryEach(eqs: seq<Equation>, k: Cont, cut: ThunkRet) returns (r: ThunkRet)
      requires Valid() && ScopedCont(|evars|, k) && cut >= FIRST_CUT && ScopedEquations(|evars|, eqs)
      modifies evars, `highestGoalReached
      ensures Valid() && Outcome(r, Bindings()) == Try(db, true, old(Bindings()), eqs, 0, k, cut)
      ensures old(highestGoalReached) <= highestGoalReached <= Max(old(highestGoalReached), LastGoal(k))
      ensures r == cut ==> LastGoal(k) <= highestGoalReached
      decreases Unbound(Bindings()), GoalsLeft(k) + 1, 0, 0
    {
      ghost var st := Bindings();
      for i := 0 to |eqs|
        invariant Valid() && Bindings() == st
        invariant Try(db, true, st, eqs, i, k, cut) == Try(db, true, st, eqs, 0, k, cut)
        invariant old(highestGoalReached) <= highestGoalReached <= Max(old(highestGoalReached), LastGoal(k))
      {
        r := UnifyTerms(eqs[i].lhs, eqs[i].rhs, k, cut);
        if r != NO_EXCEPTION { return; }
      }
      r := NO_EXCEPTION;
    }

    method MatchAtomVersusDatabase(atom: Term, k: Cont, cut: ThunkRet) returns (r: ThunkRet)
      requires Valid() && ScopedCont(|evars|, k) && cut >= FIRST_CUT && Scoped(|evars|, atom) && EqualsArgs(atom).None?
      modifies evars, `highestGoalReached
      ensures Valid() && Outcome(r, Bindings()) == MatchAtom(db, true, old(Bindings()), atom, k, cut)
      ensures old(highestGoalReached) <= highestGoalReached <= Max(old(highestGoalReached), LastGoal(k))
      ensures r == cut ==> LastGoal(k) <= highestGoalReached
      decreases Unbound(Bindings()), GoalsLeft(k) + 1, 1, 0
    {
      var fs := db.facts;
      if IsFactAtom(atom) {
        assert Scoped(|evars|, atom.rhs);
        var key := ReadKey(atom.rhs.elements);
        var begin := LowerBound(db.facts, key);
        var end := UpperBound(db.facts, key);
        BoundsInOrder(db.facts, key);
        fs := db.facts[begin..end];
      }
      assert fs == Candidates(db, true, Bindings(), atom);
      r := TryEach(AgainstFacts(atom, fs), k, cut);
    }

    method DerefEVar(t: Term) returns (r: Option<Term>)
      requires Valid() && Scoped(|evars|, t)
      ensures r == Deref(Bindings(), t)
    {
      var node := t;
      while node.EVar?
        invariant Scoped(|evars|, node) && Deref(Bindings(), node) == Deref(Bindings(), t)
        decreases Level(RankOf(Bindings()), node)
      {
        if evars[node.id].current.None? { return None; }
        node := evars[node.id].current.value;
      }
      r := Some(node);
    }

    method ReadSymbol(t: Term) returns (r: Option<nat>)
      requires Valid() && Scoped(|evars|, t)
      ensures r == SymbolOf(Bindings(), t)
    {
      var node := DerefEVar(t);
      r := match node case Some(Ident(s, _)) => Some(s) case _ => None;
    }

    method ReadVName(t: Term) returns (r: seq<Option<nat>>)
      requires Valid() && Scoped(|evars|, t)
      ensures r == VNameFields(Bindings(), t)
    {
      r := [None, None, None, None, None];
      var node := DerefEVar(t);
      if node.None? || !node.value.App? { return; }
      var head := DerefEVar(node.value.lhs);
      if head != Some(Ident(VNAME, true)) { return; }
      var body := DerefEVar(node.value.rhs);
      if body.None? || !body.value.Tuple? || |body.value.elements| != 5 { return; }
      var es := body.value.elements;
      var a := ReadSymbol(es[0]);
      var b := ReadSymbol(es[1]);
      var c := ReadSymbol(es[2]);
      var d := ReadSymbol(es[3]);
      var e := ReadSymbol(es[4]);
      r := [a, b, c, d, e];
    }

    method ReadKey(fields: seq<Term>) returns (k: AtomFactKey)
      requires Valid() && |fields| == 5 && forall i | 0 <= i < 5 :: Scoped(|evars|, fields[i])
      ensures k == KeyFor(Bindings(), fields)
    {
      var edgeKind := ReadSymbol(fields[1]);
      var name := ReadSymbol(fields[3]);
      var value := ReadSymbol(fields[4]);
      var source := ReadVName(fields[0]);
      var target := ReadVName(fields[2]);
      k := AtomFactKey(edgeKind, name, value, source, target);
    }

    method SolveAtom(atom: Term, k: Cont, cut: ThunkRet) returns (r: ThunkRet)
      requires Valid() && ScopedCont(|evars|, k) && cut >= FIRST_CUT && Scoped(|evars|, atom)
      modifies evars, `highestGoalReached
      ensures Valid() && Outcome(r, Bindings()) == MatchAtom(db, true, old(Bindings()), atom, k, cut)
      ensures old(highestGoalReached) <= highestGoalReached <= Max(old(highestGoalReached), LastGoal(k))
      ensures r == cut ==> LastGoal(k) <= highestGoalReached
      decreases Unbound(Bindings()), GoalsLeft(k) + 2, 0, 0
    {
      match EqualsArgs(atom)
      case Some(Equation(a, b)) =>
        assert Scoped(|evars|, atom.rhs);
        if a.Range? {
          var vs := AnchorsAt(db.anchors, a.begin, a.end);
          if |vs| == 0 { return IMPOSSIBLE; }
          r := TryEach(AgainstAnchors(vs, b), k, cut);
        } else {
          r := UnifyTerms(a, b, k, cut);
        }
      case None => r := MatchAtomVersusDatabase(atom, k, cut);
    }

    method SolveGoalArray(goals: seq<Term>, cur: nat, k: Cont, cut: ThunkRet) returns (r: ThunkRet)
      requires Valid() && ScopedCont(|evars|, Pending(Goals(goals, cur), k)) && cut >= FIRST_CUT
      modifies evars, `highestGoalReached
      ensures Valid() && Outcome(r, Bindings()) == Run(db, true, old(Bindings()), Pending(Goals(goals, cur), k), cut)
      ensures old(highestGoalReached) <= highestGoalReached
      ensures highestGoalReached <= Max(old(highestGoalReached), LastGoal(Pending(Goals(goals, cur), k)))
      ensures r == cut ==> LastGoal(Pending(Goals(goals, cur), k)) <= highestGoalReached
      decreases Unbound(Bindings()), GoalsLeft(Pending(Goals(goals, cur), k)),
        Work(Bindings(), Pending(Goals(goals, cur), k)), 0
    {
      if cur > highestGoalReached { highestGoalReached := cur; }
      if cur == |goals| {
        r := Resume(k, cut);
      } else if goals[cur].App? {
        r := SolveAtom(goals[cur], Pending(Goals(goals, cur + 1), k), cut);
      } else {
        r := INVALID_PROGRAM;
      }
    }

    method SolveGroups(inspect: bool) returns (r: ThunkRet)
      requires Valid()
      modifies evars, `highestGoalReached, `highestGroupReached
      ensures Valid() && Outcome(r, Bindings()) == SolveGoalGroups(db, old(Bindings()), groups, 0, inspect)
    {
      hide Run;
      var cur := 0;
      while cur < |groups|
        invariant cur <= |groups| && Valid()
        invariant SolveGoalGroups(db, Bindings(), groups, cur, inspect)
               == SolveGoalGroups(db, old(Bindings()), groups, 0, inspect)
      {
        var group, cut := groups[cur], FIRST_CUT + cur;
        if cur > highestGroupReached { highestGoalReached, highestGroupReached := 0, cur; }
        var result := SolveGoalArray(group.goals, 0, Done, cut);
        if result == cut {
          if group.acceptIf != NoneMayFail { return if inspect then NO_EXCEPTION else INVALID_PROGRAM; }
        } else if result == NO_EXCEPTION || result == IMPOSSIBLE {
          if group.acceptIf != SomeMustFail { return if inspect then NO_EXCEPTION else INVALID_PROGRAM; }
        } else {
          return result;
        }
        cur := cur + 1;
      }
      r := if inspect then SOLVED else INVALID_PROGRAM;
    }

    /** If this answers true, then under the assignments left in place every positive
        group holds and no negated group can be made to hold, however they are extended. */
    method Solve(inspect: bool) returns (ok: bool)
      requires Valid()
      modifies evars, `highestGoalReached, `highestGroupReached
      ensures Valid() && Extends(old(Bindings()), Bindings())
      ensures ok == (SolveGoalGroups(db, old(Bindings()), groups, 0, inspect).ret == SOLVED)
      ensures ok ==> forall i | 0 <= i < |groups| :: GroupHolds(db, Bindings(), groups[i])
    {
      ghost var st := Bindings();
      var exn := SolveGroups(inspect);
      ok := exn == SOLVED;
      if ok {
        SolvedProgramHolds(db, st, groups, 0, inspect);
        assert Extends(Bindings(), Bindings());
      }
    }
  }
}
