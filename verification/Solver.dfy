/** The goal search, with the pending work of its continuations made explicit.

    Each `function` follows the method of the same name: the closure passed as
    `f` becomes a `Cont`, the list of what that closure still has to do before
    the innermost one returns the cut, and assignments are a `Store` that is
    passed along, changed and changed back. */
module Solver {
  import opened Wrappers
  import opened Terms
  import opened Facts
  import opened FactIndex

  type ThunkRet = nat
  /** The operation failed normally. */
  const NO_EXCEPTION: ThunkRet := 0
  /** There is no more work to do, so unwind. */
  const SOLVED: ThunkRet := 1
  /** The program is invalid, so unwind. */
  const INVALID_PROGRAM: ThunkRet := 2
  /** The goal group is known to be impossible to solve. */
  const IMPOSSIBLE: ThunkRet := 3
  /** Return codes from here on unwind to the frame that made the cut. */
  const FIRST_CUT: ThunkRet := 4

  datatype Anchor = Anchor(begin: nat, end: nat, vname: VName)

  /** The facts in lookup order, and the anchor multimap in insertion order. */
  datatype Database = Database(facts: seq<Fact>, anchors: seq<Anchor>)

  datatype Task =
    | Equate(s: Term, t: Term)
    | EquateFrom(ss: seq<Term>, ts: seq<Term>, ofs: nat)
    | Goals(goals: seq<Term>, cur: nat)

  datatype Cont = Done | Pending(task: Task, next: Cont)

  datatype Outcome = Outcome(ret: ThunkRet, store: Store)

  datatype Equation = Equation(lhs: Term, rhs: Term)

  ghost predicate ScopedTask(n: nat, task: Task) {
    match task
    case Equate(s, t) => Scoped(n, s) && Scoped(n, t)
    case EquateFrom(ss, ts, ofs) =>
      && |ss| == |ts| && ofs <= |ss|
      && forall i | 0 <= i < |ss| :: Scoped(n, ss[i]) && Scoped(n, ts[i])
    case Goals(gs, cur) => cur <= |gs| && forall i | 0 <= i < |gs| :: Scoped(n, gs[i])
  }

  ghost predicate ScopedCont(n: nat, k: Cont) {
    k.Done? || (ScopedTask(n, k.task) && ScopedCont(n, k.next))
  }

  ghost predicate ScopedEquations(n: nat, eqs: seq<Equation>) {
    forall i | 0 <= i < |eqs| :: Scoped(n, eqs[i].lhs) && Scoped(n, eqs[i].rhs)
  }

  // ------------------------------------------------------------------ what a goal asks

  /** The arguments of a goal of the syntactic form =(a, b). */
  function EqualsArgs(atom: Term): Option<Equation> {
    if atom.App? && atom.lhs.Ident? && atom.lhs.symbol == EQUALS && atom.rhs.Tuple? && |atom.rhs.elements| == 2
    then Some(Equation(atom.rhs.elements[0], atom.rhs.elements[1]))
    else None
  }

  function AnchorsAt(anchors: seq<Anchor>, begin: nat, end: nat): (r: seq<VName>)
    ensures forall v :: v in r <==> Anchor(begin, end, v) in anchors
  {
    if |anchors| == 0 then []
    else
      var n := |anchors| - 1;
      assert forall x :: x in anchors <==> x in anchors[..n] || x == anchors[n];
      AnchorsAt(anchors[..n], begin, end)
      + if anchors[n].begin == begin && anchors[n].end == end then [anchors[n].vname] else []
  }

  /** Whether a goal may use the sort order: its head is the very node `fact`. */
  predicate IsFactAtom(atom: Term) {
    atom.App? && atom.lhs == Ident(FACT, true) && atom.rhs.Tuple? && |atom.rhs.elements| == 5
  }

  function Candidates(db: Database, indexed: bool, st: Store, atom: Term): (fs: seq<Fact>)
    requires Acyclic(st) && Scoped(|st|, atom) && LookupReady(db.facts)
    ensures forall f | f in fs :: f in db.facts
  {
    if indexed && IsFactAtom(atom) then
      assert Scoped(|st|, atom.rhs);
      var key := KeyFor(st, atom.rhs.elements);
      BoundsInOrder(db.facts, key);
      db.facts[Lower(db.facts, key, 0)..Upper(db.facts, key, 0)]
    else db.facts
  }

  function AgainstFacts(atom: Term, fs: seq<Fact>): (eqs: seq<Equation>)
    ensures |eqs| == |fs|
  {
    seq(|fs|, i requires 0 <= i < |fs| => Equation(atom, FactTerm(fs[i])))
  }

  function AgainstAnchors(vs: seq<VName>, t: Term): (eqs: seq<Equation>)
    ensures |eqs| == |vs|
  {
    seq(|vs|, i requires 0 <= i < |vs| => Equation(VNameTerm(vs[i]), t))
  }

  // ---------------------------------------------------------------- termination measure

  ghost function GoalsLeft(k: Cont): nat {
    match k
    case Done => 0
    case Pending(Goals(gs, cur), next) => 3 * (if cur <= |gs| then |gs| - cur else 0) + GoalsLeft(next)
    case Pending(_, next) => GoalsLeft(next)
  }

  ghost function TaskWork(st: Store, task: Task): nat
    requires Acyclic(st) && ScopedTask(|st|, task)
  {
    match task
    case Equate(s, t) => 1 + Size(st, s) + Size(st, t)
    case EquateFrom(ss, ts, ofs) => 1 + SizeFrom(st, ss, ofs) + SizeFrom(st, ts, ofs)
    case Goals(_, _) => 1
  }

  ghost function Work(st: Store, k: Cont): nat
    requires Acyclic(st) && ScopedCont(|st|, k)
  {
    if k.Done? then 0 else TaskWork(st, k.task) + Work(st, k.next)
  }

  // ------------------------------------------------------------------------- the search

  ghost predicate Good(st: Store, cut: ThunkRet, o: Outcome) {
    && Acyclic(o.store) && Extends(st, o.store)
    && (o.ret == cut || o.ret == NO_EXCEPTION || o.ret == INVALID_PROGRAM || o.ret == IMPOSSIBLE)
    // Backtracking is exact: anything but the cut leaves every assignment as it was.
    && (o.ret != cut ==> o.store == st)
  }

  /** Calls the continuation. */
  function Run(db: Database, indexed: bool, st: Store, k: Cont, cut: ThunkRet): (o: Outcome)
    requires LookupReady(db.facts) && Acyclic(st) && ScopedCont(|st|, k) && cut >= FIRST_CUT
    ensures Good(st, cut, o)
    decreases Unbound(st), GoalsLeft(k), Work(st, k), 1
  {
    match k
    case Done => Outcome(cut, st)
    case Pending(Equate(s, t), next) => Unify(db, indexed, st, s, t, next, cut)
    case Pending(EquateFrom(ss, ts, ofs), next) =>
      if ofs == |ss| then Run(db, indexed, st, next, cut)
      else Unify(db, indexed, st, ss[ofs], ts[ofs], Pending(EquateFrom(ss, ts, ofs + 1), next), cut)
    case Pending(Goals(goals, cur), next) =>
      if cur == |goals| then Run(db, indexed, st, next, cut)
      else SolveGoal(db, indexed, st, goals[cur], Pending(Goals(goals, cur + 1), next), cut)
  }

  function Unify(db: Database, indexed: bool, st: Store, s: Term, t: Term, k: Cont, cut: ThunkRet): (o: Outcome)
    requires LookupReady(db.facts) && Acyclic(st) && ScopedCont(|st|, k) && cut >= FIRST_CUT
    requires Scoped(|st|, s) && Scoped(|st|, t)
    ensures Good(st, cut, o)
    decreases Unbound(st), GoalsLeft(k), 1 + Size(st, s) + Size(st, t) + Work(st, k), 0
  {
    match (s, t)
    case (EVar(e), _) => UnifyEVar(db, indexed, st, e, t, k, cut)
    case (_, EVar(e)) => UnifyEVar(db, indexed, st, e, s, k, cut)
    case (Ident(a, _), Ident(b, _)) =>
      if a == b then Run(db, indexed, st, k, cut) else Outcome(NO_EXCEPTION, st)
    case (App(sl, sr), App(tl, tr)) =>
      Unify(db, indexed, st, sl, tl, Pending(Equate(sr, tr), k), cut)
    case (Tuple(ss), Tuple(ts)) =>
      if |ss| != |ts| then Outcome(NO_EXCEPTION, st)
      else Run(db, indexed, st, Pending(EquateFrom(ss, ts, 0), k), cut)
    case (Range(b, e), Range(b', e')) =>
      if b == b' && e == e' then Run(db, indexed, st, k, cut) else Outcome(NO_EXCEPTION, st)
    case _ => Outcome(NO_EXCEPTION, st)
  }

  function UnifyEVar(db: Database, indexed: bool, st: Store, e: nat, t: Term, k: Cont, cut: ThunkRet): (o: Outcome)
    requires LookupReady(db.facts) && Acyclic(st) && ScopedCont(|st|, k) && cut >= FIRST_CUT
    requires e < |st| && Scoped(|st|, t)
    ensures Good(st, cut, o)
    decreases Unbound(st), GoalsLeft(k), Size(st, EVar(e)) + Size(st, t) + Work(st, k), 0
  {
    if st[e].Some? then Unify(db, indexed, st, st[e].value, t, k, cut)
    else if t == EVar(e) then Run(db, indexed, st, k, cut)
    else if Occurs(st, e, t) then Outcome(INVALID_PROGRAM, st)
    else
      BindKeepsAcyclic(st, e, t);
      BindLowersUnbound(st, e, t);
      var o := Run(db, indexed, st[e := Some(t)], k, cut);
      assert o.ret != cut ==> o.store[e := None] == st;
      if o.ret != cut then Outcome(o.ret, o.store[e := None]) else o
  }

  /** Tries each equation in turn until one of them does not simply fail. */
  function Try(db: Database, indexed: bool, st: Store, eqs: seq<Equation>, i: nat, k: Cont, cut: ThunkRet): (o: Outcome)
    requires LookupReady(db.facts) && Acyclic(st) && ScopedCont(|st|, k) && cut >= FIRST_CUT
    requires i <= |eqs| && ScopedEquations(|st|, eqs)
    ensures Good(st, cut, o)
    decreases Unbound(st), GoalsLeft(k) + 1, |eqs| - i, 0
  {
    if i == |eqs| then Outcome(NO_EXCEPTION, st)
    else
      var o := Unify(db, indexed, st, eqs[i].lhs, eqs[i].rhs, k, cut);
      if o.ret != NO_EXCEPTION then o
      else Try(db, indexed, o.store, eqs, i + 1, k, cut)
  }

  function MatchAtom(db: Database, indexed: bool, st: Store, atom: Term, k: Cont, cut: ThunkRet): (o: Outcome)
    requires LookupReady(db.facts) && Acyclic(st) && ScopedCont(|st|, k) && cut >= FIRST_CUT
    requires Scoped(|st|, atom)
    ensures Good(st, cut, o)
    decreases Unbound(st), GoalsLeft(k) + 2, 0, 0
  {
    match EqualsArgs(atom)
    case Some(Equation(a, b)) =>
      assert Scoped(|st|, atom.rhs);
      if a.Range? then
        var vs := AnchorsAt(db.anchors, a.begin, a.end);
        if |vs| == 0 then Outcome(IMPOSSIBLE, st)
        else Try(db, indexed, st, AgainstAnchors(vs, b), 0, k, cut)
      else Unify(db, indexed, st, a, b, k, cut)
    case None =>
      Try(db, indexed, st, AgainstFacts(atom, Candidates(db, indexed, st, atom)), 0, k, cut)
  }

  function SolveGoal(db: Database, indexed: bool, st: Store, goal: Term, k: Cont, cut: ThunkRet): (o: Outcome)
    requires LookupReady(db.facts) && Acyclic(st) && ScopedCont(|st|, k) && cut >= FIRST_CUT
    requires Scoped(|st|, goal)
    ensures Good(st, cut, o)
    decreases Unbound(st), GoalsLeft(k) + 2, 0, 1
  {
    if goal.App? then MatchAtom(db, indexed, st, goal, k, cut)
    else Outcome(INVALID_PROGRAM, st)
  }
}
