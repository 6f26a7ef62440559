/** The search as a tree: the steps it can take, whatever order it tries them in, and where
    its branches end.  Every result of the search is explained by such an end. */
module SearchTree {
  import opened Wrappers
  import opened Terms
  import opened Facts
  import opened FactIndex
  import opened Solver
  import opened SolverMeaning
  import opened SolverIndex

  /** The assignments made so far, and the work still to do. */
  datatype Config = Config(st: Store, k: Cont)

  ghost predicate Proper(c: Config) { Acyclic(c.st) && ScopedCont(|c.st|, c.k) }

  // -------------------------------------------------------------------------- steps

  ghost function NextEVar(st: Store, e: nat, t: Term, k: Cont): (cs: seq<Config>)
    requires Acyclic(st) && ScopedCont(|st|, k) && e < |st| && Scoped(|st|, t)
    ensures forall d | d in cs :: Proper(d) && |d.st| == |st|
  {
    if st[e].Some? then [Config(st, Pending(Equate(st[e].value, t), k))]
    else if t == EVar(e) then [Config(st, k)]
    else if Occurs(st, e, t) then []
    else
      BindKeepsAcyclic(st, e, t);
      [Config(st[e := Some(t)], k)]
  }

  ghost function NextEquate(st: Store, s: Term, t: Term, k: Cont): (cs: seq<Config>)
    requires Acyclic(st) && ScopedCont(|st|, k) && Scoped(|st|, s) && Scoped(|st|, t)
    ensures forall d | d in cs :: Proper(d) && |d.st| == |st|
  {
    match (s, t)
    case (EVar(e), _) => NextEVar(st, e, t, k)
    case (_, EVar(e)) => NextEVar(st, e, s, k)
    case (Ident(a, _), Ident(b, _)) => if a == b then [Config(st, k)] else []
    case (App(sl, sr), App(tl, tr)) =>
      var rest := Pending(Equate(sr, tr), k);
      assert ScopedCont(|st|, rest);
      [Config(st, Pending(Equate(sl, tl), rest))]
    case (Tuple(ss), Tuple(ts)) => if |ss| == |ts| then [Config(st, Pending(EquateFrom(ss, ts, 0), k))] else []
    case (Range(b, e), Range(b', e')) => if b == b' && e == e' then [Config(st, k)] else []
    case _ => []
  }

  /** The equations that can make a goal hold. */
  function Alternatives(db: Database, goal: Term): seq<Equation> {
    match EqualsArgs(goal)
    case Some(Equation(a, b)) =>
      if a.Range? then AgainstAnchors(AnchorsAt(db.anchors, a.begin, a.end), b) else [Equation(a, b)]
    case None => AgainstFacts(goal, db.facts)
  }

  lemma {:induction false} AlternativesAreScoped(db: Database, n: nat, goal: Term)
    requires Scoped(n, goal)
    ensures ScopedEquations(n, Alternatives(db, goal))
  {
    if EqualsArgs(goal).Some? { assert Scoped(n, goal.rhs); }
  }

  ghost function NextGoal(db: Database, st: Store, goal: Term, k: Cont): (cs: seq<Config>)
    requires Acyclic(st) && ScopedCont(|st|, k) && Scoped(|st|, goal)
    ensures forall d | d in cs :: Proper(d) && |d.st| == |st|
  {
    AlternativesAreScoped(db, |st|, goal);
    var eqs := Alternatives(db, goal);
    seq(|eqs|, i requires 0 <= i < |eqs| => Config(st, Pending(Equate(eqs[i].lhs, eqs[i].rhs), k)))
  }

  /** The steps from a configuration: one for each fact or anchor that a goal can be matched with, at
      most one for an equation. */
  ghost function Next(db: Database, c: Config): (cs: seq<Config>)
    requires Proper(c)
    ensures forall d | d in cs :: Proper(d) && |d.st| == |c.st|
  {
    match c.k
    case Done => []
    case Pending(Equate(s, t), next) => NextEquate(c.st, s, t, next)
    case Pending(EquateFrom(ss, ts, ofs), next) =>
      if ofs == |ss| then [Config(c.st, next)]
      else NextEquate(c.st, ss[ofs], ts[ofs], Pending(EquateFrom(ss, ts, ofs + 1), next))
    case Pending(Goals(goals, cur), next) =>
      if cur == |goals| then [Config(c.st, next)]
      else if goals[cur].App? then NextGoal(db, c.st, goals[cur], Pending(Goals(goals, cur + 1), next))
      else []
  }

  // --------------------------------------------------------------------------- ends

  /** An equation that the occurs check refuses. */
  ghost predicate Refused(st: Store, e: nat, t: Term)
    requires Acyclic(st) && e < |st| && Scoped(|st|, t)
  {
    st[e].None? && t != EVar(e) && Occurs(st, e, t)
  }

  ghost predicate RefusedEquation(st: Store, s: Term, t: Term)
    requires Acyclic(st) && Scoped(|st|, s) && Scoped(|st|, t)
  {
    match (s, t)
    case (EVar(e), _) => Refused(st, e, t)
    case (_, EVar(e)) => Refused(st, e, s)
    case _ => false
  }

  /** The equation that is solved first. */
  ghost predicate AtRefused(c: Config)
    requires Proper(c)
  {
    match c.k
    case Pending(Equate(s, t), _) => RefusedEquation(c.st, s, t)
    case Pending(EquateFrom(ss, ts, ofs), _) => ofs < |ss| && RefusedEquation(c.st, ss[ofs], ts[ofs])
    case _ => false
  }

  ghost predicate AtGoal(c: Config) { c.k.Pending? && c.k.task.Goals? && c.k.task.cur < |c.k.task.goals| }

  function FirstGoal(c: Config): Term
    requires AtGoal(c)
  { c.k.task.goals[c.k.task.cur] }

  /** A goal that is no application, or an equation that the occurs check refuses. */
  ghost predicate AtInvalid(c: Config)
    requires Proper(c)
  {
    (AtGoal(c) && !FirstGoal(c).App?) || AtRefused(c)
  }

  /** How the search ends at a configuration, if it ends there otherwise than by failing: with the cut
      when nothing is left to do, as invalid, or as impossible at a range without anchors. */
  ghost function EndOf(db: Database, c: Config, cut: ThunkRet): ThunkRet
    requires Proper(c)
  {
    if c.k.Done? then cut
    else if AtInvalid(c) then INVALID_PROGRAM
    else if AtGoal(c) && Dead(db, FirstGoal(c)) then IMPOSSIBLE
    else NO_EXCEPTION
  }

  ghost predicate IsPath(db: Database, path: seq<Config>) {
    && |path| > 0 && (forall i | 0 <= i < |path| :: Proper(path[i]))
    && forall i | 0 <= i < |path| - 1 :: path[i + 1] in Next(db, path[i])
  }

  /** A path from `c` to `d`. */
  ghost predicate Leads(db: Database, path: seq<Config>, c: Config, d: Config) {
    IsPath(db, path) && path[0] == c && path[|path| - 1] == d
  }

  ghost predicate Reaches(db: Database, c: Config, d: Config) { exists path :: Leads(db, path, c, d) }

  lemma {:induction false} ReachesSelf(db: Database, c: Config)
    requires Proper(c)
    ensures Reaches(db, c, c)
  {
    assert Leads(db, [c], c, c);
  }

  lemma {:induction false} ReachesThrough(db: Database, c: Config, d: Config, e: Config)
    requires Proper(c) && d in Next(db, c) && Reaches(db, d, e)
    ensures Reaches(db, c, e)
  {
    hide Next, Proper;
    var path :| Leads(db, path, d, e);
    var longer := [c] + path;
    forall i | 0 <= i < |longer| - 1 ensures longer[i + 1] in Next(db, longer[i]) {
      if i > 0 { assert longer[i] == path[i - 1] && longer[i + 1] == path[i]; }
    }
    assert Leads(db, longer, c, e);
  }

  // -------------------------------------------------------- one step of the search

  ghost function Result(db: Database, c: Config, cut: ThunkRet): Outcome
    requires LookupReady(db.facts) && Proper(c) && cut >= FIRST_CUT
  {
    Run(db, false, c.st, c.k, cut)
  }

  /** What the results of the steps say about the outcome `o`: it is a failure when they all
      are, and otherwise it comes from one of them. */
  ghost predicate ComesFrom(db: Database, cs: seq<Config>, cut: ThunkRet, o: Outcome)
    requires LookupReady(db.facts) && cut >= FIRST_CUT && forall d | d in cs :: Proper(d)
  {
    && (o.ret == NO_EXCEPTION ==> forall d | d in cs :: Result(db, d, cut).ret == NO_EXCEPTION)
    && (o.ret != NO_EXCEPTION ==> exists d | d in cs ::
          Result(db, d, cut).ret == o.ret && (o.ret == cut ==> Result(db, d, cut).store == o.store))
  }

  lemma {:induction false} ComesFromOne(db: Database, d: Config, cut: ThunkRet, o: Outcome)
    requires LookupReady(db.facts) && cut >= FIRST_CUT && Proper(d)
    requires Result(db, d, cut).ret == o.ret && (o.ret == cut ==> Result(db, d, cut).store == o.store)
    ensures ComesFrom(db, [d], cut, o)
  {
    hide Result, Proper;
    assert d in [d];
  }

  lemma {:induction false} EVarStep(db: Database, st: Store, e: nat, t: Term, k: Cont, cut: ThunkRet)
    requires LookupReady(db.facts) && Acyclic(st) && ScopedCont(|st|, k) && cut >= FIRST_CUT
    requires e < |st| && Scoped(|st|, t)
    ensures var o := UnifyEVar(db, false, st, e, t, k, cut);
      if Refused(st, e, t) then o == Outcome(INVALID_PROGRAM, st)
      else ComesFrom(db, NextEVar(st, e, t, k), cut, o)
  {
    var o := UnifyEVar(db, false, st, e, t, k, cut);
    hide ComesFrom;
    if st[e].Some? {
      ComesFromOne(db, Config(st, Pending(Equate(st[e].value, t), k)), cut, o);
    } else if t == EVar(e) {
      ComesFromOne(db, Config(st, k), cut, o);
    } else if !Occurs(st, e, t) {
      BindKeepsAcyclic(st, e, t);
      ComesFromOne(db, Config(st[e := Some(t)], k), cut, o);
    }
  }

  lemma {:induction false} EquateStep(db: Database, st: Store, s: Term, t: Term, k: Cont, cut: ThunkRet)
    requires LookupReady(db.facts) && Acyclic(st) && ScopedCont(|st|, k) && cut >= FIRST_CUT
    requires Scoped(|st|, s) && Scoped(|st|, t)
    ensures var o := Unify(db, false, st, s, t, k, cut);
      if RefusedEquation(st, s, t) then o == Outcome(INVALID_PROGRAM, st)
      else ComesFrom(db, NextEquate(st, s, t, k), cut, o)
  {
    hide Refused;
    var o := Unify(db, false, st, s, t, k, cut);
    match (s, t)
    case (EVar(e), _) => EVarStep(db, st, e, t, k, cut);
    case (_, EVar(e)) => EVarStep(db, st, e, s, k, cut);
    case (Ident(a, _), Ident(b, _)) => if a == b { ComesFromOne(db, Config(st, k), cut, o); }
    case (App(sl, sr), App(tl, tr)) =>
      var rest := Pending(Equate(sr, tr), k);
      assert ScopedCont(|st|, rest);
      ComesFromOne(db, Config(st, Pending(Equate(sl, tl), rest)), cut, o);
    case (Tuple(ss), Tuple(ts)) =>
      if |ss| == |ts| { ComesFromOne(db, Config(st, Pending(EquateFrom(ss, ts, 0), k)), cut, o); }
    case (Range(b, e), Range(b', e')) => if b == b' && e == e' { ComesFromOne(db, Config(st, k), cut, o); }
    case _ =>
  }

  lemma {:induction false} TryStep(
    db: Database, st: Store, eqs: seq<Equation>, i: nat, k: Cont, cut: ThunkRet)
    requires LookupReady(db.facts) && Acyclic(st) && ScopedCont(|st|, k) && cut >= FIRST_CUT
    requires i <= |eqs| && ScopedEquations(|st|, eqs)
    ensures var o := Try(db, false, st, eqs, i, k, cut);
      && (o.ret == NO_EXCEPTION ==> forall j | i <= j < |eqs| ::
            Unify(db, false, st, eqs[j].lhs, eqs[j].rhs, k, cut).ret == NO_EXCEPTION)
      && (o.ret != NO_EXCEPTION ==> exists j | i <= j < |eqs| ::
            Unify(db, false, st, eqs[j].lhs, eqs[j].rhs, k, cut) == o)
    decreases |eqs| - i
  {
    hide Unify;
    if i < |eqs| && Unify(db, false, st, eqs[i].lhs, eqs[i].rhs, k, cut).ret == NO_EXCEPTION {
      TryStep(db, st, eqs, i + 1, k, cut);
    }
  }

  lemma {:induction false} AtomIsTry(db: Database, st: Store, goal: Term, k: Cont, cut: ThunkRet)
    requires LookupReady(db.facts) && Acyclic(st) && ScopedCont(|st|, k) && cut >= FIRST_CUT
    requires Scoped(|st|, goal)
    ensures ScopedEquations(|st|, Alternatives(db, goal))
    ensures MatchAtom(db, false, st, goal, k, cut)
         == if Dead(db, goal) then Outcome(IMPOSSIBLE, st) else Try(db, false, st, Alternatives(db, goal), 0, k, cut)
  {
    AlternativesAreScoped(db, |st|, goal);
    hide Unify;
    if EqualsArgs(goal).Some? && !EqualsArgs(goal).value.lhs.Range? {
      var Equation(a, b) := EqualsArgs(goal).value;
      OneTry(db, st, a, b, k, cut);
    }
  }

  lemma {:induction false} OneTry(db: Database, st: Store, a: Term, b: Term, k: Cont, cut: ThunkRet)
    requires LookupReady(db.facts) && Acyclic(st) && ScopedCont(|st|, k) && cut >= FIRST_CUT
    requires Scoped(|st|, a) && Scoped(|st|, b)
    ensures Try(db, false, st, [Equation(a, b)], 0, k, cut) == Unify(db, false, st, a, b, k, cut)
  {
    hide Unify;
    assert Try(db, false, st, [Equation(a, b)], 1, k, cut) == Outcome(NO_EXCEPTION, st);
  }

  lemma {:induction false} GoalStep(db: Database, st: Store, goal: Term, k: Cont, cut: ThunkRet)
    requires LookupReady(db.facts) && Acyclic(st) && ScopedCont(|st|, k) && cut >= FIRST_CUT
    requires Scoped(|st|, goal) && goal.App?
    ensures var o := SolveGoal(db, false, st, goal, k, cut);
      if Dead(db, goal) then o == Outcome(IMPOSSIBLE, st) else ComesFrom(db, NextGoal(db, st, goal, k), cut, o)
  {
    AtomIsTry(db, st, goal, k, cut);
    if !Dead(db, goal) {
      var eqs, cs := Alternatives(db, goal), NextGoal(db, st, goal, k);
      TryStep(db, st, eqs, 0, k, cut);
      var o := Try(db, false, st, eqs, 0, k, cut);
      forall j | 0 <= j < |eqs|
        ensures Result(db, cs[j], cut) == Unify(db, false, st, eqs[j].lhs, eqs[j].rhs, k, cut)
      {
      }
      hide Unify, Try, Result, MatchAtom;
      if o.ret != NO_EXCEPTION {
        var j :| 0 <= j < |eqs| && Unify(db, false, st, eqs[j].lhs, eqs[j].rhs, k, cut) == o;
        assert cs[j] in cs;
      }
    }
  }

  /** Where the search does not end, its outcome comes from one of the steps. */
  lemma {:induction false} SearchStep(db: Database, c: Config, cut: ThunkRet)
    requires LookupReady(db.facts) && Proper(c) && cut >= FIRST_CUT
    ensures EndOf(db, c, cut) != NO_EXCEPTION ==> Result(db, c, cut) == Outcome(EndOf(db, c, cut), c.st)
    ensures EndOf(db, c, cut) == NO_EXCEPTION ==> ComesFrom(db, Next(db, c), cut, Result(db, c, cut))
  {
    hide Unify, MatchAtom, ComesFrom, RefusedEquation;
    match c.k
    case Done =>
    case Pending(Equate(s, t), next) => EquateStep(db, c.st, s, t, next, cut);
    case Pending(EquateFrom(ss, ts, ofs), next) =>
      if ofs == |ss| {
        ComesFromOne(db, Config(c.st, next), cut, Result(db, c, cut));
      } else {
        EquateStep(db, c.st, ss[ofs], ts[ofs], Pending(EquateFrom(ss, ts, ofs + 1), next), cut);
      }
    case Pending(Goals(goals, cur), next) =>
      if cur == |goals| {
        ComesFromOne(db, Config(c.st, next), cut, Result(db, c, cut));
      } else if goals[cur].App? {
        GoalStep(db, c.st, goals[cur], Pending(Goals(goals, cur + 1), next), cut);
      } else {
        assert SolveGoal(db, false, c.st, goals[cur], Pending(Goals(goals, cur + 1), next), cut)
            == Outcome(INVALID_PROGRAM, c.st);
      }
  }

  // ------------------------------------------------------------- branches are finite

  ghost predicate Less(c: Config, d: Config)
    requires Proper(c) && Proper(d)
  {
    || Unbound(c.st) < Unbound(d.st)
    || (Unbound(c.st) == Unbound(d.st) && GoalsLeft(c.k) < GoalsLeft(d.k))
    || (Unbound(c.st) == Unbound(d.st) && GoalsLeft(c.k) == GoalsLeft(d.k) && Work(c.st, c.k) < Work(d.st, d.k))
  }

  lemma {:induction false} EquateIsLess(st: Store, s: Term, t: Term, k: Cont)
    requires Acyclic(st) && ScopedCont(|st|, k) && Scoped(|st|, s) && Scoped(|st|, t)
    ensures forall d | d in NextEquate(st, s, t, k) :: Less(d, Config(st, Pending(Equate(s, t), k)))
  {
    if s.EVar? {
      EVarIsLess(st, s.id, t, k);
    } else if t.EVar? {
      EVarIsLess(st, t.id, s, k);
    } else if s.App? && t.App? {
      var rest := Pending(Equate(s.rhs, t.rhs), k);
      assert Work(st, rest) == 1 + Size(st, s.rhs) + Size(st, t.rhs) + Work(st, k) && GoalsLeft(rest) == GoalsLeft(k);
      assert Less(Config(st, Pending(Equate(s.lhs, t.lhs), rest)), Config(st, Pending(Equate(s, t), k)));
    }
  }

  lemma {:induction false} EVarIsLess(st: Store, e: nat, t: Term, k: Cont)
    requires Acyclic(st) && ScopedCont(|st|, k) && e < |st| && Scoped(|st|, t)
    ensures forall d | d in NextEVar(st, e, t, k) :: Less(d, Config(st, Pending(Equate(EVar(e), t), k)))
  {
    if st[e].None? && t != EVar(e) && !Occurs(st, e, t) { BindLowersUnbound(st, e, t); }
  }

  lemma {:induction false} NextIsLess(db: Database, c: Config)
    requires Proper(c)
    ensures forall d | d in Next(db, c) :: Less(d, c)
  {
    match c.k
    case Done =>
    case Pending(Equate(s, t), next) => EquateIsLess(c.st, s, t, next);
    case Pending(EquateFrom(ss, ts, ofs), next) =>
      if ofs < |ss| {
        var rest := Pending(EquateFrom(ss, ts, ofs + 1), next);
        EquateIsLess(c.st, ss[ofs], ts[ofs], rest);
        assert Work(c.st, Pending(Equate(ss[ofs], ts[ofs]), rest)) <= Work(c.st, c.k);
        assert GoalsLeft(Pending(Equate(ss[ofs], ts[ofs]), rest)) == GoalsLeft(c.k);
      }
    case Pending(Goals(goals, cur), next) =>
      if AtGoal(c) && goals[cur].App? {
        var rest := Pending(Goals(goals, cur + 1), next);
        assert GoalsLeft(rest) < GoalsLeft(c.k);
        forall d | d in Next(db, c) ensures Less(d, c) {
          assert d.st == c.st && d.k.next == rest && GoalsLeft(d.k) == GoalsLeft(rest);
        }
      }
  }

  // ---------------------------------------------------- results and ends of branches

  /** Whatever the search answers, a branch ends that way; the assignments that a solution
      leaves are those at the end of its branch. */
  lemma {:induction false} ResultIsReached(db: Database, c: Config, cut: ThunkRet) returns (d: Config)
    requires LookupReady(db.facts) && Proper(c) && cut >= FIRST_CUT
    ensures Result(db, c, cut).ret != NO_EXCEPTION ==>
      && Reaches(db, c, d) && Proper(d) && EndOf(db, d, cut) == Result(db, c, cut).ret
      && (Result(db, c, cut).ret == cut ==> d.st == Result(db, c, cut).store)
    decreases Unbound(c.st), GoalsLeft(c.k), Work(c.st, c.k)
  {
    SearchStep(db, c, cut);
    var o := Result(db, c, cut);
    d := c;
    hide Result, Next, EndOf, Reaches, Less;
    if EndOf(db, c, cut) != NO_EXCEPTION {
      ReachesSelf(db, c);
    } else if o.ret != NO_EXCEPTION {
      var d' :| d' in Next(db, c)
        && Result(db, d', cut).ret == o.ret && (o.ret == cut ==> Result(db, d', cut).store == o.store);
      StepIsLess(db, c, d');
      d := ResultIsReached(db, d', cut);
      ReachesThrough(db, c, d', d);
    }
  }

  lemma {:induction false} StepIsLess(db: Database, c: Config, d: Config)
    requires Proper(c) && d in Next(db, c)
    ensures Proper(d) && |d.st| == |c.st| && Less(d, c)
    ensures Unbound(d.st) <= Unbound(c.st)
    ensures Unbound(d.st) == Unbound(c.st) ==> GoalsLeft(d.k) <= GoalsLeft(c.k)
    ensures Unbound(d.st) == Unbound(c.st) && GoalsLeft(d.k) == GoalsLeft(c.k) ==> Work(d.st, d.k) < Work(c.st, c.k)
  {
    NextIsLess(db, c);
  }

  /** When the search fails, no branch ends otherwise. */
  lemma {:induction false} FailureIsExhaustive(db: Database, path: seq<Config>, cut: ThunkRet)
    requires LookupReady(db.facts) && IsPath(db, path) && cut >= FIRST_CUT
    requires Result(db, path[0], cut).ret == NO_EXCEPTION
    ensures EndOf(db, path[|path| - 1], cut) == NO_EXCEPTION
    decreases |path|
  {
    SearchStep(db, path[0], cut);
    hide Result, EndOf, Next;
    if |path| > 1 {
      assert path[1] in Next(db, path[0]);
      FailureIsExhaustive(db, path[1..], cut);
    }
  }

  /** Some branch from `c` ends with `r`. */
  ghost predicate CanEnd(db: Database, c: Config, cut: ThunkRet, r: ThunkRet) {
    exists d :: Reaches(db, c, d) && Proper(d) && EndOf(db, d, cut) == r
  }

  /** The search fails exactly when no branch ends otherwise, and any other result is the end
      of a branch.  So it calls a program invalid exactly when a branch ends at a refused
      equation or a goal that is none, unless other branches end in other ways. */
  lemma {:induction false} ResultIsExact(db: Database, c: Config, cut: ThunkRet)
    requires LookupReady(db.facts) && Proper(c) && cut >= FIRST_CUT
    ensures var r := Run(db, true, c.st, c.k, cut).ret;
      && (r != NO_EXCEPTION ==> CanEnd(db, c, cut, r))
      && (r == NO_EXCEPTION <==> forall q | q != NO_EXCEPTION :: !CanEnd(db, c, cut, q))
      && (!CanEnd(db, c, cut, cut) && !CanEnd(db, c, cut, IMPOSSIBLE) ==>
            (r == INVALID_PROGRAM <==> CanEnd(db, c, cut, INVALID_PROGRAM)))
  {
    RunSame(db, c.st, c.k, cut);
    var d := ResultIsReached(db, c, cut);
    var r := Result(db, c, cut).ret;
    hide EndOf, Run;
    if r == NO_EXCEPTION {
      forall q | q != NO_EXCEPTION ensures !CanEnd(db, c, cut, q) {
        if CanEnd(db, c, cut, q) {
          var d' :| Reaches(db, c, d') && Proper(d') && EndOf(db, d', cut) == q;
          var path :| Leads(db, path, c, d');
          FailureIsExhaustive(db, path, cut);
        }
      }
    }
  }

  // ------------------------------------------------------------- what branches mean

  ghost predicate Holds(db: Database, sigma: seq<Value>, c: Config)
    requires Proper(c)
  {
    Consistent(sigma, c.st) && Sat(db, sigma, c.k)
  }

  ghost predicate AnyHolds(db: Database, sigma: seq<Value>, cs: seq<Config>)
    requires forall d | d in cs :: Proper(d)
  {
    exists d | d in cs :: Holds(db, sigma, d)
  }

  lemma {:induction false} OneHolds(db: Database, sigma: seq<Value>, d: Config)
    requires Proper(d)
    ensures AnyHolds(db, sigma, [d]) == Holds(db, sigma, d)
  {
    hide Holds, Proper;
    assert d in [d];
  }

  lemma {:induction false} EVarMeaning(db: Database, sigma: seq<Value>, st: Store, e: nat, t: Term, k: Cont)
    requires Acyclic(st) && ScopedCont(|st|, k) && e < |st| && Scoped(|st|, t) && !Refused(st, e, t)
    ensures AnyHolds(db, sigma, NextEVar(st, e, t, k))
        <==> Consistent(sigma, st) && sigma[e] == Eval(sigma, t) && Sat(db, sigma, k)
  {
    hide AnyHolds;
    if st[e].Some? {
      OneHolds(db, sigma, Config(st, Pending(Equate(st[e].value, t), k)));
    } else if t == EVar(e) {
      OneHolds(db, sigma, Config(st, k));
    } else {
      BindKeepsAcyclic(st, e, t);
      OneHolds(db, sigma, Config(st[e := Some(t)], k));
      BindMeans(sigma, st, e, t);
    }
  }

  lemma {:induction false} BindMeans(sigma: seq<Value>, st: Store, e: nat, t: Term)
    requires Acyclic(st) && e < |st| && Scoped(|st|, t) && st[e].None? && Acyclic(st[e := Some(t)])
    ensures Consistent(sigma, st[e := Some(t)]) <==> Consistent(sigma, st) && sigma[e] == Eval(sigma, t)
  {
    var st' := st[e := Some(t)];
    if Consistent(sigma, st') {
      assert st'[e] == Some(t);
      forall v | 0 <= v < |st| && st[v].Some? ensures sigma[v] == Eval(sigma, st[v].value) {
        assert st'[v] == st[v];
      }
    }
  }

  lemma {:induction false} EquateMeaning(db: Database, sigma: seq<Value>, st: Store, s: Term, t: Term, k: Cont)
    requires Acyclic(st) && ScopedCont(|st|, k) && Scoped(|st|, s) && Scoped(|st|, t) && !RefusedEquation(st, s, t)
    ensures AnyHolds(db, sigma, NextEquate(st, s, t, k)) == Holds(db, sigma, Config(st, Pending(Equate(s, t), k)))
  {
    if s.EVar? {
      EVarMeaning(db, sigma, st, s.id, t, k);
    } else if t.EVar? {
      EVarMeaning(db, sigma, st, t.id, s, k);
    } else if Mismatch(s, t) {
      if |sigma| == |st| { MismatchMeans(sigma, s, t); }
    } else {
      PartsMeaning(db, sigma, st, s, t, k);
    }
  }

  lemma {:induction false} PartsMeaning(db: Database, sigma: seq<Value>, st: Store, s: Term, t: Term, k: Cont)
    requires Acyclic(st) && ScopedCont(|st|, k) && Scoped(|st|, s) && Scoped(|st|, t)
    requires !s.EVar? && !t.EVar? && !Mismatch(s, t)
    ensures AnyHolds(db, sigma, NextEquate(st, s, t, k)) == Holds(db, sigma, Config(st, Pending(Equate(s, t), k)))
  {
    hide AnyHolds;
    match s
    case App(sl, sr) =>
      SplitApp(db, s, t, k, |st|);
      var rest := Pending(Equate(sr, t.rhs), k);
      assert ScopedCont(|st|, rest);
      OneHolds(db, sigma, Config(st, Pending(Equate(sl, t.lhs), rest)));
    case Tuple(ss) =>
      OpenTuple(db, ss, t.elements, k, |st|);
      OneHolds(db, sigma, Config(st, Pending(EquateFrom(ss, t.elements, 0), k)));
    case Ident(_, _) =>
      SameAtom(db, s, t, k, |st|);
      OneHolds(db, sigma, Config(st, k));
    case Range(_, _) =>
      SameAtom(db, s, t, k, |st|);
      OneHolds(db, sigma, Config(st, k));
  }

  lemma {:induction false} GoalMeaning(db: Database, sigma: seq<Value>, st: Store, goal: Term, k: Cont)
    requires Acyclic(st) && ScopedCont(|st|, k) && Scoped(|st|, goal) && goal.App?
    ensures AnyHolds(db, sigma, NextGoal(db, st, goal, k))
        <==> Consistent(sigma, st) && SatGoal(db, sigma, goal) && Sat(db, sigma, k)
  {
    AlternativesAreScoped(db, |st|, goal);
    var eqs, cs := Alternatives(db, goal), NextGoal(db, st, goal, k);
    forall j | 0 <= j < |eqs|
      ensures Holds(db, sigma, cs[j])
          <==> Consistent(sigma, st) && Eval(sigma, eqs[j].lhs) == Eval(sigma, eqs[j].rhs) && Sat(db, sigma, k)
    {
    }
    if |sigma| == |st| { AlternativesMean(db, sigma, goal); }
    hide Holds, SatGoal, Sat, Eval, Alternatives;
    if Consistent(sigma, st) && SatGoal(db, sigma, goal) && Sat(db, sigma, k) {
      var j :| 0 <= j < |eqs| && Eval(sigma, eqs[j].lhs) == Eval(sigma, eqs[j].rhs);
      assert Holds(db, sigma, cs[j]) && cs[j] in cs;
    }
  }

  /** A goal holds exactly when one of its alternatives does. */
  lemma {:induction false} AlternativesMean(db: Database, sigma: seq<Value>, goal: Term)
    requires Scoped(|sigma|, goal) && goal.App?
    ensures ScopedEquations(|sigma|, Alternatives(db, goal))
    ensures SatGoal(db, sigma, goal)
        <==> var eqs := Alternatives(db, goal);
             exists j | 0 <= j < |eqs| :: Eval(sigma, eqs[j].lhs) == Eval(sigma, eqs[j].rhs)
  {
    AlternativesAreScoped(db, |sigma|, goal);
    match EqualsArgs(goal)
    case Some(Equation(a, b)) =>
      assert Scoped(|sigma|, goal.rhs);
      if a.Range? {
        AnchorsMean(db, sigma, AnchorsAt(db.anchors, a.begin, a.end), a, b);
      } else {
        assert Alternatives(db, goal)[0] == Equation(a, b);
      }
    case None => FactsMean(db, sigma, goal);
  }

  lemma {:induction false} AnchorsMean(db: Database, sigma: seq<Value>, vs: seq<VName>, a: Term, b: Term)
    requires a.Range? && Scoped(|sigma|, b) && vs == AnchorsAt(db.anchors, a.begin, a.end)
    requires ScopedEquations(|sigma|, AgainstAnchors(vs, b))
    ensures (exists v :: Anchor(a.begin, a.end, v) in db.anchors && Eval(sigma, VNameTerm(v)) == Eval(sigma, b))
        <==> var eqs := AgainstAnchors(vs, b);
             exists j | 0 <= j < |eqs| :: Eval(sigma, eqs[j].lhs) == Eval(sigma, eqs[j].rhs)
  {
    hide VNameTerm, Eval;
    var eqs := AgainstAnchors(vs, b);
    if v :| Anchor(a.begin, a.end, v) in db.anchors && Eval(sigma, VNameTerm(v)) == Eval(sigma, b) {
      assert v in vs;
      var j :| 0 <= j < |vs| && vs[j] == v;
      assert Eval(sigma, eqs[j].lhs) == Eval(sigma, eqs[j].rhs);
    }
    if j :| 0 <= j < |eqs| && Eval(sigma, eqs[j].lhs) == Eval(sigma, eqs[j].rhs) {
      assert vs[j] in vs;
    }
  }

  lemma {:induction false} FactsMean(db: Database, sigma: seq<Value>, goal: Term)
    requires Scoped(|sigma|, goal) && ScopedEquations(|sigma|, AgainstFacts(goal, db.facts))
    ensures (exists f :: f in db.facts && Eval(sigma, goal) == Eval(sigma, FactTerm(f)))
        <==> var eqs := AgainstFacts(goal, db.facts);
             exists j | 0 <= j < |eqs| :: Eval(sigma, eqs[j].lhs) == Eval(sigma, eqs[j].rhs)
  {
    hide FactTerm, Eval;
    var eqs := AgainstFacts(goal, db.facts);
    if f :| f in db.facts && Eval(sigma, goal) == Eval(sigma, FactTerm(f)) {
      var j :| 0 <= j < |db.facts| && db.facts[j] == f;
      assert Eval(sigma, eqs[j].lhs) == Eval(sigma, eqs[j].rhs);
    }
    if j :| 0 <= j < |eqs| && Eval(sigma, eqs[j].lhs) == Eval(sigma, eqs[j].rhs) {
      assert db.facts[j] in db.facts;
    }
  }

  /** Where nothing is refused, a configuration holds under a valuation exactly when some step from it
      does. */
  lemma {:induction false} StepMeaning(db: Database, sigma: seq<Value>, c: Config)
    requires Proper(c) && !c.k.Done? && !AtRefused(c)
    ensures Holds(db, sigma, c) == AnyHolds(db, sigma, Next(db, c))
  {
    hide AnyHolds, RefusedEquation;
    match c.k
    case Pending(Equate(s, t), next) => EquateMeaning(db, sigma, c.st, s, t, next);
    case Pending(EquateFrom(ss, ts, ofs), next) =>
      if ofs == |ss| {
        OneHolds(db, sigma, Config(c.st, next));
      } else {
        SplitTuple(db, ss, ts, ofs, next, |c.st|);
        EquateMeaning(db, sigma, c.st, ss[ofs], ts[ofs], Pending(EquateFrom(ss, ts, ofs + 1), next));
      }
    case Pending(Goals(goals, cur), next) =>
      if cur == |goals| {
        OneHolds(db, sigma, Config(c.st, next));
      } else {
        GoalsMeaning(db, sigma, c.st, goals, cur, next);
      }
  }

  lemma {:induction false} GoalsMeaning(
    db: Database, sigma: seq<Value>, st: Store, goals: seq<Term>, cur: nat, next: Cont)
    requires Proper(Config(st, Pending(Goals(goals, cur), next))) && cur < |goals|
    ensures var c := Config(st, Pending(Goals(goals, cur), next));
      Holds(db, sigma, c) == AnyHolds(db, sigma, Next(db, c))
  {
    hide AnyHolds, Sat;
    if |sigma| == |st| { SplitGoals(db, sigma, goals, cur, next); }
    if goals[cur].App? {
      GoalMeaning(db, sigma, st, goals[cur], Pending(Goals(goals, cur + 1), next));
    } else {
      NoneHolds(db, sigma);
    }
  }

  lemma {:induction false} NoneHolds(db: Database, sigma: seq<Value>)
    ensures !AnyHolds(db, sigma, [])
  {
  }

  // ---------------------------------------------------------- refused equations

  ghost predicate AliasEquation(st: Store, s: Term, t: Term)
    requires Acyclic(st) && Scoped(|st|, s) && Scoped(|st|, t)
  {
    match (s, t)
    case (EVar(e), _) => Alias(st, e, t)
    case (_, EVar(e)) => Alias(st, e, s)
    case _ => false
  }

  /** The refused equation is between two names of one variable. */
  ghost predicate AtAlias(c: Config)
    requires Proper(c)
  {
    && AtRefused(c)
    && match c.k.task
       case Equate(s, t) => AliasEquation(c.st, s, t)
       case EquateFrom(ss, ts, ofs) => AliasEquation(c.st, ss[ofs], ts[ofs])
       case Goals(_, _) => false
  }

  /** The work that comes after the refused equation. */
  ghost function AfterRefused(c: Config): Cont
    requires Proper(c) && AtRefused(c)
  {
    match c.k.task
    case EquateFrom(ss, ts, ofs) => Pending(EquateFrom(ss, ts, ofs + 1), c.k.next)
    case _ => c.k.next
  }

  lemma {:induction false} RefusedMeans(sigma: seq<Value>, st: Store, s: Term, t: Term)
    requires Acyclic(st) && Scoped(|st|, s) && Scoped(|st|, t) && RefusedEquation(st, s, t) && Consistent(sigma, st)
    ensures Eval(sigma, s) == Eval(sigma, t) <==> AliasEquation(st, s, t)
  {
    if s.EVar? {
      OccursDecides(st, s.id, t);
    } else {
      OccursDecides(st, t.id, s);
    }
  }

  /** A refused equation between names of one variable says nothing, so that the rest of the
      work decides; any other has no solution. */
  lemma {:induction false} RefusedDecides(db: Database, sigma: seq<Value>, c: Config)
    requires Proper(c) && AtRefused(c) && Consistent(sigma, c.st)
    ensures ScopedCont(|c.st|, AfterRefused(c))
    ensures Sat(db, sigma, c.k) <==> AtAlias(c) && Sat(db, sigma, AfterRefused(c))
  {
    match c.k.task
    case Equate(s, t) => RefusedMeans(sigma, c.st, s, t);
    case EquateFrom(ss, ts, ofs) =>
      SplitTuple(db, ss, ts, ofs, c.k.next, |c.st|);
      RefusedMeans(sigma, c.st, ss[ofs], ts[ofs]);
    case Goals(_, _) => assert false;
  }

  // ------------------------------------------------------------- whole branches

  lemma {:induction false} PathIsSound(db: Database, sigma: seq<Value>, path: seq<Config>)
    requires IsPath(db, path) && Holds(db, sigma, path[|path| - 1])
    ensures Holds(db, sigma, path[0])
    decreases |path|
  {
    if |path| > 1 {
      var c := path[0];
      assert path[1] in Next(db, c);
      hide Next, Proper;
      PathIsSound(db, sigma, path[1..]);
      RefusedHasNoStep(db, c);
      StepMeaning(db, sigma, c);
    }
  }

  lemma {:induction false} RefusedHasNoStep(db: Database, c: Config)
    requires Proper(c) && Next(db, c) != []
    ensures !c.k.Done? && !AtRefused(c)
  {
  }

  /** Whatever a valuation satisfies at the end of a branch it satisfies at its start. */
  lemma {:induction false} BranchIsSound(db: Database, sigma: seq<Value>, c: Config, d: Config)
    requires Reaches(db, c, d) && Proper(c) && Proper(d) && Holds(db, sigma, d)
    ensures Holds(db, sigma, c)
  {
    var path :| Leads(db, path, c, d);
    PathIsSound(db, sigma, path);
  }

  /** A valuation that satisfies the work satisfies a branch to its end, where nothing is left
      to do or an equation between names of one variable is refused. */
  lemma {:induction false} SatisfiedBranch(db: Database, sigma: seq<Value>, c: Config) returns (d: Config)
    requires Proper(c) && Holds(db, sigma, c)
    ensures Proper(d) && Reaches(db, c, d) && Holds(db, sigma, d) && (d.k.Done? || AtAlias(d))
    decreases Unbound(c.st), GoalsLeft(c.k), Work(c.st, c.k)
  {
    if c.k.Done? {
      ReachesSelf(db, c);
      d := c;
    } else if AtRefused(c) {
      RefusedDecides(db, sigma, c);
      ReachesSelf(db, c);
      d := c;
    } else {
      StepMeaning(db, sigma, c);
      var d' :| d' in Next(db, c) && Holds(db, sigma, d');
      StepIsLess(db, c, d');
      hide Next, Holds, Reaches, AtAlias;
      d := SatisfiedBranch(db, sigma, d');
      ReachesThrough(db, c, d', d);
    }
  }

  /** Work can be satisfied exactly when some branch can, at the end of which nothing is left
      to do or an equation between names of one variable is refused. */
  lemma {:induction false} SatisfiableIff(db: Database, c: Config)
    requires Proper(c)
    ensures (exists sigma :: Holds(db, sigma, c))
        <==> exists d, sigma :: Proper(d) && Reaches(db, c, d) && (d.k.Done? || AtAlias(d)) && Holds(db, sigma, d)
  {
    if sigma :| Holds(db, sigma, c) { var d := SatisfiedBranch(db, sigma, c); }
    hide Reaches, Holds, AtAlias;
    if d, sigma :| Proper(d) && Reaches(db, c, d) && (d.k.Done? || AtAlias(d)) && Holds(db, sigma, d) {
      BranchIsSound(db, sigma, c, d);
    }
  }
}
