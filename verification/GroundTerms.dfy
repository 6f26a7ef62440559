/** Which variables a term mentions, and when the assignments leave none of them open. */
module GroundTerms {
  import opened Terms

  /** The variables in the text of `t`. */
  ghost function Vars(t: Term): set<nat> {
    match t
    case Ident(_, _) => {}
    case Range(_, _) => {}
    case App(l, r) => Vars(l) + Vars(r)
    case Tuple(es) => set i, v | 0 <= i < |es| && v in Vars(es[i]) :: v
    case EVar(id) => {id}
  }

  /** Read through the assignments, `t` has no unassigned variable. */
  ghost predicate GroundIn(st: Store, t: Term)
    requires Acyclic(st) && Scoped(|st|, t)
  {
    forall e | 0 <= e < |st| && st[e].None? :: !Occurs(st, e, t)
  }

  lemma {:induction false} GroundParts(st: Store, t: Term)
    requires Acyclic(st) && Scoped(|st|, t)
    ensures t.App? ==> (GroundIn(st, t) <==> GroundIn(st, t.lhs) && GroundIn(st, t.rhs))
    ensures t.Tuple? ==> (GroundIn(st, t) <==> forall i | 0 <= i < |t.elements| :: GroundIn(st, t.elements[i]))
    ensures t.EVar? && st[t.id].Some? ==> (GroundIn(st, t) <==> GroundIn(st, st[t.id].value))
    ensures t.EVar? && GroundIn(st, t) ==> st[t.id].Some?
  {
    if t.Tuple? && forall i | 0 <= i < |t.elements| :: GroundIn(st, t.elements[i]) {
      forall e | 0 <= e < |st| && st[e].None? ensures !Occurs(st, e, t) {
        assert forall i | 0 <= i < |t.elements| :: GroundIn(st, t.elements[i]);
      }
    }
    if t.EVar? && st[t.id].None? { assert Occurs(st, t.id, t); }
  }

  /** A term is ground in the assignments exactly when its variables are. */
  lemma {:induction false} GroundVars(st: Store, t: Term)
    requires Acyclic(st) && Scoped(|st|, t)
    ensures forall v | v in Vars(t) :: v < |st|
    ensures GroundIn(st, t) <==> forall v | v in Vars(t) :: GroundIn(st, EVar(v))
  {
    GroundParts(st, t);
    hide GroundIn;
    match t
    case Ident(_, _) => SimpleIsGround(st, t);
    case Range(_, _) => SimpleIsGround(st, t);
    case App(l, r) => GroundVars(st, l); GroundVars(st, r);
    case Tuple(es) =>
      forall i | 0 <= i < |es|
        ensures forall v | v in Vars(es[i]) :: v < |st|
        ensures GroundIn(st, es[i]) <==> forall v | v in Vars(es[i]) :: GroundIn(st, EVar(v))
      {
        GroundVars(st, es[i]);
      }
      forall v | v in Vars(t) ensures exists i | 0 <= i < |es| :: v in Vars(es[i]) { }
      forall i, v | 0 <= i < |es| && v in Vars(es[i]) ensures v in Vars(t) { }
    case EVar(_) =>
  }

  lemma {:induction false} SimpleIsGround(st: Store, t: Term)
    requires Acyclic(st) && Scoped(|st|, t) && (t.Ident? || t.Range?)
    ensures GroundIn(st, t)
  {
  }

  /** More assignments do not make a ground term open again. */
  lemma {:induction false} StaysGround(st: Store, st': Store, t: Term)
    requires Acyclic(st) && Acyclic(st') && Extends(st, st') && Scoped(|st|, t) && GroundIn(st, t)
    ensures GroundIn(st', t)
    decreases Level(RankOf(st), t), t
  {
    GroundParts(st, t);
    GroundParts(st', t);
    hide GroundIn;
    match t
    case Ident(_, _) => SimpleIsGround(st', t);
    case Range(_, _) => SimpleIsGround(st', t);
    case App(l, r) => StaysGround(st, st', l); StaysGround(st, st', r);
    case Tuple(es) =>
      forall i | 0 <= i < |es| ensures GroundIn(st', es[i]) { StaysGround(st, st', es[i]); }
    case EVar(e) => StaysGround(st, st', st[e].value);
  }

  lemma {:induction false} GroundIsGroundIn(st: Store, t: Term)
    requires Acyclic(st) && Scoped(|st|, t) && Ground(t)
    ensures GroundIn(st, t) && Vars(t) == {}
  {
    forall e | 0 <= e < |st| && st[e].None? ensures !Occurs(st, e, t) { GroundNeverOccurs(st, e, t); }
    GroundHasNoVars(t);
  }

  lemma {:induction false} GroundHasNoVars(t: Term)
    requires Ground(t)
    ensures Vars(t) == {}
  {
    match t
    case Ident(_, _) =>
    case Range(_, _) =>
    case App(l, r) => GroundHasNoVars(l); GroundHasNoVars(r);
    case Tuple(es) =>
      forall i | 0 <= i < |es| ensures Vars(es[i]) == {} { GroundHasNoVars(es[i]); }
  }

  /** The assignments are of variables in `used` and mention no others. */
  ghost predicate Touches(st: Store, used: set<nat>) {
    forall e | 0 <= e < |st| && st[e].Some? :: e in used && Vars(st[e].value) <= used
  }

  /** A variable that nothing has mentioned yet does not occur. */
  lemma {:induction false} FreshNeverOccurs(st: Store, used: set<nat>, x: nat, t: Term)
    requires Acyclic(st) && Touches(st, used) && Scoped(|st|, t) && x !in used && x !in Vars(t)
    ensures !Occurs(st, x, t)
    decreases Level(RankOf(st), t), t
  {
    match t
    case Ident(_, _) =>
    case Range(_, _) =>
    case App(l, r) => FreshNeverOccurs(st, used, x, l); FreshNeverOccurs(st, used, x, r);
    case Tuple(es) =>
      forall i | 0 <= i < |es| ensures !Occurs(st, x, es[i]) {
        assert x !in Vars(es[i]);
        FreshNeverOccurs(st, used, x, es[i]);
      }
    case EVar(e) =>
      if st[e].Some? { FreshNeverOccurs(st, used, x, st[e].value); }
  }
}
