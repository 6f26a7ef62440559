/** `PrepareDatabase`: validating facts by looking at neighbours only, collecting
    anchors in the same pass, and leaving the facts in lookup order. */
module FactDatabase {
  import opened Wrappers
  import opened Facts
  import opened Solver
  import opened Sorting

  /** `~0`, the offset that means "none yet". */
  const NO_OFFSET: nat := 0xFFFF_FFFF_FFFF_FFFF

  predicate VNameHasValidForm(v: VName) {
    v.signature != EMPTY || v.corpus != EMPTY || v.root != EMPTY || v.path != EMPTY || v.language != EMPTY
  }

  predicate FactHasValidForm(f: Fact) {
    if f.source == Plain(EMPTY) || !(f.source.Named? && VNameHasValidForm(f.source.vname)) then false
    else if f.edgeKind == EMPTY then f.target == Plain(EMPTY) && f.name != EMPTY
    else if f.target == Plain(EMPTY) || !(f.target.Named? && VNameHasValidForm(f.target.vname)) then false
    else if f.name == ROOT then f.value == EMPTY
    else f.name == ORDINAL_NAME
  }

  predicate IsNodeFact(f: Fact) { f.edgeKind == EMPTY && f.target == Plain(EMPTY) }

  /** Two values for one fact about one node. */
  predicate Conflict(a: Fact, b: Fact) {
    a.source == b.source && IsNodeFact(a) && IsNodeFact(b) && a.name == b.name && a.value != b.value
  }

  predicate PairOk(ignoreDups: bool, a: Fact, b: Fact) {
    (ignoreDups || a != b) && !Conflict(a, b)
  }

  ghost predicate NeighboursOk(ignoreDups: bool, s: seq<Fact>) {
    && (forall i | 0 <= i < |s| :: FactHasValidForm(s[i]))
    && (forall i | 0 < i < |s| :: PairOk(ignoreDups, s[i - 1], s[i]))
  }

  /** What makes a collection of facts acceptable, in whatever order they come. */
  ghost predicate FactsOk(ignoreDups: bool, facts: multiset<Fact>) {
    && (forall f | f in facts :: FactHasValidForm(f))
    && (ignoreDups || forall f | f in facts :: facts[f] == 1)
    && (forall a, b | a in facts && b in facts :: !Conflict(a, b))
  }

  // ------------------------------------------------------------- which facts are valid

  function NodeFact(v: VName, name: nat, value: nat): Fact { Fact(Named(v), EMPTY, Plain(EMPTY), name, value) }

  const BLANK: VName := VName(EMPTY, EMPTY, EMPTY, EMPTY, EMPTY)

  /** A named fact about a node, an edge, or an edge with an ordinal. */
  ghost predicate IsShape(f: Fact) {
    || (exists v, n, x :: f == NodeFact(v, n, x) && v != BLANK && n != EMPTY)
    || (exists v, k, w :: f == Fact(Named(v), k, Named(w), ROOT, EMPTY) && v != BLANK && w != BLANK && k != EMPTY)
    || (exists v, k, w, x ::
          f == Fact(Named(v), k, Named(w), ORDINAL_NAME, x) && v != BLANK && w != BLANK && k != EMPTY)
  }

  lemma {:induction false} ValidFormIsShape(f: Fact)
    ensures FactHasValidForm(f) <==> IsShape(f)
  {
    if FactHasValidForm(f) {
      var v := f.source.vname;
      assert v != BLANK;
      if f.edgeKind == EMPTY {
        assert f == NodeFact(v, f.name, f.value);
      } else {
        assert f == Fact(Named(v), f.edgeKind, Named(f.target.vname), f.name, f.value);
      }
    }
  }

  /** A fact on its own is accepted exactly when it has one of the three shapes. */
  lemma {:induction false} AcceptedShapes(ignoreDups: bool, f: Fact)
    ensures FactsOk(ignoreDups, multiset{f}) <==> IsShape(f)
  {
    ValidFormIsShape(f);
    assert f in multiset{f};
  }

  /** Facts are accepted exactly when each has one of the shapes, none is there twice, and no
      node has two values under one name. */
  lemma {:induction false} AcceptedFacts(ignoreDups: bool, facts: multiset<Fact>)
    ensures FactsOk(ignoreDups, facts)
        <==> && (forall f | f in facts :: IsShape(f))
             && (ignoreDups || forall f | f in facts :: facts[f] == 1)
             && (forall v, n, x, y | NodeFact(v, n, x) in facts && NodeFact(v, n, y) in facts :: x == y)
  {
    forall f ensures FactHasValidForm(f) <==> IsShape(f) { ValidFormIsShape(f); }
    if FactsOk(ignoreDups, facts) {
      forall v, n, x, y | NodeFact(v, n, x) in facts && NodeFact(v, n, y) in facts ensures x == y {
        assert !Conflict(NodeFact(v, n, x), NodeFact(v, n, y));
      }
    }
    if forall f | f in facts :: IsShape(f) {
      forall a, b | a in facts && b in facts && Conflict(a, b)
        ensures exists v, n, x, y :: NodeFact(v, n, x) in facts && NodeFact(v, n, y) in facts && x != y
      {
        assert FactHasValidForm(a);
        var v := a.source.vname;
        assert a == NodeFact(v, a.name, a.value) && b == NodeFact(v, a.name, b.value);
      }
    }
  }

  // ------------------------------------------- neighbours speak for all pairs

  /** Between two facts in sorted order, everything shares their common columns. */
  lemma {:induction false} Sandwich(a: Fact, b: Fact, c: Fact)
    requires !EncodedFactLessThan(b, a) && !EncodedFactLessThan(c, b)
    ensures a.source == c.source ==> b.source == a.source
    ensures a.source == c.source && a.edgeKind == c.edgeKind ==> b.edgeKind == a.edgeKind
    ensures a.source == c.source && a.edgeKind == c.edgeKind && a.target == c.target ==> b.target == a.target
    ensures a.source == c.source && a.edgeKind == c.edgeKind && a.target == c.target && a.name == c.name ==>
      b.name == a.name
    ensures a == c ==> b == a
  {
    NodeLessIsLex(a.source, b.source); NodeLessIsLex(b.source, a.source);
    NodeLessIsLex(a.target, b.target); NodeLessIsLex(b.target, a.target);
    NodeKeyInjective(a.source, b.source); NodeKeyInjective(a.target, b.target);
    LexTotal(NodeKey(a.source), NodeKey(b.source));
    LexTotal(NodeKey(a.target), NodeKey(b.target));
    NodeLessIsLex(c.source, b.source); NodeLessIsLex(c.target, b.target);
  }

  lemma {:induction false} PairsOk(ignoreDups: bool, s: seq<Fact>, i: nat, j: nat)
    requires SortedBy(EncodedFactLessThan, s) && NeighboursOk(ignoreDups, s) && i < j < |s|
    ensures PairOk(ignoreDups, s[i], s[j])
    decreases j - i
  {
    if i + 1 < j {
      Sandwich(s[i], s[j - 1], s[j]);
      PairsOk(ignoreDups, s, i, j - 1);
      assert PairOk(ignoreDups, s[j - 1], s[j]);
    } else {
      assert PairOk(ignoreDups, s[j - 1], s[j]);
    }
  }

  /** Checking neighbours in sorted order is checking every pair. */
  lemma {:induction false} NeighboursIffAllPairs(ignoreDups: bool, s: seq<Fact>)
    requires SortedBy(EncodedFactLessThan, s)
    ensures NeighboursOk(ignoreDups, s) <==> FactsOk(ignoreDups, multiset(s))
  {
    if NeighboursOk(ignoreDups, s) { NeighboursSuffice(ignoreDups, s); }
    if FactsOk(ignoreDups, multiset(s)) {
      forall i | 0 <= i < |s| ensures FactHasValidForm(s[i]) { assert s[i] in multiset(s); }
      forall i | 0 < i < |s| ensures PairOk(ignoreDups, s[i - 1], s[i]) {
        assert s[i - 1] in multiset(s) && s[i] in multiset(s);
        CountPositions(s, s[i]);
      }
    }
  }

  lemma {:induction false} NeighboursSuffice(ignoreDups: bool, s: seq<Fact>)
    requires SortedBy(EncodedFactLessThan, s) && NeighboursOk(ignoreDups, s)
    ensures FactsOk(ignoreDups, multiset(s))
  {
    hide SortedBy, FactHasValidForm;
    forall f | f in multiset(s) ensures FactHasValidForm(f) && (ignoreDups || multiset(s)[f] == 1) {
      CountPositions(s, f);
      if !ignoreDups && multiset(s)[f] >= 2 {
        var i, j :| 0 <= i < j < |s| && s[i] == f && s[j] == f;
        PairsOk(ignoreDups, s, i, j);
      }
    }
    forall a, b | a in multiset(s) && b in multiset(s) ensures !Conflict(a, b) {
      var i :| 0 <= i < |s| && s[i] == a;
      var j :| 0 <= j < |s| && s[j] == b;
      if i < j { PairsOk(ignoreDups, s, i, j); } else if j < i { PairsOk(ignoreDups, s, j, i); }
    }
  }

  // ------------------------------------------------------- facts without a source

  /** `a` has no source, and `b` is a well-formed fact that no fact with a source precedes. */
  ghost predicate Exposes(facts: multiset<Fact>, a: Fact, b: Fact) {
    && a in facts && b in facts && !a.source.Named? && FactHasValidForm(b)
    && forall c | c in facts && c.source.Named? :: !EncodedFactLessThan(c, b)
  }

  /** The facts for which the pass reads the source of a fact that has none. */
  ghost predicate ReadsMissingSource(facts: multiset<Fact>) { exists a, b :: Exposes(facts, a, b) }

  lemma {:induction false} PlainComesFirst(a: Fact, b: Fact)
    requires !a.source.Named? && b.source.Named?
    ensures EncodedFactLessThan(a, b)
  {
  }

  /** The pass looks from a well-formed fact at the source of its predecessor: it finds none
      exactly for those facts. */
  lemma {:induction false} MissingSourceIsRead(s: seq<Fact>)
    requires SortedBy(EncodedFactLessThan, s)
    ensures (exists f | 0 < f < |s| :: FactHasValidForm(s[f]) && !s[f - 1].source.Named?)
            <==> ReadsMissingSource(multiset(s))
  {
    if f :| 0 < f < |s| && FactHasValidForm(s[f]) && !s[f - 1].source.Named? { BoundaryExposes(s, f); }
    if a, b :| Exposes(multiset(s), a, b) { var f := ExposedAt(s, a, b); }
  }

  lemma {:induction false} BoundaryExposes(s: seq<Fact>, f: nat)
    requires SortedBy(EncodedFactLessThan, s) && 0 < f < |s| && FactHasValidForm(s[f]) && !s[f - 1].source.Named?
    ensures Exposes(multiset(s), s[f - 1], s[f])
  {
    forall c | c in multiset(s) && c.source.Named? ensures !EncodedFactLessThan(c, s[f]) {
      var j :| 0 <= j < |s| && s[j] == c;
      PlainComesFirst(s[f - 1], c);
      LessIrreflexive(s[f]);
      hide EncodedFactLessThan;
    }
    hide EncodedFactLessThan, FactHasValidForm;
    assert s[f - 1] in multiset(s) && s[f] in multiset(s);
  }

  lemma {:induction false} ExposedAt(s: seq<Fact>, a: Fact, b: Fact) returns (f: nat)
    requires SortedBy(EncodedFactLessThan, s) && Exposes(multiset(s), a, b)
    ensures 0 < f < |s| && FactHasValidForm(s[f]) && !s[f - 1].source.Named?
  {
    var i :| 0 <= i < |s| && s[i] == a;
    var j :| 0 <= j < |s| && s[j] == b;
    PlainComesFirst(a, b);
    assert b.source.Named?;
    ComparatorsAreTotalOrders();
    hide EncodedFactLessThan, FactHasValidForm;
    f := Boundary(s, i, j);
    assert s[f] in multiset(s);
    assert s[f] == b;
  }

  lemma {:induction false} LessIrreflexive(f: Fact)
    ensures !EncodedFactLessThan(f, f)
  {
    ComparatorsAreTotalOrders();
  }

  lemma {:induction false} Boundary(s: seq<Fact>, i: nat, j: nat) returns (f: nat)
    requires i < j < |s| && !s[i].source.Named? && s[j].source.Named?
    ensures i < f <= j && !s[f - 1].source.Named? && s[f].source.Named?
    decreases j - i
  {
    if s[i + 1].source.Named? { f := i + 1; } else { f := Boundary(s, i + 1, j); }
  }

  // --------------------------------------------------------- the anchor machine

  /** The facts say there is an anchor `a`; `offset` reads a symbol's text as a number. */
  ghost predicate Describes(facts: multiset<Fact>, offset: nat -> nat, a: Anchor) {
    && NodeFact(a.vname, KIND, ANCHOR) in facts
    && a.begin != NO_OFFSET
    && (exists v :: NodeFact(a.vname, START, v) in facts && offset(v) == a.begin)
    && (exists v :: NodeFact(a.vname, END, v) in facts && offset(v) == a.end)
  }

  /** Exactly one entry for each described anchor. */
  ghost predicate ExactAnchors(facts: multiset<Fact>, offset: nat -> nat, found: seq<Anchor>) {
    && (forall a :: a in found <==> Describes(facts, offset, a))
    && (forall i, j | 0 <= i < j < |found| :: found[i].vname != found[j].vname)
  }

  /** `last_anchor_vname`, `last_anchor_start`, and the anchors added so far. */
  datatype Tracker = Tracker(vname: Option<VName>, start: nat, found: seq<Anchor>)

  function Track(offset: nat -> nat, t: Tracker, f: Fact): Tracker
    requires f.source.Named?
  {
    if !IsNodeFact(f) then t
    else if f.name == KIND && f.value == ANCHOR then
      t.(vname := Some(f.source.vname), start := NO_OFFSET)
    else if t.vname.Some? && f.name == START then
      if t.vname == Some(f.source.vname) then t.(start := offset(f.value))
      else t.(vname := None, start := NO_OFFSET)
    else if t.start != NO_OFFSET && f.name == END then
      if t.vname == Some(f.source.vname)
      then Tracker(None, NO_OFFSET, t.found + [Anchor(t.start, offset(f.value), f.source.vname)])
      else t.(vname := None, start := NO_OFFSET)
    else t
  }

  ghost predicate Has(p: seq<Fact>, v: VName, name: nat) {
    exists value :: NodeFact(v, name, value) in p
  }

  /** What the tracker knows after reading the sorted, acceptable facts `p`. */
  ghost predicate Tracked(p: seq<Fact>, offset: nat -> nat, t: Tracker) {
    && ExactAnchors(multiset(p), offset, t.found)
    && (t.vname.Some? ==> NodeFact(t.vname.value, KIND, ANCHOR) in p)
    && (t.start != NO_OFFSET ==>
          && t.vname.Some? && !Has(p, t.vname.value, END)
          && exists value :: NodeFact(t.vname.value, START, value) in p && offset(value) == t.start)
    // The node the last fact was about is being tracked if it is an anchor still lacking its end.
    && (|p| > 0 && p[|p| - 1].source.Named? ==>
          var v := p[|p| - 1].source.vname;
          NodeFact(v, KIND, ANCHOR) in p && !Has(p, v, END) ==>
            && t.vname == Some(v)
            && (forall value | NodeFact(v, START, value) in p :: t.start == offset(value))
            && (!Has(p, v, START) ==> t.start == NO_OFFSET))
  }

  ghost predicate SortedAndOk(s: seq<Fact>) {
    && SortedBy(EncodedFactLessThan, s)
    && (forall i | 0 <= i < |s| :: FactHasValidForm(s[i]))
    && (forall a, b | a in s && b in s :: !Conflict(a, b))
  }

  /** In sorted order, names of one node's facts only go up, and its facts are together. */
  lemma {:induction false} EarlierFacts(p: seq<Fact>, f: Fact, v: VName, name: nat)
    requires SortedAndOk(p + [f]) && IsNodeFact(f) && f.source == Named(v) && Has(p, v, name)
    ensures name <= f.name
    ensures |p| > 0 && p[|p| - 1].source == Named(v)
  {
    var value :| NodeFact(v, name, value) in p;
    var i :| 0 <= i < |p| && p[i] == NodeFact(v, name, value);
    var s := p + [f];
    assert s[i] == p[i] && s[|p|] == f && s[|p| - 1] == p[|p| - 1];
    assert !EncodedFactLessThan(s[|p|], s[i]);
    NodeLessIsLex(f.source, f.source);
    LexTotal(NodeKey(f.source), NodeKey(f.source));
    if i < |p| - 1 { Sandwich(s[i], s[|p| - 1], s[|p|]); }
  }

  lemma {:induction false} InAppend(p: seq<Fact>, f: Fact)
    ensures forall x :: x in p + [f] <==> x in p || x == f
    ensures multiset(p + [f]) == multiset(p) + multiset{f}
  {
  }

  lemma {:induction false} StaysDescribed(p: seq<Fact>, f: Fact, offset: nat -> nat, a: Anchor)
    requires Describes(multiset(p), offset, a)
    ensures Describes(multiset(p + [f]), offset, a)
  {
    InAppend(p, f);
    assert forall x | x in multiset(p) :: x in multiset(p + [f]);
  }

  /** The fact that completes a description is its end: the others come before it. */
  lemma {:induction false} CompletedByEnd(p: seq<Fact>, f: Fact, offset: nat -> nat, a: Anchor)
    requires SortedAndOk(p + [f]) && Describes(multiset(p + [f]), offset, a) && !Describes(multiset(p), offset, a)
    ensures f == NodeFact(a.vname, END, f.value)
  {
    InAppend(p, f);
    var v := a.vname;
    var start :| NodeFact(v, START, start) in multiset(p + [f]) && offset(start) == a.begin;
    var end :| NodeFact(v, END, end) in multiset(p + [f]) && offset(end) == a.end;
    hide Describes, SortedAndOk;
    if NodeFact(v, END, end) != f {
      assert NodeFact(v, END, end) in p && Has(p, v, END);
      assert f == NodeFact(v, KIND, ANCHOR) || f == NodeFact(v, START, start) by {
        if f != NodeFact(v, KIND, ANCHOR) && f != NodeFact(v, START, start) {
          AllInPrefix(p, f, offset, a, start, end);
        }
      }
      EarlierFacts(p, f, v, END);
    }
  }

  lemma {:induction false} AllInPrefix(p: seq<Fact>, f: Fact, offset: nat -> nat, a: Anchor, start: nat, end: nat)
    requires Describes(multiset(p + [f]), offset, a) && f != NodeFact(a.vname, KIND, ANCHOR)
    requires f != NodeFact(a.vname, START, start) && NodeFact(a.vname, START, start) in p + [f]
      && offset(start) == a.begin
    requires NodeFact(a.vname, END, end) in p && offset(end) == a.end
    ensures Describes(multiset(p), offset, a)
  {
    InAppend(p, f);
    assert NodeFact(a.vname, KIND, ANCHOR) in multiset(p);
    assert NodeFact(a.vname, START, start) in multiset(p) && NodeFact(a.vname, END, end) in multiset(p);
  }

  /** Only an end fact completes the description of an anchor. */
  lemma {:induction false} NewlyDescribed(p: seq<Fact>, f: Fact, offset: nat -> nat, a: Anchor)
    requires SortedAndOk(p + [f])
    ensures Describes(multiset(p), offset, a) ==> Describes(multiset(p + [f]), offset, a)
    ensures Describes(multiset(p + [f]), offset, a) && !Describes(multiset(p), offset, a) ==>
      && f == NodeFact(a.vname, END, f.value) && a.end == offset(f.value)
      && NodeFact(a.vname, KIND, ANCHOR) in p && !Has(p, a.vname, END)
      && exists v :: NodeFact(a.vname, START, v) in p && offset(v) == a.begin
  {
    if Describes(multiset(p), offset, a) {
      StaysDescribed(p, f, offset, a);
    } else if Describes(multiset(p + [f]), offset, a) {
      CompletedByEnd(p, f, offset, a);
      InAppend(p, f);
      NoOtherEnd(p, f, a.vname);
      var start :| NodeFact(a.vname, START, start) in multiset(p + [f]) && offset(start) == a.begin;
      var end :| NodeFact(a.vname, END, end) in multiset(p + [f]) && offset(end) == a.end;
      hide SortedAndOk;
      assert NodeFact(a.vname, END, end) !in p;
      assert NodeFact(a.vname, START, start) in p;
    }
  }

  lemma {:induction false} NoOtherEnd(p: seq<Fact>, f: Fact, v: VName)
    requires SortedAndOk(p + [f]) && f == NodeFact(v, END, f.value)
    ensures forall value | NodeFact(v, END, value) in p :: value == f.value
  {
    InAppend(p, f);
    forall value | NodeFact(v, END, value) in p ensures value == f.value {
      assert !Conflict(NodeFact(v, END, value), f);
    }
  }

  lemma {:induction false} TrackedUnchanged(p: seq<Fact>, f: Fact, offset: nat -> nat, t: Tracker)
    requires SortedAndOk(p + [f]) && Tracked(p, offset, t)
    requires !IsNodeFact(f) || (f.name != END && f.name != START && !(f.name == KIND && f.value == ANCHOR))
    ensures Tracked(p + [f], offset, t)
  {
    InAppend(p, f);
    forall a ensures Describes(multiset(p + [f]), offset, a) == Describes(multiset(p), offset, a) {
      NewlyDescribed(p, f, offset, a);
    }
    assert FactHasValidForm((p + [f])[|p|]);
    var v := f.source.vname;
    if NodeFact(v, KIND, ANCHOR) in p {
      assert SameSourceAsLast(p, f, v) by { KindBefore(p, f, v); }
    }
    assert forall u, n | n == END || n == START :: Has(p + [f], u, n) == Has(p, u, n);
  }

  ghost predicate SameSourceAsLast(p: seq<Fact>, f: Fact, v: VName) {
    |p| > 0 && p[|p| - 1].source == f.source == Named(v)
  }

  lemma {:induction false} KindBefore(p: seq<Fact>, f: Fact, v: VName)
    requires SortedAndOk(p + [f]) && f.source == Named(v) && NodeFact(v, KIND, ANCHOR) in p
    ensures SameSourceAsLast(p, f, v)
  {
    var i :| 0 <= i < |p| && p[i] == NodeFact(v, KIND, ANCHOR);
    var s := p + [f];
    assert s[i] == p[i] && s[|p|] == f && s[|p| - 1] == p[|p| - 1];
    if i < |p| - 1 { Sandwich(s[i], s[|p| - 1], s[|p|]); }
  }

  lemma {:induction false} TrackedKind(p: seq<Fact>, f: Fact, offset: nat -> nat, t: Tracker)
    requires SortedAndOk(p + [f]) && Tracked(p, offset, t)
    requires f.source.Named? && f == NodeFact(f.source.vname, KIND, ANCHOR)
    ensures Tracked(p + [f], offset, t.(vname := Some(f.source.vname), start := NO_OFFSET))
  {
    InAppend(p, f);
    forall a ensures Describes(multiset(p + [f]), offset, a) == Describes(multiset(p), offset, a) {
      NewlyDescribed(p, f, offset, a);
    }
    var v := f.source.vname;
    if Has(p, v, START) { EarlierFacts(p, f, v, START); }
    if Has(p, v, END) { EarlierFacts(p, f, v, END); }
  }

  lemma {:induction false} TrackedStart(p: seq<Fact>, f: Fact, offset: nat -> nat, t: Tracker)
    requires SortedAndOk(p + [f]) && Tracked(p, offset, t)
    requires f.source.Named? && f == NodeFact(f.source.vname, START, f.value)
    ensures Tracked(p + [f], offset, Track(offset, t, f))
  {
    InAppend(p, f);
    forall a ensures Describes(multiset(p + [f]), offset, a) == Describes(multiset(p), offset, a) {
      NewlyDescribed(p, f, offset, a);
    }
    var v := f.source.vname;
    if Has(p, v, END) { EarlierFacts(p, f, v, END); }
    if NodeFact(v, KIND, ANCHOR) in p { KindBefore(p, f, v); }
    assert forall u :: Has(p + [f], u, END) == Has(p, u, END);
    forall value | NodeFact(v, START, value) in p + [f] ensures value == f.value {
      assert !Conflict(NodeFact(v, START, value), f);
    }
  }

  lemma {:induction false} TrackedEnd(p: seq<Fact>, f: Fact, offset: nat -> nat, t: Tracker)
    requires SortedAndOk(p + [f]) && Tracked(p, offset, t)
    requires f.source.Named? && f == NodeFact(f.source.vname, END, f.value)
    ensures Tracked(p + [f], offset, Track(offset, t, f))
  {
    InAppend(p, f);
    var v, t' := f.source.vname, Track(offset, t, f);
    assert Has(p + [f], v, END);
    if NodeFact(v, KIND, ANCHOR) in p { KindBefore(p, f, v); }
    forall a ensures a in t'.found <==> Describes(multiset(p + [f]), offset, a) {
      EndFound(p, f, offset, t, a);
    }
    if t'.found != t.found {
      forall i | 0 <= i < |t.found| ensures t.found[i].vname != v {
        assert t.found[i] in t.found;
        assert Describes(multiset(p), offset, t.found[i]);
        assert t.found[i].vname == v ==> Has(p, v, END);
      }
    }
  }

  lemma {:induction false} EndFound(p: seq<Fact>, f: Fact, offset: nat -> nat, t: Tracker, a: Anchor)
    requires SortedAndOk(p + [f]) && Tracked(p, offset, t)
    requires f.source.Named? && f == NodeFact(f.source.vname, END, f.value)
    ensures a in Track(offset, t, f).found <==> Describes(multiset(p + [f]), offset, a)
  {
    InAppend(p, f);
    NewlyDescribed(p, f, offset, a);
    var v, t' := f.source.vname, Track(offset, t, f);
    assert a in t.found <==> Describes(multiset(p), offset, a);
    if t'.found != t.found {
      var added := Anchor(t.start, offset(f.value), v);
      assert t'.found == t.found + [added] && t.vname == Some(v);
      var value :| NodeFact(v, START, value) in p && offset(value) == t.start;
      assert NodeFact(v, START, value) in multiset(p + [f]) && f in multiset(p + [f]);
      assert Describes(multiset(p + [f]), offset, added);
    }
    if Describes(multiset(p + [f]), offset, a) && !Describes(multiset(p), offset, a) {
      assert a.vname == v;
      KindBefore(p, f, v);
    }
  }

  /** One step of the pass keeps the tracker exact. */
  lemma {:induction false} TrackKeeps(p: seq<Fact>, f: Fact, offset: nat -> nat, t: Tracker)
    requires SortedAndOk(p + [f]) && Tracked(p, offset, t) && f.source.Named?
    ensures Tracked(p + [f], offset, Track(offset, t, f))
  {
    if !IsNodeFact(f) {
      TrackedUnchanged(p, f, offset, t);
    } else if f.name == KIND && f.value == ANCHOR {
      TrackedKind(p, f, offset, t);
    } else if f.name == START {
      TrackedStart(p, f, offset, t);
    } else if f.name == END {
      TrackedEnd(p, f, offset, t);
    } else {
      TrackedUnchanged(p, f, offset, t);
    }
  }
}
