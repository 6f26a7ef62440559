/** The verifier: collecting entries as facts, preparing the database, and checking
    all goals against it. */
module Verifiers {
  import opened Wrappers
  import opened Terms
  import opened Facts
  import opened FactIndex
  import opened Solver
  import opened GoalGroups
  import opened SolverMachine
  import opened Sorting
  import opened SymbolTables
  import opened FactDatabase
  import opened EntryTexts
  import Decided = DecidedGroups

  class Verifier {
    const symbolTable: SymbolTable
    /** Reading a `size_t` from a string stream. */
    const parseSize: string -> nat
    var facts: seq<Fact>
    var anchors: seq<Anchor>
    var databasePrepared: bool
    var ignoreDups: bool

    ghost predicate Valid()
      reads this, symbolTable
    {
      && symbolTable.Valid() && TOKENS <= symbolTable.reverseMap
      && (forall f | f in facts :: Known(|symbolTable.reverseMap|, f))
      && (databasePrepared ==> LookupReady(facts))
    }

    /** The offset a symbol's text spells. */
    function Offset(): nat -> nat
      reads symbolTable
    {
      var texts := symbolTable.reverseMap;
      (s: nat) => if s < |texts| then parseSize(texts[s]) else 0
    }

    constructor (parseSize: string -> nat)
      ensures Valid() && fresh(symbolTable) && this.parseSize == parseSize
      ensures facts == [] && anchors == [] && !databasePrepared && !ignoreDups
    {
      this.parseSize := parseSize;
      var table := InternTokens();
      symbolTable := table;
      facts, anchors, databasePrepared, ignoreDups := [], [], false, false;
    }

    method IdentifierFor(text: string) returns (symbol: nat)
      requires Valid()
      modifies symbolTable
      ensures Valid() && old(symbolTable.reverseMap) <= symbolTable.reverseMap
      ensures symbol < |symbolTable.reverseMap| && symbolTable.reverseMap[symbol] == text
    {
      symbol := symbolTable.Intern(text);
    }

    method IdentifierOrEmpty(text: string) returns (symbol: nat)
      requires Valid()
      modifies symbolTable
      ensures Valid() && old(symbolTable.reverseMap) <= symbolTable.reverseMap
      ensures symbol < |symbolTable.reverseMap| && symbolTable.reverseMap[symbol] == text
    {
      if text == "" { symbol := EMPTY; } else { symbol := IdentifierFor(text); }
    }

    method ConvertVName(names: Names.VName) returns (v: VName)
      requires Valid()
      modifies symbolTable
      ensures Valid() && old(symbolTable.reverseMap) <= symbolTable.reverseMap
      ensures KnownNode(|symbolTable.reverseMap|, Named(v)) && VNameText(symbolTable.reverseMap, v) == names
    {
      hide Valid, Known;
      var a := IdentifierOrEmpty(names.signature);
      var b := IdentifierOrEmpty(names.corpus);
      var c := IdentifierOrEmpty(names.root);
      var d := IdentifierOrEmpty(names.path);
      var e := IdentifierOrEmpty(names.language);
      v := VName(a, b, c, d, e);
    }

    method ConvertNode(names: Option<Names.VName>) returns (node: Node)
      requires Valid()
      modifies symbolTable
      ensures Valid() && old(symbolTable.reverseMap) <= symbolTable.reverseMap
      ensures KnownNode(|symbolTable.reverseMap|, node) && NodeText(symbolTable.reverseMap, node) == names
    {
      node := Plain(EMPTY);
      if names.Some? {
        var v := ConvertVName(names.value);
        node := Named(v);
      }
    }

    /** The edge kind, fact name and fact value of an entry. */
    method ConvertLabels(entry: Entry) returns (edgeKind: nat, name: nat, value: nat)
      requires Valid()
      modifies symbolTable
      ensures Valid() && old(symbolTable.reverseMap) <= symbolTable.reverseMap
      ensures var texts := symbolTable.reverseMap;
        && edgeKind < |texts| && texts[edgeKind] == Normalized(entry).edgeKind
        && name < |texts| && texts[name] == Normalized(entry).factName
        && value < |texts| && texts[value] == Normalized(entry).factValue
    {
      var dot := LastDot(entry.edgeKind);
      if 0 < dot < |entry.edgeKind| - 1 {
        edgeKind, value := ConvertTwo(entry.edgeKind[..dot], entry.edgeKind[dot + 1..]);
        name := ORDINAL_NAME;
        assert symbolTable.reverseMap[ORDINAL_NAME] == TOKENS[ORDINAL_NAME];
        return;
      }
      edgeKind := IdentifierOrEmpty(entry.edgeKind);
      name, value := ConvertTwo(entry.factName, entry.factValue);
    }

    method ConvertTwo(a: string, b: string) returns (x: nat, y: nat)
      requires Valid()
      modifies symbolTable
      ensures Valid() && old(symbolTable.reverseMap) <= symbolTable.reverseMap
      ensures x < |symbolTable.reverseMap| && symbolTable.reverseMap[x] == a
      ensures y < |symbolTable.reverseMap| && symbolTable.reverseMap[y] == b
    {
      hide Valid, Known;
      x := IdentifierOrEmpty(a);
      y := IdentifierOrEmpty(b);
    }

    /** The stored fact reads back as the entry, and so do all earlier ones. */
    method AssertSingleFact(entry: Entry)
      requires Valid()
      modifies this`facts, this`databasePrepared, symbolTable
      ensures Valid() && !databasePrepared && old(symbolTable.reverseMap) <= symbolTable.reverseMap
      ensures |facts| == |old(facts)| + 1 && facts == old(facts) + [facts[|old(facts)|]]
      ensures Known(|symbolTable.reverseMap|, facts[|old(facts)|])
      ensures FactText(symbolTable.reverseMap, facts[|old(facts)|]) == Normalized(entry)
    {
      var fact := ConvertEntry(entry);
      hide Normalized, FactText;
      databasePrepared := false;
      facts := facts + [fact];
    }

    method ConvertEntry(entry: Entry) returns (fact: Fact)
      requires Valid()
      modifies symbolTable
      ensures Valid() && old(symbolTable.reverseMap) <= symbolTable.reverseMap
      ensures Known(|symbolTable.reverseMap|, fact) && FactText(symbolTable.reverseMap, fact) == Normalized(entry)
    {
      hide Valid, Normalized, NodeText, KnownNode;
      var source := ConvertNode(entry.source);
      ghost var before := symbolTable.reverseMap;
      var edgeKind, name, value := ConvertLabels(entry);
      ghost var between := symbolTable.reverseMap;
      var target := ConvertNode(entry.target);
      NodeTextStable(before, between, source);
      NodeTextStable(between, symbolTable.reverseMap, source);
      KeepsEnds(entry);
      fact := Fact(source, edgeKind, target, name, value);
    }

    /** The stored facts, read back as entries. */
    ghost function Entries(): seq<Entry>
      requires Valid()
      reads this, symbolTable
    {
      FactTexts(symbolTable.reverseMap, facts)
    }

    /** Stores entries one after the other. */
    method AssertFacts(entries: seq<Entry>)
      requires Valid()
      modifies this`facts, this`databasePrepared, symbolTable
      ensures Valid() && |Entries()| == |old(Entries())| + |entries| && old(Entries()) <= Entries()
      ensures forall i | 0 <= i < |entries| :: Entries()[|old(Entries())| + i] == Normalized(entries[i])
      ensures entries != [] ==> !databasePrepared
      ensures entries == [] ==> databasePrepared == old(databasePrepared)
    {
      for n := 0 to |entries|
        invariant Valid() && |Entries()| == |old(Entries())| + n && old(Entries()) <= Entries()
        invariant forall i | 0 <= i < n :: Entries()[|old(Entries())| + i] == Normalized(entries[i])
        invariant n > 0 ==> !databasePrepared
        invariant n == 0 ==> databasePrepared == old(databasePrepared)
      {
        hide Normalized;
        ghost var before, texts := facts, symbolTable.reverseMap;
        AssertSingleFact(entries[n]);
        FactTextsGrow(texts, symbolTable.reverseMap, before, facts[|before|]);
      }
    }

    /** The part of the pass that follows anchors. */
    method TrackAnchor(fb: Fact, vname0: Option<VName>, start0: nat, found0: seq<Anchor>)
      returns (lastVName: Option<VName>, lastStart: nat, found: seq<Anchor>)
      requires symbolTable.Valid() && fb.source.Named? && IsNodeFact(fb) && Known(|symbolTable.reverseMap|, fb)
      ensures Tracker(lastVName, lastStart, found) == Track(Offset(), Tracker(vname0, start0, found0), fb)
    {
      lastVName, lastStart, found := vname0, start0, found0;
      var vname := fb.source.vname;
      if fb.name == KIND && fb.value == ANCHOR {
        lastVName, lastStart := Some(vname), NO_OFFSET;
      } else if lastVName.Some? && fb.name == START {
        if lastVName == Some(vname) {
          lastStart := parseSize(symbolTable.reverseMap[fb.value]);
        } else {
          lastVName, lastStart := None, NO_OFFSET;
        }
      } else if lastStart != NO_OFFSET && fb.name == END {
        if lastVName == Some(vname) {
          var end := parseSize(symbolTable.reverseMap[fb.value]);
          found := found + [Anchor(lastStart, end, vname)];
        }
        lastVName, lastStart := None, NO_OFFSET;
      }
    }

    /** What the pass has found of the first `f` facts. */
    ghost predicate Checked(s: seq<Fact>, f: nat, isOk: bool, t: Tracker)
      requires f <= |s|
      reads this, symbolTable
    {
      (isOk <==> NeighboursOk(ignoreDups, s[..f])) && (isOk ==> Tracked(s[..f], Offset(), t))
    }

    /** Checks a fact and its predecessor. */
    method CheckOne(s: seq<Fact>, f: nat, isOk0: bool, vname0: Option<VName>, start0: nat, found0: seq<Anchor>)
      returns (isOk: bool, lastVName: Option<VName>, lastStart: nat, found: seq<Anchor>)
      requires symbolTable.Valid() && SortedBy(EncodedFactLessThan, s) && f < |s|
        && Known(|symbolTable.reverseMap|, s[f])
      requires !ReadsMissingSource(multiset(s)) && Checked(s, f, isOk0, Tracker(vname0, start0, found0))
      ensures Checked(s, f + 1, isOk, Tracker(lastVName, lastStart, found))
    {
      isOk, lastVName, lastStart, found := isOk0, vname0, start0, found0;
      var fb := s[f];
      MissingSourceIsRead(s);
      StepChecks(ignoreDups, s, f, Offset(), isOk0, Tracker(vname0, start0, found0));
      hide Tracked, Track, SortedBy, NeighboursOk, FactHasValidForm, ReadsMissingSource, Known, Offset;
      if !FactHasValidForm(fb) { return false, lastVName, lastStart, found; }
      ValidIsNamed(fb);
      TrackSkips(Offset(), Tracker(vname0, start0, found0), fb);
      if IsNodeFact(fb) { lastVName, lastStart, found := TrackAnchor(fb, lastVName, lastStart, found); }
      if f == 0 { return; }
      var fa := s[f - 1];
      assert fa.source.Named?;
      if !ignoreDups && fa == fb { return false, lastVName, lastStart, found; }
      if Conflict(fa, fb) { isOk := false; }
    }

    /** The pass over the sorted facts: checks each fact and its predecessor, and
        collects the anchors that `AddAnchor` will record. */
    method CheckFacts(s: seq<Fact>) returns (isOk: bool, found: seq<Anchor>)
      requires symbolTable.Valid() && SortedBy(EncodedFactLessThan, s)
      requires forall i | 0 <= i < |s| :: Known(|symbolTable.reverseMap|, s[i])
      requires !ReadsMissingSource(multiset(s))
      ensures isOk <==> FactsOk(ignoreDups, multiset(s))
      ensures isOk ==> ExactAnchors(multiset(s), Offset(), found)
    {
      hide Tracked, SortedBy, NeighboursOk, ReadsMissingSource, FactsOk, ExactAnchors, Known, Offset;
      isOk, found := true, [];
      var lastVName: Option<VName>, lastStart := None, NO_OFFSET;
      assert s[..0] == [];
      NothingChecked(ignoreDups, Offset());
      NeighboursIffAllPairs(ignoreDups, s);
      for f := 0 to |s|
        invariant Checked(s, f, isOk, Tracker(lastVName, lastStart, found))
      {
        isOk, lastVName, lastStart, found := CheckOne(s, f, isOk, lastVName, lastStart, found);
      }
      assert s[..|s|] == s;
      TrackedIsExact(s, Offset(), Tracker(lastVName, lastStart, found));
    }

    /** Accepts the facts exactly when they are well formed, free of duplicates (unless
        those are ignored) and give no node two values for one fact name; then records
        exactly one anchor for each one the facts describe and leaves the same facts in
        lookup order. */
    method PrepareDatabase() returns (ok: bool)
      requires Valid() && !ReadsMissingSource(multiset(facts))
      modifies this`facts, this`anchors, this`databasePrepared
      ensures Valid() && multiset(facts) == multiset(old(facts)) && databasePrepared == ok
      ensures old(databasePrepared) ==> ok && facts == old(facts) && anchors == old(anchors)
      ensures !old(databasePrepared) ==> (ok <==> FactsOk(ignoreDups, multiset(facts)))
      ensures ok ==> LookupReady(facts)
      ensures !old(databasePrepared) && ok ==>
        old(anchors) <= anchors && ExactAnchors(multiset(facts), Offset(), anchors[|old(anchors)|..])
    {
      if databasePrepared { return true; }
      SortFacts(EncodedFactLessThan, facts);
      facts := Sort(EncodedFactLessThan, facts);
      var isOk, found := CheckFacts(facts);
      anchors := anchors + found;
      assert anchors[|old(anchors)|..] == found;
      if isOk {
        SortFacts(FastLookupFactLessThan, facts);
        facts := Sort(FastLookupFactLessThan, facts);
        ValidIsIndexable(facts);
      }
      databasePrepared := isOk;
      ok := isOk;
    }

    /** Succeeds only if the facts are acceptable and the assignments left in place make
        every positive group hold and every negated group fail, whatever is added. */
    method VerifyAllGoals(
      evars: seq<EVarNode>, groups: seq<GoalGroup>, inspect: bool) returns (ok: bool, search: Search?)
      requires Valid() && !ReadsMissingSource(multiset(facts))
      requires ScopedGroups(|evars|, groups)
      requires forall i, j | 0 <= i < j < |evars| :: evars[i] != evars[j]
      requires forall i | 0 <= i < |evars| :: evars[i].current.None?
      modifies this`facts, this`anchors, this`databasePrepared, evars
      ensures Valid() && multiset(facts) == multiset(old(facts))
      ensures databasePrepared <==> old(databasePrepared) || FactsOk(ignoreDups, multiset(facts))
      ensures ok <==> databasePrepared && Result(evars, groups, inspect) == SOLVED
      ensures databasePrepared && inspect && !ok ==> Unsolved(Database(facts, anchors), |evars|, groups)
      ensures ok ==> !Fails(Database(facts, anchors), |evars|, groups)
      ensures ok ==> LookupReady(facts) && search != null && search.evars == evars && Acyclic(search.Bindings())
      ensures ok && !old(databasePrepared) ==>
        && FactsOk(ignoreDups, multiset(facts))
        && old(anchors) <= anchors && ExactAnchors(multiset(facts), Offset(), anchors[|old(anchors)|..])
      ensures ok ==> forall i | 0 <= i < |groups| :: GroupHolds(Database(facts, anchors), search.Bindings(), groups[i])
    {
      search := null;
      ok := PrepareDatabase();
      if !ok { return; }
      search := new Search(Database(facts, anchors), evars, groups);
      assert search.Bindings() == NoBindings(|evars|);
      WhyUnsolved(search.db, |evars|, groups, inspect);
      ok := search.Solve(inspect);
    }

    /** What the search answers on the prepared database. */
    ghost function Result(evars: seq<EVarNode>, groups: seq<GoalGroup>, inspect: bool): ThunkRet
      requires ScopedGroups(|evars|, groups) && LookupReady(facts)
      reads this
    {
      NothingIsAcyclic(|evars|);
      SolveGoalGroups(Database(facts, anchors), NoBindings(|evars|), groups, 0, inspect).ret
    }
  }

  lemma {:induction false} NothingChecked(ignoreDups: bool, offset: nat -> nat)
    ensures NeighboursOk(ignoreDups, []) && Tracked([], offset, Tracker(None, NO_OFFSET, []))
  {
  }

  lemma {:induction false} KeepsEnds(entry: Entry)
    ensures Normalized(entry).source == entry.source && Normalized(entry).target == entry.target
  {
  }

  lemma {:induction false} TableTells(table: SymbolTable)
    requires table.Valid() && TOKENS <= table.reverseMap
    ensures IsTable(table.reverseMap)
  {
  }

  function AllNormalized(entries: seq<Entry>): seq<Entry> {
    seq(|entries|, i requires 0 <= i < |entries| => Normalized(entries[i]))
  }

  /** Entries, stored and prepared: they are accepted exactly when each is a named fact about a
      node, an edge or an edge with an ordinal, none is given twice, and no node gets two values
      under one name; and the anchors are exactly those that the entries tell of.  The pass reads
      no missing source if no entry lacks one, or none is acceptable. */
  method PrepareEntries(parseSize: string -> nat, ignoreDups: bool, entries: seq<Entry>)
    returns (verifier: Verifier, ok: bool)
    requires (forall e | e in entries :: e.source.Some?) || (forall e | e in entries :: !EntryOk(Normalized(e)))
    ensures verifier.Valid() && verifier.databasePrepared == ok
    ensures ok <==> EntriesOk(ignoreDups, AllNormalized(entries))
    ensures ok ==> forall begin, end, name ::
      ReadsAs(verifier.symbolTable.reverseMap, verifier.anchors, begin, end, name)
      <==> Tells(AllNormalized(entries), parseSize, begin, end, name)
  {
    verifier := StoreEntries(parseSize, ignoreDups, entries);
    ghost var facts, texts := verifier.facts, verifier.symbolTable.reverseMap;
    StoredTexts(entries, texts, facts);
    AcceptedTexts(ignoreDups, texts, facts);
    hide Normalized, EntryOk, Known, IsTable, FactsOk, EntriesOk, LookupReady, ExactAnchors, FactTexts;
    ok := verifier.PrepareDatabase();
    if ok {
      assert verifier.anchors[0..] == verifier.anchors;
      AllFoundTexts(texts, facts, parseSize, verifier.Offset(), verifier.anchors);
    }
  }

  method StoreEntries(parseSize: string -> nat, ignoreDups: bool, entries: seq<Entry>) returns (verifier: Verifier)
    ensures fresh(verifier) && fresh(verifier.symbolTable)
    ensures verifier.Valid() && IsTable(verifier.symbolTable.reverseMap)
    ensures verifier.ignoreDups == ignoreDups && verifier.parseSize == parseSize
    ensures !verifier.databasePrepared && verifier.anchors == []
    ensures verifier.Entries() == AllNormalized(entries)
  {
    hide Normalized;
    verifier := new Verifier(parseSize);
    verifier.ignoreDups := ignoreDups;
    verifier.AssertFacts(entries);
    TableTells(verifier.symbolTable);
  }

  lemma {:induction false} StoredTexts(entries: seq<Entry>, texts: seq<string>, facts: seq<Fact>)
    requires IsTable(texts) && AllKnown(texts, facts) && FactTexts(texts, facts) == AllNormalized(entries)
    requires (forall e | e in entries :: e.source.Some?) || (forall e | e in entries :: !EntryOk(Normalized(e)))
    ensures !ReadsMissingSource(multiset(facts))
  {
    var es := AllNormalized(entries);
    assert forall i | 0 <= i < |es| :: es[i] == Normalized(entries[i]) && entries[i] in entries;
    hide EntryOk, IsTable, FactTexts;
    NoSourceIsMissing(texts, facts);
  }

  lemma {:induction false} AllFoundTexts(
    texts: seq<string>, facts: seq<Fact>, parseSize: string -> nat, offset: nat -> nat, found: seq<Anchor>)
    requires IsTable(texts) && AllKnown(texts, facts) && ExactAnchors(multiset(facts), offset, found)
    requires forall x | 0 <= x < |texts| :: offset(x) == parseSize(texts[x])
    ensures forall begin, end, name ::
      ReadsAs(texts, found, begin, end, name) <==> Tells(FactTexts(texts, facts), parseSize, begin, end, name)
  {
    hide IsTable, ReadsAs, Tells, FactTexts, ExactAnchors;
    forall begin, end, name
      ensures ReadsAs(texts, found, begin, end, name)
          <==> Tells(FactTexts(texts, facts), parseSize, begin, end, name)
    {
      FoundTexts(texts, facts, parseSize, offset, found, begin, end, name);
    }
  }

  /** No variable is assigned. */
  ghost function NoBindings(n: nat): Store { seq(n, i => None) }

  /** A group fails where it was reached, or was called invalid there; the latter not if the
      program is safe. */
  ghost predicate Unsolved(db: Database, n: nat, groups: seq<GoalGroup>)
    requires LookupReady(db.facts) && ScopedGroups(n, groups)
  {
    Fails(db, n, groups)
    || (NothingIsAcyclic(n); InvalidSomewhere(db, NoBindings(n), groups, 0) && !Safe(groups))
  }

  ghost predicate Fails(db: Database, n: nat, groups: seq<GoalGroup>)
    requires LookupReady(db.facts) && ScopedGroups(n, groups)
  {
    NothingIsAcyclic(n);
    FailsSomewhere(db, NoBindings(n), groups, 0)
  }

  /** Goals that the search never calls invalid when it starts with no assignments. */
  ghost predicate Safe(groups: seq<GoalGroup>) { Decided.SafeGroups(groups, 0, Decided.Known({}, {})) }

  lemma {:induction false} WhyUnsolved(db: Database, n: nat, groups: seq<GoalGroup>, inspect: bool)
    requires LookupReady(db.facts) && ScopedGroups(n, groups)
    ensures Acyclic(NoBindings(n)) && |NoBindings(n)| == n
    ensures var solved := SolveGoalGroups(db, NoBindings(n), groups, 0, inspect).ret == SOLVED;
      && (inspect && !solved ==> Unsolved(db, n, groups))
      && (solved ==> !Fails(db, n, groups))
  {
    NothingIsAcyclic(n);
    UnsolvedProgram(db, NoBindings(n), groups, 0, inspect);
    if inspect && Safe(groups) { Decided.SafeProgramIsDecided(db, NoBindings(n), groups, 0, Decided.Known({}, {})); }
  }

  lemma {:induction false} NothingIsAcyclic(n: nat)
    ensures Acyclic(NoBindings(n)) && |NoBindings(n)| == n
  {
    assert IsRank(NoBindings(n), seq(n, i => 0));
  }

  /** One more fact is acceptable if it is well formed and goes with its predecessor. */
  lemma {:induction false} StepChecks(
    ignoreDups: bool, s: seq<Fact>, f: nat, offset: nat -> nat, isOk: bool, t: Tracker)
    requires f < |s| && SortedBy(EncodedFactLessThan, s)
    requires (isOk <==> NeighboursOk(ignoreDups, s[..f])) && (isOk ==> Tracked(s[..f], offset, t))
    ensures
      var good := FactHasValidForm(s[f]) && (f > 0 ==> PairOk(ignoreDups, s[f - 1], s[f]));
      && (NeighboursOk(ignoreDups, s[..f + 1]) <==> isOk && good)
      && (isOk && good ==> s[f].source.Named? && Tracked(s[..f + 1], offset, Track(offset, t, s[f])))
  {
    NeighboursAppend(ignoreDups, s, f);
    hide Tracked, Track, SortedBy, NeighboursOk, PairOk;
    if NeighboursOk(ignoreDups, s[..f + 1]) {
      PrefixOk(ignoreDups, s, f + 1);
      assert s[..f + 1] == s[..f] + [s[f]];
      TrackKeeps(s[..f], s[f], offset, t);
    }
  }

  lemma {:induction false} TrackedIsExact(s: seq<Fact>, offset: nat -> nat, t: Tracker)
    ensures Tracked(s, offset, t) ==> ExactAnchors(multiset(s), offset, t.found)
  {
  }

  lemma {:induction false} ValidIsNamed(f: Fact)
    requires FactHasValidForm(f)
    ensures f.source.Named?
  {
  }

  lemma {:induction false} TrackSkips(offset: nat -> nat, t: Tracker, f: Fact)
    requires f.source.Named?
    ensures !IsNodeFact(f) ==> Track(offset, t, f) == t
  {
  }

  lemma {:induction false} SortFacts(less: (Fact, Fact) -> bool, facts: seq<Fact>)
    requires less == EncodedFactLessThan || less == FastLookupFactLessThan
    ensures SortedBy(less, Sort(less, facts)) && multiset(Sort(less, facts)) == multiset(facts)
    ensures forall f :: f in Sort(less, facts) <==> f in facts
  {
    ComparatorsAreTotalOrders();
    TotalIsWeak(less);
    SortSorts(less, facts);
    assert forall f :: f in Sort(less, facts) <==> f in multiset(Sort(less, facts));
  }

  lemma {:induction false} ValidIsIndexable(facts: seq<Fact>)
    requires SortedBy(FastLookupFactLessThan, facts) && forall f | f in multiset(facts) :: FactHasValidForm(f)
    ensures LookupReady(facts)
  {
    forall i | 0 <= i < |facts| ensures Indexable(facts[i]) { assert facts[i] in multiset(facts); }
  }

  // --------------------------------------------------------- small steps of the loop

  ghost predicate NeighboursStep(ignoreDups: bool, s: seq<Fact>, f: nat)
    requires f < |s|
  {
    NeighboursOk(ignoreDups, s[..f + 1]) <==>
      NeighboursOk(ignoreDups, s[..f]) && FactHasValidForm(s[f]) && (f > 0 ==> PairOk(ignoreDups, s[f - 1], s[f]))
  }

  lemma {:induction false} NeighboursAppend(ignoreDups: bool, s: seq<Fact>, f: nat)
    requires f < |s|
    ensures NeighboursStep(ignoreDups, s, f)
  {
    var a, b := s[..f], s[..f + 1];
    assert forall i | 0 <= i < f :: a[i] == b[i] == s[i];
    assert b[f] == s[f];
    if NeighboursOk(ignoreDups, b) {
      assert f > 0 ==> PairOk(ignoreDups, b[f - 1], b[f]);
      forall i | 0 < i < |a| ensures PairOk(ignoreDups, a[i - 1], a[i]) {
        assert PairOk(ignoreDups, b[i - 1], b[i]);
      }
    }
    if NeighboursOk(ignoreDups, a) && FactHasValidForm(s[f]) && (f > 0 ==> PairOk(ignoreDups, s[f - 1], s[f])) {
      forall i | 0 < i < |b| ensures PairOk(ignoreDups, b[i - 1], b[i]) {
        if i < f { assert PairOk(ignoreDups, a[i - 1], a[i]); }
      }
    }
  }

  /** An acceptable prefix of sorted facts is sorted and free of conflicts. */
  lemma {:induction false} PrefixOk(ignoreDups: bool, s: seq<Fact>, n: nat)
    requires n <= |s| && SortedBy(EncodedFactLessThan, s) && NeighboursOk(ignoreDups, s[..n])
    ensures SortedAndOk(s[..n])
  {
    var p := s[..n];
    assert forall i | 0 <= i < n :: p[i] == s[i];
    NeighboursIffAllPairs(ignoreDups, p);
    assert forall x :: x in p <==> x in multiset(p);
  }
}
