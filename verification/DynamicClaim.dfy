/** Dynamic claiming: many clients race through atomic `add` on a shared store with
    `slots` entries per VName.  The protocol is a state machine whose events are the
    single steps of the clients, in any interleaving.  The store is assumed never to fail
    or evict, and `hash` stands for the key computed from a VName and a try. */
module DynamicClaim {
  import opened Wrappers
  import opened Sets
  import opened V = VNames

  const NOBODY: V.VName := V.VName("", "", "", "", "")

  /** Between calls, or in the retry loop of a call. */
  datatype Phase = Idle | Trying(claimant: V.VName, vname: V.VName, tries: nat)

  datatype Client = Client(table: map<V.VName, V.VName>, phase: Phase)

  datatype Grant = Grant(client: nat, claimant: V.VName, vname: V.VName, slot: nat)

  datatype Answer = Answer(client: nat, claimant: V.VName, vname: V.VName, granted: bool)

  datatype Setup = Setup(slots: nat, hash: (V.VName, nat) -> nat)

  /** `grants` and `answers` record what happened. */
  datatype State = State(clients: seq<Client>, store: set<nat>, grants: set<Grant>, answers: seq<Answer>)

  datatype Event =
    | Ask(client: nat, claimant: V.VName, vname: V.VName)
    | Step(client: nat)
    | AssignClaim(client: nat, vname: V.VName, claimant: V.VName)
    | Reset(client: nat)

  function Answered(s: State, c: nat, client: Client, claimant: V.VName, v: V.VName, granted: bool): State
    requires c < |s.clients|
  {
    s.(clients := s.clients[c := client], answers := s.answers + [Answer(c, claimant, v, granted)])
  }

  /** One event.  An event that is not possible changes nothing. */
  function Next(setup: Setup, s: State, e: Event): State {
    if e.client >= |s.clients| then s
    else
      var c := e.client;
      var me := s.clients[c];
      match e
      case Ask(_, claimant, v) =>
        if me.phase.Trying? then s
        else if v in me.table then Answered(s, c, me, claimant, v, me.table[v] == claimant)
        else s.(clients := s.clients[c := me.(phase := Trying(claimant, v, 0))])
      case Step(_) =>
        if me.phase.Idle? then s
        else
          var Trying(claimant, v, tries) := me.phase;
          if tries >= setup.slots then
            Answered(s, c, Client(me.table[v := NOBODY], Idle), claimant, v, false)
          else if setup.hash(v, tries) in s.store then
            s.(clients := s.clients[c := me.(phase := Trying(claimant, v, tries + 1))])
          else
            Answered(s, c, Client(me.table[v := claimant], Idle), claimant, v, true)
            .(store := s.store + {setup.hash(v, tries)}, grants := s.grants + {Grant(c, claimant, v, tries)})
      case AssignClaim(_, v, claimant) =>
        if me.phase.Trying? then s else s.(clients := s.clients[c := me.(table := me.table[v := claimant])])
      case Reset(_) =>
        if me.phase.Trying? then s else s.(clients := s.clients[c := me.(table := map[])])
  }

  function Run(setup: Setup, s: State, es: seq<Event>): State {
    if |es| == 0 then s else Next(setup, Run(setup, s, es[..|es| - 1]), es[|es| - 1])
  }

  function Start(n: nat): State {
    State(seq(n, i => Client(map[], Idle)), {}, {}, [])
  }

  // ------------------------------------------------------------ at most `slots` grants

  ghost function GrantsOf(s: State, v: V.VName): set<Grant> { set g | g in s.grants && g.vname == v }

  /** Every grant holds a slot of its own. */
  ghost predicate SlotsHeld(setup: Setup, s: State) {
    && (forall g | g in s.grants :: g.slot < setup.slots && setup.hash(g.vname, g.slot) in s.store)
    && (forall g, g' | g in s.grants && g' in s.grants && g.vname == g'.vname && g.slot == g'.slot :: g == g')
  }

  lemma {:induction false} SlotsStayHeld(setup: Setup, n: nat, es: seq<Event>)
    ensures SlotsHeld(setup, Run(setup, Start(n), es))
    decreases |es|
  {
    if |es| > 0 { SlotsStayHeld(setup, n, es[..|es| - 1]); }
  }

  lemma {:induction false} AtMost(gs: set<Grant>, slots: nat)
    requires forall g | g in gs :: g.slot < slots
    requires forall g, g' | g in gs && g' in gs && g.slot == g'.slot :: g == g'
    ensures |gs| <= slots
    decreases slots
  {
    if slots > 0 {
      if g :| g in gs && g.slot == slots - 1 {
        AtMost(gs - {g}, slots - 1);
      } else {
        AtMost(gs, slots - 1);
      }
    } else {
      assert gs == {};
    }
  }

  /** Over every interleaving, a VName is granted at most `slots` times. */
  lemma {:induction false} GrantsAreBounded(setup: Setup, n: nat, es: seq<Event>, v: V.VName)
    ensures |GrantsOf(Run(setup, Start(n), es), v)| <= setup.slots
  {
    SlotsStayHeld(setup, n, es);
    AtMost(GrantsOf(Run(setup, Start(n), es), v), setup.slots);
  }

  // --------------------------------------------------------------- who answers yes

  ghost predicate HasGrant(s: State, c: nat, v: V.VName, claimant: V.VName) {
    exists g :: g in s.grants && g.client == c && g.vname == v && g.claimant == claimant
  }

  lemma {:induction false} GrantsStay(s: State, s': State)
    requires s.grants <= s'.grants
    ensures forall c, v, claimant | HasGrant(s, c, v, claimant) :: HasGrant(s', c, v, claimant)
  {
    forall c, v, claimant | HasGrant(s, c, v, claimant) ensures HasGrant(s', c, v, claimant) {
      var g :| g in s.grants && g.client == c && g.vname == v && g.claimant == claimant;
      assert g in s'.grants;
    }
  }

  /** Without overrides, only a grant puts a name into a table. */
  ghost predicate TablesHaveGrants(s: State) {
    forall c, v | 0 <= c < |s.clients| && v in s.clients[c].table && s.clients[c].table[v] != NOBODY ::
      HasGrant(s, c, v, s.clients[c].table[v])
  }

  /** Client `c` has an owner for `v`, or said that `v` was granted, only by a grant. */
  ghost predicate YesHasGrant(s: State, c: nat, v: V.VName) {
    && (c < |s.clients| && v in s.clients[c].table && s.clients[c].table[v] != NOBODY ==>
          HasGrant(s, c, v, s.clients[c].table[v]))
    && (forall a | a in s.answers && a.client == c && a.vname == v && a.granted && a.claimant != NOBODY ::
          HasGrant(s, c, v, a.claimant))
  }

  /** Nobody assigns `v` to a claimant by hand at client `c`. */
  ghost predicate NoOverride(es: seq<Event>, c: nat, v: V.VName) {
    forall i | 0 <= i < |es| && es[i].AssignClaim? :: es[i].client != c || es[i].vname != v
  }

  lemma {:induction false} YesNeedsGrant(setup: Setup, n: nat, es: seq<Event>, c: nat, v: V.VName)
    requires NoOverride(es, c, v)
    ensures YesHasGrant(Run(setup, Start(n), es), c, v)
    decreases |es|
  {
    if |es| > 0 {
      YesNeedsGrant(setup, n, es[..|es| - 1], c, v);
      YesStep(setup, Run(setup, Start(n), es[..|es| - 1]), es[|es| - 1], c, v);
    }
  }

  lemma {:induction false} YesStep(setup: Setup, s: State, e: Event, c: nat, v: V.VName)
    requires YesHasGrant(s, c, v) && (e.AssignClaim? ==> e.client != c || e.vname != v)
    ensures YesHasGrant(Next(setup, s, e), c, v)
  {
    var s' := Next(setup, s, e);
    GrantsStay(s, s');
    if e.client < |s.clients| && e.Step? && s.clients[e.client].phase.Trying? {
      var Trying(claimant, w, tries) := s.clients[e.client].phase;
      if s'.grants != s.grants {
        assert Grant(e.client, claimant, w, tries) in s'.grants;
        assert HasGrant(s', e.client, w, claimant);
      }
    }
    hide HasGrant;
  }

  /** Client `c` was told that `v` is owned by the claimant it asked for. */
  ghost predicate SaidYes(s: State, c: nat, v: V.VName) {
    exists a :: a in s.answers && a.client == c && a.vname == v && a.granted && a.claimant != NOBODY
  }

  /** So at most `slots` clients are ever told that they own a VName, not counting those at
      which that very name was assigned by hand. */
  lemma {:induction false} OwnersAreBounded(setup: Setup, n: nat, es: seq<Event>, v: V.VName, owners: set<nat>)
    requires forall c | c in owners :: NoOverride(es, c, v) && SaidYes(Run(setup, Start(n), es), c, v)
    ensures |owners| <= setup.slots
  {
    var s := Run(setup, Start(n), es);
    GrantsAreBounded(setup, n, es, v);
    forall c | c in owners ensures exists g :: g in GrantsOf(s, v) && g.client == c {
      YesNeedsGrant(setup, n, es, c, v);
      var a :| a in s.answers && a.client == c && a.vname == v && a.granted && a.claimant != NOBODY;
      assert HasGrant(s, c, v, a.claimant);
      var g :| g in s.grants && g.client == c && g.vname == v && g.claimant == a.claimant;
      assert g in GrantsOf(s, v);
    }
    NoMoreThan(owners, GrantsOf(s, v));
  }

  /** Distinct clients need distinct grants. */
  lemma {:induction false} NoMoreThan(cs: set<nat>, gs: set<Grant>)
    requires forall c | c in cs :: exists g :: g in gs && g.client == c
    ensures |cs| <= |gs|
    decreases cs
  {
    if cs != {} {
      var c :| c in cs;
      var g :| g in gs && g.client == c;
      forall d | d in cs - {c} ensures exists h :: h in gs - {g} && h.client == d {
        var h :| h in gs && h.client == d;
        assert h in gs - {g};
      }
      NoMoreThan(cs - {c}, gs - {g});
    }
  }

  // ------------------------------------------------------------- answers do not change

  /** A client in the retry loop has no entry for the name it is trying. */
  ghost predicate TriesUnknown(s: State) {
    forall c | 0 <= c < |s.clients| && s.clients[c].phase.Trying? :: s.clients[c].phase.vname !in s.clients[c].table
  }

  /** What client `c` has answered since `from` is what its table says now. */
  ghost predicate Agrees(s: State, c: nat, from: nat) {
    && c < |s.clients| && from <= |s.answers|
    && forall i | from <= i < |s.answers| && s.answers[i].client == c ::
         var a := s.answers[i];
         a.vname in s.clients[c].table
           && (a.claimant != NOBODY ==> a.granted == (s.clients[c].table[a.vname] == a.claimant))
  }

  /** Client `c` is neither reset nor overridden; the others do as they like. */
  ghost predicate Undisturbed(es: seq<Event>, c: nat) {
    forall i | 0 <= i < |es| && es[i].client == c :: es[i].Ask? || es[i].Step?
  }

  lemma {:induction false} SuffixAgrees(setup: Setup, s: State, es: seq<Event>, c: nat)
    requires c < |s.clients| && TriesUnknown(s) && Undisturbed(es, c)
    ensures var s' := Run(setup, s, es); TriesUnknown(s') && |s'.clients| == |s.clients| && Agrees(s', c, |s.answers|)
    decreases |es|
  {
    if |es| > 0 {
      SuffixAgrees(setup, s, es[..|es| - 1], c);
      AgreesStep(setup, Run(setup, s, es[..|es| - 1]), es[|es| - 1], c, |s.answers|);
    }
  }

  lemma {:induction false} AgreesStep(setup: Setup, s: State, e: Event, c: nat, from: nat)
    requires TriesUnknown(s) && Agrees(s, c, from) && (e.client == c ==> e.Ask? || e.Step?)
    ensures var s' := Next(setup, s, e); TriesUnknown(s') && |s'.clients| == |s.clients| && Agrees(s', c, from)
  {
    var s' := Next(setup, s, e);
    assert s.answers <= s'.answers;
    forall i | from <= i < |s'.answers| && s'.answers[i].client == c
      ensures var a := s'.answers[i];
        a.vname in s'.clients[c].table
          && (a.claimant != NOBODY ==> a.granted == (s'.clients[c].table[a.vname] == a.claimant))
    {
      if i < |s.answers| { assert s'.answers[i] == s.answers[i]; }
    }
  }

  /** From any reachable state, a client that is not reset or overridden answers the same
      claimant the same way about the same name every time, whatever the others do. */
  lemma {:induction false} AnswersAreStable(
    setup: Setup, n: nat, prefix: seq<Event>, es: seq<Event>, c: nat, i: nat, j: nat)
    requires c < n && Undisturbed(es, c)
    requires var s, s' := Run(setup, Start(n), prefix), Run(setup, Run(setup, Start(n), prefix), es);
      && |s.answers| <= i < |s'.answers| && |s.answers| <= j < |s'.answers|
      && s'.answers[i].client == s'.answers[j].client == c && s'.answers[i].vname == s'.answers[j].vname
      && s'.answers[i].claimant == s'.answers[j].claimant != NOBODY
    ensures var s' := Run(setup, Run(setup, Start(n), prefix), es); s'.answers[i] == s'.answers[j]
  {
    ReachableTries(setup, n, prefix);
    SuffixAgrees(setup, Run(setup, Start(n), prefix), es, c);
  }

  lemma {:induction false} ReachableTries(setup: Setup, n: nat, es: seq<Event>)
    ensures TriesUnknown(Run(setup, Start(n), es)) && |Run(setup, Start(n), es).clients| == n
    decreases |es|
  {
    if |es| > 0 { ReachableTries(setup, n, es[..|es| - 1]); }
  }

  // -------------------------------------------------------- exactly min(slots, askers)

  /** Different names and tries have different keys. */
  ghost predicate NoCollisions(setup: Setup) {
    forall v, t, v', t' :: setup.hash(v, t) == setup.hash(v', t') ==> v == v' && t == t'
  }

  /** Only asking and trying, by claimants that have a name. */
  ghost predicate OnlyAsks(es: seq<Event>) {
    forall i | 0 <= i < |es| :: es[i].Step? || (es[i].Ask? && es[i].claimant != NOBODY)
  }

  ghost predicate SlotTaken(s: State, v: V.VName, t: nat) { exists g :: g in s.grants && g.vname == v && g.slot == t }

  ghost predicate Accounted(setup: Setup, s: State) {
    && SlotsHeld(setup, s) && TriesUnknown(s)
    // The store holds nothing but granted slots.
    && (forall v, t | setup.hash(v, t) in s.store :: SlotTaken(s, v, t))
    && GrantsInTables(s)
    && TablesHaveGrants(s)
    // A client that was refused, or is still trying, has seen the slots taken.
    && (forall c | 0 <= c < |s.clients| :: Seen(setup, s, c))
  }

  /** A grant is in its client's table, and there is one per client and name. */
  ghost predicate GrantsInTables(s: State) {
    && (forall g | g in s.grants :: g.client < |s.clients| && g.claimant != NOBODY
          && g.vname in s.clients[g.client].table && s.clients[g.client].table[g.vname] == g.claimant)
    && (forall g, g' | g in s.grants && g' in s.grants && g.client == g'.client && g.vname == g'.vname :: g == g')
  }

  ghost predicate Seen(setup: Setup, s: State, c: nat)
    requires c < |s.clients|
  {
    && (s.clients[c].phase.Trying? ==>
          (s.clients[c].phase.claimant != NOBODY && s.clients[c].phase.tries <= setup.slots
           && forall t | 0 <= t < s.clients[c].phase.tries :: SlotTaken(s, s.clients[c].phase.vname, t)))
    && (forall v, t | v in s.clients[c].table && s.clients[c].table[v] == NOBODY && 0 <= t < setup.slots ::
          SlotTaken(s, v, t))
  }

  lemma {:induction false} StaysAccounted(setup: Setup, n: nat, es: seq<Event>)
    requires NoCollisions(setup) && OnlyAsks(es)
    ensures Accounted(setup, Run(setup, Start(n), es)) && |Run(setup, Start(n), es).clients| == n
    decreases |es|
  {
    if |es| > 0 {
      var front, e := es[..|es| - 1], es[|es| - 1];
      StaysAccounted(setup, n, front);
      var s := Run(setup, Start(n), front);
      AccountedStep(setup, s, e);
    }
  }

  lemma {:induction false} TakenStays(s: State, s': State)
    requires s.grants <= s'.grants
    ensures forall v, t | SlotTaken(s, v, t) :: SlotTaken(s', v, t)
  {
    forall v, t | SlotTaken(s, v, t) ensures SlotTaken(s', v, t) {
      var g :| g in s.grants && g.vname == v && g.slot == t;
      assert g in s'.grants;
    }
  }

  lemma {:induction false} AccountedStep(setup: Setup, s: State, e: Event)
    requires NoCollisions(setup) && Accounted(setup, s) && (e.Step? || (e.Ask? && e.claimant != NOBODY))
    ensures Accounted(setup, Next(setup, s, e)) && |Next(setup, s, e).clients| == |s.clients|
  {
    if e.client < |s.clients| && e.Step? && s.clients[e.client].phase.Trying? {
      var Trying(claimant, v, tries) := s.clients[e.client].phase;
      if tries < setup.slots && setup.hash(v, tries) !in s.store {
        GrantStep(setup, s, e.client);
        hide Accounted;
      } else {
        RefusalStep(setup, s, e.client);
        hide Accounted;
      }
    } else {
      QuietStep(setup, s, e);
    }
  }

  /** The events that neither take a slot nor look for one. */
  lemma {:induction false} QuietStep(setup: Setup, s: State, e: Event)
    requires Accounted(setup, s) && (e.Step? || (e.Ask? && e.claimant != NOBODY))
    requires e.client < |s.clients| && e.Step? ==> s.clients[e.client].phase.Idle?
    ensures Accounted(setup, Next(setup, s, e)) && |Next(setup, s, e).clients| == |s.clients|
  {
    var s' := Next(setup, s, e);
    TakenStays(s, s');
    TakenStays(s', s);
    GrantsStay(s, s');
    hide SlotTaken, HasGrant;
    forall c | 0 <= c < |s'.clients| ensures Seen(setup, s', c) { assert Seen(setup, s, c); }
    hide Seen;
  }

  /** The step that finds a slot taken, or finds that there are no more slots. */
  lemma {:induction false} RefusalStep(setup: Setup, s: State, c: nat)
    requires Accounted(setup, s) && c < |s.clients| && s.clients[c].phase.Trying?
    requires s.clients[c].phase.tries < setup.slots ==>
      setup.hash(s.clients[c].phase.vname, s.clients[c].phase.tries) in s.store
    ensures Accounted(setup, Next(setup, s, Step(c)))
  {
    var s' := Next(setup, s, Step(c));
    var Trying(claimant, v, tries) := s.clients[c].phase;
    TakenStays(s, s');
    assert Seen(setup, s, c);
    assert tries < setup.slots ==> SlotTaken(s, v, tries);
    forall d | 0 <= d < |s'.clients| ensures Seen(setup, s', d) { assert Seen(setup, s, d); }
    GrantsStay(s, s');
    forall g | g in s'.grants
      ensures g.vname in s'.clients[g.client].table && s'.clients[g.client].table[g.vname] == g.claimant
    {
      assert g.client == c ==> g.vname != v;
    }
  }

  ghost predicate CanWin(setup: Setup, s: State, c: nat) {
    && c < |s.clients| && s.clients[c].phase.Trying? && s.clients[c].phase.tries < setup.slots
    && setup.hash(s.clients[c].phase.vname, s.clients[c].phase.tries) !in s.store
  }

  /** The step that wins a slot. */
  lemma {:induction false} GrantStep(setup: Setup, s: State, c: nat)
    requires NoCollisions(setup) && Accounted(setup, s) && CanWin(setup, s, c)
    ensures Accounted(setup, Next(setup, s, Step(c)))
  {
    assert Seen(setup, s, c);
    GrantKeepsTables(setup, s, c);
    GrantKeepsSlots(setup, s, c);
    hide NoCollisions, GrantsInTables, TablesHaveGrants, SlotsHeld, CanWin;
  }

  lemma {:induction false} GrantKeepsSlots(setup: Setup, s: State, c: nat)
    requires NoCollisions(setup) && SlotsHeld(setup, s) && CanWin(setup, s, c) && TriesUnknown(s)
    requires forall v, t | setup.hash(v, t) in s.store :: SlotTaken(s, v, t)
    requires forall d | 0 <= d < |s.clients| :: Seen(setup, s, d)
    ensures var s' := Next(setup, s, Step(c));
      && SlotsHeld(setup, s') && TriesUnknown(s')
      && (forall v, t | setup.hash(v, t) in s'.store :: SlotTaken(s', v, t))
      && (forall d | 0 <= d < |s'.clients| :: Seen(setup, s', d))
  {
    var s' := Next(setup, s, Step(c));
    var Trying(claimant, v, tries) := s.clients[c].phase;
    assert Grant(c, claimant, v, tries) in s'.grants;
    assert Seen(setup, s, c);
    TakenStays(s, s');
    forall w, t | setup.hash(w, t) in s'.store ensures SlotTaken(s', w, t) {
      if setup.hash(w, t) !in s.store { assert w == v && t == tries; }
    }
    forall d | 0 <= d < |s'.clients| ensures Seen(setup, s', d) {
      hide NoCollisions, SlotTaken, SlotsHeld;
      assert Seen(setup, s, d);
    }
  }

  lemma {:induction false} GrantKeepsTables(setup: Setup, s: State, c: nat)
    requires CanWin(setup, s, c) && s.clients[c].phase.claimant != NOBODY && TriesUnknown(s)
    requires GrantsInTables(s) && TablesHaveGrants(s)
    ensures var s' := Next(setup, s, Step(c)); GrantsInTables(s') && TablesHaveGrants(s')
  {
    var s' := Next(setup, s, Step(c));
    var Trying(claimant, v, tries) := s.clients[c].phase;
    var won := Grant(c, claimant, v, tries);
    assert s'.grants == s.grants + {won} && won in s'.grants;
    assert HasGrant(s', c, v, claimant);
    GrantsStay(s, s');
    hide HasGrant;
    assert forall h | h in s.grants && h.client == c :: h.vname != v;
  }

  ghost predicate Told(s: State, c: nat, v: V.VName) {
    exists a :: a in s.answers && a.client == c && a.vname == v
  }

  ghost predicate ToldYes(s: State, c: nat, v: V.VName) {
    exists a :: a in s.answers && a.client == c && a.vname == v && a.granted
  }

  /** The clients that asked about `v` and got an answer. */
  ghost function Askers(s: State, v: V.VName): set<nat> { set c | 0 <= c < |s.clients| && Told(s, c, v) }

  /** The clients that were told, at least once, that the claimant they spoke for owns `v`. */
  ghost function Owners(s: State, v: V.VName): set<nat> { set c | 0 <= c < |s.clients| && ToldYes(s, c, v) }

  /** A client's table holds the names it answered about, and an owner for those granted. */
  ghost predicate TablesMatchAnswers(s: State) {
    && (forall c, v | 0 <= c < |s.clients| :: v in s.clients[c].table <==> Told(s, c, v))
    && (forall c, v | 0 <= c < |s.clients| && v in s.clients[c].table ::
          s.clients[c].table[v] != NOBODY <==> ToldYes(s, c, v))
    && (forall c | 0 <= c < |s.clients| && s.clients[c].phase.Trying? :: s.clients[c].phase.claimant != NOBODY)
  }

  lemma {:induction false} TablesKeepMatching(setup: Setup, n: nat, es: seq<Event>)
    requires OnlyAsks(es)
    ensures TablesMatchAnswers(Run(setup, Start(n), es))
    decreases |es|
  {
    if |es| > 0 {
      var front := es[..|es| - 1];
      TablesKeepMatching(setup, n, front);
      ReachableTries(setup, n, front);
      MatchingStep(setup, Run(setup, Start(n), front), es[|es| - 1]);
    }
  }

  lemma {:induction false} MatchingStep(setup: Setup, s: State, e: Event)
    requires TablesMatchAnswers(s) && TriesUnknown(s) && (e.Step? || (e.Ask? && e.claimant != NOBODY))
    ensures TablesMatchAnswers(Next(setup, s, e))
  {
    var s' := Next(setup, s, e);
    if s'.answers == s.answers {
      assert forall c, v :: Told(s', c, v) == Told(s, c, v) && ToldYes(s', c, v) == ToldYes(s, c, v);
      hide Told, ToldYes;
    } else {
      var c := e.client;
      var claimant := if e.Ask? then e.claimant else s.clients[c].phase.claimant;
      assert claimant != NOBODY;
      hide TablesMatchAnswers;
      MatchingAnswer(s, s', s'.answers[|s.answers|], s'.clients[c]);
    }
  }

  lemma {:induction false} MatchingAnswer(s: State, s': State, a: Answer, client: Client)
    requires TablesMatchAnswers(s) && a.client < |s.clients| && client.phase.Idle?
    requires s'.clients == s.clients[a.client := client] && s'.answers == s.answers + [a]
    requires
      var table := s.clients[a.client].table;
      && a.vname in client.table
      && (if a.vname in table then client.table == table else client.table == table[a.vname := client.table[a.vname]])
      && (if a.vname in table then a.granted ==> table[a.vname] != NOBODY
          else a.granted <==> client.table[a.vname] != NOBODY)
    ensures TablesMatchAnswers(s')
  {
    OneMoreAnswer(s, s', a);
    assert a.vname !in s.clients[a.client].table ==> !ToldYes(s, a.client, a.vname);
    hide Told, ToldYes;
  }

  lemma {:induction false} OneMoreAnswer(s: State, s': State, a: Answer)
    requires s'.answers == s.answers + [a]
    ensures forall c, v :: Told(s', c, v) <==> Told(s, c, v) || (c == a.client && v == a.vname)
    ensures forall c, v :: ToldYes(s', c, v) <==> ToldYes(s, c, v) || (c == a.client && v == a.vname && a.granted)
  {
    assert a in s'.answers;
    forall c, v | Told(s, c, v) ensures Told(s', c, v) {
      var b :| b in s.answers && b.client == c && b.vname == v;
      assert b in s'.answers;
    }
    forall c, v | ToldYes(s, c, v) ensures ToldYes(s', c, v) {
      var b :| b in s.answers && b.client == c && b.vname == v && b.granted;
      assert b in s'.answers;
    }
  }

  /** Once everyone who asked has its answer, exactly min(slots, askers) of them own the name. */
  lemma {:induction false} GrantsAreExact(setup: Setup, n: nat, es: seq<Event>, v: V.VName)
    requires NoCollisions(setup) && OnlyAsks(es)
    requires forall p | p in Run(setup, Start(n), es).clients && p.phase.Trying? :: p.phase.vname != v
    ensures var s := Run(setup, Start(n), es); |Owners(s, v)| == Min(setup.slots, |Askers(s, v)|)
  {
    var s := Run(setup, Start(n), es);
    StaysAccounted(setup, n, es);
    TablesKeepMatching(setup, n, es);
    GrantsAreBounded(setup, n, es, v);
    OneClientEach(setup, s, v);
    assert Owners(s, v) <= Askers(s, v);
    SubsetSize(Owners(s, v), Askers(s, v));
    if Owners(s, v) != Askers(s, v) {
      var c :| c in Askers(s, v) && c !in Owners(s, v);
      assert Seen(setup, s, c);
      AllSlots(s, v, setup.slots);
    }
  }

  /** As many grants of a name as clients that own it. */
  lemma {:induction false} OneClientEach(setup: Setup, s: State, v: V.VName)
    requires Accounted(setup, s) && TablesMatchAnswers(s)
    ensures |Owners(s, v)| == |GrantsOf(s, v)|
  {
    var gs, cs := GrantsOf(s, v), Owners(s, v);
    forall c | c in cs ensures exists g :: g in gs && g.client == c {
      assert HasGrant(s, c, v, s.clients[c].table[v]);
      var g :| g in s.grants && g.client == c && g.vname == v && g.claimant == s.clients[c].table[v];
      assert g in gs;
    }
    NoMoreThan(cs, gs);
    NoSubsetSize(gs, cs);
  }

  lemma {:induction false} NoSubsetSize(gs: set<Grant>, cs: set<nat>)
    requires forall g | g in gs :: g.client in cs
    requires forall g, g' | g in gs && g' in gs && g.client == g'.client :: g == g'
    ensures |gs| <= |cs|
    decreases gs
  {
    if gs != {} {
      var g :| g in gs;
      NoSubsetSize(gs - {g}, cs - {g.client});
    }
  }

  lemma {:induction false} AllSlots(s: State, v: V.VName, slots: nat)
    requires forall t | 0 <= t < slots :: SlotTaken(s, v, t)
    ensures |GrantsOf(s, v)| >= slots
  {
    var found := Pick(s, v, slots);
    SubsetSize(found, GrantsOf(s, v));
  }

  lemma {:induction false} Pick(s: State, v: V.VName, slots: nat) returns (gs: set<Grant>)
    requires forall t | 0 <= t < slots :: SlotTaken(s, v, t)
    ensures gs <= GrantsOf(s, v) && |gs| == slots && forall g | g in gs :: g.slot < slots
    decreases slots
  {
    gs := {};
    if slots > 0 {
      gs := Pick(s, v, slots - 1);
      assert SlotTaken(s, v, slots - 1);
      var g :| g in s.grants && g.vname == v && g.slot == slots - 1;
      assert g !in gs && g in GrantsOf(s, v);
      gs := gs + {g};
    }
  }
}
