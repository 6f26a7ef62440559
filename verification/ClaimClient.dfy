/** The dynamic claim client as an object: one call of `Claim` with its retry loop. */
module ClaimClients {
  import opened P = DynamicClaim

  /** What one uninterrupted call does. */
  datatype Outcome = Outcome(table: map<V.VName, V.VName>, keys: set<nat>, granted: bool)

  /** The first try from `t` on whose key is free, or `slots` if all are taken. */
  function FirstFree(setup: Setup, keys: set<nat>, v: V.VName, t: nat): (r: nat)
    requires t <= setup.slots
    ensures t <= r <= setup.slots
    ensures forall i | t <= i < r :: setup.hash(v, i) in keys
    ensures r < setup.slots ==> setup.hash(v, r) !in keys
    decreases setup.slots - t
  {
    if t == setup.slots || setup.hash(v, t) !in keys then t else FirstFree(setup, keys, v, t + 1)
  }

  function Claimed(setup: Setup, table: map<V.VName, V.VName>, keys: set<nat>, claimant: V.VName, v: V.VName): Outcome {
    if v in table then Outcome(table, keys, table[v] == claimant)
    else
      var t := FirstFree(setup, keys, v, 0);
      if t < setup.slots then Outcome(table[v := claimant], keys + {setup.hash(v, t)}, true)
      else Outcome(table[v := NOBODY], keys, false)
  }

  /** What one call does, slot by slot: a name in the table is answered from it; else the first
      slot that is free is taken, and if there is none the name is remembered as nobody's. */
  lemma {:induction false} ClaimedIs(
    setup: Setup, table: map<V.VName, V.VName>, keys: set<nat>, claimant: V.VName, v: V.VName, t: nat)
    ensures var o := Claimed(setup, table, keys, claimant, v);
      && (v in table ==> o == Outcome(table, keys, table[v] == claimant))
      && (v !in table && t < setup.slots && setup.hash(v, t) !in keys
          && (forall i | 0 <= i < t :: setup.hash(v, i) in keys) ==>
            o == Outcome(table[v := claimant], keys + {setup.hash(v, t)}, true))
      && (v !in table && (forall i | 0 <= i < setup.slots :: setup.hash(v, i) in keys) ==>
            o == Outcome(table[v := V.VName("", "", "", "", "")], keys, false))
  {
    var r := FirstFree(setup, keys, v, 0);
    hide FirstFree;
  }

  /** The shared store: `Add` succeeds for the first one to use a key. */
  class SharedStore {
    var keys: set<nat>

    constructor ()
      ensures keys == {}
    {
      keys := {};
    }

    method Add(key: nat) returns (present: bool)
      modifies this
      ensures present == (key in old(keys)) && keys == old(keys) + {key}
    {
      present := key in keys;
      keys := keys + {key};
    }
  }

  class DynamicClaimClient {
    const setup: Setup
    var cache: SharedStore?
    var claimTable: map<V.VName, V.VName>
    var requestCount: nat
    var rejectedRequests: nat

    constructor (setup: Setup)
      ensures this.setup == setup && cache == null && claimTable == map[] && requestCount == rejectedRequests == 0
    {
      this.setup := setup;
      cache := null;
      claimTable := map[];
      requestCount, rejectedRequests := 0, 0;
    }

    /** Without a store the client fails open; with one it does what `Claimed` says. */
    method Claim(claimant: V.VName, vname: V.VName) returns (granted: bool)
      modifies this, cache
      ensures cache == old(cache) && requestCount == old(requestCount) + 1
      ensures rejectedRequests == old(rejectedRequests) + if granted then 0 else 1
      ensures cache == null && vname !in old(claimTable) ==> granted && claimTable == old(claimTable)
      ensures cache == null && vname in old(claimTable) ==>
          granted == (old(claimTable)[vname] == claimant) && claimTable == old(claimTable)
      ensures cache != null ==>
          Outcome(claimTable, cache.keys, granted) == Claimed(setup, old(claimTable), old(cache.keys), claimant, vname)
    {
      requestCount := requestCount + 1;
      if vname !in claimTable {
        if cache == null { return true; }
        var tries := 0;
        while tries < setup.slots
          invariant tries <= setup.slots && cache == old(cache) != null
          invariant claimTable == old(claimTable) && cache.keys == old(cache.keys)
          invariant requestCount == old(requestCount) + 1 && rejectedRequests == old(rejectedRequests)
          invariant FirstFree(setup, old(cache.keys), vname, 0) == FirstFree(setup, old(cache.keys), vname, tries)
        {
          var taken := cache.Add(setup.hash(vname, tries));
          if !taken {
            claimTable := claimTable[vname := claimant];
            return true;
          }
          assert cache.keys == old(cache.keys);
          tries := tries + 1;
        }
        claimTable := claimTable[vname := NOBODY];
        rejectedRequests := rejectedRequests + 1;
        return false;
      }
      if claimTable[vname] == claimant { return true; }
      rejectedRequests := rejectedRequests + 1;
      return false;
    }

    method AssignClaim(claimable: V.VName, claimant: V.VName)
      modifies this`claimTable
      ensures claimTable == old(claimTable)[claimable := claimant]
    {
      claimTable := claimTable[claimable := claimant];
    }
  }

  // ------------------------------------------- one call is one run of the protocol's steps

  function Steps(c: nat, n: nat): seq<Event> { seq(n, i => Step(c)) }

  /** An idle client that asks and then is not interrupted does what `Claimed` says, and
      the other clients do not notice. */
  lemma {:induction false} UninterruptedClaim(setup: Setup, s: State, c: nat, claimant: V.VName, v: V.VName)
    requires c < |s.clients| && s.clients[c].phase.Idle?
    ensures
      var steps := if v in s.clients[c].table then 0 else FirstFree(setup, s.store, v, 0) + 1;
      var s' := Run(setup, s, [Ask(c, claimant, v)] + Steps(c, steps));
      var o := Claimed(setup, s.clients[c].table, s.store, claimant, v);
      && s'.clients == s.clients[c := Client(o.table, Idle)] && s'.store == o.keys
      && s'.answers == s.answers + [Answer(c, claimant, v, o.granted)]
  {
    var ask := Ask(c, claimant, v);
    if v in s.clients[c].table {
      RunOneMore(setup, s, [], ask);
      assert [ask] + Steps(c, 0) == [] + [ask];
      hide FirstFree, Run, Steps;
      assert s.clients[c := Client(s.clients[c].table, Idle)] == s.clients;
    } else {
      var t := FirstFree(setup, s.store, v, 0);
      TriesFail(setup, s, ask, t);
      RunOneMore(setup, s, [ask] + Steps(c, t), Step(c));
      assert [ask] + Steps(c, t + 1) == [ask] + Steps(c, t) + [Step(c)];
      hide Run, Steps;
      LastTry(setup, s, c, claimant, v);
    }
  }

  /** The step that takes the first free slot, or gives up. */
  lemma {:induction false} LastTry(setup: Setup, s: State, c: nat, claimant: V.VName, v: V.VName)
    requires c < |s.clients| && v !in s.clients[c].table
    ensures
      var t := FirstFree(setup, s.store, v, 0);
      var s' := Next(setup, s.(clients := s.clients[c := s.clients[c].(phase := Trying(claimant, v, t))]), Step(c));
      var o := Claimed(setup, s.clients[c].table, s.store, claimant, v);
      && s'.clients == s.clients[c := Client(o.table, Idle)] && s'.store == o.keys
      && s'.answers == s.answers + [Answer(c, claimant, v, o.granted)]
  {
  }

  lemma {:induction false} RunOneMore(setup: Setup, s: State, es: seq<Event>, e: Event)
    ensures Run(setup, s, es + [e]) == Next(setup, Run(setup, s, es), e)
  {
    assert (es + [e])[..|es|] == es;
  }

  /** The tries before the first free one change nothing but the count of tries. */
  lemma {:induction false} TriesFail(setup: Setup, s: State, ask: Event, t: nat)
    requires ask.Ask? && ask.client < |s.clients| && s.clients[ask.client].phase.Idle?
      && ask.vname !in s.clients[ask.client].table
    requires t <= FirstFree(setup, s.store, ask.vname, 0)
    ensures Run(setup, s, [ask] + Steps(ask.client, t))
         == s.(clients := s.clients[ask.client := s.clients[ask.client].(phase := Trying(ask.claimant, ask.vname, t))])
  {
    if t == 0 {
      RunOneMore(setup, s, [], ask);
      assert [ask] + Steps(ask.client, 0) == [] + [ask];
    } else {
      TriesFail(setup, s, ask, t - 1);
      assert setup.hash(ask.vname, t - 1) in s.store;
      RunOneMore(setup, s, [ask] + Steps(ask.client, t - 1), Step(ask.client));
      assert [ask] + Steps(ask.client, t) == [ask] + Steps(ask.client, t - 1) + [Step(ask.client)];
      hide FirstFree, Run, Steps;
    }
  }
}
