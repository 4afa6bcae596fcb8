/** multigrid/envs/cleanup.py, `CleanUpEnv.step`.

    Agents are numbered by their position in the agent list, and the key
    `str(agent.index)` is modelled by the index itself. What the grid says
    about an agent (whether it carries something, whether the cell in front
    accepts an object, whether another agent stands there) is given per
    agent; the base environment's `step` is given as its result tuple. */
module CleanUp {
  import opened Dicts

  /** What the drop check of the pre-step loop reads about one agent. */
  datatype AgentState = AgentState(carrying: bool, frontPlaceable: bool, agentInFront: bool)

  /** The `{str(agent.index): v for agent in self.agents}` dict. */
  function Uniform<V>(n: nat, v: V): (d: Dict<nat, V>)
    ensures Keys(d) == seq(n, i => i)
    ensures forall i :: 0 <= i < n ==> d[i] == (i, v)
  {
    seq(n, i => (i, v))
  }

  /** Every agent index is a key of `d`. */
  predicate KeyedByAgents<V>(d: Dict<nat, V>, n: nat) {
    forall i :: 0 <= i < n ==> HasKey(d, i)
  }

  /** The reward merge: each agent's local reward plus its base reward. */
  function MergeRewards(n: nat, local: Dict<nat, real>, stepRewards: Dict<nat, real>): (r: Dict<nat, real>)
    requires KeyedByAgents(local, n) && KeyedByAgents(stepRewards, n)
    ensures Keys(r) == seq(n, i => i)
  {
    seq(n, i requires 0 <= i < n => (i, Get(local, i) + Get(stepRewards, i)))
  }

  /** The termination merge: each agent's local flag or its base flag. */
  function MergeTerminations(n: nat, local: Dict<nat, bool>, terms: Dict<nat, bool>): (r: Dict<nat, bool>)
    requires KeyedByAgents(local, n) && KeyedByAgents(terms, n)
    ensures Keys(r) == seq(n, i => i)
  {
    seq(n, i requires 0 <= i < n => (i, Get(local, i) || Get(terms, i)))
  }

  lemma UniformGet<V>(n: nat, v: V, i: nat)
    requires i < n
    ensures HasKey(Uniform(n, v), i) && Get(Uniform(n, v), i) == v
  {
    var d := Uniform(n, v);
    assert Keys(d)[i] == i;
    GetFirst(d, i);
  }

  /** In a dict whose pair `i` has key `i`, looking up `i` finds that pair. */
  lemma {:induction false} GetFirst<V>(d: Dict<nat, V>, i: nat)
    requires i < |d| && forall j :: 0 <= j < |d| ==> d[j].0 == j
    ensures HasKey(d, i) && Get(d, i) == d[i].1
  {
    assert Keys(d)[i] == d[i].0;
    GetAt(d, i);
  }

  /** With the local dicts as the drop loop leaves them (all 0 and all
      False), the merged rewards and terminations are the base
      environment's. */
  lemma MergeIsBase(n: nat, stepRewards: Dict<nat, real>, terms: Dict<nat, bool>)
    requires KeyedByAgents(stepRewards, n) && KeyedByAgents(terms, n)
    ensures KeyedByAgents(Uniform(n, 0.0), n) && KeyedByAgents(Uniform(n, false), n)
    ensures forall i :: 0 <= i < n ==>
      MergeRewards(n, Uniform(n, 0.0), stepRewards)[i] == (i, Get(stepRewards, i)) &&
      MergeTerminations(n, Uniform(n, false), terms)[i] == (i, Get(terms, i))
  {
    forall i | 0 <= i < n
      ensures HasKey(Uniform(n, 0.0), i) && Get(Uniform(n, 0.0), i) == 0.0
      ensures HasKey(Uniform(n, false), i) && Get(Uniform(n, false), i) == false
    {
      UniformGet(n, 0.0, i);
      UniformGet(n, false, i);
    }
  }

  /** The drop loop run before the base step. Every branch ends in
      `continue`, so `on_success` is never reached and the local rewards and
      terminations keep their initial 0 and False; an agent whose key is
      missing from `actions` is a KeyError. */
  method PreStep(agents: seq<AgentState>, actions: Dict<nat, int>, drop: int)
    returns (r: Result<(Dict<nat, real>, Dict<nat, bool>)>)
    ensures r.Err? <==> !KeyedByAgents(actions, |agents|)
    ensures r.Err? ==> r.error == KeyError
    ensures r.Ok? ==> r.value == (Uniform(|agents|, 0.0), Uniform(|agents|, false))
  {
    var rewards := Uniform(|agents|, 0.0);
    var terminations := Uniform(|agents|, false);
    for i := 0 to |agents|
      invariant forall k :: 0 <= k < i ==> HasKey(actions, k)
      invariant rewards == Uniform(|agents|, 0.0) && terminations == Uniform(|agents|, false)
    {
      if !HasKey(actions, i) {
        return Err(KeyError);
      }
      var agent := agents[i];
      if Get(actions, i) != drop {
        continue;
      }
      if !agent.carrying {
        continue;
      }
      if !agent.frontPlaceable {
        continue;
      }
      if agent.agentInFront {
        continue;
      }
      // The last check is followed by an unconditional `continue`: the
      // `on_success` call after it never runs.
      continue;
    }
    return Ok((rewards, terminations));
  }

  /** `CleanUpEnv.step`, with `base` the result of the base environment's
      `step(actions)`: observations, truncations and info come back as they
      are, and each agent's reward and termination are the base ones. */
  method Step<O, U, I>(agents: seq<AgentState>, actions: Dict<nat, int>, drop: int,
                       base: (O, Dict<nat, real>, Dict<nat, bool>, U, I))
    returns (r: Result<(O, Dict<nat, real>, Dict<nat, bool>, U, I)>)
    ensures r.Ok? <==>
      KeyedByAgents(actions, |agents|) && KeyedByAgents(base.1, |agents|) && KeyedByAgents(base.2, |agents|)
    ensures r.Err? ==> r.error == KeyError
    ensures r.Ok? ==>
      r.value.0 == base.0 && r.value.3 == base.3 && r.value.4 == base.4 &&
      Keys(r.value.1) == seq(|agents|, i => i) && Keys(r.value.2) == seq(|agents|, i => i) &&
      forall i :: 0 <= i < |agents| ==>
        r.value.1[i].1 == Get(base.1, i) && r.value.2[i].1 == Get(base.2, i)
  {
    var pre := PreStep(agents, actions, drop);
    if pre.Err? {
      return Err(pre.error);
    }
    var (observations, stepRewards, terms, truncations, info) := base;
    var n := |agents|;
    if !KeyedByAgents(stepRewards, n) || !KeyedByAgents(terms, n) {
      return Err(KeyError);
    }
    MergeIsBase(n, stepRewards, terms);
    var rewards := MergeRewards(n, pre.value.0, stepRewards);
    var terminations := MergeTerminations(n, pre.value.1, terms);
    return Ok((observations, rewards, terminations, truncations, info));
  }
}
