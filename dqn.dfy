/** rllib/algorithms/dqn/dqn.py: the bookkeeping of the DQN algorithm.

    Network parameters are an abstract `map<string, real>` (a `state_dict`).
    What the networks compute is not modelled: the policy network's Q-values
    for the observations, the target network's maxima over the non-final
    next states, the optimiser's new parameters, the replay sample and the
    random draws are all parameters of the methods, constrained only by the
    shapes the source relies on. */
module Dqn {
  import opened Dicts
  import opened Buffers

  type Params = map<string, real>

  /** A replay transition; `nextState` is None for a final step. */
  datatype Transition<S> = Transition(state: S, action: int, nextState: Option<S>, reward: real)

  /** `_eps_threshold`: `np.inf` until the first `predict`. */
  datatype Threshold = Infinite | Finite(value: real)

  /** `get_non_final_mask`: which transitions have a next state. */
  function NonFinalMask<S>(batch: seq<Transition<S>>): (mask: seq<bool>)
    ensures |mask| == |batch|
    ensures forall i :: 0 <= i < |batch| ==> (mask[i] <==> batch[i].nextState.Some?)
  {
    seq(|batch|, i requires 0 <= i < |batch| => batch[i].nextState.Some?)
  }

  function Rewards<S>(batch: seq<Transition<S>>): (r: seq<real>)
    ensures |r| == |batch|
    ensures forall i :: 0 <= i < |batch| ==> r[i] == batch[i].reward
  {
    seq(|batch|, i requires 0 <= i < |batch| => batch[i].reward)
  }

  /** The number of set positions of a mask. */
  function CountTrue(mask: seq<bool>): nat {
    if mask == [] then 0 else (if mask[0] then 1 else 0) + CountTrue(mask[1..])
  }

  /** The entries of `v` at the set positions of `mask`, in order. */
  function Selected<T>(v: seq<T>, mask: seq<bool>): seq<T>
    requires |v| == |mask|
  {
    if v == [] then [] else (if mask[0] then [v[0]] else []) + Selected(v[1..], mask[1..])
  }

  /** `v[mask] = output` on a tensor: the set positions of `mask` receive the
      elements of `output` in order, the others keep their value. */
  function Overwrite<T>(v: seq<T>, mask: seq<bool>, output: seq<T>): (r: seq<T>)
    requires |v| == |mask| && |output| == CountTrue(mask)
    ensures |r| == |v|
  {
    if v == [] then []
    else if mask[0] then [output[0]] + Overwrite(v[1..], mask[1..], output[1..])
    else [v[0]] + Overwrite(v[1..], mask[1..], output)
  }

  /** Position `k` of an overwrite: the target maximum of rank
      `CountTrue(mask[..k])` where the mask is set, the old value elsewhere. */
  lemma {:induction false} OverwriteAt<T>(v: seq<T>, mask: seq<bool>, output: seq<T>, k: nat)
    requires |v| == |mask| && |output| == CountTrue(mask) && k < |v|
    ensures mask[k] ==>
      CountTrue(mask[..k]) < |output| && Overwrite(v, mask, output)[k] == output[CountTrue(mask[..k])]
    ensures !mask[k] ==> Overwrite(v, mask, output)[k] == v[k]
  {
    if k > 0 {
      assert mask[..k][1..] == mask[1..][..k - 1];
      if mask[0] {
        OverwriteAt(v[1..], mask[1..], output[1..], k - 1);
      } else {
        OverwriteAt(v[1..], mask[1..], output, k - 1);
      }
    }
  }

  /** Reading back the set positions of an overwrite gives `output`. */
  lemma {:induction false} OverwriteSelected<T>(v: seq<T>, mask: seq<bool>, output: seq<T>)
    requires |v| == |mask| && |output| == CountTrue(mask)
    ensures Selected(Overwrite(v, mask, output), mask) == output
  {
    if v != [] {
      var r := Overwrite(v, mask, output);
      assert r[1..] == Overwrite(v[1..], mask[1..], if mask[0] then output[1..] else output);
      if mask[0] {
        OverwriteSelected(v[1..], mask[1..], output[1..]);
        assert output == [output[0]] + output[1..];
      } else {
        OverwriteSelected(v[1..], mask[1..], output);
      }
    }
  }

  function Zeros(n: nat): (z: seq<real>)
    ensures |z| == n && forall i :: 0 <= i < n ==> z[i] == 0.0
  {
    seq(n, _ => 0.0)
  }

  /** `next_state_values` after `_predict_target_values`: zeros overwritten
      through the non-final mask by the target maxima. */
  function NextStateValues(mask: seq<bool>, output: seq<real>): (r: seq<real>)
    requires |output| == CountTrue(mask)
  {
    Overwrite(Zeros(|mask|), mask, output)
  }

  /** The bootstrap vector has one entry per transition, zero at every final
      transition, and holds the target maxima, in order, at the non-final ones. */
  lemma NextStateValuesFacts(mask: seq<bool>, output: seq<real>)
    requires |output| == CountTrue(mask)
    ensures |NextStateValues(mask, output)| == |mask|
    ensures forall k :: 0 <= k < |mask| && !mask[k] ==> NextStateValues(mask, output)[k] == 0.0
    ensures Selected(NextStateValues(mask, output), mask) == output
  {
    forall k | 0 <= k < |mask| && !mask[k] ensures NextStateValues(mask, output)[k] == 0.0 {
      OverwriteAt(Zeros(|mask|), mask, output, k);
    }
    OverwriteSelected(Zeros(|mask|), mask, output);
  }

  /** `_expected_state_action_values`: `next * gamma + reward`, entrywise. */
  function ExpectedStateActionValues(next: seq<real>, reward: seq<real>, gamma: real): (r: seq<real>)
    requires |next| == |reward|
    ensures |r| == |next|
  {
    seq(|next|, i requires 0 <= i < |next| => next[i] * gamma + reward[i])
  }

  /** Entry `k` of the bootstrap vector: 0 at a final transition, the
      target maximum of its rank at a non-final one. */
  lemma NextStateValuesAt(mask: seq<bool>, output: seq<real>, k: nat)
    requires |output| == CountTrue(mask) && k < |mask|
    ensures |NextStateValues(mask, output)| == |mask|
    ensures !mask[k] ==> NextStateValues(mask, output)[k] == 0.0
    ensures mask[k] ==>
      CountTrue(mask[..k]) < |output| && NextStateValues(mask, output)[k] == output[CountTrue(mask[..k])]
  {
    OverwriteAt(Zeros(|mask|), mask, output, k);
  }

  /** The TD target of a final transition is its reward exactly; that of a
      non-final one discounts its rank's target maximum. */
  lemma TargetOfTransition(mask: seq<bool>, output: seq<real>, reward: seq<real>, gamma: real, k: nat)
    requires |output| == CountTrue(mask) && |reward| == |mask| && k < |mask|
    ensures !mask[k] ==> ExpectedStateActionValues(NextStateValues(mask, output), reward, gamma)[k] == reward[k]
    ensures mask[k] ==>
      CountTrue(mask[..k]) < |output| &&
      ExpectedStateActionValues(NextStateValues(mask, output), reward, gamma)[k]
        == output[CountTrue(mask[..k])] * gamma + reward[k]
  {
    NextStateValuesAt(mask, output, k);
    var nv := NextStateValues(mask, output);
    var e := ExpectedStateActionValues(nv, reward, gamma);
    assert e[k] == nv[k] * gamma + reward[k];
  }

  /** The TD targets `_optimize_model` regresses the policy values onto. */
  function Targets<S>(sample: seq<Transition<S>>, targetMax: seq<real>, gamma: real): seq<real>
    requires |targetMax| == CountTrue(NonFinalMask(sample))
  {
    ExpectedStateActionValues(NextStateValues(NonFinalMask(sample), targetMax), Rewards(sample), gamma)
  }

  /** The two guards of `_optimize_model`: enough transitions, and at least
      one of the sampled ones non-final. */
  predicate Optimizes<S>(memory: seq<Transition<S>>, sample: seq<Transition<S>>, batchSize: nat) {
    |memory| >= batchSize && CountTrue(NonFinalMask(sample)) > 0
  }

  /** Soft-update blend of one parameter. */
  function Blend(p: real, t: real): real {
    p * 0.005 + t * (1.0 - 0.005)
  }

  /** `_soft_update_target`'s new target parameters: the loop runs over the
      policy's keys and reads `target[key]` (a KeyError unless the target has
      every policy key); target entries the policy lacks are left in place. */
  function SoftUpdated(policy: Params, target: Params): (r: Params)
    requires policy.Keys <= target.Keys
    ensures r.Keys == target.Keys
    ensures forall k :: k in target && k !in policy ==> r[k] == target[k]
  {
    map k | k in target :: if k in policy then Blend(policy[k], target[k]) else target[k]
  }

  /** When the key sets agree, the soft update keeps them and moves every
      parameter 0.5% of the way towards the policy; a target equal to the
      policy is left as it is. */
  lemma SoftUpdateContracts(policy: Params, target: Params)
    requires policy.Keys == target.Keys
    ensures SoftUpdated(policy, target).Keys == target.Keys
    ensures forall k :: k in policy ==>
      SoftUpdated(policy, target)[k] - policy[k] == 0.995 * (target[k] - policy[k])
    ensures SoftUpdated(policy, policy) == policy
  {
  }

  /** `action.argmax()`: the first index of a maximal entry. */
  function ArgMax(row: seq<real>): (k: nat)
    requires |row| > 0
    ensures k < |row|
    ensures forall j :: 0 <= j < |row| ==> row[j] <= row[k]
    ensures forall j :: 0 <= j < k ==> row[j] < row[k]
  {
    if |row| == 1 then 0
    else
      var k := ArgMax(row[..|row| - 1]);
      assert forall j :: 0 <= j < |row| - 1 ==> row[..|row| - 1][j] == row[j];
      if row[|row| - 1] > row[k] then |row| - 1 else k
  }

  /** `_get_policy_actions`: `zip` stops at the shorter of the keys and the
      network's output rows; each agent gets the first maximal Q-index. */
  method GetPolicyActions<A, O>(observations: Dict<A, O>, qRows: seq<seq<real>>) returns (actions: Dict<A, int>)
    requires forall i :: 0 <= i < |qRows| ==> |qRows[i]| > 0
    ensures |actions| == if |observations| < |qRows| then |observations| else |qRows|
    ensures forall i :: 0 <= i < |actions| ==>
      actions[i].0 == observations[i].0 && 0 <= actions[i].1 < |qRows[i]| &&
      (forall j :: 0 <= j < |qRows[i]| ==> qRows[i][j] <= qRows[i][actions[i].1]) &&
      (forall j :: 0 <= j < actions[i].1 ==> qRows[i][j] < qRows[i][actions[i].1])
  {
    actions := [];
    var i := 0;
    while i < |observations| && i < |qRows|
      invariant i <= |observations| && i <= |qRows| && |actions| == i
      invariant forall k :: 0 <= k < i ==> actions[k] == (observations[k].0, ArgMax(qRows[k]))
    {
      actions := actions + [(observations[i].0, ArgMax(qRows[i]))];
      i := i + 1;
    }
  }

  /** The replay transitions `add_dict` stores for one step: one per key of
      the observations, in key order; a key missing from the actions, the
      preprocessed next observations or the rewards is a KeyError. */
  function StepTransitions<A(==), S>(observations: Dict<A, S>, actions: Dict<A, int>,
                                     nextObs: Dict<A, Option<S>>, rewards: Dict<A, real>)
    : (r: Result<seq<Transition<S>>>)
    ensures r.Err? ==> r.error == KeyError
    ensures r.Ok? <==> forall i :: 0 <= i < |observations| ==>
      HasKey(actions, observations[i].0) && HasKey(nextObs, observations[i].0) && HasKey(rewards, observations[i].0)
    ensures r.Ok? ==>
      |r.value| == |observations| &&
      forall i :: 0 <= i < |observations| ==>
        var k := observations[i].0;
        HasKey(actions, k) && HasKey(nextObs, k) && HasKey(rewards, k) &&
        r.value[i] == Transition(observations[i].1, Get(actions, k), Get(nextObs, k), Get(rewards, k))
  {
    if observations == [] then Ok([])
    else
      var k := observations[0].0;
      if !(HasKey(actions, k) && HasKey(nextObs, k) && HasKey(rewards, k)) then Err(KeyError)
      else
        var rest := StepTransitions(observations[1..], actions, nextObs, rewards);
        if rest.Err? then rest
        else Ok([Transition(observations[0].1, Get(actions, k), Get(nextObs, k), Get(rewards, k))] + rest.value)
  }

  /** The DQN algorithm's state: the two networks' parameters, the replay
      memory, the step counter kept by the base class, the exploration
      threshold and a count of optimiser steps. */
  class DQN<S> {
    const batchSize: nat
    const gamma: real
    const targetUpdate: nat
    /** `replay_buffer_size`. */
    const capacity: nat
    /** `action_space.n`. */
    const numActions: nat

    var policy: Params
    var target: Params
    var memory: seq<Transition<S>>
    var stepsDone: nat
    var epsThreshold: Threshold
    var optimizerSteps: nat

    ghost predicate Valid()
      reads this
    {
      policy.Keys == target.Keys && |memory| <= capacity
    }

    /** The target network starts as a copy of the policy network, which is
        the loaded model when a model path is configured. */
    constructor (initial: Params, loaded: Option<Params>, batchSize: nat, gamma: real,
                 targetUpdate: nat, capacity: nat, numActions: nat)
      ensures Valid()
      ensures policy == (if loaded.Some? then loaded.value else initial) && target == policy
      ensures memory == [] && stepsDone == 0 && epsThreshold == Infinite && optimizerSteps == 0
      ensures this.batchSize == batchSize && this.gamma == gamma && this.targetUpdate == targetUpdate
      ensures this.capacity == capacity && this.numActions == numActions
    {
      this.batchSize := batchSize;
      this.gamma := gamma;
      this.targetUpdate := targetUpdate;
      this.capacity := capacity;
      this.numActions := numActions;
      policy := if loaded.Some? then loaded.value else initial;
      target := if loaded.Some? then loaded.value else initial;
      memory := [];
      stepsDone := 0;
      epsThreshold := Infinite;
      optimizerSteps := 0;
    }

    /** `load_model`: both networks take the given parameters. */
    method LoadModel(model: Params)
      requires Valid()
      modifies this
      ensures Valid()
      ensures policy == model && target == model
      ensures memory == old(memory) && stepsDone == old(stepsDone)
      ensures epsThreshold == old(epsThreshold) && optimizerSteps == old(optimizerSteps)
    {
      policy := model;
      target := policy;
    }

    /** `_hard_update_target`: the target copies the policy exactly when the
        step counter is a multiple of `target_update`; a `target_update` of
        zero is a ZeroDivisionError. */
    method HardUpdateTarget() returns (err: Option<Error>)
      requires Valid()
      modifies this
      ensures Valid()
      ensures err == (if targetUpdate == 0 then Some(ZeroDivisionError) else None)
      ensures target == (if targetUpdate != 0 && stepsDone % targetUpdate == 0 then policy else old(target))
      ensures policy == old(policy) && memory == old(memory) && stepsDone == old(stepsDone)
      ensures epsThreshold == old(epsThreshold) && optimizerSteps == old(optimizerSteps)
    {
      if targetUpdate == 0 {
        return Some(ZeroDivisionError);
      }
      if stepsDone % targetUpdate != 0 {
        return None;
      }
      target := policy;
      return None;
    }

    /** `_soft_update_target`: every target parameter is blended with its
        policy counterpart. */
    method SoftUpdateTarget()
      requires Valid()
      modifies this
      ensures Valid()
      ensures target == SoftUpdated(old(policy), old(target))
      ensures policy == old(policy) && memory == old(memory) && stepsDone == old(stepsDone)
      ensures epsThreshold == old(epsThreshold) && optimizerSteps == old(optimizerSteps)
    {
      var t := target;
      var remaining := policy.Keys;
      while remaining != {}
        invariant remaining <= policy.Keys && t.Keys == policy.Keys
        invariant forall k :: k in t ==> t[k] == if k in remaining then target[k] else Blend(policy[k], target[k])
        decreases remaining
      {
        var k :| k in remaining;
        t := t[k := Blend(policy[k], t[k])];
        remaining := remaining - {k};
      }
      target := t;
    }

    /** `_predict_target_values`: writes the target maxima `output` into
        `nextStateValues` through the mask. */
    method PredictTargetValues(nextStateValues: array<real>, mask: seq<bool>, output: seq<real>)
      requires nextStateValues.Length == |mask| && |output| == CountTrue(mask)
      modifies nextStateValues
      ensures nextStateValues[..] == Overwrite(old(nextStateValues[..]), mask, output)
    {
      ghost var v := nextStateValues[..];
      var i := 0;
      var j := 0;
      while i < nextStateValues.Length
        invariant i <= nextStateValues.Length && j == CountTrue(mask[..i])
        invariant forall k :: 0 <= k < i ==> nextStateValues[k] == Overwrite(v, mask, output)[k]
        invariant forall k :: i <= k < nextStateValues.Length ==> nextStateValues[k] == v[k]
      {
        OverwriteAt(v, mask, output, i);
        CountTrueSnoc(mask, i);
        if mask[i] {
          nextStateValues[i] := output[j];
          j := j + 1;
        }
        i := i + 1;
      }
    }

    /** `_optimize_model`, returning the TD targets in place of the loss:
        nothing happens with fewer than `batch_size` transitions or when no
        sampled transition is non-final; otherwise the optimiser steps once.
        A `batch_size` of 0 passes the length guard, and `zip(*[])` then
        hands `Transition` no fields: a TypeError. `sample` is
        `memory.sample(batch_size)`, `targetMax` the target network's maxima
        over the non-final next states, `stepped` the parameters after the
        optimiser step. */
    method OptimizeModel(sample: seq<Transition<S>>, targetMax: seq<real>, stepped: Params)
      returns (r: Result<Option<seq<real>>>)
      requires Valid()
      requires |memory| >= batchSize ==> |sample| == batchSize && (forall t :: t in sample ==> t in memory)
      requires |targetMax| == CountTrue(NonFinalMask(sample)) && stepped.Keys == policy.Keys
      modifies this
      ensures Valid()
      ensures batchSize == 0 ==> r == Err(TypeError)
      ensures batchSize > 0 ==>
        r == Ok(if Optimizes(old(memory), sample, batchSize) then Some(Targets(sample, targetMax, gamma)) else None)
      ensures policy == if Optimizes(old(memory), sample, batchSize) then stepped else old(policy)
      ensures optimizerSteps == old(optimizerSteps) + if Optimizes(old(memory), sample, batchSize) then 1 else 0
      ensures target == old(target) && memory == old(memory) && stepsDone == old(stepsDone)
      ensures epsThreshold == old(epsThreshold)
    {
      if |memory| < batchSize {
        return Ok(None);
      }
      if batchSize == 0 {
        return Err(TypeError);
      }
      var mask := NonFinalMask(sample);
      if CountTrue(mask) == 0 {
        return Ok(None);
      }
      var next := new real[batchSize](_ => 0.0);
      assert next[..] == Zeros(batchSize);
      PredictTargetValues(next, mask, targetMax);
      r := Ok(Some(ExpectedStateActionValues(next[..], Rewards(sample), gamma)));
      policy := stepped;
      optimizerSteps := optimizerSteps + 1;
    }

    /** `train_step`: store this step's transitions, try one optimisation,
        then the hard target update; a missing key raises before anything
        changes. */
    method TrainStep<A(==)>(observations: Dict<A, S>, nextObs: Dict<A, Option<S>>, actions: Dict<A, int>,
                           rewards: Dict<A, real>, sample: seq<Transition<S>>, targetMax: seq<real>, stepped: Params)
      returns (r: Result<Option<seq<real>>>)
      requires Valid()
      requires StepTransitions(observations, actions, nextObs, rewards).Ok? ==>
        var mem := PushAll(memory, StepTransitions(observations, actions, nextObs, rewards).value, capacity);
        (|mem| >= batchSize ==> |sample| == batchSize && (forall t :: t in sample ==> t in mem)) &&
        |targetMax| == CountTrue(NonFinalMask(sample)) && stepped.Keys == policy.Keys
      modifies this
      ensures Valid()
      ensures StepTransitions(observations, actions, nextObs, rewards).Err? ==>
        r == Err(KeyError) && memory == old(memory) && policy == old(policy) && target == old(target) &&
        optimizerSteps == old(optimizerSteps)
      ensures StepTransitions(observations, actions, nextObs, rewards).Ok? ==>
        var mem := PushAll(old(memory), StepTransitions(observations, actions, nextObs, rewards).value, capacity);
        var opt := Optimizes(mem, sample, batchSize);
        memory == mem &&
        r == (if batchSize == 0 then Err(TypeError)
              else if targetUpdate == 0 then Err(ZeroDivisionError)
              else Ok(if opt then Some(Targets(sample, targetMax, gamma)) else None)) &&
        policy == (if opt then stepped else old(policy)) &&
        optimizerSteps == old(optimizerSteps) + (if opt then 1 else 0) &&
        target == (if batchSize > 0 && targetUpdate != 0 && stepsDone % targetUpdate == 0 then policy else old(target))
      ensures stepsDone == old(stepsDone) && epsThreshold == old(epsThreshold)
    {
      var ts := StepTransitions(observations, actions, nextObs, rewards);
      if ts.Err? {
        return Err(ts.error);
      }
      memory := PushAll(memory, ts.value, capacity);
      PushAllKeepsNewest(old(memory), ts.value, capacity);
      var targets := OptimizeModel(sample, targetMax, stepped);
      if targets.Err? {
        return Err(targets.error);
      }
      var err := HardUpdateTarget();
      if err.Some? {
        return Err(err.value);
      }
      return Ok(targets.value);
    }

    /** `predict` with the threshold `eps` already computed: each agent
        takes its greedy action, replaced by the random action drawn for it
        when its uniform draw falls below `eps`. */
    method Predict<A, O>(observations: Dict<A, O>, eps: real, qRows: seq<seq<real>>,
                         draws: seq<real>, randomActions: seq<int>) returns (actions: Dict<A, int>)
      requires Valid()
      requires forall i :: 0 <= i < |qRows| ==> |qRows[i]| > 0
      requires |draws| == |observations| && |randomActions| == |observations|
      requires forall i :: 0 <= i < |randomActions| ==> 0 <= randomActions[i] < numActions
      modifies this
      ensures Valid()
      ensures epsThreshold == Finite(eps)
      ensures policy == old(policy) && target == old(target) && memory == old(memory)
      ensures stepsDone == old(stepsDone) && optimizerSteps == old(optimizerSteps)
      ensures |actions| == if |observations| < |qRows| then |observations| else |qRows|
      ensures forall i :: 0 <= i < |actions| ==>
        actions[i].0 == observations[i].0 &&
        actions[i].1 == (if draws[i] < eps then randomActions[i] else ArgMax(qRows[i]))
    {
      epsThreshold := Finite(eps);
      var greedy := GetPolicyActions(observations, qRows);
      actions := greedy;
      var i := 0;
      while i < |actions|
        invariant i <= |actions| && |actions| == |greedy|
        invariant forall k :: 0 <= k < |actions| ==> actions[k].0 == greedy[k].0
        invariant forall k :: 0 <= k < |actions| ==>
          actions[k].1 == (if k < i && draws[k] < eps then randomActions[k] else greedy[k].1)
      {
        if draws[i] < eps {
          actions := actions[i := (actions[i].0, randomActions[i])];
        }
        i := i + 1;
      }
    }
  }

  lemma CountTrueSnoc(mask: seq<bool>, i: nat)
    requires i < |mask|
    ensures CountTrue(mask[..i + 1]) == CountTrue(mask[..i]) + if mask[i] then 1 else 0
  {
    CountTrueAppend(mask[..i], [mask[i]]);
    assert mask[..i + 1] == mask[..i] + [mask[i]];
  }

  lemma {:induction false} CountTrueAppend(a: seq<bool>, b: seq<bool>)
    ensures CountTrue(a + b) == CountTrue(a) + CountTrue(b)
  {
    if a != [] {
      assert (a + b)[1..] == a[1..] + b;
      CountTrueAppend(a[1..], b);
    } else {
      assert a + b == b;
    }
  }
}
