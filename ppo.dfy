/** rllib/algorithms/ppo/ppo.py: the bookkeeping of the PPO algorithm.

    The actor-critic network, the multinomial sampling, GAE and the loss are
    not modelled: the network's action probabilities and values and the
    sampled actions are parameters, and each call of
    `_optimize_model_minibatch` is recorded by appending its mini-batch to
    the log `optimized`. */
module Ppo {
  import opened Dicts
  import opened Buffers

  /** One `Trajectory` record of the buffer. */
  datatype Trajectory<A, S, P> = Trajectory(states: Dict<A, S>, actions: Dict<A, int>, actionProbs: Dict<A, P>,
                                            values: Dict<A, real>, rewards: Dict<A, real>, dones: Dict<A, bool>)

  function Min(a: int, b: int): int {
    if a < b then a else b
  }

  /** The slices `[i, i + size)`, `[i + size, i + 2 * size)`, ... of `s`,
      the last one cut at the end of `s`: what
      `for i in range(start, len(s), size): s[i : i + size]` visits. */
  function MiniBatchesFrom<T>(s: seq<T>, i: nat, size: nat): seq<seq<T>>
    requires size > 0
    decreases |s| - i
  {
    if i >= |s| then [] else [s[i..Min(i + size, |s|)]] + MiniBatchesFrom(s, i + size, size)
  }

  function MiniBatches<T>(s: seq<T>, size: nat): seq<seq<T>>
    requires size > 0
  {
    MiniBatchesFrom(s, 0, size)
  }

  lemma {:induction false} MiniBatchesFromConcat<T>(s: seq<T>, i: nat, size: nat)
    requires size > 0 && i <= |s|
    ensures Concat(MiniBatchesFrom(s, i, size)) == s[i..]
    decreases |s| - i
  {
    if i < |s| {
      var j := Min(i + size, |s|);
      MiniBatchesFromConcat(s, j, size);
      if i + size < |s| {
        assert MiniBatchesFrom(s, i + size, size) == MiniBatchesFrom(s, j, size);
      }
      assert MiniBatchesFrom(s, i, size)[1..] == MiniBatchesFrom(s, i + size, size);
      assert s[i..] == s[i..j] + s[j..];
    }
  }

  lemma {:induction false} MiniBatchesFromSizes<T>(s: seq<T>, i: nat, size: nat)
    requires size > 0
    ensures forall b :: 0 <= b < |MiniBatchesFrom(s, i, size)| ==>
      0 < |MiniBatchesFrom(s, i, size)[b]| <= size &&
      (b < |MiniBatchesFrom(s, i, size)| - 1 ==> |MiniBatchesFrom(s, i, size)[b]| == size)
    decreases |s| - i
  {
    if i < |s| {
      MiniBatchesFromSizes(s, i + size, size);
      var bs := MiniBatchesFrom(s, i, size);
      assert bs[1..] == MiniBatchesFrom(s, i + size, size);
      if i + size < |s| {
        assert |bs| > 1;
      }
    }
  }

  /** The mini-batches, concatenated, give back the whole sequence in order;
      each holds between one and `size` elements, and every one but the last
      holds exactly `size`. */
  lemma MiniBatchesPartition<T>(s: seq<T>, size: nat)
    requires size > 0
    ensures Concat(MiniBatches(s, size)) == s
    ensures forall b :: 0 <= b < |MiniBatches(s, size)| ==>
      0 < |MiniBatches(s, size)[b]| <= size &&
      (b < |MiniBatches(s, size)| - 1 ==> |MiniBatches(s, size)[b]| == size)
  {
    MiniBatchesFromConcat(s, 0, size);
    MiniBatchesFromSizes(s, 0, size);
    assert s[0..] == s;
  }

  /** Whether `terminations[key] or truncations[key]` can be evaluated for
      every key: `or` short-circuits, so `truncations` is read only for a key
      whose termination flag is False. */
  predicate DonesDefined<A(==)>(terminations: Dict<A, bool>, truncations: Dict<A, bool>) {
    forall i :: 0 <= i < |terminations| ==> terminations[i].1 || HasKey(truncations, terminations[i].0)
  }

  /** The `dones` loop of `train_step`: one entry per key of `terminations`,
      in its order, holding `terminations[key] or truncations[key]`; a key
      that is not terminated and is missing from `truncations` is a KeyError. */
  method Dones<A(==)>(terminations: Dict<A, bool>, truncations: Dict<A, bool>) returns (r: Result<Dict<A, bool>>)
    ensures r.Err? <==>
      exists i :: 0 <= i < |terminations| && !terminations[i].1 && !HasKey(truncations, terminations[i].0)
    ensures r.Err? ==> r.error == KeyError
    ensures r.Ok? ==>
      DonesDefined(terminations, truncations) &&
      Keys(r.value) == Keys(terminations) &&
      forall i :: 0 <= i < |terminations| ==>
        r.value[i].1 == (terminations[i].1 || Get(truncations, terminations[i].0))
  {
    var dones: Dict<A, bool> := [];
    var i := 0;
    while i < |terminations|
      invariant i <= |terminations| && |dones| == i
      invariant forall k :: 0 <= k < i ==>
        (terminations[k].1 || HasKey(truncations, terminations[k].0)) && dones[k].0 == terminations[k].0 &&
        dones[k].1 == (terminations[k].1 || Get(truncations, terminations[k].0))
    {
      var key := terminations[i].0;
      if !terminations[i].1 && !HasKey(truncations, key) {
        return Err(KeyError);
      }
      dones := dones + [(key, terminations[i].1 || Get(truncations, key))];
      i := i + 1;
    }
    return Ok(dones);
  }

  /** `_predict`: `zip` stops at the shorter of the observation keys and the
      network's probability rows; each key gets its probabilities, the
      action sampled from them, and its value `policyValues(key)`. */
  method PredictOutputs<A, O, P>(observation: Dict<A, O>, probs: seq<P>, sampled: seq<int>, policyValues: A -> real)
    returns (actions: Dict<A, int>, actionProbs: Dict<A, P>, values: Dict<A, real>)
    requires |sampled| == |probs|
    ensures |actions| == |actionProbs| == |values| == Min(|observation|, |probs|)
    ensures forall i :: 0 <= i < |actions| ==>
      actions[i] == (observation[i].0, sampled[i]) &&
      actionProbs[i] == (observation[i].0, probs[i]) &&
      values[i] == (observation[i].0, policyValues(observation[i].0))
  {
    actions, actionProbs, values := [], [], [];
    var i := 0;
    while i < |observation| && i < |probs|
      invariant i <= |observation| && i <= |probs|
      invariant |actions| == i && |actionProbs| == i && |values| == i
      invariant forall k :: 0 <= k < i ==>
        actions[k] == (observation[k].0, sampled[k]) &&
        actionProbs[k] == (observation[k].0, probs[k]) &&
        values[k] == (observation[k].0, policyValues(observation[k].0))
    {
      var key := observation[i].0;
      actionProbs := actionProbs + [(key, probs[i])];
      actions := actions + [(key, sampled[i])];
      values := values + [(key, policyValues(key))];
      i := i + 1;
    }
  }

  /** The PPO algorithm's state: the trajectory buffer (capacity
      `batch_size`), the outputs of the latest `predict`, and the log of
      mini-batches handed to the optimiser. */
  class PPO<A(==), S, P> {
    /** `batch_size`: the trajectory buffer's `maxlen`. */
    const maxlen: nat
    const epochs: nat
    const miniBatchSize: nat

    var buffer: seq<Trajectory<A, S, P>>
    var actionProbs: Dict<A, P>
    var values: Dict<A, real>
    var optimized: seq<seq<Trajectory<A, S, P>>>

    ghost predicate Valid()
      reads this
    {
      |buffer| <= maxlen
    }

    constructor (maxlen: nat, epochs: nat, miniBatchSize: nat)
      ensures Valid()
      ensures this.maxlen == maxlen && this.epochs == epochs && this.miniBatchSize == miniBatchSize
      ensures buffer == [] && actionProbs == [] && values == [] && optimized == []
    {
      this.maxlen := maxlen;
      this.epochs := epochs;
      this.miniBatchSize := miniBatchSize;
      buffer := [];
      actionProbs := [];
      values := [];
      optimized := [];
    }

    /** `predict`: the outputs of `_predict` are stored for the next
        `train_step`, and the actions returned. */
    method Predict<O>(observation: Dict<A, O>, probs: seq<P>, sampled: seq<int>, policyValues: A -> real)
      returns (actions: Dict<A, int>)
      requires Valid()
      requires |sampled| == |probs|
      modifies this
      ensures Valid()
      ensures |actions| == |actionProbs| == |values| == Min(|observation|, |probs|)
      ensures forall i :: 0 <= i < |actions| ==>
        actions[i] == (observation[i].0, sampled[i]) &&
        actionProbs[i] == (observation[i].0, probs[i]) &&
        values[i] == (observation[i].0, policyValues(observation[i].0))
      ensures buffer == old(buffer) && optimized == old(optimized)
    {
      var ap, v;
      actions, ap, v := PredictOutputs(observation, probs, sampled, policyValues);
      actionProbs := ap;
      values := v;
    }

    /** `_optimize_model_batch`: every mini-batch of the buffer, in order,
        goes to the optimiser, then the buffer is cleared; a mini-batch size
        of zero is the ValueError of `range`. */
    method OptimizeModelBatch() returns (err: Option<Error>)
      requires Valid()
      modifies this
      ensures Valid()
      ensures miniBatchSize == 0 ==> err == Some(ValueError) && buffer == old(buffer) && optimized == old(optimized)
      ensures miniBatchSize > 0 ==>
        err == None && buffer == [] && optimized == old(optimized) + MiniBatches(old(buffer), miniBatchSize)
      ensures actionProbs == old(actionProbs) && values == old(values)
    {
      if miniBatchSize == 0 {
        return Some(ValueError);
      }
      var bufferList := buffer;
      var i := 0;
      while i < |bufferList|
        invariant optimized + MiniBatchesFrom(bufferList, i, miniBatchSize)
                  == old(optimized) + MiniBatches(bufferList, miniBatchSize)
        invariant buffer == bufferList && actionProbs == old(actionProbs) && values == old(values)
        decreases |bufferList| - i
      {
        var batch := bufferList[i..Min(i + miniBatchSize, |bufferList|)];
        optimized := optimized + [batch];
        i := i + miniBatchSize;
      }
      buffer := [];
      return None;
    }

    /** `_optimize_model`: only a full buffer triggers optimisation. The
        buffer is cleared inside the first epoch, so later epochs see no
        data, and with zero epochs the full buffer stays as it is. */
    method OptimizeModel() returns (err: Option<Error>)
      requires Valid()
      modifies this
      ensures Valid()
      ensures |old(buffer)| != maxlen || epochs == 0 ==>
        err == None && buffer == old(buffer) && optimized == old(optimized)
      ensures |old(buffer)| == maxlen && epochs > 0 && miniBatchSize == 0 ==>
        err == Some(ValueError) && buffer == old(buffer) && optimized == old(optimized)
      ensures |old(buffer)| == maxlen && epochs > 0 && miniBatchSize > 0 ==>
        err == None && buffer == [] && optimized == old(optimized) + MiniBatches(old(buffer), miniBatchSize)
      ensures actionProbs == old(actionProbs) && values == old(values)
    {
      if |buffer| != maxlen {
        return None;
      }
      var epoch := 0;
      err := None;
      while epoch < epochs
        invariant epoch <= epochs && Valid() && err == None
        invariant actionProbs == old(actionProbs) && values == old(values)
        invariant epoch == 0 ==> buffer == old(buffer) && optimized == old(optimized)
        invariant epoch > 0 ==>
          miniBatchSize > 0 && buffer == [] && optimized == old(optimized) + MiniBatches(old(buffer), miniBatchSize)
      {
        err := OptimizeModelBatch();
        if err.Some? {
          return;
        }
        epoch := epoch + 1;
      }
    }

    /** `train_step`: one record, carrying the action probabilities and
        values of the latest `predict`, is added to the buffer; then the
        buffer is optimised if it is full. */
    method TrainStep(observations: Dict<A, S>, actions: Dict<A, int>, rewards: Dict<A, real>,
                     terminations: Dict<A, bool>, truncations: Dict<A, bool>)
      returns (err: Option<Error>)
      requires Valid()
      modifies this
      ensures Valid()
      ensures !DonesDefined(terminations, truncations) ==>
        err == Some(KeyError) && buffer == old(buffer) && optimized == old(optimized)
      ensures DonesDefined(terminations, truncations) ==>
        exists dones: Dict<A, bool> ::
          Keys(dones) == Keys(terminations) &&
          (forall i :: 0 <= i < |terminations| ==>
            dones[i].1 == (terminations[i].1 || Get(truncations, terminations[i].0))) &&
          var added := Push(old(buffer), Trajectory(observations, actions, old(actionProbs), old(values), rewards, dones), maxlen);
          if |added| == maxlen && epochs > 0 then
            if miniBatchSize == 0 then err == Some(ValueError) && buffer == added && optimized == old(optimized)
            else err == None && buffer == [] && optimized == old(optimized) + MiniBatches(added, miniBatchSize)
          else err == None && buffer == added && optimized == old(optimized)
      ensures actionProbs == old(actionProbs) && values == old(values)
    {
      var dones := Dones(terminations, truncations);
      if dones.Err? {
        return Some(dones.error);
      }
      buffer := Push(buffer, Trajectory(observations, actions, actionProbs, values, rewards, dones.value), maxlen);
      PushKeepsNewest(old(buffer), Trajectory(observations, actions, actionProbs, values, rewards, dones.value), maxlen);
      err := OptimizeModel();
    }
  }
}
