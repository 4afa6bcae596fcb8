# xai-multigrid: the bookkeeping of its RL algorithms and environment wrappers, in Dafny

This project models the parts of the xai-multigrid repository that are plain
list, dict and index manipulation. The networks, losses and the optimiser are
left out. The parts modelled are:

- the dict and list reshaping helpers used to batch multi-agent observations
  (`zip_dict_list`, `flatten_dicts`, and the `processing` helpers that filter
  `None` entries, flatten and transpose);
- the one-hot observation encoder and the concept-collecting wrapper of the
  multigrid environment;
- the control logic of the DQN algorithm: its guards, the masked bootstrap
  vector, the TD target, target-network synchronisation and epsilon-greedy
  action choice;
- the control logic of the PPO algorithm: the `dones` merge, adding to the
  trajectory buffer, the full-buffer trigger and mini-batch slicing;
- the `step` of the CleanUp environment.

Python dicts are sequences of (key, value) pairs in insertion order
(`Dicts.Dict`). Python exceptions are the `Err` side of a `Result`, or an
`Option<Error>` for an operation that returns nothing. A network's
`state_dict` is a `map<string, real>`. What the code gets from outside is
a parameter of the operation. This covers network outputs, random draws,
the wrapped environment's `step`, and what the grid says about an agent.
A parameter is constrained only by the shape the code relies on.

Three behaviours of the code are worth stating, because a reader might
expect otherwise:

- The trajectory buffer and the replay memory come from a `Memory` base
  class (`rllib/core/memory/memory.py`) that is not part of this model. From
  their use (`maxlen`, `len`, `clear`, `list(...)`) they are assumed to be
  deques with `maxlen`, so a push onto a full buffer drops the oldest record
  rather than failing. This assumed behaviour is `Buffers.Push`.
- `_optimize_model` runs `epochs` passes, but the buffer is cleared inside
  `_optimize_model_batch`, that is, at the end of the first pass. So only the
  first epoch sees data, and with zero epochs the full buffer is never
  cleared.
- Whether replay sampling draws with or without replacement is decided by
  the unseen sampler. The model only requires each sampled transition to be
  in the memory, which holds for either kind of draw.

Files: `dicts.dfy` (shared vocabulary), `collections.dfy`, `processing.dfy`,
`onehot.dfy`, `concepts.dfy`, `buffers.dfy`, `dqn.dfy`, `ppo.dfy`,
`cleanup.dfy`.

## Model

| member | source | states |
|---|---|---|
| Collections.FlattenDictsLength | utils/common/collections.py:8-9 | the flattened list has exactly one element per (dict, key) pair: its length is the sum of the dicts' sizes |
| Collections.FlattenDictsAt | utils/common/collections.py:9 | value `j` of dict `i` sits right after every value of dicts `0..i-1`, so dicts keep their order and each keeps its insertion order |
| Collections.ZipDictList | utils/common/collections.py:12-16 | succeeds exactly when the list is non-empty and every dict holds every key of the first; an empty list is an IndexError; a key of the first dict that some dict lacks is a KeyError, and only then; otherwise there is one row per key of the first dict, in its order, row `k` has `len(dict_list)` entries, and entry `i` is dict `i`'s value for key `k`; keys that only later dicts have are ignored |
| Processing.Present | rllib/utils/torch/processing.py:41-45 | the `is not None` filter keeps no more elements than it is given, every kept element was a `Some` of the input, and every `Some` of the input is kept |
| Processing.PresentAppend | rllib/utils/torch/processing.py:41-45 | filtering commutes with concatenation, so the kept values stay in their original order |
| Processing.PresentLength | rllib/utils/torch/processing.py:41-45 | exactly the None entries are dropped: kept count plus None count is the input length |
| Processing.ObservationToTorch | rllib/utils/torch/processing.py:10-19 | one tensor per key of the observation, in key order, each that key's value |
| Processing.ObservationsToTorch | rllib/utils/torch/processing.py:34-45 | with `skip_none`, the result is the present observations converted in order; without it, the call succeeds exactly when no value is None (a None raises AttributeError) and then converts every value, so the output length equals the number of values |
| Processing.MinLen | rllib/utils/torch/processing.py:59 | the length `zip(*rows)` stops at is a lower bound of every row's length and is some row's length |
| Processing.Transpose | rllib/utils/torch/processing.py:59 | `zip(*rows)` gives no columns for no rows, otherwise as many columns as the shortest row, and column `j` at position `i` is element `j` of row `i` |
| Processing.TransposeEmpty | rllib/utils/torch/processing.py:59 | the transpose is empty exactly when there are no rows or some row is empty |
| Processing.ObservationsSeperateToTorch | rllib/utils/torch/processing.py:48-60 | AttributeError exactly when `skip_none` is off and some entry holds a None observation; otherwise no columns when no agent row survives, as many columns as the shortest row has features, each column holds one entry per surviving agent row, and agent `k` of entry `i` appears at position (rows of entries `0 .. i-1`) + `k` of every column, carrying that column's feature |
| Processing.FlattenedSkipNone | rllib/utils/torch/processing.py:55-58 | with `skip_none` and non-empty kept observations, flattening succeeds, gives non-empty rows, and gives no rows exactly when no entry keeps an observation |
| Processing.SkipNoneEmptyIff | rllib/utils/torch/processing.py:48-60 | with `skip_none`, a batch whose kept observations each have at least one feature yields zero columns exactly when every entry's observations are all None; this is what the DQN "no non-final next states" guard tests |
| Processing.WithoutNone | rllib/utils/torch/processing.py:64-67 | the filtered copy holds no None value, only pairs of the original, and every pair of the original whose value is present |
| Processing.WithoutNoneSnoc | rllib/utils/torch/processing.py:64-67 | filtering one more pair keeps the earlier survivors and appends that pair exactly when its value is present, so the survivors stay in the original order |
| Processing.DeleteNone | rllib/utils/torch/processing.py:64-67 | the loop that `del`s every None-valued key from the copy leaves exactly the copy without its None entries |
| Processing.RemoveNoneDict | rllib/utils/torch/processing.py:63-68 | as written: the argument comes back unchanged, whatever the loop did to the copy |
| Processing.RemoveNoneDictFixed | rllib/utils/torch/processing.py:63-67 | as intended: the result is the argument without its None entries |
| Processing.RemoveNoneDictKeepsNone | rllib/utils/torch/processing.py:63-68 | whenever some value is None, the returned dict differs from the filtered one, so callers receive their None entries back |
| Processing.RemoveNoneObservations | rllib/utils/torch/processing.py:71-81 | the None list elements are dropped: result length plus the number of Nones is the input length; every kept dict was a present element, and every present element is kept |
| Processing.RemoveNoneObservationsFixed | rllib/utils/torch/processing.py:71-81 | with the corrected `remove_none_dict`, the same count holds, dict `i` of the result is the `i`-th present dict with its None entries removed (and all its other entries kept), and no kept dict has a None value |
| OneHotObs.OffsetMonotone | multigrid/wrappers.py:277-284 | the running `dim_offset` only grows: block `d` starts no later than any block `e >= d` starts |
| OneHotObs.AxisIndex | multigrid/wrappers.py:281-282 | the numpy index rule: `k` in `[-n, n)` selects `k` or `n + k`, anything else is an IndexError |
| OneHotObs.OneHot | multigrid/wrappers.py:256-286 | an index out of numpy's range is an IndexError, and only then; otherwise the output is a fresh `(H, W, sum(dim_sizes))` array in which, for every block, exactly the targeted entries are set and all others are 0 |
| OneHotObs.HotAtTarget | multigrid/wrappers.py:277-284 | the entry a block targets is hot once every block up to and including it has been written |
| OneHotObs.OneAtTarget | multigrid/wrappers.py:275-284 | `out[i, j, offset(d) + x[i, j, d]]` is 1 for every `i, j, d`, and every entry is 0 or 1 |
| OneHotObs.InRangeTarget | multigrid/wrappers.py:281 | an in-range value `0 <= x[i, j, d] < dim_sizes[d]` targets a channel inside block `d` |
| OneHotObs.InRangeHot | multigrid/wrappers.py:277-284 | with in-range values, a channel inside block `d` is hot exactly when it is block `d`'s target |
| OneHotObs.OneHotInRange | multigrid/wrappers.py:275-284 | when every `x[i, j, d]` is below `dim_sizes[d]`, every index is valid and each cell has exactly one 1 in each block, at `offset(d) + x[i, j, d]`, and every other entry stays 0 |
| OneHotObs.Observation | multigrid/wrappers.py:244-253 | fails, with an IndexError, exactly when some agent's image has an invalid index; otherwise every agent keeps its key, direction and mission, its image is replaced by a fresh one-hot encoding, and the keys come back in order |
| ConceptObs.GoalInView | multigrid/wrappers.py:99-106 | true exactly when some cell of the view has the goal type in its TYPE channel |
| ConceptObs.CollectAgentsInv | multigrid/wrappers.py:62-73 | the agent loop keeps the collector invariant, never lowers the write count, and changes only its own concept's list and mark and the "flag" entry |
| ConceptObs.CollectAgentsList | multigrid/wrappers.py:62-73 | the agent loop appends to its concept the passing observations of a prefix of the agents, in agent order, and of all agents unless it wrote the collection and broke off |
| ConceptObs.VisitConceptFacts | multigrid/wrappers.py:59-73 | one visit of the concept loop keeps the invariant, never lowers the write count, touches only its own concept's list, leaves a filled concept's lists alone, and keeps every other concept's mark |
| ConceptObs.CollectFromFacts | multigrid/wrappers.py:59-73 | the concept loop keeps the invariant, never lowers the write count, leaves lists of concepts outside the remaining checks alone, and leaves filled concepts untouched |
| ConceptObs.CollectFromHere | multigrid/wrappers.py:59-73 | visiting an unfilled concept and finishing the concept loop appends to it the passing observations of a prefix of the agents, of all of them unless the collection was written |
| ConceptObs.CollectFromList | multigrid/wrappers.py:59-67 | a concept not yet filled, reached by the concept loop, gains exactly the passing observations of a prefix of the agents, and of all of them unless the collection was written |
| ConceptObs.StepKeepsInv | multigrid/wrappers.py:59-73 | a step keeps the invariant and writes at most once over the collector's life: "flag" is set until the single write, and after it no step writes again |
| ConceptObs.FilledConceptUnchanged | multigrid/wrappers.py:59-61 | a concept already marked filled gains nothing in a step |
| ConceptObs.StepAppendsPassing | multigrid/wrappers.py:59-67 | in a step, an unfilled concept gains, in agent order, only observations that pass its check, all of them unless the write happened in that step |
| ConceptObs.ConceptObsWrapper.constructor | multigrid/wrappers.py:36-41 | empty lists, no concept marked, "flag" set, nothing written, and the invariant holds |
| ConceptObs.ConceptObsWrapper.Step | multigrid/wrappers.py:48-75 | returns the wrapped environment's five results unchanged, moves the collection to the state of the specifying function `StepState`, and keeps the invariant |
| ConceptObs.ConceptObsWrapper.CollectConcept | multigrid/wrappers.py:62-73 | the mutating agent loop with its `break` ends in the state given by the specifying function `CollectAgents` |
| Buffers.PushKeepsNewest | rllib/algorithms/ppo/ppo.py:63-70 | one append keeps the buffer within `maxlen` and leaves the newest `maxlen` elements of the old contents followed by the new one, which is last |
| Buffers.PushAllKeepsNewest | rllib/algorithms/dqn/dqn.py:67-73 | adding a sequence of records leaves the newest `capacity` of old-then-new records, oldest first |
| Dqn.NonFinalMask | rllib/algorithms/dqn/dqn.py:144 | the mask has one entry per sampled transition, set exactly when it has a next state |
| Dqn.OverwriteAt | rllib/algorithms/dqn/dqn.py:189 | after `v[mask] = output`, a set position `k` holds the output of rank `CountTrue(mask[..k])`, and an unset position keeps its value |
| Dqn.OverwriteSelected | rllib/algorithms/dqn/dqn.py:189 | the set positions, read back in order, give exactly `output` |
| Dqn.NextStateValuesAt | rllib/algorithms/dqn/dqn.py:158-161 | entry `k` of the bootstrap vector is 0 for a final transition and the target maximum of rank `CountTrue(mask[..k])` for a non-final one |
| Dqn.NextStateValuesFacts | rllib/algorithms/dqn/dqn.py:158-161 | the bootstrap vector has one entry per transition, 0 at every final transition, and the target maxima in order at the non-final ones |
| Dqn.TargetOfTransition | rllib/algorithms/dqn/dqn.py:192-195 | the TD target of a final transition is exactly its reward; that of a non-final one is its target maximum times gamma plus its reward |
| Dqn.SoftUpdated | rllib/algorithms/dqn/dqn.py:221-228 | the blended parameters keep exactly the target's keys, and a target entry the policy lacks is left as it was |
| Dqn.SoftUpdateContracts | rllib/algorithms/dqn/dqn.py:221-228 | the soft update keeps the key set, moves each parameter so that its distance to the policy is multiplied by 0.995, and leaves a target equal to the policy unchanged |
| Dqn.ArgMax | rllib/algorithms/dqn/dqn.py:125 | `argmax` returns an index of the row whose entry no entry exceeds, and every earlier entry is strictly smaller (the first maximum) |
| Dqn.GetPolicyActions | rllib/algorithms/dqn/dqn.py:116-126 | one action per pair that `zip(keys, rows)` produces (the shorter of the two), keyed by the observation's key in order, each a first maximal index of that agent's Q-row |
| Dqn.StepTransitions | rllib/algorithms/dqn/dqn.py:67-73 | the transitions stored for a step: a KeyError exactly when some observation key lacks an action, next observation or reward; otherwise one transition per observation key, in order, built from that key's entries |
| Dqn.DQN.constructor | rllib/algorithms/dqn/dqn.py:27-50 | the policy holds the loaded model if a path is given; the target equals the policy; the memory is empty and the threshold is infinite |
| Dqn.DQN.LoadModel | rllib/algorithms/dqn/dqn.py:106-110 | both networks end up with the given parameters, so the target equals the policy |
| Dqn.DQN.HardUpdateTarget | rllib/algorithms/dqn/dqn.py:216-219 | the target becomes the policy exactly when `steps_done % target_update == 0`, and is otherwise unchanged; a zero `target_update` is a ZeroDivisionError |
| Dqn.DQN.SoftUpdateTarget | rllib/algorithms/dqn/dqn.py:221-228 | the key loop leaves the target equal to the blend `SoftUpdated(policy, target)`, whatever order it visits the keys in |
| Dqn.DQN.PredictTargetValues | rllib/algorithms/dqn/dqn.py:181-190 | the in-place masked write leaves the array equal to `Overwrite` of its old contents |
| Dqn.DQN.OptimizeModel | rllib/algorithms/dqn/dqn.py:136-174 | a `batch_size` of 0 is a TypeError (the empty sample gives `Transition` no fields) that changes nothing; with fewer than `batch_size` transitions, or no non-final sampled transition, nothing changes and the result is None; otherwise the result is the TD targets of the sample, the policy takes the optimiser's parameters, and one optimiser step is counted |
| Dqn.DQN.TrainStep | rllib/algorithms/dqn/dqn.py:52-75 | a missing key changes nothing (an assumption, see "## Left out"); otherwise the step's transitions are added to memory first, then one optimisation attempt runs on the grown memory, then the hard target update; a TypeError from a zero `batch_size` propagates after the transitions are stored and skips the target update |
| Dqn.DQN.Predict | rllib/algorithms/dqn/dqn.py:95-104 | the threshold is recorded; each agent's action is its random action if its draw is below the threshold, and otherwise its first maximal Q-index |
| Ppo.MiniBatchesFromConcat | rllib/algorithms/ppo/ppo.py:135-136 | the slices from `i` onwards, concatenated, give the buffer from `i` onwards |
| Ppo.MiniBatchesFromSizes | rllib/algorithms/ppo/ppo.py:135-136 | every slice holds between 1 and `mini_batch_size` records, and every slice but the last holds exactly `mini_batch_size` |
| Ppo.MiniBatchesPartition | rllib/algorithms/ppo/ppo.py:134-137 | the mini-batches, concatenated, give the buffer in order; all are full except possibly the last, which is not empty |
| Ppo.Dones | rllib/algorithms/ppo/ppo.py:60-62 | `or` short-circuits, so a KeyError happens exactly when some key is not terminated and missing from the truncations; a terminated key needs no truncation entry; otherwise the keys of `terminations` in order, each with `terminations[k] or truncations[k]` |
| Ppo.PredictOutputs | rllib/algorithms/ppo/ppo.py:85-102 | actions, probabilities and values come back keyed by the observation keys that `zip` pairs with probability rows, in order, each entry the one for that key |
| Ppo.PPO.constructor | rllib/algorithms/ppo/ppo.py:29-48 | an empty buffer with `maxlen = batch_size`, and empty stored probabilities and values |
| Ppo.PPO.Predict | rllib/algorithms/ppo/ppo.py:79-83 | the probabilities and values of this prediction are stored for the next `train_step`, and the actions are returned |
| Ppo.PPO.OptimizeModelBatch | rllib/algorithms/ppo/ppo.py:132-138 | every mini-batch of the buffer goes to the optimiser in order, then the buffer is empty; a mini-batch size of 0 is the ValueError of `range` |
| Ppo.PPO.OptimizeModel | rllib/algorithms/ppo/ppo.py:125-130 | no-op unless the buffer is exactly full; with zero epochs the full buffer stays; otherwise the mini-batches of the full buffer are optimised once, because later epochs see the cleared buffer, and the buffer ends empty |
| Ppo.PPO.TrainStep | rllib/algorithms/ppo/ppo.py:50-71 | a key that is not terminated and has no truncation entry is a KeyError that changes nothing; otherwise one record is added, carrying the probabilities and values stored by the latest `predict` and the or-ed dones, and a now-full buffer is optimised |
| CleanUp.Uniform | multigrid/envs/cleanup.py:53-58 | the initial dicts have one entry per agent index, in order, all holding the same value |
| CleanUp.MergeRewards | multigrid/envs/cleanup.py:85-89 | the merged rewards are keyed by every agent index, in order |
| CleanUp.MergeTerminations | multigrid/envs/cleanup.py:90-94 | the merged terminations are keyed by every agent index, in order |
| CleanUp.MergeIsBase | multigrid/envs/cleanup.py:85-94 | with local rewards 0 and terminations False, each merged reward is the base reward and each merged termination the base termination |
| CleanUp.PreStep | multigrid/envs/cleanup.py:53-81 | the drop loop is a KeyError exactly when some agent has no action; otherwise it leaves the local rewards all 0 and terminations all False, because every branch continues before `on_success` |
| CleanUp.Step | multigrid/envs/cleanup.py:44-96 | succeeds exactly when every agent index is in the actions, the base rewards and the base terminations; then observations, truncations and info pass through, every agent gets its base reward and base termination, and the dicts are keyed by agent index in order |

## Left out

- Network forward passes, `gather`, `max` over the target network, `SmoothL1Loss`, `compute_log_probs`, `ppo_loss`, and the AdamW step are foreign library calls. Their results are parameters: Q-rows, target maxima, action probabilities, values, sampled actions and the stepped parameters.
- Dqn.DQN.OptimizeModel: returns the TD targets rather than the loss, because the loss is a `SmoothL1Loss` of network outputs. The policy network's `gather` over the state batch is not modelled. A `batch_size` of 0 is modelled as a TypeError, on the assumption that `Transition` in `rllib/core/memory/replay_memory.py` is a plain namedtuple with four required fields; that file is not part of this model.
- Ppo.PPO.OptimizeModelBatch: models each `_optimize_model_minibatch` call only as an entry in the log of mini-batches. The `zip_dict_list` reshaping, GAE and the loss inside it are not modelled. `rllib/core/algorithms/gae.py` is not part of this model.
- The epsilon schedule `eps_end + (eps_start - eps_end) * exp(-steps / decay)` is transcendental floating point. `Dqn.DQN.Predict` takes the computed threshold as a parameter.
- Randomness is not modelled. This covers `np.random.rand`, `np.random.randint`, `torch.multinomial`, `memory.sample`, and the "random" concept check. The draws are parameters, bounded as the source needs: `randint(n)` is in `[0, n)`, and every sampled transition is in the memory.
- The replay memory and the trajectory buffer's `Memory` base class (rllib/core/memory/memory.py) are not part of this model. They are modelled as the deque with `maxlen` that their use in the algorithms implies (`Buffers`). `add_dict` is modelled as one transition per observation key, added in key order.
- Dqn.DQN.TrainStep: treats a KeyError as all-or-nothing: nothing is stored. The error comes from `memory.add_dict` or `preprocess_next_observations` (rllib/algorithms/dqn/dqn.py:63-73), whose bodies are not part of this model, so whether transitions for earlier keys are already stored when it is raised cannot be read from the code; the model assumes they are not.
- `preprocess_next_observations` and `get_non_final_mask` are not part of this model. The preprocessed next observations are a parameter of `Dqn.DQN.TrainStep`, and a transition is non-final exactly when it has a next state.
- Dqn.DQN.OptimizeModel: tests "no non-final next states" as "no sampled transition has a next state". It does not test it as "the skip-None batch has no columns". The two agree when every kept observation has a feature (`Processing.SkipNoneEmptyIff`). The observation type is kept abstract in the DQN model, so that link is stated separately.
- `_steps_done` is maintained by the `Algorithm` base class, which is not part of this model. No modelled operation changes it.
- `load_state_dict` checks that keys match and raises on a mismatch. That strict check is not modelled: `Dqn.DQN.LoadModel` takes any parameter map.
- The PPO `load_model` and `model` property change or expose only the network, which is not modelled. `_get_policy_values` and its `requires_grad` switch only choose a torch mode.
- Ppo.PredictOutputs: `values[key] = policy_values[key]` indexes the value tensor by agent id. This is modelled as a lookup function of the key, because whether the index succeeds depends on the tensor, which is not modelled.
- Dqn.GetPolicyActions: requires every Q-row to be non-empty, because `argmax` of an empty tensor raises inside torch, and torch is not modelled.
- `observation_to_torch_unsqueeze` and `_get_policy_action` are not on any modelled path.
- File I/O in `_write_concepts` is modelled as a count of writes. `_visualize_concepts` is only referenced by a commented-out call. It and `json.dump` are left out.
- ConceptObs.ConceptObsWrapper.Step: abstracts the concept checks as a verdict per (concept, agent). The `obs["image"]` lookup and the random draw behind "random" are part of the verdict.
- ConceptObs.GoalInView: takes `WorldObject.TYPE` and the goal type's index as parameters, because the enums that define them (multigrid/core) are not part of this model.
- OneHotObs.Observation: returns a new dict instead of assigning into the caller's observation dicts, so aliasing of the caller's dicts is not captured. `dim_sizes` is a parameter, because the size of each enum is defined in multigrid/core, which is not part of this model. The uint8 output only ever holds 0 or 1.
- `FullyObsWrapper`, `ImgObsWrapper` and `SingleAgentWrapper` depend on `grid.encode`, `agent.encode` and the gym base classes, which are not part of this model. The observation-space setup in the wrappers' constructors is left out for the same reason.
- CleanUp.Step: agent `i` is the `i`-th agent of the list, and its key is the index `i` itself rather than the string `str(i)`. `Action.drop` is a parameter. The grid facts the drop checks read are per-agent inputs. `super().step` is its result tuple.
- Floating point is modelled as `real`. This covers `1 - 0.005`, which is exactly 0.995 over the reals; the rewards and their `float` conversions; and the TD target.
- Logging (`log_episode`, `log_model`, `add_log`, `logging.*`) is left out.
- Processing.RemoveNoneObservations: its own contract states the count and the membership of the kept dicts. That they keep their order follows from `Processing.Present` and `Processing.PresentAppend`.

## Findings

| source | as written | input that shows it | evidently intended | confidence | as-written member | corrected member |
|---|---|---|---|---|---|---|
| rllib/utils/torch/processing.py:63-68 | `remove_none_dict` deletes the None entries from a copy, then returns the original argument | `{"0": None}` comes back as `{"0": None}` rather than `{}` | return the copy without its None entries | high (not executed) | Processing.RemoveNoneDict, Processing.RemoveNoneDictKeepsNone | Processing.RemoveNoneDictFixed |
