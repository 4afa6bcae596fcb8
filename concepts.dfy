/** multigrid/wrappers.py, `ConceptObsWrapper`: collects, per concept, the
    agents' observations that pass the concept's check, until every concept
    has enough of them; then the collection is written out once.

    The two `defaultdict`s are maps in which a missing key reads as its
    default: reading `_concepts_filled[c]` inserts `c` with False, and
    appending to `_concepts[c]` inserts `c` with the empty list. The check
    functions are abstract: `verdict(ci, n)` is what the check of concept
    `ci` says about the observation of the `n`-th agent in this step (the
    "random" check draws a fresh number per call). Writing the JSON files is
    modelled by a counter of `_write_concepts` calls. */
module ConceptObs {
  import opened Dicts

  /** The keys of `_concept_checks`, in order. */
  const Checks: seq<string> := ["random", "goal"]

  /** The extra key that keeps `all(...)` from holding a second time. */
  const Flag: string := "flag"

  /** `_goal_in_view`: some cell of the view has the goal type in its TYPE channel. */
  method GoalInView(view: array3<int>, typeChannel: nat, goalType: int) returns (b: bool)
    requires typeChannel < view.Length2
    ensures b <==> exists i: nat, j: nat :: i < view.Length0 && j < view.Length1 && view[i, j, typeChannel] == goalType
  {
    var i := 0;
    while i < view.Length0
      invariant i <= view.Length0
      invariant forall i': nat, j: nat :: i' < i && j < view.Length1 ==> view[i', j, typeChannel] != goalType
    {
      var j := 0;
      while j < view.Length1
        invariant j <= view.Length1
        invariant forall j': nat :: j' < j ==> view[i, j', typeChannel] != goalType
      {
        if view[i, j, typeChannel] == goalType {
          return true;
        }
        j := j + 1;
      }
      i := i + 1;
    }
    return false;
  }

  /** The collector's state: `_concepts`, `_concepts_filled`, and how many
      times `_write_concepts` has run. */
  datatype Collector<O> = Collector(concepts: map<string, seq<O>>, filled: map<string, bool>, writes: nat)

  /** `_concepts[c]` read through the defaultdict. */
  function ListOf<O>(m: map<string, seq<O>>, c: string): seq<O> {
    if c in m then m[c] else []
  }

  /** `_concepts_filled[c]` read through the defaultdict. */
  predicate IsFilled(f: map<string, bool>, c: string) {
    c in f && f[c]
  }

  /** The defaultdict read that inserts a missing key with False. */
  function Touch(f: map<string, bool>, c: string): map<string, bool> {
    if c in f then f else f[c := false]
  }

  /** `all(self._concepts_filled.values())`. */
  predicate AllFilled(f: map<string, bool>) {
    forall k | k in f :: f[k]
  }

  function Max(a: int, b: int): int {
    if a < b then b else a
  }

  /** The inner loop over agents `n ..` for concept `ci`: a passing
      observation is appended; the concept is marked filled once its list
      reaches `num`; when then every flag is set, the collection is written,
      the "flag" entry is cleared, and the loop stops. */
  function CollectAgents<A, O>(st: Collector<O>, ci: nat, obs: Dict<A, O>, n: nat,
                               verdict: (nat, nat) -> bool, num: int): Collector<O>
    requires ci < |Checks|
    decreases |obs| - n
  {
    if n >= |obs| then st
    else if !verdict(ci, n) then CollectAgents(st, ci, obs, n + 1, verdict, num)
    else
      var c := Checks[ci];
      var l := ListOf(st.concepts, c) + [obs[n].1];
      var f := if |l| >= num then st.filled[c := true] else st.filled;
      if AllFilled(f) then Collector(st.concepts[c := l], f[Flag := false], st.writes + 1)
      else CollectAgents(Collector(st.concepts[c := l], f, st.writes), ci, obs, n + 1, verdict, num)
  }

  /** The outer loop over concepts `ci ..`: a concept already filled is skipped. */
  function CollectFrom<A, O>(st: Collector<O>, ci: nat, obs: Dict<A, O>,
                             verdict: (nat, nat) -> bool, num: int): Collector<O>
    decreases |Checks| - ci
  {
    if ci >= |Checks| then st
    else
      var f := Touch(st.filled, Checks[ci]);
      if f[Checks[ci]] then CollectFrom(st.(filled := f), ci + 1, obs, verdict, num)
      else CollectFrom(CollectAgents(st.(filled := f), ci, obs, 0, verdict, num), ci + 1, obs, verdict, num)
  }

  /** The collector's state after one `step` that saw the observations `obs`. */
  function StepState<A, O>(st: Collector<O>, obs: Dict<A, O>, verdict: (nat, nat) -> bool, num: int): Collector<O> {
    CollectFrom(st, 0, obs, verdict, num)
  }

  /** The collector's invariant: the "flag" entry is set exactly until the
      single write; a concept is marked filled exactly when its list holds
      `num` observations (at least one: the mark is set on an append). */
  ghost predicate Inv<O>(st: Collector<O>, num: int) {
    Flag in st.filled && (st.filled[Flag] <==> st.writes == 0) && st.writes <= 1 &&
    forall ci :: 0 <= ci < |Checks| ==>
      (IsFilled(st.filled, Checks[ci]) <==> |ListOf(st.concepts, Checks[ci])| >= Max(num, 1))
  }

  /** The observations of agents `n .. m` that pass the check of concept `ci`, in agent order. */
  function Passing<A, O>(obs: Dict<A, O>, ci: nat, verdict: (nat, nat) -> bool, n: nat, m: nat): seq<O>
    requires n <= m <= |obs|
    decreases m - n
  {
    if n == m then [] else (if verdict(ci, n) then [obs[n].1] else []) + Passing(obs, ci, verdict, n + 1, m)
  }

  /** The inner loop preserves the invariant, never lowers the write count,
      and changes nothing but the list and mark of its own concept and the
      "flag" entry. */
  lemma {:induction false} CollectAgentsInv<A, O>(st: Collector<O>, ci: nat, obs: Dict<A, O>, n: nat,
                                                 verdict: (nat, nat) -> bool, num: int)
    requires ci < |Checks| && Inv(st, num)
    ensures var st' := CollectAgents(st, ci, obs, n, verdict, num);
      Inv(st', num) && st.writes <= st'.writes &&
      (forall c :: c != Checks[ci] ==> ListOf(st'.concepts, c) == ListOf(st.concepts, c)) &&
      (forall c :: c != Checks[ci] && c != Flag ==> IsFilled(st'.filled, c) == IsFilled(st.filled, c))
    decreases |obs| - n
  {
    if n < |obs| {
      if !verdict(ci, n) {
        CollectAgentsInv(st, ci, obs, n + 1, verdict, num);
      } else {
        var c := Checks[ci];
        var l := ListOf(st.concepts, c) + [obs[n].1];
        var f := if |l| >= num then st.filled[c := true] else st.filled;
        var st1 := Collector(st.concepts[c := l], f, st.writes);
        assert ListOf(st1.concepts, c) == l;
        assert forall c' :: c' != c ==> ListOf(st1.concepts, c') == ListOf(st.concepts, c');
        if AllFilled(f) {
          assert f[Flag];
        } else {
          assert Inv(st1, num);
          CollectAgentsInv(st1, ci, obs, n + 1, verdict, num);
        }
      }
    }
  }

  /** The inner loop appends to its concept's list the passing observations
      of agents `n .. m` for some `m`, and all of them unless the collection
      was written during the loop. */
  lemma {:induction false} CollectAgentsList<A, O>(st: Collector<O>, ci: nat, obs: Dict<A, O>, n: nat,
                                                  verdict: (nat, nat) -> bool, num: int)
    requires ci < |Checks| && n <= |obs|
    ensures var st' := CollectAgents(st, ci, obs, n, verdict, num);
      exists m :: n <= m <= |obs| &&
        ListOf(st'.concepts, Checks[ci]) == ListOf(st.concepts, Checks[ci]) + Passing(obs, ci, verdict, n, m) &&
        (st'.writes == st.writes ==> m == |obs|)
    decreases |obs| - n
  {
    var c := Checks[ci];
    var st' := CollectAgents(st, ci, obs, n, verdict, num);
    if n == |obs| {
      assert ListOf(st'.concepts, c) == ListOf(st.concepts, c) + Passing(obs, ci, verdict, n, n);
    } else if !verdict(ci, n) {
      CollectAgentsList(st, ci, obs, n + 1, verdict, num);
      var m :| n + 1 <= m <= |obs| &&
        ListOf(st'.concepts, c) == ListOf(st.concepts, c) + Passing(obs, ci, verdict, n + 1, m) &&
        (st'.writes == st.writes ==> m == |obs|);
      assert Passing(obs, ci, verdict, n, m) == Passing(obs, ci, verdict, n + 1, m);
    } else {
      var l := ListOf(st.concepts, c) + [obs[n].1];
      var f := if |l| >= num then st.filled[c := true] else st.filled;
      var st1 := Collector(st.concepts[c := l], f, st.writes);
      if AllFilled(f) {
        assert Passing(obs, ci, verdict, n, n + 1) == [obs[n].1];
        assert ListOf(st'.concepts, c) == ListOf(st.concepts, c) + Passing(obs, ci, verdict, n, n + 1);
      } else {
        CollectAgentsList(st1, ci, obs, n + 1, verdict, num);
        var m :| n + 1 <= m <= |obs| &&
          ListOf(st'.concepts, c) == ListOf(st1.concepts, c) + Passing(obs, ci, verdict, n + 1, m) &&
          (st'.writes == st1.writes ==> m == |obs|);
        assert Passing(obs, ci, verdict, n, m) == [obs[n].1] + Passing(obs, ci, verdict, n + 1, m);
        assert ListOf(st1.concepts, c) == l;
      }
    }
  }

  /** The state after the outer loop's visit of concept `ci`. */
  function VisitConcept<A, O>(st: Collector<O>, ci: nat, obs: Dict<A, O>,
                              verdict: (nat, nat) -> bool, num: int): Collector<O>
    requires ci < |Checks|
  {
    var f := Touch(st.filled, Checks[ci]);
    if f[Checks[ci]] then st.(filled := f) else CollectAgents(st.(filled := f), ci, obs, 0, verdict, num)
  }

  /** One visit of the outer loop keeps the invariant, never lowers the
      write count, touches only its own concept's list, and keeps the marks
      of the other concepts. */
  lemma VisitConceptFacts<A, O>(st: Collector<O>, ci: nat, obs: Dict<A, O>,
                                verdict: (nat, nat) -> bool, num: int)
    requires Inv(st, num) && ci < |Checks|
    ensures var st1 := VisitConcept(st, ci, obs, verdict, num);
      Inv(st1, num) && st.writes <= st1.writes &&
      (forall c :: c != Checks[ci] ==> ListOf(st1.concepts, c) == ListOf(st.concepts, c)) &&
      (IsFilled(st.filled, Checks[ci]) ==> st1.concepts == st.concepts) &&
      (forall cj :: 0 <= cj < |Checks| && cj != ci && IsFilled(st.filled, Checks[cj]) ==> IsFilled(st1.filled, Checks[cj]))
  {
    var c := Checks[ci];
    var f := Touch(st.filled, c);
    var st0 := st.(filled := f);
    assert Inv(st0, num);
    if !f[c] {
      CollectAgentsInv(st0, ci, obs, 0, verdict, num);
    }
  }

  lemma {:induction false} CollectFromFacts<A, O>(st: Collector<O>, ci: nat, obs: Dict<A, O>,
                                                 verdict: (nat, nat) -> bool, num: int)
    requires Inv(st, num) && ci <= |Checks|
    ensures var st' := CollectFrom(st, ci, obs, verdict, num);
      Inv(st', num) && st.writes <= st'.writes &&
      (forall c :: c !in Checks[ci..] ==> ListOf(st'.concepts, c) == ListOf(st.concepts, c)) &&
      forall cj :: ci <= cj < |Checks| && IsFilled(st.filled, Checks[cj]) ==>
        ListOf(st'.concepts, Checks[cj]) == ListOf(st.concepts, Checks[cj])
    decreases |Checks| - ci
  {
    if ci < |Checks| {
      var st1 := VisitConcept(st, ci, obs, verdict, num);
      assert CollectFrom(st, ci, obs, verdict, num) == CollectFrom(st1, ci + 1, obs, verdict, num);
      VisitConceptFacts(st, ci, obs, verdict, num);
      CollectFromFacts(st1, ci + 1, obs, verdict, num);
      assert Checks[ci] !in Checks[ci + 1..];
    }
  }

  /** One step keeps the invariant and writes the collection at most once
      over the collector's whole life: after the write, no step writes again. */
  lemma StepKeepsInv<A, O>(st: Collector<O>, obs: Dict<A, O>, verdict: (nat, nat) -> bool, num: int)
    requires Inv(st, num)
    ensures Inv(StepState(st, obs, verdict, num), num)
    ensures st.writes <= StepState(st, obs, verdict, num).writes <= 1
    ensures st.writes == 1 ==> StepState(st, obs, verdict, num).writes == 1
  {
    CollectFromFacts(st, 0, obs, verdict, num);
  }

  /** A concept already marked filled gains nothing. */
  lemma FilledConceptUnchanged<A, O>(st: Collector<O>, obs: Dict<A, O>, verdict: (nat, nat) -> bool, num: int, ci: nat)
    requires Inv(st, num) && ci < |Checks| && IsFilled(st.filled, Checks[ci])
    ensures ListOf(StepState(st, obs, verdict, num).concepts, Checks[ci]) == ListOf(st.concepts, Checks[ci])
  {
    CollectFromFacts(st, 0, obs, verdict, num);
  }

  /** The visit of an unfilled concept and the rest of the outer loop after it. */
  lemma CollectFromHere<A, O>(st: Collector<O>, obs: Dict<A, O>, verdict: (nat, nat) -> bool, num: int, ci: nat)
    requires Inv(st, num) && ci < |Checks| && !IsFilled(st.filled, Checks[ci])
    ensures var st' := CollectFrom(st, ci, obs, verdict, num);
      exists m :: 0 <= m <= |obs| &&
        ListOf(st'.concepts, Checks[ci]) == ListOf(st.concepts, Checks[ci]) + Passing(obs, ci, verdict, 0, m) &&
        (st'.writes == st.writes ==> m == |obs|)
  {
    var c := Checks[ci];
    var f := Touch(st.filled, c);
    var st0 := st.(filled := f);
    assert Inv(st0, num) && !f[c];
    var st1 := CollectAgents(st0, ci, obs, 0, verdict, num);
    var st' := CollectFrom(st1, ci + 1, obs, verdict, num);
    assert st' == CollectFrom(st, ci, obs, verdict, num);
    CollectAgentsInv(st0, ci, obs, 0, verdict, num);
    CollectAgentsList(st0, ci, obs, 0, verdict, num);
    var m :| 0 <= m <= |obs| &&
      ListOf(st1.concepts, c) == ListOf(st0.concepts, c) + Passing(obs, ci, verdict, 0, m) &&
      (st1.writes == st0.writes ==> m == |obs|);
    CollectFromFacts(st1, ci + 1, obs, verdict, num);
    assert c !in Checks[ci + 1..];
    assert ListOf(st'.concepts, c) == ListOf(st1.concepts, c);
  }

  lemma {:induction false} CollectFromList<A, O>(st: Collector<O>, cj: nat, obs: Dict<A, O>,
                                                verdict: (nat, nat) -> bool, num: int, ci: nat)
    requires Inv(st, num) && cj <= ci < |Checks| && !IsFilled(st.filled, Checks[ci])
    ensures var st' := CollectFrom(st, cj, obs, verdict, num);
      exists m :: 0 <= m <= |obs| &&
        ListOf(st'.concepts, Checks[ci]) == ListOf(st.concepts, Checks[ci]) + Passing(obs, ci, verdict, 0, m) &&
        (st'.writes == st.writes ==> m == |obs|)
    decreases |Checks| - cj
  {
    if cj == ci {
      CollectFromHere(st, obs, verdict, num, ci);
    } else {
      var c := Checks[ci];
      assert Checks[cj] != c;
      var st1 := VisitConcept(st, cj, obs, verdict, num);
      var st' := CollectFrom(st1, cj + 1, obs, verdict, num);
      assert st' == CollectFrom(st, cj, obs, verdict, num);
      VisitConceptFacts(st, cj, obs, verdict, num);
      assert ListOf(st1.concepts, c) == ListOf(st.concepts, c);
      CollectFromList(st1, cj + 1, obs, verdict, num, ci);
      var m :| 0 <= m <= |obs| &&
        ListOf(st'.concepts, c) == ListOf(st1.concepts, c) + Passing(obs, ci, verdict, 0, m) &&
        (st'.writes == st1.writes ==> m == |obs|);
      CollectFromFacts(st1, cj + 1, obs, verdict, num);
    }
  }

  /** A concept not yet filled gains, in agent order, the observations that
      pass its check: those of the first `m` agents, and of all agents unless
      the collection was written during this step. */
  lemma StepAppendsPassing<A, O>(st: Collector<O>, obs: Dict<A, O>, verdict: (nat, nat) -> bool, num: int, ci: nat)
    requires Inv(st, num) && ci < |Checks| && !IsFilled(st.filled, Checks[ci])
    ensures var st' := StepState(st, obs, verdict, num);
      exists m :: 0 <= m <= |obs| &&
        ListOf(st'.concepts, Checks[ci]) == ListOf(st.concepts, Checks[ci]) + Passing(obs, ci, verdict, 0, m) &&
        (st'.writes == st.writes ==> m == |obs|)
  {
    CollectFromList(st, 0, obs, verdict, num, ci);
  }

  /** `ConceptObsWrapper`, reduced to the collection state. */
  class ConceptObsWrapper<O> {
    /** `_num_observations`. */
    const numObservations: int
    /** `_concepts`. */
    var concepts: map<string, seq<O>>
    /** `_concepts_filled`. */
    var filled: map<string, bool>
    /** How many times `_write_concepts` has run. */
    var writes: nat

    function State(): Collector<O>
      reads this
    {
      Collector(concepts, filled, writes)
    }

    ghost predicate Valid()
      reads this
    {
      Inv(State(), numObservations)
    }

    /** Empty lists, no concept filled, and the "flag" entry set. */
    constructor (observations: int)
      ensures Valid() && numObservations == observations
      ensures State() == Collector(map[], map[Flag := true], 0)
    {
      numObservations := observations;
      concepts := map[];
      filled := map[Flag := true];
      writes := 0;
    }

    /** `ConceptObsWrapper.step`: `base` is what the wrapped environment's
        `step` returned; it is handed back unchanged, after each concept's
        list has gathered the passing observations. */
    method Step<A, R, T, U, I>(base: (Dict<A, O>, R, T, U, I), verdict: (nat, nat) -> bool)
      returns (r: (Dict<A, O>, R, T, U, I))
      requires Valid()
      modifies this
      ensures r == base
      ensures State() == StepState(old(State()), base.0, verdict, numObservations)
      ensures Valid()
    {
      var observations := base.0;
      var ci := 0;
      while ci < |Checks|
        invariant ci <= |Checks|
        invariant CollectFrom(State(), ci, observations, verdict, numObservations)
                  == StepState(old(State()), observations, verdict, numObservations)
      {
        var concept := Checks[ci];
        if concept !in filled {
          filled := filled[concept := false];
        }
        if !filled[concept] {
          CollectConcept(ci, observations, verdict);
        }
        ci := ci + 1;
      }
      StepKeepsInv(old(State()), observations, verdict, numObservations);
      r := base;
    }

    /** The loop over agents for one concept, up to the write that ends it. */
    method CollectConcept<A>(ci: nat, observations: Dict<A, O>, verdict: (nat, nat) -> bool)
      requires ci < |Checks|
      modifies this
      ensures State() == CollectAgents(old(State()), ci, observations, 0, verdict, numObservations)
    {
      var concept := Checks[ci];
      var n := 0;
      while n < |observations|
        invariant n <= |observations|
        invariant CollectAgents(State(), ci, observations, n, verdict, numObservations)
                  == CollectAgents(old(State()), ci, observations, 0, verdict, numObservations)
      {
        if verdict(ci, n) {
          concepts := concepts[concept := ListOf(concepts, concept) + [observations[n].1]];
          if |concepts[concept]| >= numObservations {
            filled := filled[concept := true];
          }
          if AllFilled(filled) {
            writes := writes + 1;
            filled := filled[Flag := false];
            return;
          }
        }
        n := n + 1;
      }
    }
  }
}
