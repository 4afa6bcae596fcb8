/** rllib/utils/torch/processing.py: turning agent-keyed observation dicts
    into per-feature batches. `torch.tensor` and `np.array` only change the
    container, so the tensor of a value is the value itself and a stacked
    batch is the sequence of its rows. */
module Processing {
  import opened Dicts

  /** The values that are not None, in order (a list comprehension with `if x is not None`). */
  function Present<T>(s: seq<Option<T>>): (r: seq<T>)
    ensures |r| <= |s|
    ensures forall x :: x in r ==> Some(x) in s
    ensures forall i :: 0 <= i < |s| && s[i].Some? ==> s[i].value in r
  {
    if s == [] then []
    else if s[0].None? then Present(s[1..])
    else [s[0].value] + Present(s[1..])
  }

  function NoneCount<T>(s: seq<Option<T>>): nat {
    if s == [] then 0 else (if s[0].None? then 1 else 0) + NoneCount(s[1..])
  }

  /** Filtering commutes with concatenation: the survivors of `s + t` are
      those of `s` followed by those of `t`, so the order is kept. */
  lemma {:induction false} PresentAppend<T>(s: seq<Option<T>>, t: seq<Option<T>>)
    ensures Present(s + t) == Present(s) + Present(t)
  {
    if s != [] {
      assert (s + t)[0] == s[0];
      assert (s + t)[1..] == s[1..] + t;
      PresentAppend(s[1..], t);
    } else {
      assert s + t == t;
    }
  }

  /** Exactly the None entries are dropped. */
  lemma {:induction false} PresentLength<T>(s: seq<Option<T>>)
    ensures |Present(s)| + NoneCount(s) == |s|
  {
    if s != [] {
      PresentLength(s[1..]);
    }
  }

  /** `observation_to_torch`: one tensor per key of the observation, in key order. */
  function ObservationToTorch<F, V>(observation: Dict<F, V>): (r: seq<V>)
    ensures |r| == |observation|
    ensures forall i :: 0 <= i < |r| ==> r[i] == observation[i].1
  {
    Values(observation)
  }

  function AllToTorch<F, V>(observations: seq<Dict<F, V>>): (r: seq<seq<V>>)
    ensures |r| == |observations|
    ensures forall i :: 0 <= i < |r| ==> r[i] == ObservationToTorch(observations[i])
  {
    seq(|observations|, i requires 0 <= i < |observations| => ObservationToTorch(observations[i]))
  }

  predicate NoNone<T>(s: seq<Option<T>>) {
    forall i :: 0 <= i < |s| ==> s[i].Some?
  }

  lemma NoNoneCons<T>(o: Option<T>, s: seq<Option<T>>)
    ensures NoNone([o] + s) <==> o.Some? && NoNone(s)
  {
    if o.Some? && NoNone(s) {
      forall i | 0 <= i < |[o] + s| ensures ([o] + s)[i].Some? {
        if i > 0 {
          assert ([o] + s)[i] == s[i - 1];
        }
      }
    }
    if NoNone([o] + s) {
      assert ([o] + s)[0] == o;
      forall i | 0 <= i < |s| ensures s[i].Some? {
        assert ([o] + s)[i + 1] == s[i];
      }
    }
  }

  /** `observations_to_torch`: the tensors of every agent's observation, in
      agent order. With `skip_none` the None observations are left out;
      without it a None observation raises AttributeError (`None.keys()`). */
  function ObservationsToTorch<A, F, V>(observations: Dict<A, Option<Dict<F, V>>>, skipNone: bool)
    : (r: Result<seq<seq<V>>>)
    ensures skipNone ==> r == Ok(AllToTorch(Present(Values(observations))))
    ensures !skipNone ==> (r.Ok? <==> NoNone(Values(observations)))
    ensures r.Err? ==> r.error == AttributeError
    ensures !skipNone && r.Ok? ==>
      |r.value| == |observations| &&
      forall i :: 0 <= i < |observations| ==> r.value[i] == ObservationToTorch(observations[i].1.value)
  {
    if observations == [] then Ok([])
    else
      var o := observations[0].1;
      assert Values(observations) == [o] + Values(observations[1..]);
      NoNoneCons(o, Values(observations[1..]));
      var rest := ObservationsToTorch(observations[1..], skipNone);
      if o.None? then
        if skipNone then rest else Err(AttributeError)
      else if rest.Err? then rest
      else
        assert skipNone ==> AllToTorch(Present(Values(observations)))
                            == [ObservationToTorch(o.value)] + rest.value;
        Ok([ObservationToTorch(o.value)] + rest.value)
  }

  /** Every entry converts without raising. */
  predicate AllConvert<A, F, V>(observations: seq<Dict<A, Option<Dict<F, V>>>>, skipNone: bool) {
    forall i :: 0 <= i < |observations| ==> ObservationsToTorch(observations[i], skipNone).Ok?
  }

  /** The converted entries, `obs_list`. */
  function PerEntry<A, F, V>(observations: seq<Dict<A, Option<Dict<F, V>>>>, skipNone: bool)
    : (r: seq<seq<seq<V>>>)
    requires AllConvert(observations, skipNone)
    ensures |r| == |observations|
    ensures forall i :: 0 <= i < |r| ==> r[i] == ObservationsToTorch(observations[i], skipNone).value
  {
    seq(|observations|, i requires 0 <= i < |observations| && AllConvert(observations, skipNone) =>
                          ObservationsToTorch(observations[i], skipNone).value)
  }

  /** `obs_flattened`: the converted entries flattened in order; the first
      entry that cannot be converted raises AttributeError. */
  function Flattened<A, F, V>(observations: seq<Dict<A, Option<Dict<F, V>>>>, skipNone: bool)
    : Result<seq<seq<V>>>
  {
    if AllConvert(observations, skipNone) then Ok(Concat(PerEntry(observations, skipNone)))
    else Err(AttributeError)
  }

  /** Length of the shortest row (`rows` must be non-empty). */
  function MinLen<T>(rows: seq<seq<T>>): (m: nat)
    requires rows != []
    ensures forall i :: 0 <= i < |rows| ==> m <= |rows[i]|
    ensures exists i :: 0 <= i < |rows| && m == |rows[i]|
  {
    if |rows| == 1 then |rows[0]|
    else
      var m := MinLen(rows[1..]);
      assert forall i :: 1 <= i < |rows| ==> rows[i] == rows[1..][i - 1];
      if |rows[0]| <= m then |rows[0]| else m
  }

  /** `zip(*rows)`: as many columns as the shortest row is long (none when
      there are no rows); column `j` holds element `j` of every row. */
  function Transpose<T>(rows: seq<seq<T>>): (cols: seq<seq<T>>)
    ensures rows == [] ==> cols == []
    ensures rows != [] ==> |cols| == MinLen(rows)
    ensures forall j :: 0 <= j < |cols| ==>
      |cols[j]| == |rows| && forall i :: 0 <= i < |rows| ==> j < |rows[i]| && cols[j][i] == rows[i][j]
  {
    if rows == [] then []
    else
      var m := MinLen(rows);
      seq(m, j requires 0 <= j < m =>
        seq(|rows|, i requires 0 <= i < |rows| => rows[i][j]))
  }

  /** Without rows, or with an empty row, the transpose has no columns. */
  lemma TransposeEmpty<T>(rows: seq<seq<T>>)
    ensures Transpose(rows) == [] <==> rows == [] || exists i :: 0 <= i < |rows| && rows[i] == []
  {
    if rows != [] && Transpose(rows) == [] {
      var i :| 0 <= i < |rows| && MinLen(rows) == |rows[i]|;
      assert rows[i] == [];
    }
  }

  /** Some entry of the batch holds a None observation. */
  predicate SomeNone<A, D>(observations: seq<Dict<A, Option<D>>>) {
    exists i, a :: 0 <= i < |observations| && 0 <= a < |observations[i]| && observations[i][a].1.None?
  }

  /** Every entry converts exactly when None observations are skipped or there are none. */
  lemma AllConvertIff<A, F, V>(observations: seq<Dict<A, Option<Dict<F, V>>>>, skipNone: bool)
    ensures AllConvert(observations, skipNone) <==> skipNone || !SomeNone(observations)
  {
    if !skipNone && SomeNone(observations) {
      var i, a :| 0 <= i < |observations| && 0 <= a < |observations[i]| && observations[i][a].1.None?;
      assert Values(observations[i])[a].None?;
    }
  }

  /** Element `k` of list `i` of `per` is row `TotalLen(per[..i]) + k` of
      the concatenation, and column `j` of `cols` holds its item `j`. */
  ghost predicate ColumnHolds<V>(per: seq<seq<seq<V>>>, cols: seq<seq<V>>, i: nat, k: nat, j: nat)
    requires i < |per| && k < |per[i]| && j < |cols|
  {
    j < |per[i][k]| && TotalLen(per[..i]) + k < |cols[j]| && cols[j][TotalLen(per[..i]) + k] == per[i][k][j]
  }

  lemma TransposeConcatAll<V>(per: seq<seq<seq<V>>>, cols: seq<seq<V>>)
    requires cols == Transpose(Concat(per))
    ensures forall i: nat, k: nat, j: nat :: i < |per| && k < |per[i]| && j < |cols| ==> ColumnHolds(per, cols, i, k, j)
  {
    forall i: nat, k: nat, j: nat | i < |per| && k < |per[i]| && j < |cols|
      ensures ColumnHolds(per, cols, i, k, j)
    {
      ConcatAt(per, i, k);
    }
  }

  /** `observations_seperate_to_torch`: the per-agent tensor lists of every
      entry, flattened in order and then transposed into one batch per
      feature. A None observation without `skip_none` raises AttributeError;
      otherwise there are no columns without rows, as many columns as the
      shortest row has features, and agent `k` of entry `i` sits at position
      (agents kept by entries `0 .. i-1`) + `k` of every column, each column
      holding one entry per kept agent row. */
  function ObservationsSeperateToTorch<A, F, V>(observations: seq<Dict<A, Option<Dict<F, V>>>>, skipNone: bool)
    : (r: Result<seq<seq<V>>>)
    ensures r.Err? <==> !skipNone && SomeNone(observations)
    ensures r.Err? ==> r.error == AttributeError
    ensures r.Ok? ==>
      AllConvert(observations, skipNone) &&
      (TotalLen(PerEntry(observations, skipNone)) == 0 ==> r.value == []) &&
      (TotalLen(PerEntry(observations, skipNone)) > 0 ==>
        |r.value| == MinLen(Concat(PerEntry(observations, skipNone))))
    ensures r.Ok? ==>
      forall j :: 0 <= j < |r.value| ==> |r.value[j]| == TotalLen(PerEntry(observations, skipNone))
    ensures r.Ok? ==>
      AllConvert(observations, skipNone) &&
      forall i: nat, k: nat, j: nat :: i < |observations| && k < |PerEntry(observations, skipNone)[i]| && j < |r.value| ==>
        ColumnHolds(PerEntry(observations, skipNone), r.value, i, k, j)
  {
    AllConvertIff(observations, skipNone);
    var flat := Flattened(observations, skipNone);
    if flat.Err? then Err(AttributeError)
    else
      TransposeConcatAll(PerEntry(observations, skipNone), Transpose(flat.value));
      Ok(Transpose(flat.value))
  }

  /** Under `skip_none` nothing raises, and when every kept observation has a
      feature, the flattened rows are all non-empty, and there are none exactly
      when no entry keeps an observation. */
  lemma FlattenedSkipNone<A, F, V>(observations: seq<Dict<A, Option<Dict<F, V>>>>)
    requires forall i, a :: 0 <= i < |observations| && 0 <= a < |observations[i]| && observations[i][a].1.Some?
               ==> observations[i][a].1.value != []
    ensures Flattened(observations, true).Ok?
    ensures forall row :: row in Flattened(observations, true).value ==> row != []
    ensures Flattened(observations, true).value == [] <==>
      forall i :: 0 <= i < |observations| ==> Present(Values(observations[i])) == []
  {
    var per := PerEntry(observations, true);
    forall i, row | 0 <= i < |per| && row in per[i] ensures row != [] {
      var kept := Present(Values(observations[i]));
      var n :| 0 <= n < |kept| && per[i][n] == row;
      assert kept[n] in kept;
      assert Some(kept[n]) in Values(observations[i]);
      var a :| 0 <= a < |observations[i]| && Values(observations[i])[a] == Some(kept[n]);
    }
    ConcatMembers(per);
    ConcatEmpty(per);
  }

  /** With `skip_none`, a batch whose kept observations each have at least
      one feature yields no columns exactly when no observation is kept. */
  lemma SkipNoneEmptyIff<A, F, V>(observations: seq<Dict<A, Option<Dict<F, V>>>>)
    requires forall i, a :: 0 <= i < |observations| && 0 <= a < |observations[i]| && observations[i][a].1.Some?
               ==> observations[i][a].1.value != []
    ensures ObservationsSeperateToTorch(observations, true).Ok?
    ensures ObservationsSeperateToTorch(observations, true).value == [] <==>
      forall i :: 0 <= i < |observations| ==> Present(Values(observations[i])) == []
  {
    FlattenedSkipNone(observations);
    var rows := Flattened(observations, true).value;
    TransposeEmpty(rows);
    if rows != [] {
      assert forall i :: 0 <= i < |rows| ==> rows[i] in rows;
    }
  }

  /** `remove_none_dict` AS WRITTEN: the None entries are deleted from a copy,
      and then the original is returned, so the argument comes back unchanged. */
  method RemoveNoneDict<A(==), D>(observations: Dict<A, Option<D>>) returns (r: Dict<A, Option<D>>)
    requires DistinctKeys(observations)
    ensures r == observations
  {
    var copy := DeleteNone(observations);
    r := observations;
  }

  /** `remove_none_dict` as evidently intended: the copy without its None entries. */
  method RemoveNoneDictFixed<A(==), D>(observations: Dict<A, Option<D>>) returns (r: Dict<A, Option<D>>)
    requires DistinctKeys(observations)
    ensures r == WithoutNone(observations)
  {
    r := DeleteNone(observations);
  }

  /** The loop of `remove_none_dict`: walk the original's items and `del` every
      key whose value is None from the copy. */
  method DeleteNone<A(==), D>(observations: Dict<A, Option<D>>) returns (copy: Dict<A, Option<D>>)
    requires DistinctKeys(observations)
    ensures copy == WithoutNone(observations)
  {
    copy := observations;
    assert copy == Pending(observations, 0);
    var n := 0;
    while n < |observations|
      invariant 0 <= n <= |observations|
      invariant copy == Pending(observations, n)
    {
      DeleteNoneStep(observations, n);
      if observations[n].1.None? {
        copy := Delete(copy, observations[n].0);
      }
      n := n + 1;
    }
    assert observations[..n] == observations;
  }

  /** The copy after the loop has visited the first `n` entries. */
  function Pending<A, V>(d: Dict<A, Option<V>>, n: nat): Dict<A, Option<V>>
    requires n <= |d|
  {
    WithoutNone(d[..n]) + d[n..]
  }

  /** One step of that loop: entry `n` moves from the unvisited part to the
      filtered part, deleted from the copy when its value is None. */
  lemma DeleteNoneStep<A, V>(d: Dict<A, Option<V>>, n: nat)
    requires DistinctKeys(d) && n < |d|
    ensures d[n].1.None? ==> Delete(Pending(d, n), d[n].0) == Pending(d, n + 1)
    ensures d[n].1.Some? ==> Pending(d, n) == Pending(d, n + 1)
  {
    assert d[n..] == [d[n]] + d[n + 1..];
    assert d[..n + 1] == d[..n] + [d[n]];
    WithoutNoneAppend(d[..n], [d[n]]);
    if d[n].1.None? {
      DeleteAtBoundary(d, n);
    }
  }

  /** `del d[k]`. */
  function Delete<A(==), V>(d: Dict<A, V>, k: A): Dict<A, V>
  {
    if d == [] then []
    else if d[0].0 == k then Delete(d[1..], k)
    else [d[0]] + Delete(d[1..], k)
  }

  /** The pairs whose value is present, in order. */
  function WithoutNone<A, V>(d: Dict<A, Option<V>>): (r: Dict<A, Option<V>>)
    ensures NoNone(Values(r))
    ensures forall p :: p in r ==> p in d
    ensures forall i :: 0 <= i < |d| && d[i].1.Some? ==> d[i] in r
  {
    if d == [] then []
    else
      var rest := WithoutNone(d[1..]);
      assert forall i :: 1 <= i < |d| ==> d[i] == d[1..][i - 1];
      if d[0].1.None? then rest else [d[0]] + rest
  }

  /** Filtering one more pair keeps the earlier survivors and adds that pair
      exactly when its value is present: the survivors stay in order. */
  lemma WithoutNoneSnoc<A, V>(d: Dict<A, Option<V>>, p: (A, Option<V>))
    ensures WithoutNone(d + [p]) == WithoutNone(d) + (if p.1.Some? then [p] else [])
  {
    WithoutNoneAppend(d, [p]);
    assert [p][1..] == [];
  }

  lemma {:induction false} WithoutNoneAppend<A, V>(s: Dict<A, Option<V>>, t: Dict<A, Option<V>>)
    ensures WithoutNone(s + t) == WithoutNone(s) + WithoutNone(t)
  {
    var st := s + t;
    if s != [] {
      assert st[0] == s[0];
      assert st[1..] == s[1..] + t;
      WithoutNoneAppend(s[1..], t);
      var head := if s[0].1.None? then [] else [s[0]];
      assert WithoutNone(st) == head + WithoutNone(st[1..]);
      assert WithoutNone(s) == head + WithoutNone(s[1..]);
    } else {
      assert st == t;
    }
  }

  lemma {:induction false} DeleteAppend<A, V>(s: Dict<A, V>, t: Dict<A, V>, k: A)
    ensures Delete(s + t, k) == Delete(s, k) + Delete(t, k)
  {
    if s != [] {
      assert (s + t)[0] == s[0];
      assert (s + t)[1..] == s[1..] + t;
      DeleteAppend(s[1..], t, k);
    } else {
      assert s + t == t;
    }
  }

  lemma {:induction false} DeleteAbsent<A, V>(s: Dict<A, V>, k: A)
    requires !HasKey(s, k)
    ensures Delete(s, k) == s
  {
    if s != [] {
      assert Keys(s)[0] == s[0].0;
      assert Keys(s[1..]) == Keys(s)[1..];
      DeleteAbsent(s[1..], k);
    }
  }

  lemma KeyAbsent<A, V>(s: Dict<A, V>, k: A)
    requires forall p :: p in s ==> p.0 != k
    ensures !HasKey(s, k)
  {
    forall i | 0 <= i < |s| ensures Keys(s)[i] != k {
      assert s[i] in s;
    }
  }

  /** Deleting a key held by exactly one entry removes just that entry. */
  lemma DeleteOnly<A, V>(front: Dict<A, V>, x: (A, V), back: Dict<A, V>)
    requires !HasKey(front, x.0) && !HasKey(back, x.0)
    ensures Delete(front + ([x] + back), x.0) == front + back
  {
    DeleteAppend(front, [x] + back, x.0);
    DeleteAppend([x], back, x.0);
    DeleteAbsent(front, x.0);
    DeleteAbsent(back, x.0);
  }

  /** Deleting the key of entry `n`, a None entry, from the half-filtered copy
      removes just that entry. */
  lemma DeleteAtBoundary<A, V>(d: Dict<A, Option<V>>, n: nat)
    requires DistinctKeys(d) && n < |d| && d[n].1.None?
    ensures Delete(WithoutNone(d[..n]) + d[n..], d[n].0) == WithoutNone(d[..n + 1]) + d[n + 1..]
  {
    var k := d[n].0;
    var front := WithoutNone(d[..n]);
    var back := d[n + 1..];
    forall p | p in front ensures p.0 != k {
      assert p in d[..n];
    }
    KeyAbsent(front, k);
    forall p | p in back ensures p.0 != k {
      var i :| 0 <= i < |back| && back[i] == p;
      assert d[n + 1 + i] == p;
    }
    KeyAbsent(back, k);
    assert d[n..] == [d[n]] + back;
    DeleteOnly(front, d[n], back);
    assert d[..n + 1] == d[..n] + [d[n]];
    WithoutNoneAppend(d[..n], [d[n]]);
  }

  /** Finding: whenever the argument holds a None entry, what `remove_none_dict`
      returns (the argument itself) differs from the filtered copy it builds. */
  lemma RemoveNoneDictKeepsNone<A, V>(observations: Dict<A, Option<V>>)
    requires !NoNone(Values(observations))
    ensures WithoutNone(observations) != observations
  {
    // The filtered copy has no None value, and the argument has one.
    assert NoNone(Values(WithoutNone(observations)));
  }

  /** `remove_none_observations`: the non-None dicts, in order, each passed
      through `remove_none_dict` (which returns it unchanged). */
  function RemoveNoneObservations<A, D>(observations: seq<Option<Dict<A, Option<D>>>>)
    : (r: seq<Dict<A, Option<D>>>)
    ensures |r| + NoneCount(observations) == |observations|
    ensures forall x :: x in r ==> Some(x) in observations
    ensures forall i :: 0 <= i < |observations| && observations[i].Some? ==> observations[i].value in r
  {
    PresentLength(observations);
    Present(observations)
  }

  /** `remove_none_observations` with the corrected `remove_none_dict`. */
  function RemoveNoneObservationsFixed<A, D>(observations: seq<Option<Dict<A, Option<D>>>>)
    : (r: seq<Dict<A, Option<D>>>)
    ensures |r| + NoneCount(observations) == |observations|
    ensures |r| == |Present(observations)|
    ensures forall i :: 0 <= i < |r| ==> r[i] == WithoutNone(Present(observations)[i])
    ensures forall i :: 0 <= i < |r| ==> NoNone(Values(r[i]))
  {
    var kept := Present(observations);
    PresentLength(observations);
    seq(|kept|, i requires 0 <= i < |kept| => WithoutNone(kept[i]))
  }
}
