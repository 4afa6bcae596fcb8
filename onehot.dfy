/** multigrid/wrappers.py, `OneHotObsWrapper`: one-hot encoding of an
    agent's (height, width, channels) integer view. Indexing follows numpy:
    a negative index counts back from the end of the axis, and an index
    outside the axis raises IndexError. */
module OneHotObs {
  import opened Dicts

  /** Sum of `dimSizes[0 .. d)`: where the block of channel `d` starts. */
  function Offset(dimSizes: seq<nat>, d: nat): nat
    requires d <= |dimSizes|
  {
    if d == 0 then 0 else Offset(dimSizes, d - 1) + dimSizes[d - 1]
  }

  /** `sum(dim_sizes)`: the depth of the encoding. */
  function Total(dimSizes: seq<nat>): nat {
    Offset(dimSizes, |dimSizes|)
  }

  lemma {:induction false} OffsetMonotone(dimSizes: seq<nat>, d: nat, e: nat)
    requires d <= e <= |dimSizes|
    ensures Offset(dimSizes, d) <= Offset(dimSizes, e)
  {
    if d < e {
      OffsetMonotone(dimSizes, d, e - 1);
    }
  }

  /** numpy's resolution of index `k` along an axis of length `n`. */
  function AxisIndex(k: int, n: nat): (r: Option<nat>)
    ensures r.Some? ==> r.value < n
    ensures 0 <= k < n ==> r == Some(k)
    ensures -(n as int) <= k < 0 ==> r == Some(n + k)
    ensures r.None? <==> k + n < 0 || n <= k
  {
    if 0 <= k < n then Some(k) else if 0 <= k + n && k < 0 then Some(k + n) else None
  }

  /** Channel `d` of cell (i, j) sets the entry `dim_offset + x[i, j, d]`. */
  function Target(x: array3<int>, dimSizes: seq<nat>, d: nat, i: nat, j: nat): Option<nat>
    reads x
    requires d < |dimSizes| <= x.Length2 && i < x.Length0 && j < x.Length1
  {
    AxisIndex(Offset(dimSizes, d) + x[i, j, d], Total(dimSizes))
  }

  /** Every write of the triple loop lands inside the output array. */
  ghost predicate AllValid(x: array3<int>, dimSizes: seq<nat>)
    reads x
    requires |dimSizes| <= x.Length2
  {
    forall d: nat, i: nat, j: nat :: d < |dimSizes| && i < x.Length0 && j < x.Length1 ==>
      Target(x, dimSizes, d, i, j).Some?
  }

  /** One of the first `n` channels of cell (i, j) sets entry `c`. */
  ghost predicate HotUpTo(x: array3<int>, dimSizes: seq<nat>, i: nat, j: nat, c: nat, n: nat)
    reads x
    requires n <= |dimSizes| <= x.Length2 && i < x.Length0 && j < x.Length1
  {
    n > 0 && (HotUpTo(x, dimSizes, i, j, c, n - 1) || Target(x, dimSizes, n - 1, i, j) == Some(c))
  }

  /** `out` holds exactly the ones set by the first `n` channels. */
  ghost predicate Layer(x: array3<int>, dimSizes: seq<nat>, out: array3<int>, n: nat)
    reads x, out
    requires n <= |dimSizes| <= x.Length2
    requires out.Length0 == x.Length0 && out.Length1 == x.Length1
  {
    forall i: nat, j: nat, c: nat :: i < out.Length0 && j < out.Length1 && c < out.Length2 ==>
      out[i, j, c] == if HotUpTo(x, dimSizes, i, j, c, n) then 1 else 0
  }

  /** Channel `d` has been written for the cells before (i0, j0) in row-major order. */
  ghost predicate Written(x: array3<int>, dimSizes: seq<nat>, out: array3<int>, d: nat, i0: nat, j0: nat)
    reads x, out
    requires d < |dimSizes| <= x.Length2
    requires out.Length0 == x.Length0 && out.Length1 == x.Length1
  {
    forall i: nat, j: nat, c: nat :: i < out.Length0 && j < out.Length1 && c < out.Length2 ==>
      out[i, j, c] == if (i < i0 || (i == i0 && j < j0)) then (if HotUpTo(x, dimSizes, i, j, c, d + 1) then 1 else 0)
                      else (if HotUpTo(x, dimSizes, i, j, c, d) then 1 else 0)
  }

  /** `OneHotObsWrapper.one_hot`: a zeroed (H, W, sum(dim_sizes)) array in
      which, for every channel `d` and cell (i, j), the entry
      `offset(d) + x[i, j, d]` is set to 1. The view must have a channel per
      entry of `dim_sizes`; a write that falls outside the output raises
      IndexError. */
  method OneHot(x: array3<int>, dimSizes: seq<nat>) returns (r: Result<array3<int>>)
    requires |dimSizes| <= x.Length2
    ensures r.Err? <==> !AllValid(x, dimSizes)
    ensures r.Err? ==> r.error == IndexError
    ensures r.Ok? ==> fresh(r.value)
    ensures r.Ok? ==> r.value.Length0 == x.Length0 && r.value.Length1 == x.Length1 &&
                      r.value.Length2 == Total(dimSizes)
    ensures r.Ok? ==> Layer(x, dimSizes, r.value, |dimSizes|)
  {
    var total := Total(dimSizes);
    var out := new int[x.Length0, x.Length1, total]((i, j, c) => 0);
    var offset := 0;
    var d := 0;
    while d < |dimSizes|
      invariant d <= |dimSizes| && offset == Offset(dimSizes, d)
      invariant fresh(out)
      invariant out.Length0 == x.Length0 && out.Length1 == x.Length1 && out.Length2 == total
      invariant forall d': nat, i: nat, j: nat :: d' < d && i < x.Length0 && j < x.Length1 ==>
        Target(x, dimSizes, d', i, j).Some?
      invariant Layer(x, dimSizes, out, d)
    {
      var i := 0;
      while i < x.Length0
        invariant i <= x.Length0
        invariant forall d': nat, i': nat, j: nat :: (d' < d || (d' == d && i' < i)) && i' < x.Length0 && j < x.Length1 ==>
          Target(x, dimSizes, d', i', j).Some?
        invariant Written(x, dimSizes, out, d, i, 0)
      {
        var j := 0;
        while j < x.Length1
          invariant j <= x.Length1
          invariant forall d': nat, i': nat, j': nat ::
                      (d' < d || (d' == d && (i' < i || (i' == i && j' < j)))) && i' < x.Length0 && j' < x.Length1
                      ==> Target(x, dimSizes, d', i', j').Some?
          invariant Written(x, dimSizes, out, d, i, j)
        {
          var k := AxisIndex(offset + x[i, j, d], total);
          if k.None? {
            assert Target(x, dimSizes, d, i, j).None?;
            return Err(IndexError);
          }
          WriteStep(x, dimSizes, out, d, i, j, k.value);
          out[i, j, k.value] := 1;
          j := j + 1;
        }
        RowDone(x, dimSizes, out, d, i);
        i := i + 1;
      }
      ChannelDone(x, dimSizes, out, d);
      offset := offset + dimSizes[d];
      d := d + 1;
    }
    return Ok(out);
  }

  /** Setting entry `k` of cell (i, j) to 1 advances `Written` by one cell. */
  lemma WriteStep(x: array3<int>, dimSizes: seq<nat>, out: array3<int>, d: nat, i: nat, j: nat, k: nat)
    requires d < |dimSizes| <= x.Length2 && i < x.Length0 && j < x.Length1
    requires out.Length0 == x.Length0 && out.Length1 == x.Length1 && k < out.Length2
    requires Target(x, dimSizes, d, i, j) == Some(k)
    requires Written(x, dimSizes, out, d, i, j)
    ensures forall c: nat :: c < out.Length2 ==>
      (if c == k then 1 else out[i, j, c]) == if HotUpTo(x, dimSizes, i, j, c, d + 1) then 1 else 0
  {
    forall c: nat | c < out.Length2
      ensures (if c == k then 1 else out[i, j, c]) == if HotUpTo(x, dimSizes, i, j, c, d + 1) then 1 else 0
    {
      assert out[i, j, c] == if HotUpTo(x, dimSizes, i, j, c, d) then 1 else 0;
      assert HotUpTo(x, dimSizes, i, j, c, d + 1) <==> HotUpTo(x, dimSizes, i, j, c, d) || c == k;
    }
  }

  lemma RowDone(x: array3<int>, dimSizes: seq<nat>, out: array3<int>, d: nat, i: nat)
    requires d < |dimSizes| <= x.Length2 && i < x.Length0
    requires out.Length0 == x.Length0 && out.Length1 == x.Length1
    requires Written(x, dimSizes, out, d, i, x.Length1)
    ensures Written(x, dimSizes, out, d, i + 1, 0)
  {
  }

  lemma ChannelDone(x: array3<int>, dimSizes: seq<nat>, out: array3<int>, d: nat)
    requires d < |dimSizes| <= x.Length2
    requires out.Length0 == x.Length0 && out.Length1 == x.Length1
    requires Written(x, dimSizes, out, d, x.Length0, 0)
    ensures Layer(x, dimSizes, out, d + 1)
  {
  }

  /** Once channel `d` is counted, the entry it sets stays hot. */
  lemma {:induction false} HotAtTarget(x: array3<int>, dimSizes: seq<nat>, i: nat, j: nat, d: nat, n: nat)
    requires d < n <= |dimSizes| <= x.Length2 && i < x.Length0 && j < x.Length1
    requires Target(x, dimSizes, d, i, j).Some?
    ensures HotUpTo(x, dimSizes, i, j, Target(x, dimSizes, d, i, j).value, n)
  {
    if d < n - 1 {
      HotAtTarget(x, dimSizes, i, j, d, n - 1);
    }
  }

  /** For every channel `d` and cell (i, j), the entry `offset(d) + x[i, j, d]`
      (resolved as numpy resolves it) is 1, and every entry is 0 or 1. */
  lemma OneAtTarget(x: array3<int>, dimSizes: seq<nat>, out: array3<int>, d: nat, i: nat, j: nat)
    requires |dimSizes| <= x.Length2 && d < |dimSizes| && i < x.Length0 && j < x.Length1
    requires out.Length0 == x.Length0 && out.Length1 == x.Length1 && out.Length2 == Total(dimSizes)
    requires Layer(x, dimSizes, out, |dimSizes|)
    requires Target(x, dimSizes, d, i, j).Some?
    ensures out[i, j, Target(x, dimSizes, d, i, j).value] == 1
    ensures forall c: nat :: c < out.Length2 ==> out[i, j, c] == 0 || out[i, j, c] == 1
  {
    HotAtTarget(x, dimSizes, i, j, d, |dimSizes|);
  }

  /** Every value of the view is within its channel's range. */
  ghost predicate InRange(x: array3<int>, dimSizes: seq<nat>)
    reads x
    requires |dimSizes| <= x.Length2
  {
    forall d: nat, i: nat, j: nat :: d < |dimSizes| && i < x.Length0 && j < x.Length1 ==>
      0 <= x[i, j, d] < dimSizes[d]
  }

  /** With in-range values, channel `e` sets the entry at `offset(e) + x[i, j, e]`,
      inside its own block. */
  lemma InRangeTarget(x: array3<int>, dimSizes: seq<nat>, e: nat, i: nat, j: nat)
    requires |dimSizes| <= x.Length2 && InRange(x, dimSizes)
    requires e < |dimSizes| && i < x.Length0 && j < x.Length1
    ensures Offset(dimSizes, e) + x[i, j, e] < Offset(dimSizes, e + 1)
    ensures Target(x, dimSizes, e, i, j) == Some(Offset(dimSizes, e) + x[i, j, e])
  {
    OffsetMonotone(dimSizes, e + 1, |dimSizes|);
  }

  /** In-range values give exactly one hot entry per block among the first `n`
      channels, and none in the blocks of later channels. */
  lemma {:induction false} InRangeHot(x: array3<int>, dimSizes: seq<nat>, i: nat, j: nat, d: nat, c: nat, n: nat)
    requires |dimSizes| <= x.Length2 && InRange(x, dimSizes)
    requires n <= |dimSizes| && d < |dimSizes| && i < x.Length0 && j < x.Length1
    requires Offset(dimSizes, d) <= c < Offset(dimSizes, d + 1)
    ensures HotUpTo(x, dimSizes, i, j, c, n) <==> d < n && c == Offset(dimSizes, d) + x[i, j, d]
  {
    if n > 0 {
      InRangeHot(x, dimSizes, i, j, d, c, n - 1);
      InRangeTarget(x, dimSizes, n - 1, i, j);
      if n - 1 < d {
        OffsetMonotone(dimSizes, n, d);
      } else if d < n - 1 {
        OffsetMonotone(dimSizes, d + 1, n - 1);
      }
    }
  }

  /** With in-range values nothing raises, and inside the block of every
      channel `d` a cell has a single 1, at `offset(d) + x[i, j, d]`; every
      other entry of the block stays 0. */
  lemma OneHotInRange(x: array3<int>, dimSizes: seq<nat>, out: array3<int>, d: nat, i: nat, j: nat, c: nat)
    requires |dimSizes| <= x.Length2 && InRange(x, dimSizes)
    requires d < |dimSizes| && i < x.Length0 && j < x.Length1
    requires out.Length0 == x.Length0 && out.Length1 == x.Length1 && out.Length2 == Total(dimSizes)
    requires Layer(x, dimSizes, out, |dimSizes|)
    requires Offset(dimSizes, d) <= c < Offset(dimSizes, d + 1)
    ensures c < out.Length2
    ensures AllValid(x, dimSizes)
    ensures out[i, j, c] == if c == Offset(dimSizes, d) + x[i, j, d] then 1 else 0
  {
    forall e: nat, i': nat, j': nat | e < |dimSizes| && i' < x.Length0 && j' < x.Length1
      ensures Target(x, dimSizes, e, i', j').Some?
    {
      InRangeTarget(x, dimSizes, e, i', j');
    }
    OffsetMonotone(dimSizes, d + 1, |dimSizes|);
    InRangeHot(x, dimSizes, i, j, d, c, |dimSizes|);
  }

  /** An agent's observation: the image view and the fields that pass through. */
  datatype AgentObs = AgentObs(image: array3<int>, direction: int, mission: string)

  /** `o2` is `o` with its image replaced by a fresh one-hot encoding of it. */
  ghost predicate EncodedAs(o: AgentObs, o2: AgentObs, dimSizes: seq<nat>)
    reads o.image, o2.image
    requires |dimSizes| <= o.image.Length2
  {
    o2.direction == o.direction && o2.mission == o.mission &&
    o2.image.Length0 == o.image.Length0 && o2.image.Length1 == o.image.Length1 &&
    o2.image.Length2 == Total(dimSizes) && Layer(o.image, dimSizes, o2.image, |dimSizes|)
  }

  /** `OneHotObsWrapper.observation`: every agent's image replaced by its
      one-hot encoding, agent order and the other fields kept. */
  method Observation<A>(obs: Dict<A, AgentObs>, dimSizes: seq<nat>) returns (r: Result<Dict<A, AgentObs>>)
    requires forall n :: 0 <= n < |obs| ==> |dimSizes| <= obs[n].1.image.Length2
    ensures r.Err? <==> exists n :: 0 <= n < |obs| && !AllValid(obs[n].1.image, dimSizes)
    ensures r.Err? ==> r.error == IndexError
    ensures r.Ok? ==> |r.value| == |obs|
    ensures r.Ok? ==> forall n :: 0 <= n < |obs| ==>
      r.value[n].0 == obs[n].0 && fresh(r.value[n].1.image) && EncodedAs(obs[n].1, r.value[n].1, dimSizes)
  {
    var done: Dict<A, AgentObs> := [];
    var n := 0;
    while n < |obs|
      invariant n <= |obs| && |done| == n
      invariant forall m :: 0 <= m < n ==> AllValid(obs[m].1.image, dimSizes)
      invariant forall m :: 0 <= m < n ==>
        done[m].0 == obs[m].0 && fresh(done[m].1.image) && EncodedAs(obs[m].1, done[m].1, dimSizes)
    {
      var o := obs[n].1;
      var encoded := OneHot(o.image, dimSizes);
      if encoded.Err? {
        return Err(encoded.error);
      }
      done := done + [(obs[n].0, o.(image := encoded.value))];
      n := n + 1;
    }
    return Ok(done);
  }
}
