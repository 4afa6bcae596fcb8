/** utils/common/collections.py: reshaping lists of agent-keyed dicts. */
module Collections {
  import opened Dicts

  /** Sum of the sizes of the dicts. */
  function SizeSum<K, T>(values: seq<Dict<K, T>>): nat {
    if values == [] then 0 else |values[0]| + SizeSum(values[1..])
  }

  function AllValues<K, T>(values: seq<Dict<K, T>>): (vss: seq<seq<T>>)
    ensures |vss| == |values|
    ensures forall i :: 0 <= i < |values| ==> vss[i] == Values(values[i])
  {
    seq(|values|, i requires 0 <= i < |values| => Values(values[i]))
  }

  /** `flatten_dicts`: the values of every dict, dict after dict. */
  function FlattenDicts<K, T>(values: seq<Dict<K, T>>): (r: seq<T>)
  {
    Concat(AllValues(values))
  }

  lemma {:induction false} SizeSumIsTotalLen<K, T>(values: seq<Dict<K, T>>)
    ensures SizeSum(values) == TotalLen(AllValues(values))
  {
    if values != [] {
      assert AllValues(values)[1..] == AllValues(values[1..]);
      SizeSumIsTotalLen(values[1..]);
    }
  }

  /** The flattened list has one element per (dict, key) pair. */
  lemma {:induction false} FlattenDictsLength<K, T>(values: seq<Dict<K, T>>)
    ensures |FlattenDicts(values)| == SizeSum(values)
  {
    SizeSumIsTotalLen(values);
  }

  /** Value `j` of dict `i` comes right after every value of dicts `0 .. i-1`. */
  lemma {:induction false} FlattenDictsAt<K, T>(values: seq<Dict<K, T>>, i: nat, j: nat)
    requires i < |values| && j < |values[i]|
    ensures SizeSum(values[..i]) + j < |FlattenDicts(values)|
    ensures FlattenDicts(values)[SizeSum(values[..i]) + j] == values[i][j].1
  {
    var vss := AllValues(values);
    assert vss[..i] == AllValues(values[..i]);
    SizeSumIsTotalLen(values[..i]);
    ConcatAt(vss, i, j);
  }

  /** Every dict of the list has key `k`. */
  predicate AllHaveKey<K(==), V>(dictList: seq<Dict<K, V>>, k: K) {
    forall i :: 0 <= i < |dictList| ==> HasKey(dictList[i], k)
  }

  /** `zip_dict_list`: one row per key of `dict_list[0]`, in that dict's key
      order; row `k` holds that key's value in every dict, in list order.
      An empty list raises IndexError (`dict_list[0]`), and a key of the
      first dict that a later dict lacks raises KeyError. Keys found only in
      later dicts are ignored. */
  method ZipDictList<K(==), V>(dictList: seq<Dict<K, V>>) returns (r: Result<seq<seq<V>>>)
    ensures dictList == [] <==> r == Err(IndexError)
    ensures dictList != [] ==>
      (r == Err(KeyError) <==> exists k :: 0 <= k < |dictList[0]| && !AllHaveKey(dictList, dictList[0][k].0))
    ensures r.Ok? <==> dictList != [] && forall k :: 0 <= k < |dictList[0]| ==> AllHaveKey(dictList, dictList[0][k].0)
    ensures r.Err? ==> r.error == IndexError || r.error == KeyError
    ensures r.Ok? ==> |r.value| == |dictList[0]|
    ensures r.Ok? ==> forall k :: 0 <= k < |r.value| ==>
      AllHaveKey(dictList, dictList[0][k].0) && |r.value[k]| == |dictList| &&
      forall i :: 0 <= i < |dictList| ==> r.value[k][i] == Get(dictList[i], dictList[0][k].0)
  {
    if dictList == [] {
      return Err(IndexError);
    }
    var first := dictList[0];
    var data: seq<seq<V>> := [];
    var k := 0;
    while k < |first|
      invariant 0 <= k <= |first| && |data| == k
      invariant forall k' :: 0 <= k' < k ==> AllHaveKey(dictList, first[k'].0)
      invariant forall k' :: 0 <= k' < k ==>
        |data[k']| == |dictList| &&
        forall i :: 0 <= i < |dictList| ==> data[k'][i] == Get(dictList[i], first[k'].0)
    {
      var key := first[k].0;
      var n := 0;
      var row: seq<V> := [];
      while n < |dictList|
        invariant 0 <= n <= |dictList| && |row| == n
        invariant forall i :: 0 <= i < n ==> HasKey(dictList[i], key) && row[i] == Get(dictList[i], key)
      {
        if !HasKey(dictList[n], key) {
          return Err(KeyError);
        }
        row := row + [Get(dictList[n], key)];
        n := n + 1;
      }
      data := data + [row];
      k := k + 1;
    }
    return Ok(data);
  }
}
