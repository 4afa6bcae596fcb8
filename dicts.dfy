/** Value-level vocabulary shared by every module: optional values, the
    exceptions the Python code can raise, and insertion-ordered dictionaries.

    A Python `dict` is modelled as a sequence of (key, value) pairs in
    insertion order; `DistinctKeys` is the invariant every real dict keeps. */
module Dicts {

  datatype Option<T> = None | Some(value: T)

  /** The Python exceptions the modelled code can raise. */
  datatype Error = IndexError | KeyError | AttributeError | ValueError | ZeroDivisionError | TypeError

  datatype Result<T> = Ok(value: T) | Err(error: Error)

  type Dict<K, V> = seq<(K, V)>

  function Keys<K, V>(d: Dict<K, V>): (ks: seq<K>)
    ensures |ks| == |d|
    ensures forall i :: 0 <= i < |d| ==> ks[i] == d[i].0
  {
    seq(|d|, i requires 0 <= i < |d| => d[i].0)
  }

  function Values<K, V>(d: Dict<K, V>): (vs: seq<V>)
    ensures |vs| == |d|
    ensures forall i :: 0 <= i < |d| ==> vs[i] == d[i].1
  {
    seq(|d|, i requires 0 <= i < |d| => d[i].1)
  }

  ghost predicate DistinctKeys<K, V>(d: Dict<K, V>) {
    forall i, j :: 0 <= i < j < |d| ==> d[i].0 != d[j].0
  }

  predicate HasKey<K(==), V>(d: Dict<K, V>, k: K) {
    k in Keys(d)
  }

  /** `d[k]`: the value stored under the first (for a real dict: the only) pair with key `k`. */
  function Get<K(==), V>(d: Dict<K, V>, k: K): (v: V)
    requires HasKey(d, k)
    ensures exists i :: 0 <= i < |d| && d[i] == (k, v)
  {
    if d[0].0 == k then d[0].1 else Get(d[1..], k)
  }

  lemma {:induction false} GetAt<K, V>(d: Dict<K, V>, i: nat)
    requires DistinctKeys(d) && i < |d|
    ensures HasKey(d, d[i].0) && Get(d, d[i].0) == d[i].1
  {
    assert Keys(d)[i] == d[i].0;
    if i > 0 {
      assert d[0].0 != d[i].0;
      assert d[1..][i - 1] == d[i];
      GetAt(d[1..], i - 1);
    }
  }

  /** Concatenation of a list of lists, as `list(chain.from_iterable(xss))`. */
  function Concat<T>(xss: seq<seq<T>>): (r: seq<T>)
    ensures |r| == TotalLen(xss)
  {
    if xss == [] then [] else xss[0] + Concat(xss[1..])
  }

  function TotalLen<T>(xss: seq<seq<T>>): nat {
    if xss == [] then 0 else |xss[0]| + TotalLen(xss[1..])
  }

  lemma {:induction false} TotalLenSplit<T>(xss: seq<seq<T>>, i: nat)
    requires i <= |xss|
    ensures TotalLen(xss) == TotalLen(xss[..i]) + TotalLen(xss[i..])
  {
    if i > 0 {
      assert xss[..i][1..] == xss[1..][..i - 1];
      assert xss[i..] == xss[1..][i - 1..];
      TotalLenSplit(xss[1..], i - 1);
    }
  }

  /** Element `j` of list `i` sits in the concatenation right after all the
      elements of lists `0 .. i-1`: the lists are kept in order, each in its own order. */
  lemma {:induction false} ConcatAt<T>(xss: seq<seq<T>>, i: nat, j: nat)
    requires i < |xss| && j < |xss[i]|
    ensures TotalLen(xss[..i]) + j < |Concat(xss)|
    ensures Concat(xss)[TotalLen(xss[..i]) + j] == xss[i][j]
  {
    TotalLenSplit(xss, i);
    assert xss[i..][0] == xss[i];
    if i > 0 {
      assert xss[..i][1..] == xss[1..][..i - 1];
      assert TotalLen(xss[..i]) == |xss[0]| + TotalLen(xss[1..][..i - 1]);
      ConcatAt(xss[1..], i - 1, j);
    }
  }

  /** Every element of the concatenation comes from one of the lists. */
  lemma {:induction false} ConcatMembers<T>(xss: seq<seq<T>>)
    ensures forall x :: x in Concat(xss) ==> exists i :: 0 <= i < |xss| && x in xss[i]
  {
    if xss != [] {
      ConcatMembers(xss[1..]);
      forall x | x in Concat(xss) ensures exists i :: 0 <= i < |xss| && x in xss[i] {
        if x !in xss[0] {
          assert x in Concat(xss[1..]);
          var i :| 0 <= i < |xss[1..]| && x in xss[1..][i];
          assert x in xss[i + 1];
        }
      }
    }
  }

  /** The concatenation is empty exactly when every list is. */
  lemma {:induction false} ConcatEmpty<T>(xss: seq<seq<T>>)
    ensures Concat(xss) == [] <==> forall i :: 0 <= i < |xss| ==> xss[i] == []
  {
    if xss != [] {
      ConcatEmpty(xss[1..]);
      assert forall i :: 1 <= i < |xss| ==> xss[i] == xss[1..][i - 1];
    }
  }
}
