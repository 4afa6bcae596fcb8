/** A bounded-capacity buffer, as a `collections.deque` with `maxlen`: an
    append to a full buffer drops the oldest element. The replay memory of
    DQN and the trajectory buffer of PPO are both of this kind; their common
    base class (rllib/core/memory/memory.py) is not part of this model, so
    the deque behaviour is an assumption drawn from how the algorithms use
    `maxlen`, `len`, `clear` and `list(...)` on it. */
module Buffers {

  /** The last `n` elements of `s` (all of them if there are fewer). */
  function LastN<T>(s: seq<T>, n: nat): (r: seq<T>)
    ensures |r| == if |s| < n then |s| else n
    ensures r == s[|s| - |r|..]
  {
    if |s| < n then s else s[|s| - n..]
  }

  /** `append(x)` on a buffer holding at most `capacity` elements. */
  function Push<T>(buf: seq<T>, x: T, capacity: nat): (r: seq<T>)
    requires |buf| <= capacity
  {
    if |buf| < capacity then buf + [x] else (buf + [x])[1..]
  }

  /** Appending every element of `xs`, in order. */
  function PushAll<T>(buf: seq<T>, xs: seq<T>, capacity: nat): (r: seq<T>)
    requires |buf| <= capacity
    decreases |xs|
  {
    if xs == [] then buf else PushAll(Push(buf, xs[0], capacity), xs[1..], capacity)
  }

  /** One append keeps the buffer within capacity, and the buffer then holds
      the newest `capacity` elements of the old contents followed by `x`. */
  lemma PushKeepsNewest<T>(buf: seq<T>, x: T, capacity: nat)
    requires |buf| <= capacity
    ensures |Push(buf, x, capacity)| <= capacity
    ensures Push(buf, x, capacity) == LastN(buf + [x], capacity)
    ensures capacity > 0 ==> Push(buf, x, capacity)[|Push(buf, x, capacity)| - 1] == x
  {
  }

  /** Dropping a front part no longer than what `LastN` discards changes nothing. */
  lemma LastNSuffix<T>(t: seq<T>, k: nat, n: nat)
    requires k <= |t| && (k == 0 || |t| - k >= n)
    ensures LastN(t[k..], n) == LastN(t, n)
  {
    if k > 0 {
      assert t[k..][|t| - k - n..] == t[|t| - n..];
    }
  }

  /** Keeping the newest `n`, appending, and keeping the newest `n` again is
      the same as appending first. */
  lemma LastNTwice<T>(s: seq<T>, ys: seq<T>, n: nat)
    ensures LastN(LastN(s, n) + ys, n) == LastN(s + ys, n)
  {
    var m := |LastN(s, n)|;
    assert LastN(s, n) + ys == (s + ys)[|s| - m..];
    LastNSuffix(s + ys, |s| - m, n);
  }

  /** Appending a sequence leaves the newest `capacity` elements of the old
      contents followed by the new ones, oldest first. */
  lemma {:induction false} PushAllKeepsNewest<T>(buf: seq<T>, xs: seq<T>, capacity: nat)
    requires |buf| <= capacity
    ensures PushAll(buf, xs, capacity) == LastN(buf + xs, capacity)
    decreases |xs|
  {
    if xs == [] {
      assert buf + xs == buf;
    } else {
      var b1 := Push(buf, xs[0], capacity);
      assert buf + [xs[0]] + xs[1..] == buf + xs by {
        assert xs == [xs[0]] + xs[1..];
      }
      PushKeepsNewest(buf, xs[0], capacity);
      PushAllKeepsNewest(b1, xs[1..], capacity);
      LastNTwice(buf + [xs[0]], xs[1..], capacity);
    }
  }
}
