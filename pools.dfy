/** A key-indexed reserve of idle objects, each key owning a FIFO bucket.
    This is the value behind both message pools of the bus: a dictionary from a
    message type to a queue of recycled messages. A key without an entry and a
    key whose bucket is empty behave alike for every operation below. */
module Pools {

  type Pool<K, M> = map<K, seq<M>>

  /** The bucket of key k: its queue of idle objects, oldest first. */
  function Bucket<K(!new), M>(p: Pool<K, M>, k: K): seq<M>
  {
    if k in p then p[k] else []
  }

  /** Recycling: append m at the back of k's bucket, creating the bucket if absent. */
  function Put<K(!new), M>(p: Pool<K, M>, k: K, m: M): (r: Pool<K, M>)
    ensures r.Keys == p.Keys + {k}
    ensures Bucket(r, k) == Bucket(p, k) + [m]
    ensures forall j :: j != k ==> Bucket(r, j) == Bucket(p, j)
  {
    p[k := Bucket(p, k) + [m]]
  }

  /** Taking from a non-empty bucket: the oldest object leaves it. */
  function Dequeued<K(!new), M>(p: Pool<K, M>, k: K): (r: Pool<K, M>)
    requires Bucket(p, k) != []
    ensures r.Keys == p.Keys
    ensures Bucket(r, k) == Bucket(p, k)[1..]
    ensures |Bucket(r, k)| == |Bucket(p, k)| - 1
    ensures forall j :: j != k ==> Bucket(r, j) == Bucket(p, j)
  {
    p[k := p[k][1..]]
  }

  /** Discarding every idle object of key k; an absent key stays absent. */
  function Cleared<K(!new), M>(p: Pool<K, M>, k: K): (r: Pool<K, M>)
    ensures r.Keys == p.Keys
    ensures Bucket(r, k) == []
    ensures forall j :: j != k ==> Bucket(r, j) == Bucket(p, j)
  {
    if k in p then p[k := []] else p
  }

  /** Recycling each of xs into k's bucket, in order. */
  function PutAll<K(!new), M>(p: Pool<K, M>, k: K, xs: seq<M>): Pool<K, M>
    decreases |xs|
  {
    if xs == [] then p else PutAll(Put(p, k, xs[0]), k, xs[1..])
  }

  /** The objects returned by n successive takes from k's bucket (while it has any). */
  function TakeN<K(!new), M>(p: Pool<K, M>, k: K, n: nat): seq<M>
    decreases n
  {
    if n == 0 || Bucket(p, k) == [] then []
    else [Bucket(p, k)[0]] + TakeN(Dequeued(p, k), k, n - 1)
  }

  /** Successive recycling appends to the bucket in order and touches no other bucket. */
  lemma {:induction false} PutAllAppends<K(!new), M>(p: Pool<K, M>, k: K, xs: seq<M>)
    ensures Bucket(PutAll(p, k, xs), k) == Bucket(p, k) + xs
    ensures forall j :: j != k ==> Bucket(PutAll(p, k, xs), j) == Bucket(p, j)
    decreases |xs|
  {
    if xs != [] {
      PutAllAppends(Put(p, k, xs[0]), k, xs[1..]);
      assert Bucket(p, k) + [xs[0]] + xs[1..] == Bucket(p, k) + xs;
    }
  }

  /** Takes come out oldest first: n takes return the first n idle objects. */
  lemma {:induction false} TakeNIsOldestFirst<K(!new), M>(p: Pool<K, M>, k: K, n: nat)
    requires n <= |Bucket(p, k)|
    ensures TakeN(p, k, n) == Bucket(p, k)[..n]
    decreases n
  {
    if n > 0 {
      TakeNIsOldestFirst(Dequeued(p, k), k, n - 1);
      assert Bucket(p, k)[..n] == [Bucket(p, k)[0]] + Bucket(p, k)[1..][..n - 1];
    }
  }

  /** The pool is FIFO per key: objects recycled into an empty bucket are handed
      out again in the order they were recycled. */
  lemma FifoRoundTrip<K(!new), M>(p: Pool<K, M>, k: K, xs: seq<M>)
    requires Bucket(p, k) == []
    ensures TakeN(PutAll(p, k, xs), k, |xs|) == xs
  {
    PutAllAppends(p, k, xs);
    TakeNIsOldestFirst(PutAll(p, k, xs), k, |xs|);
    assert Bucket(PutAll(p, k, xs), k)[..|xs|] == xs;
  }

  /** Recycling one object into an empty bucket and taking once returns that very
      object and leaves the bucket empty again. */
  lemma RecycleThenTake<K(!new), M>(p: Pool<K, M>, k: K, m: M)
    requires Bucket(p, k) == []
    ensures Bucket(Put(p, k, m), k) != []
    ensures Bucket(Put(p, k, m), k)[0] == m
    ensures Bucket(Dequeued(Put(p, k, m), k), k) == []
  {
  }
}
