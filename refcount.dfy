/** The reference count of a message and its release calls, as values.
    A message's count is set when it is sent; each receiver's release lowers it
    by one, and the release that brings it to exactly 0 recycles the message into
    the bucket of its type. Counts below 0 are possible and recycle nothing. */
module RefCounts {
  import opened Pools

  /** The count and pool after one release of m (of type k) whose count was count. */
  function DoneStep<K(!new), M>(count: int, pool: Pool<K, M>, k: K, m: M): (r: (int, Pool<K, M>))
    ensures r.0 == count - 1
    ensures Bucket(r.1, k) == Bucket(pool, k) + (if count == 1 then [m] else [])
    ensures forall j :: j != k ==> Bucket(r.1, j) == Bucket(pool, j)
  {
    var c := count - 1;
    (c, if c == 0 then Put(pool, k, m) else pool)
  }

  /** The count and pool after n successive releases of m. */
  function Dones<K(!new), M>(count: int, pool: Pool<K, M>, k: K, m: M, n: nat): (r: (int, Pool<K, M>))
    ensures r.0 == count - n
    ensures forall j :: j != k ==> Bucket(r.1, j) == Bucket(pool, j)
    decreases n
  {
    if n == 0 then (count, pool)
    else
      var (c, p) := DoneStep(count, pool, k, m);
      Dones(c, p, k, m, n - 1)
  }

  /** n + 1 releases are n releases and then one more. */
  lemma {:induction false} DonesSnoc<K(!new), M>(count: int, pool: Pool<K, M>, k: K, m: M, n: nat)
    ensures Dones(count, pool, k, m, n + 1) ==
              DoneStep(Dones(count, pool, k, m, n).0, Dones(count, pool, k, m, n).1, k, m)
    decreases n
  {
    if n > 0 {
      var r := DoneStep(count, pool, k, m);
      DonesSnoc(r.0, r.1, k, m, n - 1);
    }
  }

  /** A count that is already 0 or below never reaches 0 again: releases only
      push it further down and recycle nothing. */
  lemma {:induction false} NoRecycleFromNonPositive<K(!new), M>(count: int, pool: Pool<K, M>, k: K, m: M, n: nat)
    requires count <= 0
    ensures Dones(count, pool, k, m, n) == (count - n, pool)
    decreases n
  {
    if n > 0 {
      NoRecycleFromNonPositive(count - 1, pool, k, m, n - 1);
    }
  }

  /** After the count is set to c > 0, the first c - 1 releases recycle nothing,
      the c-th appends m to its bucket, and any further release adds nothing more:
      m is recycled exactly once. */
  lemma {:induction false} RecycledOnLastRelease<K(!new), M>(c: int, pool: Pool<K, M>, k: K, m: M, n: nat)
    requires c > 0
    ensures Dones(c, pool, k, m, n).0 == c - n
    ensures Dones(c, pool, k, m, n).1 == if n >= c then Put(pool, k, m) else pool
    decreases n
  {
    if n > 0 {
      if c == 1 {
        NoRecycleFromNonPositive(0, Put(pool, k, m), k, m, n - 1);
      } else {
        RecycledOnLastRelease(c - 1, pool, k, m, n - 1);
      }
    }
  }
}
