/** The stand-alone message provider: a second type-keyed pool of idle messages,
    with the same get-or-create and recycle operations as the bus's own pool but
    a dictionary of its own. A message taken from here and later released on the
    bus is recycled into the bus's pool, not into this one. */
module Provider {
  import opened Pools
  import opened Scripts
  import MessageSystem

  class MessageProvider {
    /** false while the pool dictionary is still null */
    var created: bool
    var pool: Pool<TypeId, MessageSystem.Message>

    /** Every idle message sits in the bucket of its own type. */
    ghost predicate Valid()
      reads this
    {
      && (!created ==> pool == map[])
      && (forall t, i :: 0 <= i < |Bucket(pool, t)| ==> Bucket(pool, t)[i].typ == t)
    }

    /** The process starts with the dictionary null. */
    constructor ()
      ensures Valid() && !created
    {
      created, pool := false, map[];
    }

    /** GetMessage<T>(): creates the dictionary on first use; hands out a new
        message when t has no bucket or an empty one, and otherwise takes the
        oldest idle message of t out of its bucket. */
    method GetMessage(t: TypeId) returns (m: MessageSystem.Message)
      requires Valid()
      modifies this
      ensures Valid() && created
      ensures m.typ == t
      ensures Bucket(old(pool), t) == [] ==> fresh(m) && m.referenceCount == 0 && pool == old(pool)
      ensures Bucket(old(pool), t) != [] ==> m == Bucket(old(pool), t)[0] && pool == Dequeued(old(pool), t)
    {
      if !created {
        created := true;
      }
      if t !in pool || |pool[t]| == 0 {
        m := new MessageSystem.Message(t);
        return;
      }
      m := pool[t][0];
      assert m == Bucket(pool, t)[0];
      pool := pool[t := pool[t][1..]];
      assert pool == Dequeued(old(pool), t);
    }

    /** RecycleMessage(message): appends it to the back of its runtime type's
        bucket, creating the bucket if needed. The dictionary must exist. */
    method RecycleMessage(m: MessageSystem.Message)
      requires Valid() && created
      modifies this
      ensures Valid() && created
      ensures pool == Put(old(pool), m.typ, m)
    {
      if m.typ !in pool {
        pool := pool[m.typ := []];
      }
      pool := pool[m.typ := pool[m.typ] + [m]];
      assert pool == Put(old(pool), m.typ, m);
    }
  }
}
