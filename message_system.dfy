/** The in-process message bus: messages with a reference count, and the
    manager that keeps the subscription registry, the delivery queue, the two
    queues of deferred unsubscriptions and the message pool.

    The manager's state is process-wide in the original; here it is one
    MessageManager object passed to whoever uses the bus. Receivers are opaque
    identities whose MessageReceived callbacks are given as a Script. */
module MessageSystem {
  import opened Pools
  import opened Registry
  import RefCounts
  import opened Scripts
  import opened Callbacks

  /** One delivery of a batch: a message, its reference count when its
      delivery began, and the receivers it was handed to, in the order the
      registry's set was enumerated. */
  datatype Delivery = Delivery(msg: Message, count: int, receivers: seq<ReceiverId>)

  /** The messages of a trace, in delivery order. */
  function MessagesOf(trace: seq<Delivery>): (ms: seq<Message>)
    ensures |ms| == |trace|
    ensures forall i :: 0 <= i < |trace| ==> ms[i] == trace[i].msg
  {
    seq(|trace|, i requires 0 <= i < |trace| => trace[i].msg)
  }

  /** s lists every member of rs exactly once and nothing else. */
  ghost predicate Enumerates(s: seq<ReceiverId>, rs: set<ReceiverId>)
  {
    && (forall i, j :: 0 <= i < j < |s| ==> s[i] != s[j])
    && (forall x :: x in rs <==> x in s)
  }

  /** Partway through enumerating rs: visited lists the receivers handed the
      message so far, each once, and left holds the others. */
  ghost predicate Progress(rs: set<ReceiverId>, left: set<ReceiverId>, visited: seq<ReceiverId>)
  {
    && left <= rs
    && (forall i, j :: 0 <= i < j < |visited| ==> visited[i] != visited[j])
    && (forall x :: x in rs <==> x in left || x in visited)
    && (forall x :: x in left ==> x !in visited)
  }

  /** Handing the message to one more receiver r of those left. */
  lemma ProgressStep(rs: set<ReceiverId>, left: set<ReceiverId>, visited: seq<ReceiverId>, r: ReceiverId)
    requires Progress(rs, left, visited) && r in left
    ensures Progress(rs, left - {r}, visited + [r])
  {
  }

  /** Every delivery of the trace went to each receiver of its message's type in
      reg exactly once. */
  ghost predicate FanOut(trace: seq<Delivery>, reg: Registry<TypeId, ReceiverId>)
  {
    forall i :: 0 <= i < |trace| ==>
      trace[i].msg.typ in reg && Enumerates(trace[i].receivers, reg[trace[i].msg.typ])
  }

  /** No delivery of the trace reached any receiver, so no callback ran. */
  ghost predicate NoCallbacks(trace: seq<Delivery>)
  {
    forall i :: 0 <= i < |trace| ==> trace[i].receivers == []
  }

  /** Every message of q is of a registered type whose set is empty. */
  ghost predicate Silent(q: seq<Message>, reg: Registry<TypeId, ReceiverId>)
  {
    forall i :: 0 <= i < |q| ==> q[i].typ in reg && reg[q[i].typ] == {}
  }

  /** A receiver is handed a message once for each member of the set: the
      number of callbacks of one delivery is the size of the set. */
  lemma {:induction false} EnumerationSize(s: seq<ReceiverId>, rs: set<ReceiverId>)
    requires Enumerates(s, rs)
    ensures |s| == |rs|
    decreases |s|
  {
    if s != [] {
      var n := |s| - 1;
      var x := s[n];
      assert Enumerates(s[..n], rs - {x}) by {
        forall y ensures y in rs - {x} <==> y in s[..n] {
          if y in s && y != x {
            var k :| 0 <= k < |s| && s[k] == y;
            assert k != n && s[..n][k] == y;
          }
        }
      }
      EnumerationSize(s[..n], rs - {x});
    }
  }

  /** Every delivery of a message that was not queued when the batch began,
      and that the trace had not delivered before, starts from the count its
      send gave it: the size of its type's set in reg. */
  ghost predicate FirstCounts(trace: seq<Delivery>, queue0: seq<Message>, reg: Registry<TypeId, ReceiverId>)
  {
    forall i {:trigger MessagesOf(trace[..i])} :: 0 <= i < |trace| && trace[i].msg !in queue0 && trace[i].msg !in MessagesOf(trace[..i]) ==>
      trace[i].msg.typ in reg && trace[i].count == |reg[trace[i].msg.typ]|
  }

  /** One more delivery keeps FirstCounts when it does. */
  lemma FirstCountsSnoc(trace: seq<Delivery>, d: Delivery, queue0: seq<Message>, reg: Registry<TypeId, ReceiverId>)
    requires FirstCounts(trace, queue0, reg)
    requires d.msg !in queue0 && d.msg !in MessagesOf(trace) ==> d.msg.typ in reg && d.count == |reg[d.msg.typ]|
    ensures FirstCounts(trace + [d], queue0, reg)
  {
    forall i | 0 <= i < |trace| + 1
      ensures (trace + [d])[..i] == if i < |trace| then trace[..i] else trace
    {
    }
  }

  /** In a batch started by m alone, a delivery after the first whose message
      has not been delivered before is of a message a callback sent, so it
      starts from the count that send gave it. */
  lemma FirstCountsAfterHead(trace: seq<Delivery>, m: Message, reg: Registry<TypeId, ReceiverId>)
    requires FirstCounts(trace, [m], reg) && trace != [] && trace[0].msg == m
    ensures forall i {:trigger MessagesOf(trace[..i])} :: 0 < i < |trace| && trace[i].msg !in MessagesOf(trace[..i]) ==>
              trace[i].msg.typ in reg && trace[i].count == |reg[trace[i].msg.typ]|
  {
    forall i | 0 < i < |trace| && trace[i].msg !in MessagesOf(trace[..i])
      ensures trace[i].msg.typ in reg && trace[i].count == |reg[trace[i].msg.typ]|
    {
      assert MessagesOf(trace[..i])[0] == m;
    }
  }

  /** The types of a sequence of messages, in order. */
  function Types(ms: seq<Message>): (ts: seq<TypeId>)
    ensures |ts| == |ms|
  {
    seq(|ms|, i requires 0 <= i < |ms| => ms[i].typ)
  }

  /** The callbacks a trace stands for, in call order: each receiver of each
      delivery, with the type of the message it was handed. */
  function Visits(trace: seq<Delivery>): seq<(ReceiverId, TypeId)>
    decreases |trace|
  {
    if trace == [] then []
    else
      var d := trace[|trace| - 1];
      Visits(trace[..|trace| - 1]) + Pairs(d.receivers, d.msg.typ)
  }

  /** Appending the delivery of the head d of the queue q, while p joins the
      back of the queue, keeps the trace in step with the queue: what the
      trace delivered followed by what is still queued is everything queued
      so far; and every delivery fans out fully. */
  lemma TraceGrows(trace: seq<Delivery>, d: Delivery, q: seq<Message>, p: seq<Message>,
                   reg: Registry<TypeId, ReceiverId>)
    requires q != [] && d.msg == q[0]
    requires FanOut(trace, reg) && d.msg.typ in reg && Enumerates(d.receivers, reg[d.msg.typ])
    ensures MessagesOf(trace + [d]) + (q[1..] + p) == (MessagesOf(trace) + q) + p
    ensures FanOut(trace + [d], reg)
    ensures NoCallbacks(trace) && d.receivers == [] ==> NoCallbacks(trace + [d])
  {
    assert MessagesOf(trace + [d]) == MessagesOf(trace) + [q[0]];
    assert [q[0]] + q[1..] == q;
  }

  /** The callbacks of one more delivery follow those of the trace so far. */
  lemma VisitsGrow(trace: seq<Delivery>, d: Delivery)
    ensures Visits(trace + [d]) == Visits(trace) + Pairs(d.receivers, d.msg.typ)
  {
    assert (trace + [d])[..|trace|] == trace;
  }

  /** The types of two runs of messages, one after the other. */
  lemma TypesAppend(a: seq<Message>, b: seq<Message>)
    ensures Types(a + b) == Types(a) + Types(b)
  {
  }

  /** Dequeuing from a queue that had messages appended at its back. */
  lemma DropHeadAppend(a: seq<Message>, b: seq<Message>)
    requires a != []
    ensures (a + b)[1..] == a[1..] + b
  {
  }

  /** Appending to a queue in two steps is appending the two runs at once. */
  lemma AppendAssoc(a: seq<Message>, b: seq<Message>, c: seq<Message>)
    ensures (a + b) + c == a + (b + c)
  {
  }

  /** The reference count of the message being delivered and the bus's pool:
      the part of the bus's state the pool operations of a callback change. */
  type Held = (int, Pool<TypeId, Message>)

  /** What one action of a callback handed m does to m's count and to the pool,
      while the registry is reg. A send of m sets its count afresh; a pooled send
      or a take removes the oldest idle message of its type, and a pooled send
      that draws m itself sets m's count afresh; a cache clear empties a bucket;
      a recycle puts m back; a release is one OnDoneUsing. Sends of a new
      message and stop requests change neither. */
  function ActionState(reg: Registry<TypeId, ReceiverId>, m: Message, a: Action, s: Held): (s': Held)
    ensures !(a.SendPooled? || a.Resend? || a.Done?) ==> s'.0 == s.0
    ensures !(a.SendPooled? || a.Take? || a.ClearCache? || a.Recycle? || a.Done?) ==> s'.1 == s.1
  {
    match a
    case SendPooled(t) =>
      if Bucket(s.1, t) == [] then s
      else ((if Bucket(s.1, t)[0] == m && t in reg then |reg[t]| else s.0), Dequeued(s.1, t))
    case Take(t) => if Bucket(s.1, t) == [] then s else (s.0, Dequeued(s.1, t))
    case Resend => (if m.typ in reg then |reg[m.typ]| else s.0, s.1)
    case ClearCache(t) => (s.0, Cleared(s.1, t))
    case Recycle => (s.0, Put(s.1, m.typ, m))
    case Done => RefCounts.DoneStep(s.0, s.1, m.typ, m)
    case _ => s
  }

  /** The same for a whole reaction, its actions in order. */
  function ReactionState(reg: Registry<TypeId, ReceiverId>, m: Message, rx: Reaction, s: Held): Held
    decreases |rx|
  {
    if rx == [] then s
    else ActionState(reg, m, rx[|rx| - 1], ReactionState(reg, m, rx[..|rx| - 1], s))
  }

  /** The same for the callbacks of one delivery of m, in call order. */
  function CallsState(reg: Registry<TypeId, ReceiverId>, m: Message, calls: seq<Call>, s: Held): Held
    decreases |calls|
  {
    if calls == [] then s
    else
      var n := |calls| - 1;
      ReactionState(reg, m, calls[n].reaction, CallsState(reg, m, calls[..n], s))
  }

  /** One more callback of the delivery of m. */
  lemma CallsStateSnoc(reg: Registry<TypeId, ReceiverId>, m: Message, calls: seq<Call>, c: Call, s: Held)
    ensures CallsState(reg, m, calls + [c], s) == ReactionState(reg, m, c.reaction, CallsState(reg, m, calls, s))
  {
    assert (calls + [c])[..|calls|] == calls;
  }

  /* The fold of a whole batch, by positions: TraceUpTo(n, e) is the pool after
     the first n deliveries of the trace, whose callbacks are calls[..e], with
     the count of the n-th message; DeliveryUpTo(n, b, e) is the same once the
     n-th delivery, whose callbacks start at b, has reached e; CallUpTo adds the
     first j actions of callback e - 1. Each delivery starts from the count its
     message had then, and its callbacks are the |receivers| entries of the log
     before those of the next one. */

  function TraceUpTo(reg: Registry<TypeId, ReceiverId>, p: Pool<TypeId, Message>, trace: seq<Delivery>, n: nat,
                     calls: seq<Call>, e: nat): Held
    requires n <= |trace| && e <= |calls|
    decreases e, n, 2, 0
  {
    if n == 0 then (0, p)
    else
      var d := trace[n - 1];
      DeliveryUpTo(reg, p, trace, n, calls, if |d.receivers| <= e then e - |d.receivers| else 0, e)
  }

  function DeliveryUpTo(reg: Registry<TypeId, ReceiverId>, p: Pool<TypeId, Message>, trace: seq<Delivery>, n: nat,
                        calls: seq<Call>, b: nat, e: nat): Held
    requires 0 < n <= |trace| && b <= e <= |calls|
    decreases e, n, 1, 0
  {
    if e == b then (trace[n - 1].count, TraceUpTo(reg, p, trace, n - 1, calls, b).1)
    else CallUpTo(reg, p, trace, n, calls, b, e, |calls[e - 1].reaction|)
  }

  function CallUpTo(reg: Registry<TypeId, ReceiverId>, p: Pool<TypeId, Message>, trace: seq<Delivery>, n: nat,
                    calls: seq<Call>, b: nat, e: nat, j: nat): Held
    requires 0 < n <= |trace| && b < e <= |calls| && j <= |calls[e - 1].reaction|
    decreases e, n, 0, j
  {
    if j == 0 then DeliveryUpTo(reg, p, trace, n, calls, b, e - 1)
    else ActionState(reg, trace[n - 1].msg, calls[e - 1].reaction[j - 1], CallUpTo(reg, p, trace, n, calls, b, e, j - 1))
  }

  /** The pool after every delivery of a trace, with the count of the message
      delivered last. */
  function TraceState(reg: Registry<TypeId, ReceiverId>, p: Pool<TypeId, Message>, trace: seq<Delivery>,
                      calls: seq<Call>): Held
  {
    TraceUpTo(reg, p, trace, |trace|, calls, |calls|)
  }

  /** Position by position, one callback is one reaction of the fold. */
  lemma {:induction false} CallUpToReaction(reg: Registry<TypeId, ReceiverId>, p: Pool<TypeId, Message>,
                                            trace: seq<Delivery>, n: nat, calls: seq<Call>, b: nat, e: nat, j: nat)
    requires 0 < n <= |trace| && b < e <= |calls| && j <= |calls[e - 1].reaction|
    ensures CallUpTo(reg, p, trace, n, calls, b, e, j) ==
              ReactionState(reg, trace[n - 1].msg, calls[e - 1].reaction[..j], DeliveryUpTo(reg, p, trace, n, calls, b, e - 1))
    decreases j
  {
    if j > 0 {
      CallUpToReaction(reg, p, trace, n, calls, b, e, j - 1);
      var rx := calls[e - 1].reaction;
      assert rx[..j][..j - 1] == rx[..j - 1];
    }
  }

  /** The last callback of a delivery is one reaction after the others. */
  lemma DeliveryUpToStep(reg: Registry<TypeId, ReceiverId>, p: Pool<TypeId, Message>,
                         trace: seq<Delivery>, n: nat, calls: seq<Call>, b: nat, e: nat)
    requires 0 < n <= |trace| && b < e <= |calls|
    ensures DeliveryUpTo(reg, p, trace, n, calls, b, e) ==
              ReactionState(reg, trace[n - 1].msg, calls[e - 1].reaction, DeliveryUpTo(reg, p, trace, n, calls, b, e - 1))
  {
    var rx := calls[e - 1].reaction;
    CallUpToReaction(reg, p, trace, n, calls, b, e, |rx|);
    assert rx[..|rx|] == rx;
  }

  /** A delivery of the positional fold is the fold of its callbacks. */
  lemma {:induction false} DeliveryUpToCalls(reg: Registry<TypeId, ReceiverId>, p: Pool<TypeId, Message>,
                                             trace: seq<Delivery>, n: nat, calls: seq<Call>, b: nat, e: nat)
    requires 0 < n <= |trace| && b <= e <= |calls|
    ensures DeliveryUpTo(reg, p, trace, n, calls, b, e) ==
              CallsState(reg, trace[n - 1].msg, calls[b..e], (trace[n - 1].count, TraceUpTo(reg, p, trace, n - 1, calls, b).1))
    decreases e - b
  {
    if e > b {
      DeliveryUpToCalls(reg, p, trace, n, calls, b, e - 1);
      DeliveryUpToStep(reg, p, trace, n, calls, b, e);
      assert calls[b..e] == calls[b..e - 1] + [calls[e - 1]];
      CallsStateSnoc(reg, trace[n - 1].msg, calls[b..e - 1], calls[e - 1],
                     (trace[n - 1].count, TraceUpTo(reg, p, trace, n - 1, calls, b).1));
    }
  }

  /** The last delivery of the first n is the fold of the callbacks before e
      that it accounts for. */
  lemma TraceUpToLast(reg: Registry<TypeId, ReceiverId>, p: Pool<TypeId, Message>, trace: seq<Delivery>, n: nat,
                      calls: seq<Call>, e: nat)
    requires 0 < n <= |trace| && e <= |calls|
    ensures var d := trace[n - 1]; var b := if |d.receivers| <= e then e - |d.receivers| else 0;
            TraceUpTo(reg, p, trace, n, calls, e) == CallsState(reg, d.msg, calls[b..e], (d.count, TraceUpTo(reg, p, trace, n - 1, calls, b).1))
  {
    var d := trace[n - 1];
    DeliveryUpToCalls(reg, p, trace, n, calls, if |d.receivers| <= e then e - |d.receivers| else 0, e);
  }

  /** Deliveries and callbacks after the first n and e do not change the fold. */
  lemma {:induction false} TraceUpToPrefix(reg: Registry<TypeId, ReceiverId>, p: Pool<TypeId, Message>,
                                           trace: seq<Delivery>, more: seq<Delivery>, n: nat,
                                           calls: seq<Call>, cs: seq<Call>, e: nat)
    requires n <= |trace| && e <= |calls|
    ensures TraceUpTo(reg, p, trace + more, n, calls + cs, e) == TraceUpTo(reg, p, trace, n, calls, e)
    decreases n
  {
    if n > 0 {
      var d := trace[n - 1];
      assert (trace + more)[n - 1] == d;
      var b := if |d.receivers| <= e then e - |d.receivers| else 0;
      var h := TraceUpTo(reg, p, trace, n - 1, calls, b).1;
      calc {
        TraceUpTo(reg, p, trace + more, n, calls + cs, e);
        DeliveryUpTo(reg, p, trace + more, n, calls + cs, b, e);
        { DeliveryUpToCalls(reg, p, trace + more, n, calls + cs, b, e);
          TraceUpToPrefix(reg, p, trace, more, n - 1, calls, cs, b);
          assert (calls + cs)[b..e] == calls[b..e]; }
        CallsState(reg, d.msg, calls[b..e], (d.count, h));
        { DeliveryUpToCalls(reg, p, trace, n, calls, b, e); }
        DeliveryUpTo(reg, p, trace, n, calls, b, e);
      }
    }
  }

  /** One more delivery, whose callbacks follow those of the trace so far. */
  lemma TraceStateSnoc(reg: Registry<TypeId, ReceiverId>, p: Pool<TypeId, Message>, trace: seq<Delivery>,
                       calls: seq<Call>, d: Delivery, c: seq<Call>)
    requires |c| == |d.receivers|
    ensures TraceState(reg, p, trace + [d], calls + c) == CallsState(reg, d.msg, c, (d.count, TraceState(reg, p, trace, calls).1))
  {
    var n, e := |trace|, |calls|;
    assert (trace + [d])[n] == d;
    TraceUpToLast(reg, p, trace + [d], n + 1, calls + c, e + |c|);
    assert (calls + c)[e..e + |c|] == c;
    TraceUpToPrefix(reg, p, trace, [d], n, calls, c, e);
  }

  /** Every callback of the log only releases the message it was handed. */
  ghost predicate OnlyReleases(calls: seq<Call>)
  {
    forall i :: 0 <= i < |calls| ==> calls[i].reaction == [Done]
  }

  /** A script whose every reaction is a bare OnDoneUsing. */
  ghost predicate ReleaseScript(script: Script)
  {
    forall i :: 0 <= i < |script| ==> script[i] == [Done]
  }

  /** A script whose every reaction is a bare release makes every callback
      release its message and nothing else, however many callbacks run. */
  lemma ScriptReleases(calls: seq<Call>, script: Script)
    requires Follows(calls, script) && ReleaseScript(script)
    ensures OnlyReleases(calls)
  {
    forall i | 0 <= i < |calls| ensures calls[i].reaction == [Done] {
      assert calls[i].reaction == NextReaction(Skip(script, i));
    }
  }

  /** Callbacks that only release send nothing and ask for no unsubscription. */
  lemma {:induction false} ReleasesQueueNothing(reg: Registry<TypeId, ReceiverId>, calls: seq<Call>)
    requires OnlyReleases(calls)
    ensures LogEffect(reg, calls) == NoEffect
    decreases |calls|
  {
    if calls != [] {
      var n := |calls| - 1;
      var c := calls[n];
      assert OnlyReleases(calls[..n]) by {
        forall i | 0 <= i < n ensures calls[..n][i].reaction == [Done] {
          assert calls[..n][i] == calls[i];
        }
      }
      ReleasesQueueNothing(reg, calls[..n]);
      assert c.reaction == [Done] && c.reaction[..0] == [];
      assert ReactionEffect(reg, c.receiver, c.msgType, c.reaction) == NoEffect;
    }
  }

  /** The callbacks of one delivery that only release: the count and the pool
      go through exactly one OnDoneUsing per callback. */
  lemma {:induction false} ReleasesState(reg: Registry<TypeId, ReceiverId>, m: Message, calls: seq<Call>, s: Held)
    requires OnlyReleases(calls)
    ensures CallsState(reg, m, calls, s) == RefCounts.Dones(s.0, s.1, m.typ, m, |calls|)
    decreases |calls|
  {
    if calls != [] {
      var n := |calls| - 1;
      assert OnlyReleases(calls[..n]) by {
        forall i | 0 <= i < n ensures calls[..n][i].reaction == [Done] {
          assert calls[..n][i] == calls[i];
        }
      }
      ReleasesState(reg, m, calls[..n], s);
      RefCounts.DonesSnoc(s.0, s.1, m.typ, m, n);
      var rx := calls[n].reaction;
      assert rx == [Done] && rx[..0] == [];
      var h := CallsState(reg, m, calls[..n], s);
      assert ReactionState(reg, m, rx, h) == RefCounts.DoneStep(h.0, h.1, m.typ, m);
    }
  }

  /** A batch started by sending m, in which every callback only releases m:
      m is the only message delivered, nothing is queued beside it, and m has
      one callback per receiver of its type. */
  lemma ReleaseOnlyShape(reg: Registry<TypeId, ReceiverId>, m: Message, trace: seq<Delivery>,
                         posted: seq<Message>, calls: seq<Call>)
    requires m.typ in reg && OnlyReleases(calls)
    requires MessagesOf(trace) == [m] + posted && FanOut(trace, reg) && Callers(calls) == Visits(trace)
    requires Types(posted) == LogEffect(reg, calls).sent
    ensures LogEffect(reg, calls) == NoEffect && posted == [] && |trace| == 1 && trace[0].msg == m
    ensures |calls| == |trace[0].receivers| == |reg[m.typ]|
  {
    ReleasesQueueNothing(reg, calls);
    assert LogEffect(reg, calls).sent == [];
    var d := trace[0];
    assert trace[..0] == [];
    assert Visits(trace) == Pairs(d.receivers, m.typ);
    EnumerationSize(d.receivers, reg[m.typ]);
  }

  /** The same batch, when m has receivers: after the last release m's count
      is 0 and it has been recycled into its type's bucket exactly once. */
  lemma ReleaseOnlyBatch(reg: Registry<TypeId, ReceiverId>, p: Pool<TypeId, Message>, m: Message,
                         trace: seq<Delivery>, posted: seq<Message>, calls: seq<Call>)
    requires m.typ in reg && reg[m.typ] != {} && OnlyReleases(calls)
    requires MessagesOf(trace) == [m] + posted && FanOut(trace, reg) && Callers(calls) == Visits(trace)
    requires Types(posted) == LogEffect(reg, calls).sent && trace[0].count == |reg[m.typ]|
    ensures LogEffect(reg, calls) == NoEffect && posted == [] && |trace| == 1 && trace[0].msg == m
    ensures TraceState(reg, p, trace, calls) == (0, Put(p, m.typ, m))
  {
    ReleaseOnlyShape(reg, m, trace, posted, calls);
    var n := |calls|;
    assert TraceState(reg, p, trace, calls) == DeliveryUpTo(reg, p, trace, 1, calls, 0, n);
    DeliveryUpToCalls(reg, p, trace, 1, calls, 0, n);
    assert calls[0..n] == calls;
    ReleasesState(reg, m, calls, (n, p));
    RefCounts.RecycledOnLastRelease(n, p, m.typ, m, n);
  }

  /** A message. Its runtime type is the routing key of the bus; its reference
      count says how many receivers have yet to release it. */
  class Message {
    const typ: TypeId
    var referenceCount: int

    /** new T(): a message of type t with the default count 0. */
    constructor (t: TypeId)
      ensures typ == t && referenceCount == 0
    {
      typ := t;
      referenceCount := 0;
    }

    /** Init(numberOfReceivers): sets the reference count. */
    method Init(numberOfReceivers: int)
      modifies this
      ensures referenceCount == numberOfReceivers
    {
      referenceCount := numberOfReceivers;
    }

    /** A receiver releases this message: the count drops by one, and exactly
        when it reaches 0 the message is recycled into the bus's pool. */
    method OnDoneUsing(bus: MessageManager)
      requires bus.Valid()
      requires referenceCount == 1 ==> bus.poolCreated
      modifies this, bus`pool, bus`Repr
      ensures bus.Valid()
      ensures (referenceCount, bus.pool) == RefCounts.DoneStep(old(referenceCount), old(bus.pool), typ, this)
      ensures bus.Repr == if referenceCount == 0 then old(bus.Repr) + {this} else old(bus.Repr)
    {
      referenceCount := referenceCount - 1;
      if referenceCount == 0 {
        bus.RecycleMessage(this);
      }
    }

    /** Broadcasts this message: exactly the effect of bus.SendMessage(this). */
    method Send(bus: MessageManager, script: Script)
      returns (rest: Script, trace: seq<Delivery>, ghost posted: seq<Message>, ghost calls: seq<Call>)
      requires bus.Valid() && bus.Idle()
      requires typ in bus.registry ==> bus.poolCreated
      modifies bus, bus.Repr, this
      ensures bus.Valid() && bus.Idle()
      ensures bus.SendOutcome(this, script, rest, trace, posted, calls)
      ensures StopsHonoured(old(bus.registry), bus.registry, calls)
      ensures ReleaseScript(script) && typ in old(bus.registry) && old(bus.registry)[typ] != {} ==>
                && referenceCount == 0 && bus.pool == Put(old(bus.pool), typ, this) && bus.registry == old(bus.registry)
                && forall x :: x in old(bus.Repr) && x != this ==> x.referenceCount == old(x.referenceCount)
    {
      rest, trace, posted, calls := bus.SendMessage(this, script);
    }
  }

  /** The bus. */
  class MessageManager {
    /** false while the registry dictionary is still null */
    var registryCreated: bool
    var registry: Registry<TypeId, ReceiverId>
    /** false while the pool dictionary is still null */
    var poolCreated: bool
    var pool: Pool<TypeId, Message>
    var messagesQueue: seq<Message>
    var messagesToRemove: seq<TypeId>
    var receiversToRemove: seq<ReceiverId>
    var receiversToCleanup: seq<ReceiverId>
    /** every message the bus holds or has held: those its methods may update */
    ghost var Repr: set<Message>

    ghost predicate Valid()
      reads this
    {
      RegistryValid() && PoolValid()
    }

    /** The registry exists once anything refers to it, and every queued
        message and queued single-type removal names a registered type. */
    ghost predicate RegistryValid()
      reads this`registryCreated, this`registry, this`messagesQueue, this`messagesToRemove,
            this`receiversToRemove, this`receiversToCleanup, this`Repr
    {
      && (!registryCreated ==> registry == map[])
      && |messagesToRemove| == |receiversToRemove|
      && AllRegistered(registry, messagesToRemove)
      && (forall i :: 0 <= i < |messagesQueue| ==>
            messagesQueue[i].typ in registry && messagesQueue[i] in Repr)
      && (receiversToCleanup != [] ==> registryCreated)
    }

    /** Every idle message sits in the bucket of its own type. */
    ghost predicate PoolValid()
      reads this`poolCreated, this`pool, this`Repr
    {
      && (!poolCreated ==> pool == map[])
      && (forall t, i :: 0 <= i < |Bucket(pool, t)| ==>
            Bucket(pool, t)[i].typ == t && Bucket(pool, t)[i] in Repr)
    }

    /** No batch is running: every queue is empty. */
    ghost predicate Idle()
      reads this
    {
      messagesQueue == [] && messagesToRemove == [] && receiversToRemove == [] && receiversToCleanup == []
    }

    /** The test by which SendMessage starts a batch. It holds only with a
        message to deliver, and at most one of the three tests holds at a time,
        so a call starts at most one batch. */
    predicate SendStartsBatch(): (b: bool)
      reads this
      ensures b ==> messagesQueue != [] && !RemovalStartsBatch() && !CleanupStartsBatch()
    {
      |messagesQueue| == 1 && receiversToCleanup == [] && receiversToRemove == []
    }

    /** The test by which StopReceivingMessage starts a batch. It holds only
        with a removal to apply, and never together with the stop-all test. */
    predicate RemovalStartsBatch(): (b: bool)
      reads this
      ensures b ==> receiversToRemove != [] && !CleanupStartsBatch()
    {
      |receiversToRemove| == 1 && messagesQueue == [] && receiversToCleanup == []
    }

    /** The test by which StopReceivingAllMessages starts a batch. It holds
        only with a stop-all request to apply. */
    predicate CleanupStartsBatch(): (b: bool)
      reads this
      ensures b ==> receiversToCleanup != []
    {
      |receiversToCleanup| == 1 && messagesQueue == [] && receiversToRemove == []
    }

    /** The process starts with both dictionaries null and every queue empty. */
    constructor ()
      ensures Valid() && Idle()
      ensures !registryCreated && !poolCreated && Repr == {}
    {
      registryCreated, registry := false, map[];
      poolCreated, pool := false, map[];
      messagesQueue, messagesToRemove, receiversToRemove, receiversToCleanup := [], [], [], [];
      Repr := {};
    }

    /** StartReceivingMessage<T>(receiver): applied at once, never deferred. */
    method StartReceivingMessage(t: TypeId, r: ReceiverId)
      requires Valid()
      modifies this`registryCreated, this`registry
      ensures Valid() && registryCreated
      ensures registry == Subscribed(old(registry), t, r)
    {
      registryCreated := true;
      if t !in registry {
        registry := registry[t := {}];
      }
      if r !in registry[t] {
        registry := registry[t := registry[t] + {r}];
      }
      assert registry[t] == Members(old(registry), t) + {r};
    }

    /** NumberOfListeners<T>(): -1 for a type without an entry, else its set size. */
    function NumberOfListeners(t: TypeId): (n: int)
      reads this
      requires registryCreated
      ensures n == -1 <==> t !in registry
      ensures n >= 0 ==> n == |registry[t]|
    {
      Count(registry, t)
    }

    /** The part of SendMessage after the registry test: the count is taken
        from the set as it is now and the message joins the back of the queue. */
    method EnqueueMessage(m: Message)
      requires Valid() && m.typ in registry
      modifies this`messagesQueue, this`Repr, m
      ensures Valid()
      ensures m.referenceCount == |registry[m.typ]|
      ensures messagesQueue == old(messagesQueue) + [m]
      ensures Repr == old(Repr) + {m}
      // the send starts a batch exactly when nothing was queued before it
      ensures SendStartsBatch() <==> old(messagesQueue) == [] && receiversToCleanup == [] && receiversToRemove == []
    {
      m.Init(|registry[m.typ]|);
      messagesQueue := messagesQueue + [m];
      Repr := Repr + {m};
    }

    /** The part of StopReceivingMessage that queues the removal. */
    method EnqueueRemoval(t: TypeId, r: ReceiverId)
      requires Valid() && t in registry
      modifies this`messagesToRemove, this`receiversToRemove
      ensures Valid()
      ensures messagesToRemove == old(messagesToRemove) + [t]
      ensures receiversToRemove == old(receiversToRemove) + [r]
      // the removal starts a batch exactly when nothing was queued before it
      ensures RemovalStartsBatch() <==> old(receiversToRemove) == [] && messagesQueue == [] && receiversToCleanup == []
    {
      messagesToRemove := messagesToRemove + [t];
      receiversToRemove := receiversToRemove + [r];
    }

    /** The part of StopReceivingAllMessages that queues the request. */
    method EnqueueCleanup(r: ReceiverId)
      requires Valid() && registryCreated
      modifies this`receiversToCleanup
      ensures Valid()
      ensures receiversToCleanup == old(receiversToCleanup) + [r]
      // the request starts a batch exactly when nothing was queued before it
      ensures CleanupStartsBatch() <==> old(receiversToCleanup) == [] && messagesQueue == [] && receiversToRemove == []
    {
      receiversToCleanup := receiversToCleanup + [r];
    }

    /** Nothing the bus holds was touched: the pool, the set of messages it
        holds and every one of their counts are as they were. */
    twostate predicate Untouched()
      reads this, Repr
    {
      && pool == old(pool) && Repr == old(Repr)
      && (forall x :: x in old(Repr) ==> x.referenceCount == old(x.referenceCount))
    }

    /** The three removal queues, as one value. */
    function Pending(): Requests
      reads this`messagesToRemove, this`receiversToRemove, this`receiversToCleanup
    {
      Requests(messagesToRemove, receiversToRemove, receiversToCleanup)
    }

    /** The removal queues grew at their back by exactly the requests of e. */
    twostate predicate RequestsAppended(e: Effect)
      reads this
    {
      Pending() == Push(old(Pending()), e)
    }

    /** What a SendMessage call promises, shared with Message.Send. */
    twostate predicate SendOutcome(m: Message, script: Script, rest: Script, new trace: seq<Delivery>,
                                   new posted: seq<Message>, calls: seq<Call>)
      reads this, m, Repr, set d | d in trace :: d.msg
    {
      && registryCreated == old(registryCreated) && poolCreated == old(poolCreated)
      // a type without an entry: the message is dropped and nothing changes
      && (m.typ !in old(registry) ==>
            && registry == old(registry) && Untouched()
            && rest == script && trace == [] && calls == [] && m.referenceCount == old(m.referenceCount))
      // otherwise the send starts a batch
      && (m.typ in old(registry) ==> BatchOutcome(m, script, rest, trace, posted, calls))
    }

    /** What the batch started by sending m, of a registered type, from outside
        any batch promises. */
    twostate predicate BatchOutcome(m: Message, script: Script, rest: Script, new trace: seq<Delivery>,
                                    new posted: seq<Message>, calls: seq<Call>)
      reads this, m, Repr, set d | d in trace :: d.msg
    {
      && m.typ in old(registry)
      // m is delivered first, then every message the callbacks sent, in order;
      // each delivery reaches the receivers registered when the batch began, one
      // callback each, and each callback runs the next reaction of the script;
      // what the callbacks sent and the unsubscriptions they asked for are those
      // of the log, and the unsubscriptions are applied at the end
      && MessagesOf(trace) == [m] + posted
      && FanOut(trace, old(registry))
      && Callers(calls) == Visits(trace)
      && Follows(calls, script) && rest == Skip(script, |calls|)
      && Types(posted) == LogEffect(old(registry), calls).sent
      && registry == BatchRegistry(old(registry), [], [], [], LogEffect(old(registry), calls))
      // m's delivery starts from the count Init gave it; the pool, and the count
      // of the message delivered last, are what the callbacks' actions make them
      && trace[0].count == |old(registry)[m.typ]|
      // a later delivery of a message not delivered before starts from the count
      // its send gave it, and a message the batch never delivers keeps its count
      && FirstCounts(trace, [m], old(registry))
      && old(Repr) <= Repr
      && (forall x :: x in old(Repr) && x !in MessagesOf(trace) ==> x.referenceCount == old(x.referenceCount))
      && pool == TraceState(old(registry), old(pool), trace, calls).1
      && trace[|trace| - 1].msg.referenceCount == TraceState(old(registry), old(pool), trace, calls).0
      // a type with no receivers: count 0, nobody releases it, never recycled,
      // and nothing else the bus holds changes
      && (old(registry)[m.typ] == {} ==>
            && trace == [Delivery(m, 0, [])] && calls == [] && m.referenceCount == 0
            && pool == old(pool) && registry == old(registry) && rest == script
            && Repr == old(Repr) + {m}
            && (forall x :: x in old(Repr) && x != m ==> x.referenceCount == old(x.referenceCount)))
    }

    /** SendMessage(message), called from outside any batch. Once the call
        returns, a receiver is subscribed to a type exactly when it was before
        and asked from no callback to stop receiving that type or everything. */
    method SendMessage(m: Message, script: Script)
      returns (rest: Script, trace: seq<Delivery>, ghost posted: seq<Message>, ghost calls: seq<Call>)
      requires Valid() && Idle()
      requires m.typ in registry ==> poolCreated
      modifies this, Repr, m
      ensures Valid() && Idle()
      ensures SendOutcome(m, script, rest, trace, posted, calls)
      ensures StopsHonoured(old(registry), registry, calls)
      // receivers that only release: the last one recycles m, once
      ensures ReleaseScript(script) && m.typ in old(registry) && old(registry)[m.typ] != {} ==>
                && m.referenceCount == 0 && pool == Put(old(pool), m.typ, m) && registry == old(registry)
                && forall x :: x in old(Repr) && x != m ==> x.referenceCount == old(x.referenceCount)
    {
      if !registryCreated || m.typ !in registry {
        rest, trace, posted, calls := script, [], [], [];
        forall t, x ensures !AskedToStop(calls, t, x) && !AskedToStopAll(calls, x) {
          assert |calls| == 0;
        }
        return;
      }
      rest, trace, posted, calls := SendRegistered(m, script);
    }

    /** The part of SendMessage after the registry test: the count is set, the
        message is queued, and since no batch is running this send starts one. */
    method SendRegistered(m: Message, script: Script)
      returns (rest: Script, trace: seq<Delivery>, ghost posted: seq<Message>, ghost calls: seq<Call>)
      requires Valid() && Idle() && m.typ in registry && poolCreated
      modifies this, Repr, m
      ensures Valid() && Idle()
      ensures registryCreated == old(registryCreated) && poolCreated == old(poolCreated)
      ensures BatchOutcome(m, script, rest, trace, posted, calls)
      ensures StopsHonoured(old(registry), registry, calls)
      ensures ReleaseScript(script) && old(registry)[m.typ] != {} ==>
                && m.referenceCount == 0 && pool == Put(old(pool), m.typ, m) && registry == old(registry)
                && forall x :: x in old(Repr) && x != m ==> x.referenceCount == old(x.referenceCount)
    {
      ghost var reg := registry;
      EnqueueMessage(m);
      // outside a batch the queue now holds m alone, so this call starts one
      assert SendStartsBatch();
      ghost var quiet := reg[m.typ] == {};
      assert quiet ==> Silent(messagesQueue, registry);
      label queued:
      rest, trace, posted, calls := HandleMessages(script);
      assert trace[0].msg == m;
      if quiet {
        assert trace == [Delivery(m, 0, [])];
        assert LogEffect(reg, calls) == NoEffect;
      }
      BatchMemberships(reg, calls);
      if ReleaseScript(script) && !quiet {
        ScriptReleases(calls, script);
        ReleaseOnlyBatch(reg, old(pool), m, trace, posted, calls);
        assert MessagesOf(trace) == [m];
        assert Push(Requests([], [], []), NoEffect) == Requests([], [], []);
      }
    }

    /** StopReceivingMessage<T>(receiver), called from outside any batch. */
    method StopReceivingMessage(t: TypeId, r: ReceiverId)
      requires Valid() && Idle() && registryCreated
      modifies this, Repr
      ensures Valid() && Idle()
      ensures registryCreated == old(registryCreated) && poolCreated == old(poolCreated)
      ensures registry == if t in old(registry) then Unsubscribed(old(registry), t, r) else old(registry)
      ensures pool == old(pool) && Repr == old(Repr)
      ensures forall x :: x in old(Repr) ==> x.referenceCount == old(x.referenceCount)
    {
      if t in registry {
        EnqueueRemoval(t, r);
        // outside a batch this is the only queued request, so this call starts one
        assert RemovalStartsBatch();
        var _, _, _, calls := HandleMessages([]);
        ghost var e := LogEffect(old(registry), calls);
        assert e == NoEffect;
        assert [t] + e.stopTypes == [t] && [r] + e.stopReceivers == [r] && [] + e.cleanups == [];
        assert ApplyRemovals(old(registry), [t], [r]) == Unsubscribed(old(registry), t, r) by {
          assert [t][..0] == [] && [r][..0] == [];
        }
      }
    }

    /** StopReceivingAllMessages(receiver), called from outside any batch. */
    method StopReceivingAllMessages(r: ReceiverId)
      requires Valid() && Idle() && registryCreated
      modifies this, Repr
      ensures Valid() && Idle()
      ensures registryCreated == old(registryCreated) && poolCreated == old(poolCreated)
      ensures registry == RemovedEverywhere(old(registry), r)
      ensures pool == old(pool) && Repr == old(Repr)
      ensures forall x :: x in old(Repr) ==> x.referenceCount == old(x.referenceCount)
    {
      EnqueueCleanup(r);
      // outside a batch this is the only queued request, so this call starts one
      assert CleanupStartsBatch();
      var _, _, _, calls := HandleMessages([]);
      ghost var e := LogEffect(old(registry), calls);
      assert e == NoEffect;
      assert [] + e.stopTypes == [] && [] + e.stopReceivers == [] && [r] + e.cleanups == [r];
      assert registry == ApplyCleanups(ApplyRemovals(old(registry), [], []), [r]);
      assert ApplyRemovals(old(registry), [], []) == old(registry);
      assert ApplyCleanups(old(registry), [r]) == RemovedEverywhere(old(registry), r) by {
        assert [r][..0] == [];
      }
    }

    /** HandleMessages: drains the delivery queue, then the single-type
        removals, then the remove-everywhere requests, those queued before the
        call followed by those the callbacks queued. */
    method HandleMessages(script: Script)
      returns (rest: Script, trace: seq<Delivery>, ghost posted: seq<Message>, ghost calls: seq<Call>)
      requires Valid() && (messagesQueue != [] ==> poolCreated)
      modifies this, Repr
      ensures Valid() && Idle()
      ensures fresh(Repr - old(Repr)) && old(Repr) <= Repr
      ensures registryCreated == old(registryCreated) && poolCreated == old(poolCreated)
      ensures MessagesOf(trace) == old(messagesQueue) + posted
      ensures FanOut(trace, old(registry))
      ensures Callers(calls) == Visits(trace)
      ensures Follows(calls, script) && rest == Skip(script, |calls|)
      ensures Types(posted) == LogEffect(old(registry), calls).sent
      ensures registry == BatchRegistry(old(registry), old(messagesToRemove), old(receiversToRemove),
                                        old(receiversToCleanup), LogEffect(old(registry), calls))
      // the pool, and the count of the message delivered last, follow the callbacks' actions
      ensures pool == TraceState(old(registry), old(pool), trace, calls).1
      ensures trace != [] ==> trace[|trace| - 1].msg.referenceCount == TraceState(old(registry), old(pool), trace, calls).0
      ensures old(messagesQueue) != [] ==> trace != [] && trace[0].count == old(messagesQueue[0].referenceCount)
      // a message sent from a callback is first delivered from the count its send
      // gave it, and every message the batch does not deliver keeps its count
      ensures FirstCounts(trace, old(messagesQueue), old(registry))
      ensures forall x :: x in old(Repr) && x !in MessagesOf(trace) ==> x.referenceCount == old(x.referenceCount)
      // when no queued message has a receiver, no callback runs and nothing but the queues changes
      ensures Silent(old(messagesQueue), old(registry)) ==>
                NoCallbacks(trace) && calls == [] && rest == script && posted == [] && Untouched()
    {
      rest, trace, posted, calls := DeliverQueued(script);
      ApplyQueuedUnsubscriptions();
    }

    /** The first loop of HandleMessages: while the queue is not empty, peek its
        head, hand it to every receiver of its type, and only then dequeue it.
        The registry does not change while this runs. */
    method DeliverQueued(script: Script)
      returns (rest: Script, trace: seq<Delivery>, ghost posted: seq<Message>, ghost calls: seq<Call>)
      requires Valid() && (messagesQueue != [] ==> poolCreated)
      modifies this, Repr
      ensures Valid() && messagesQueue == []
      ensures fresh(Repr - old(Repr)) && old(Repr) <= Repr
      ensures registry == old(registry)
      ensures registryCreated == old(registryCreated) && poolCreated == old(poolCreated)
      ensures MessagesOf(trace) == old(messagesQueue) + posted
      ensures FanOut(trace, old(registry))
      ensures Callers(calls) == Visits(trace)
      ensures Follows(calls, script) && rest == Skip(script, |calls|)
      ensures Types(posted) == LogEffect(old(registry), calls).sent
      ensures RequestsAppended(LogEffect(old(registry), calls))
      // the pool, and the count of the message delivered last, follow the callbacks' actions
      ensures pool == TraceState(old(registry), old(pool), trace, calls).1
      ensures trace != [] ==> trace[|trace| - 1].msg.referenceCount == TraceState(old(registry), old(pool), trace, calls).0
      ensures old(messagesQueue) != [] ==> trace != [] && trace[0].count == old(messagesQueue[0].referenceCount)
      // a message sent from a callback is first delivered from the count its send
      // gave it, and every message the batch does not deliver keeps its count
      ensures FirstCounts(trace, old(messagesQueue), old(registry))
      ensures forall x :: x in old(Repr) && x !in MessagesOf(trace) ==> x.referenceCount == old(x.referenceCount)
      ensures Silent(old(messagesQueue), old(registry)) ==>
                NoCallbacks(trace) && calls == [] && posted == [] && Untouched()
    {
      rest, trace, posted, calls := script, [], [], [];
      ghost var count0 := if messagesQueue != [] then messagesQueue[0].referenceCount else 0;
      ghost var c0 := map x | x in Repr :: x.referenceCount;
      BatchStarts(script, count0, c0);
      while messagesQueue != []
        invariant Valid() && old(Repr) <= Repr
        invariant forall x :: x in Repr && x !in old(Repr) ==> fresh(x)
        invariant registryCreated == old(registryCreated) && poolCreated == old(poolCreated)
        invariant messagesQueue != [] ==> poolCreated
        invariant BatchSoFar(script, rest, trace, posted, calls, old(registry), old(Pending()), old(messagesQueue),
                             old(pool), count0, c0)
        invariant Silent(old(messagesQueue), old(registry)) ==>
                    NoCallbacks(trace) && calls == [] && posted == [] && Untouched()
        decreases Sends(rest) + |messagesQueue|
      {
        rest, trace, posted, calls := DeliverRound(script, rest, trace, posted, calls, old(registry), old(Pending()),
                                                  old(messagesQueue), old(pool), count0, c0);
      }
      BatchEnds(script, rest, trace, posted, calls, old(registry), old(Pending()), old(messagesQueue), old(pool),
                count0, c0);
    }

    /** The batch so far, before the first round. */
    lemma BatchStarts(script: Script, count0: int, c0: map<Message, int>)
      requires count0 == if messagesQueue != [] then messagesQueue[0].referenceCount else 0
      requires c0 == map x | x in Repr :: x.referenceCount
      ensures BatchSoFar(script, script, [], [], [], registry, Pending(), messagesQueue, pool, count0, c0)
    {
      assert MessagesOf([]) == [];
    }

    /** The batch so far, once the queue is empty: every message queued or
        sent was delivered. */
    lemma BatchEnds(script: Script, rest: Script, trace: seq<Delivery>, posted: seq<Message>,
                    calls: seq<Call>, reg: Registry<TypeId, ReceiverId>, q0: Requests,
                    queue0: seq<Message>, pool0: Pool<TypeId, Message>, count0: int, c0: map<Message, int>)
      requires messagesQueue == [] && BatchSoFar(script, rest, trace, posted, calls, reg, q0, queue0, pool0, count0, c0)
      ensures registry == reg
      ensures MessagesOf(trace) == queue0 + posted && FanOut(trace, reg)
      ensures Callers(calls) == Visits(trace)
      ensures Follows(calls, script) && rest == Skip(script, |calls|)
      ensures Types(posted) == LogEffect(reg, calls).sent
      ensures Pending() == Push(q0, LogEffect(reg, calls))
      ensures pool == TraceState(reg, pool0, trace, calls).1
      ensures trace != [] ==> trace[|trace| - 1].msg.referenceCount == TraceState(reg, pool0, trace, calls).0
      ensures queue0 != [] ==> trace != [] && trace[0].count == count0
      ensures FirstCounts(trace, queue0, reg)
      ensures forall x :: x in c0 && x !in MessagesOf(trace) ==> x.referenceCount == c0[x]
    {
      assert MessagesOf(trace) + messagesQueue == MessagesOf(trace);
    }

    /** What holds of the batch so far, from the state at its start (registry reg,
        removal queues q0, message queue queue0, pool pool0, head count count0):
        the trace, the callbacks, the messages sent, the removal queues and the
        fold of the pool. */
    ghost predicate BatchSoFar(script: Script, rest: Script, trace: seq<Delivery>, posted: seq<Message>,
                               calls: seq<Call>, reg: Registry<TypeId, ReceiverId>, q0: Requests,
                               queue0: seq<Message>, pool0: Pool<TypeId, Message>, count0: int,
                               c0: map<Message, int>)
      reads this, c0.Keys, set x | x in messagesQueue, set d | d in trace :: d.msg
    {
      && registry == reg
      && MessagesOf(trace) + messagesQueue == queue0 + posted && FanOut(trace, reg)
      && Callers(calls) == Visits(trace)
      && Follows(calls, script) && rest == Skip(script, |calls|)
      && Types(posted) == LogEffect(reg, calls).sent
      && Pending() == Push(q0, LogEffect(reg, calls))
      && pool == TraceState(reg, pool0, trace, calls).1
      && (trace != [] ==> trace[|trace| - 1].msg.referenceCount == TraceState(reg, pool0, trace, calls).0)
      && (trace == [] ==> messagesQueue == queue0)
      && (messagesQueue != [] ==>
            if trace == [] then messagesQueue[0].referenceCount == count0 else trace[0].count == count0)
      && (trace != [] ==> trace[0].count == count0)
      && CountsSoFar(trace, queue0, reg, c0)
    }

    /** The counts in the batch so far, from the counts c0 at its start: the
        messages delivered for the first time started from the count their send
        gave them, a message sent from a callback and not yet delivered has the
        count its last send gave it, and a message neither delivered nor queued
        keeps its count. */
    ghost predicate CountsSoFar(trace: seq<Delivery>, queue0: seq<Message>, reg: Registry<TypeId, ReceiverId>,
                                c0: map<Message, int>)
      reads this, c0.Keys, set x | x in messagesQueue
    {
      && c0.Keys <= Repr && FirstCounts(trace, queue0, reg)
      && (forall x :: x in messagesQueue && x !in queue0 && x !in MessagesOf(trace) ==>
            x.typ in reg && x.referenceCount == |reg[x.typ]|)
      && (forall x :: x in c0 && x !in MessagesOf(trace) && x !in messagesQueue ==> x.referenceCount == c0[x])
    }

    /** One round of the first loop: the delivery of the head extends the
        batch so far. */
    method DeliverRound(ghost script: Script, rest: Script, trace: seq<Delivery>, ghost posted: seq<Message>,
                        ghost calls: seq<Call>, ghost reg: Registry<TypeId, ReceiverId>,
                        ghost q0: Requests, ghost queue0: seq<Message>, ghost pool0: Pool<TypeId, Message>,
                        ghost count0: int, ghost c0: map<Message, int>)
      returns (rest': Script, trace': seq<Delivery>, ghost posted': seq<Message>, ghost calls': seq<Call>)
      requires Valid() && messagesQueue != [] && poolCreated
      requires BatchSoFar(script, rest, trace, posted, calls, reg, q0, queue0, pool0, count0, c0)
      modifies this, Repr
      ensures Valid() && poolCreated && old(Repr) <= Repr
      ensures forall x :: x in Repr && x !in old(Repr) ==> fresh(x)
      ensures registryCreated == old(registryCreated)
      ensures BatchSoFar(script, rest', trace', posted', calls', reg, q0, queue0, pool0, count0, c0)
      ensures Sends(rest') + |messagesQueue| < Sends(rest) + |old(messagesQueue)|
      ensures Silent(queue0, reg) && posted == [] && NoCallbacks(trace) && calls == [] ==>
                NoCallbacks(trace') && calls' == [] && posted' == [] && Untouched()
    {
      var d;
      ghost var p, c;
      rest', d, p, c := DeliverNext(script, rest, trace, posted, calls, reg, q0, queue0, c0);
      TraceStateSnoc(reg, pool0, trace, calls, d, c);
      trace', posted', calls' := trace + [d], posted + p, calls + c;
    }

    /** The delivery of the head within the batch so far. */
    method DeliverNext(ghost script: Script, rest: Script, ghost trace: seq<Delivery>, ghost posted: seq<Message>,
                       ghost calls: seq<Call>, ghost reg: Registry<TypeId, ReceiverId>,
                       ghost q0: Requests, ghost queue0: seq<Message>, ghost c0: map<Message, int>)
      returns (rest': Script, d: Delivery, ghost p: seq<Message>, ghost c: seq<Call>)
      requires Valid() && messagesQueue != [] && poolCreated && registry == reg
      requires CountsSoFar(trace, queue0, reg, c0)
      requires MessagesOf(trace) + messagesQueue == queue0 + posted && FanOut(trace, reg)
      requires Callers(calls) == Visits(trace)
      requires Follows(calls, script) && rest == Skip(script, |calls|)
      requires Types(posted) == LogEffect(reg, calls).sent
      requires Pending() == Push(q0, LogEffect(reg, calls))
      modifies this, Repr
      ensures Valid() && poolCreated && fresh(Repr - old(Repr)) && old(Repr) <= Repr
      ensures registry == reg && registryCreated == old(registryCreated)
      ensures MessagesOf(trace + [d]) + messagesQueue == queue0 + (posted + p) && FanOut(trace + [d], reg)
      ensures Callers(calls + c) == Visits(trace + [d])
      ensures Follows(calls + c, script) && rest' == Skip(script, |calls + c|)
      ensures Types(posted + p) == LogEffect(reg, calls + c).sent
      ensures Pending() == Push(q0, LogEffect(reg, calls + c))
      ensures d.count == old(messagesQueue[0].referenceCount)
      ensures |c| == |d.receivers| && (d.msg.referenceCount, pool) == CallsState(reg, d.msg, c, (d.count, old(pool)))
      ensures Sends(rest') + |messagesQueue| < Sends(rest) + |old(messagesQueue)|
      ensures Silent(queue0, reg) && posted == [] && NoCallbacks(trace) ==>
                NoCallbacks(trace + [d]) && c == [] && p == [] && Untouched()
      ensures d.msg == old(messagesQueue[0]) && messagesQueue == old(messagesQueue[1..]) + p
      ensures forall x :: x in p && x != d.msg ==> x.typ in reg && x.referenceCount == |reg[x.typ]|
      ensures forall x :: x in old(Repr) && x !in p && x != d.msg ==> x.referenceCount == old(x.referenceCount)
      ensures CountsSoFar(trace + [d], queue0, reg, c0)
    {
      if Silent(queue0, reg) && posted == [] {
        assert (MessagesOf(trace) + messagesQueue)[|trace|] == messagesQueue[0];
      }
      ghost var q := messagesQueue;
      rest', d, p, c := DeliverHead(rest);
      EnumerationSize(d.receivers, reg[d.msg.typ]);
      TraceGrows(trace, d, q, p, reg);
      VisitsGrow(trace, d);
      LogGrows(reg, script, calls, c);
      PushThen(q0, LogEffect(reg, calls), LogEffect(reg, c));
      TypesAppend(posted, p);
      AppendAssoc(queue0, posted, p);
      CountsRound(trace, d, p, queue0, reg, c0);
    }

    /** One round of the first loop keeps CountsSoFar: the head is delivered
        from the count it had, each message its callbacks sent has the count its
        send gave it, and no other message's count changes. */
    twostate lemma CountsRound(new trace: seq<Delivery>, new d: Delivery, new p: seq<Message>,
                               new queue0: seq<Message>, reg: Registry<TypeId, ReceiverId>,
                               new c0: map<Message, int>)
      requires old(allocated(trace)) && old(allocated(queue0)) && old(allocated(c0))
      requires old(Valid()) && old(CountsSoFar(trace, queue0, reg, c0)) && old(Repr) <= Repr
      requires old(messagesQueue) != [] && d.msg == old(messagesQueue[0])
      requires d.count == old(messagesQueue[0].referenceCount) && messagesQueue == old(messagesQueue[1..]) + p
      requires forall x :: x in p && x != d.msg ==> x.typ in reg && x.referenceCount == |reg[x.typ]|
      requires forall x :: x in old(Repr) && x !in p && x != d.msg ==> x.referenceCount == old(x.referenceCount)
      ensures CountsSoFar(trace + [d], queue0, reg, c0)
    {
      assert d.msg in old(messagesQueue);
      FirstCountsSnoc(trace, d, queue0, reg);
      assert MessagesOf(trace + [d]) == MessagesOf(trace) + [d.msg];
    }

    /** One round of HandleMessages' first loop: peek the head of the queue,
        hand it to every receiver of its type, and only then dequeue it. */
    method DeliverHead(script: Script)
      returns (rest: Script, d: Delivery, ghost posted: seq<Message>, ghost calls: seq<Call>)
      requires Valid() && messagesQueue != [] && poolCreated
      modifies this, Repr
      ensures Valid() && poolCreated && fresh(Repr - old(Repr)) && old(Repr) <= Repr
      ensures registry == old(registry) && registryCreated == old(registryCreated)
      ensures d.msg == old(messagesQueue)[0] && Enumerates(d.receivers, old(registry)[d.msg.typ])
      ensures Callers(calls) == Pairs(d.receivers, d.msg.typ)
      ensures Follows(calls, script) && rest == Skip(script, |calls|)
      ensures messagesQueue == old(messagesQueue)[1..] + posted
      ensures Types(posted) == LogEffect(old(registry), calls).sent
      ensures RequestsAppended(LogEffect(old(registry), calls))
      ensures d.count == old(messagesQueue[0].referenceCount)
      ensures (d.msg.referenceCount, pool) == CallsState(old(registry), d.msg, calls, (d.count, old(pool)))
      ensures Sends(rest) + |posted| <= Sends(script)
      ensures d.receivers == [] ==> Untouched()
      // each message sent, other than the one delivered, has the count its
      // last send gave it; no other message's count changes
      ensures forall x :: x in posted ==> x in Repr
      ensures forall x :: x in posted && x != d.msg ==> x.typ in registry && x.referenceCount == |registry[x.typ]|
      ensures forall x :: x in old(Repr) && x !in posted && x != d.msg ==> x.referenceCount == old(x.referenceCount)
    {
      var m := messagesQueue[0];
      var count := m.referenceCount;
      var visited: seq<ReceiverId>;
      rest, visited, posted, calls := DeliverToReceivers(m, script);
      DropHeadAppend(old(messagesQueue), posted);
      Dequeue();
      d := Delivery(m, count, visited);
    }

    /** Takes the head off the delivery queue. */
    method Dequeue()
      requires Valid() && messagesQueue != []
      modifies this`messagesQueue
      ensures Valid() && messagesQueue == old(messagesQueue)[1..]
    {
      messagesQueue := messagesQueue[1..];
    }

    /** The foreach of HandleMessages' first loop: hand the message at the head
        of the queue to each receiver of its type once, in the set's order. */
    method DeliverToReceivers(m: Message, script: Script)
      returns (rest: Script, visited: seq<ReceiverId>, ghost posted: seq<Message>, ghost calls: seq<Call>)
      requires Valid() && messagesQueue != [] && messagesQueue[0] == m && poolCreated
      modifies this, Repr
      ensures Valid() && poolCreated && fresh(Repr - old(Repr)) && old(Repr) <= Repr
      ensures registry == old(registry) && registryCreated == old(registryCreated)
      ensures Enumerates(visited, old(registry)[m.typ])
      ensures Callers(calls) == Pairs(visited, m.typ)
      ensures Follows(calls, script) && rest == Skip(script, |calls|)
      ensures messagesQueue == old(messagesQueue) + posted
      ensures Types(posted) == LogEffect(old(registry), calls).sent
      ensures RequestsAppended(LogEffect(old(registry), calls))
      ensures (m.referenceCount, pool) == CallsState(old(registry), m, calls, (old(m.referenceCount), old(pool)))
      ensures Sends(rest) + |posted| <= Sends(script)
      ensures visited == [] ==> Untouched()
      ensures forall x :: x in posted ==> x in Repr
      ensures forall x :: x in posted && x != m ==> x.typ in registry && x.referenceCount == |registry[x.typ]|
      ensures forall x :: x in old(Repr) && x !in posted && x != m ==> x.referenceCount == old(x.referenceCount)
    {
      if registry[m.typ] == {} {
        // a type with no receivers: the foreach hands the message to nobody
        rest, visited, posted, calls := script, [], [], [];
        return;
      }
      ghost var c0 := map x | x in Repr :: x.referenceCount;
      rest, visited, posted, calls := VisitEach(m, script, c0);
      VisitEnds(m, script, rest, calls, posted, old(registry), old(Pending()), old(messagesQueue),
                (old(m.referenceCount), old(pool)), c0);
    }

    /** The foreach over a non-empty set of receivers, from the counts c0. */
    method VisitEach(m: Message, script: Script, ghost c0: map<Message, int>)
      returns (rest: Script, visited: seq<ReceiverId>, ghost posted: seq<Message>, ghost calls: seq<Call>)
      requires Valid() && messagesQueue != [] && messagesQueue[0] == m && poolCreated && registry[m.typ] != {}
      requires c0 == map x | x in Repr :: x.referenceCount
      modifies this, Repr
      ensures Valid() && poolCreated && fresh(Repr - old(Repr)) && old(Repr) <= Repr
      ensures registryCreated == old(registryCreated)
      ensures Enumerates(visited, old(registry)[m.typ]) && visited != []
      ensures Callers(calls) == Pairs(visited, m.typ)
      ensures VisitSoFar(m, script, rest, calls, posted, old(registry), old(Pending()), old(messagesQueue),
                         (old(m.referenceCount), old(pool)), c0)
      ensures Sends(rest) + |posted| <= Sends(script)
    {
      var receivers := registry[m.typ];
      var left := receivers;
      rest, visited, posted, calls := script, [], [], [];
      ghost var first :| first in left;
      VisitStarts(m, script, c0);
      while left != {}
        invariant Valid() && old(Repr) <= Repr && m in Repr
        invariant forall x :: x in Repr && x !in old(Repr) ==> fresh(x)
        invariant registryCreated == old(registryCreated) && poolCreated
        invariant Progress(receivers, left, visited)
        invariant Callers(calls) == Pairs(visited, m.typ)
        invariant VisitSoFar(m, script, rest, calls, posted, old(registry), old(Pending()), old(messagesQueue),
                             (old(m.referenceCount), old(pool)), c0)
        invariant Sends(rest) + |posted| <= Sends(script)
        decreases left
      {
        var r :| r in left;
        ghost var c;
        rest, c, posted := VisitReceiver(m, r, script, rest, calls, posted, old(registry), old(Pending()),
                                         old(messagesQueue), (old(m.referenceCount), old(pool)), c0);
        PairsSnoc(visited, r, m.typ);
        ProgressStep(receivers, left, visited, r);
        calls := calls + [c];
        visited, left := visited + [r], left - {r};
      }
      assert first in visited;
    }

    /** What holds of the delivery of m so far, from the state at its start
        (registry reg, removal queues q0, message queue queue0, count and pool
        s0, every count c0): the callbacks, the messages sent and their counts,
        the removal queues, the fold of the count and the pool, and the counts
        of the other messages. */
    ghost predicate VisitSoFar(m: Message, script: Script, rest: Script, calls: seq<Call>, posted: seq<Message>,
                               reg: Registry<TypeId, ReceiverId>, q0: Requests, queue0: seq<Message>, s0: Held,
                               c0: map<Message, int>)
      reads this, m, c0.Keys, set x | x in posted
    {
      && registry == reg
      && messagesQueue == queue0 + posted
      && Follows(calls, script) && rest == Skip(script, |calls|)
      && Types(posted) == LogEffect(reg, calls).sent
      && Pending() == Push(q0, LogEffect(reg, calls))
      && (m.referenceCount, pool) == CallsState(reg, m, calls, s0)
      && c0.Keys <= Repr && SentCounts(reg, m, posted, c0)
    }

    /** The delivery of m so far, before the first receiver. */
    lemma VisitStarts(m: Message, script: Script, c0: map<Message, int>)
      requires c0 == map x | x in Repr :: x.referenceCount
      ensures VisitSoFar(m, script, script, [], [], registry, Pending(), messagesQueue, (m.referenceCount, pool), c0)
    {
      assert messagesQueue + [] == messagesQueue;
    }

    /** The delivery of m so far, after the last receiver. */
    lemma VisitEnds(m: Message, script: Script, rest: Script, calls: seq<Call>, posted: seq<Message>,
                    reg: Registry<TypeId, ReceiverId>, q0: Requests, queue0: seq<Message>, s0: Held,
                    c0: map<Message, int>)
      requires VisitSoFar(m, script, rest, calls, posted, reg, q0, queue0, s0, c0)
      ensures registry == reg && messagesQueue == queue0 + posted
      ensures Follows(calls, script) && rest == Skip(script, |calls|)
      ensures Types(posted) == LogEffect(reg, calls).sent
      ensures Pending() == Push(q0, LogEffect(reg, calls))
      ensures (m.referenceCount, pool) == CallsState(reg, m, calls, s0)
      ensures SentCounts(reg, m, posted, c0)
    {
    }

    /** One round of the foreach: receiver r is handed m and runs the next
        reaction of the script. The round extends the log of callbacks, the
        messages sent and the removal queues of the delivery so far. */
    method VisitReceiver(m: Message, r: ReceiverId, ghost script: Script, rest: Script, ghost calls: seq<Call>,
                         ghost posted: seq<Message>, ghost reg: Registry<TypeId, ReceiverId>, ghost q0: Requests,
                         ghost queue0: seq<Message>, ghost s0: Held, ghost c0: map<Message, int>)
      returns (rest': Script, ghost c: Call, ghost posted': seq<Message>)
      requires Valid() && poolCreated && m in Repr && m.typ in registry && queue0 != []
      requires VisitSoFar(m, script, rest, calls, posted, reg, q0, queue0, s0, c0)
      modifies this, Repr
      ensures Valid() && poolCreated && fresh(Repr - old(Repr)) && old(Repr) <= Repr
      ensures registryCreated == old(registryCreated)
      ensures c == Call(r, m.typ, NextReaction(rest))
      ensures Callers(calls + [c]) == Callers(calls) + [(r, m.typ)]
      ensures VisitSoFar(m, script, rest', calls + [c], posted', reg, q0, queue0, s0, c0)
      ensures Sends(rest') + |posted'| <= Sends(rest) + |posted|
    {
      var reaction := NextReaction(rest);
      c := Call(r, m.typ, reaction);
      CallGrows(reg, script, calls, c);
      PushThen(q0, LogEffect(reg, calls), ReactionEffect(reg, r, m.typ, reaction));
      rest' := AfterNext(rest);
      ghost var p := MessageReceived(r, m, reaction);
      CallsStateSnoc(reg, m, calls, c, s0);
      TypesAppend(posted, p);
      AppendAssoc(queue0, posted, p);
      posted' := posted + p;
    }

    /** receiver.MessageReceived(message) during a batch: the receiver performs
        the bus operations of its reaction, in order. Each of them only queues
        work: SendMessage, StopReceivingMessage and StopReceivingAllMessages find
        the message being delivered still at the head of the queue, so none of
        them starts a second batch. */
    method MessageReceived(r: ReceiverId, m: Message, reaction: Reaction) returns (ghost posted: seq<Message>)
      requires Valid() && messagesQueue != [] && poolCreated && m in Repr && m.typ in registry
      modifies this, Repr
      ensures Valid() && poolCreated
      ensures fresh(Repr - old(Repr)) && old(Repr) <= Repr
      ensures registry == old(registry) && registryCreated == old(registryCreated)
      ensures messagesQueue == old(messagesQueue) + posted
      ensures Types(posted) == ReactionEffect(old(registry), r, m.typ, reaction).sent
      ensures RequestsAppended(ReactionEffect(old(registry), r, m.typ, reaction))
      ensures (m.referenceCount, pool) == ReactionState(old(registry), m, reaction, (old(m.referenceCount), old(pool)))
      ensures |posted| <= SendsIn(reaction)
      // every message sent, other than m, has the count its last send gave it;
      // no other message's count changes
      ensures forall x :: x in posted ==> x in Repr
      ensures forall x :: x in posted && x != m ==> x.typ in registry && x.referenceCount == |registry[x.typ]|
      ensures forall x :: x in old(Repr) && x !in posted && x != m ==> x.referenceCount == old(x.referenceCount)
    {
      posted := [];
      ghost var c0 := map x | x in Repr :: x.referenceCount;
      ghost var s0 := (m.referenceCount, pool);
      ReactionStarts(r, m, reaction, c0);
      for i := 0 to |reaction|
        invariant Valid() && poolCreated && old(Repr) <= Repr
        invariant forall x :: x in Repr && x !in old(Repr) ==> fresh(x)
        invariant registryCreated == old(registryCreated)
        invariant ReactionSoFar(r, m, reaction, i, posted, old(registry), old(Pending()), old(messagesQueue), s0, c0)
      {
        posted := PerformNext(r, m, reaction, i, posted, old(registry), old(Pending()), old(messagesQueue), s0, c0);
      }
      ReactionEnds(r, m, reaction, posted, old(registry), old(Pending()), old(messagesQueue), s0, c0);
    }

    /** During the delivery of m, from the counts c0: every message sent is
        held by the bus, each of them other than m has the count its last send
        gave it, and every other message of c0 but m keeps its count. */
    ghost predicate SentCounts(reg: Registry<TypeId, ReceiverId>, m: Message, posted: seq<Message>,
                               c0: map<Message, int>)
      reads this, c0.Keys, set x | x in posted
    {
      && (forall x :: x in posted ==> x in Repr)
      && (forall x :: x in posted && x != m ==> x.typ in reg && x.referenceCount == |reg[x.typ]|)
      && (forall x :: x in c0 && x !in posted && x != m ==> x.referenceCount == c0[x])
    }

    /** What holds of the callback of r for m once it has performed the first i
        actions of its reaction, from the state at its start (registry reg,
        removal queues q0, message queue queue0, count and pool s0, counts c0). */
    ghost predicate ReactionSoFar(r: ReceiverId, m: Message, reaction: Reaction, i: int, posted: seq<Message>,
                                  reg: Registry<TypeId, ReceiverId>, q0: Requests, queue0: seq<Message>, s0: Held,
                                  c0: map<Message, int>)
      reads this, m, c0.Keys, set x | x in posted
    {
      && 0 <= i <= |reaction|
      && registry == reg && c0.Keys <= Repr
      && messagesQueue == queue0 + posted
      && Types(posted) == ReactionEffect(reg, r, m.typ, reaction[..i]).sent
      && Pending() == Push(q0, ReactionEffect(reg, r, m.typ, reaction[..i]))
      && (m.referenceCount, pool) == ReactionState(reg, m, reaction[..i], s0)
      && |posted| <= SendsIn(reaction[..i])
      && SentCounts(reg, m, posted, c0)
    }

    /** The callback before its first action. */
    lemma ReactionStarts(r: ReceiverId, m: Message, reaction: Reaction, c0: map<Message, int>)
      requires c0 == map x | x in Repr :: x.referenceCount
      ensures ReactionSoFar(r, m, reaction, 0, [], registry, Pending(), messagesQueue, (m.referenceCount, pool), c0)
    {
      assert reaction[..0] == [];
      assert messagesQueue + [] == messagesQueue;
      assert Push(Pending(), NoEffect) == Pending();
    }

    /** The callback after its last action. */
    lemma ReactionEnds(r: ReceiverId, m: Message, reaction: Reaction, posted: seq<Message>,
                       reg: Registry<TypeId, ReceiverId>, q0: Requests, queue0: seq<Message>, s0: Held,
                       c0: map<Message, int>)
      requires ReactionSoFar(r, m, reaction, |reaction|, posted, reg, q0, queue0, s0, c0)
      ensures registry == reg && messagesQueue == queue0 + posted
      ensures Types(posted) == ReactionEffect(reg, r, m.typ, reaction).sent
      ensures Pending() == Push(q0, ReactionEffect(reg, r, m.typ, reaction))
      ensures (m.referenceCount, pool) == ReactionState(reg, m, reaction, s0)
      ensures |posted| <= SendsIn(reaction)
      ensures SentCounts(reg, m, posted, c0)
    {
      assert reaction[..|reaction|] == reaction;
    }

    /** The next action of the reaction extends the callback so far. */
    method PerformNext(r: ReceiverId, m: Message, reaction: Reaction, i: int, ghost posted: seq<Message>,
                       ghost reg: Registry<TypeId, ReceiverId>, ghost q0: Requests, ghost queue0: seq<Message>,
                       ghost s0: Held, ghost c0: map<Message, int>)
      returns (ghost posted': seq<Message>)
      requires Valid() && poolCreated && m in Repr && m.typ in registry && queue0 != [] && i < |reaction|
      requires ReactionSoFar(r, m, reaction, i, posted, reg, q0, queue0, s0, c0)
      modifies this, Repr
      ensures Valid() && poolCreated && fresh(Repr - old(Repr)) && old(Repr) <= Repr
      ensures registryCreated == old(registryCreated)
      ensures ReactionSoFar(r, m, reaction, i + 1, posted', reg, q0, queue0, s0, c0)
    {
      SendsInPrefix(reaction, i);
      assert reaction[..i + 1][..i] == reaction[..i];
      PushThen(q0, ReactionEffect(reg, r, m.typ, reaction[..i]), ActionEffect(reg, r, m.typ, reaction[i]));
      ghost var p := Perform(r, m, reaction[i]);
      TypesAppend(posted, p);
      AppendAssoc(queue0, posted, p);
      posted' := posted + p;
    }

    /** One bus operation made by receiver r from inside its callback for m.
        A send joins the back of the queue with the count taken now; a stop
        joins its removal queue; the pool operations act at once. */
    method Perform(r: ReceiverId, m: Message, a: Action) returns (ghost posted: seq<Message>)
      requires Valid() && messagesQueue != [] && poolCreated && m in Repr && m.typ in registry
      modifies this, Repr
      ensures Valid() && poolCreated
      ensures fresh(Repr - old(Repr)) && old(Repr) <= Repr
      ensures registry == old(registry) && registryCreated == old(registryCreated)
      ensures messagesQueue == old(messagesQueue) + posted
      ensures Types(posted) == ActionEffect(old(registry), r, m.typ, a).sent
      ensures RequestsAppended(ActionEffect(old(registry), r, m.typ, a))
      ensures posted != [] ==> posted[0].typ in registry && posted[0].referenceCount == |registry[posted[0].typ]|
      ensures |posted| <= 1 && forall x :: x in posted ==> x in Repr
      // which message is sent
      ensures a.Resend? ==> posted == [m]
      ensures a.SendPooled? && posted != [] && Bucket(old(pool), a.t) != [] ==> posted == [Bucket(old(pool), a.t)[0]]
      ensures (a.SendFresh? || (a.SendPooled? && Bucket(old(pool), a.t) == [])) && posted != [] ==> fresh(posted[0])
      // what happens to the pool
      ensures (a.SendPooled? || a.Take?) ==>
                pool == if Bucket(old(pool), a.t) == [] then old(pool) else Dequeued(old(pool), a.t)
      ensures a.ClearCache? ==> pool == Cleared(old(pool), a.t)
      ensures a.Recycle? ==> pool == Put(old(pool), m.typ, m)
      ensures a.Done? ==> (m.referenceCount, pool) == RefCounts.DoneStep(old(m.referenceCount), old(pool), m.typ, m)
      ensures !(a.SendPooled? || a.Take? || a.ClearCache? || a.Recycle? || a.Done?) ==> pool == old(pool)
      // in sum: m's count and the pool
      ensures (m.referenceCount, pool) == ActionState(old(registry), m, a, (old(m.referenceCount), old(pool)))
      // no other count changes
      ensures forall x :: x in old(Repr) && x !in posted && !(a.Done? && x == m) ==>
                x.referenceCount == old(x.referenceCount)
    {
      if IsSend(a) || a.Take? {
        posted := PerformSend(r, m, a);
        PushNothing(old(Pending()), ActionEffect(old(registry), r, m.typ, a));
      } else if a.StopOne? || a.StopOneOf? || a.StopAll? || a.StopAllOf? {
        PerformStop(r, m.typ, a);
        posted := [];
      } else {
        PerformPool(m, a);
        posted := [];
        PushNothing(old(Pending()), ActionEffect(old(registry), r, m.typ, a));
      }
    }

    /** The operations of a callback that send a message or take one from the
        pool. A message of an unregistered type is dropped by SendMessage. */
    method PerformSend(r: ReceiverId, m: Message, a: Action) returns (ghost posted: seq<Message>)
      requires Valid() && messagesQueue != [] && poolCreated && m in Repr && m.typ in registry
      requires IsSend(a) || a.Take?
      modifies this`poolCreated, this`pool, this`messagesQueue, this`Repr, Repr
      ensures Valid() && poolCreated
      ensures fresh(Repr - old(Repr)) && old(Repr) <= Repr
      ensures messagesQueue == old(messagesQueue) + posted
      ensures Types(posted) == ActionEffect(registry, r, m.typ, a).sent
      ensures posted != [] ==> posted[0].typ in registry && posted[0].referenceCount == |registry[posted[0].typ]|
      ensures |posted| <= 1 && forall x :: x in posted ==> x in Repr
      ensures a.Resend? ==> posted == [m]
      ensures a.SendPooled? && posted != [] && Bucket(old(pool), a.t) != [] ==> posted == [Bucket(old(pool), a.t)[0]]
      ensures (a.SendFresh? || (a.SendPooled? && Bucket(old(pool), a.t) == [])) && posted != [] ==> fresh(posted[0])
      ensures (a.SendPooled? || a.Take?) ==>
                pool == if Bucket(old(pool), a.t) == [] then old(pool) else Dequeued(old(pool), a.t)
      ensures a.SendFresh? || a.Resend? ==> pool == old(pool)
      ensures forall x :: x in old(Repr) && x !in posted ==> x.referenceCount == old(x.referenceCount)
    {
      posted := [];
      assert messagesQueue[0].typ in registry;
      match a
      case SendPooled(t) =>
        var x := GetMessage(t);
        if x.typ in registry {
          EnqueueMessage(x);
          assert !SendStartsBatch();
          posted := [x];
        }
      case SendFresh(t) =>
        var x := new Message(t);
        if x.typ in registry {
          EnqueueMessage(x);
          assert !SendStartsBatch();
          posted := [x];
        }
      case Resend =>
        if m.typ in registry {
          EnqueueMessage(m);
          assert !SendStartsBatch();
          posted := [m];
        }
      case Take(t) =>
        var _ := GetMessage(t);
    }

    /** The operations of a callback that ask for an unsubscription: each joins
        its removal queue, behind the message being delivered, so none of them
        starts a batch. */
    method PerformStop(r: ReceiverId, mt: TypeId, a: Action)
      requires Valid() && messagesQueue != [] && mt in registry
      requires a.StopOne? || a.StopOneOf? || a.StopAll? || a.StopAllOf?
      modifies this`messagesToRemove, this`receiversToRemove, this`receiversToCleanup
      ensures Valid()
      ensures RequestsAppended(ActionEffect(registry, r, mt, a))
    {
      assert registryCreated;
      match a
      case StopOne(t) =>
        if t in registry {
          EnqueueRemoval(t, r);
          assert !RemovalStartsBatch();
        }
      case StopOneOf(t, x) =>
        if t in registry {
          EnqueueRemoval(t, x);
          assert !RemovalStartsBatch();
        }
      case StopAll =>
        EnqueueCleanup(r);
        assert !CleanupStartsBatch();
      case StopAllOf(x) =>
        EnqueueCleanup(x);
        assert !CleanupStartsBatch();
    }

    /** The operations of a callback on the pool and on the message in hand. */
    method PerformPool(m: Message, a: Action)
      requires Valid() && poolCreated && m in Repr
      requires a.ClearCache? || a.Recycle? || a.Done?
      modifies this`pool, this`Repr, m
      ensures Valid() && Repr == old(Repr)
      ensures a.ClearCache? ==> pool == Cleared(old(pool), a.t)
      ensures a.Recycle? ==> pool == Put(old(pool), m.typ, m)
      ensures a.Done? ==> (m.referenceCount, pool) == RefCounts.DoneStep(old(m.referenceCount), old(pool), m.typ, m)
      ensures !a.Done? ==> m.referenceCount == old(m.referenceCount)
    {
      match a
      case ClearCache(t) =>
        ClearMessageCache(t);
      case Recycle =>
        RecycleMessage(m);
      case Done =>
        m.OnDoneUsing(this);
    }

    /** The second and third loops of HandleMessages, which only touch the
        registry and the removal queues. */
    method ApplyQueuedUnsubscriptions()
      requires Valid()
      modifies this`registry, this`messagesToRemove, this`receiversToRemove, this`receiversToCleanup
      ensures Valid() && messagesToRemove == [] && receiversToRemove == [] && receiversToCleanup == []
      ensures registry == Drain(old(registry), old(Pending()))
    {
      ApplyQueuedRemovals();
      ApplyQueuedCleanups();
    }

    /** The second loop of HandleMessages: the single-type removals, in arrival order. */
    method ApplyQueuedRemovals()
      requires Valid()
      modifies this`registry, this`messagesToRemove, this`receiversToRemove
      ensures Valid() && messagesToRemove == [] && receiversToRemove == []
      ensures registry == ApplyRemovals(old(registry), old(messagesToRemove), old(receiversToRemove))
    {
      ghost var ts, rs := messagesToRemove, receiversToRemove;
      ghost var k := 0;
      while receiversToRemove != []
        invariant Valid()
        invariant 0 <= k <= |ts| && messagesToRemove == ts[k..] && receiversToRemove == rs[k..]
        invariant registry == ApplyRemovals(old(registry), ts[..k], rs[..k])
        decreases |receiversToRemove|
      {
        RemoveQueuedHead();
        ApplyRemovalsSnoc(old(registry), ts, rs, k);
        k := k + 1;
      }
      assert ts[..k] == ts && rs[..k] == rs;
    }

    /** One round of the second loop: peek the receiver, dequeue the type, take
        the receiver out of that type's set, then dequeue the receiver. */
    method RemoveQueuedHead()
      requires Valid() && receiversToRemove != []
      modifies this`registry, this`messagesToRemove, this`receiversToRemove
      ensures Valid()
      ensures registry == Unsubscribed(old(registry), old(messagesToRemove[0]), old(receiversToRemove[0]))
      ensures messagesToRemove == old(messagesToRemove[1..]) && receiversToRemove == old(receiversToRemove[1..])
    {
      var receiver := receiversToRemove[0];
      var messageType := messagesToRemove[0];
      messagesToRemove := messagesToRemove[1..];
      registry := registry[messageType := registry[messageType] - {receiver}];
      receiversToRemove := receiversToRemove[1..];
    }

    /** The third loop of HandleMessages: the remove-everywhere requests, in arrival order. */
    method ApplyQueuedCleanups()
      requires Valid()
      modifies this`registry, this`receiversToCleanup
      ensures Valid() && receiversToCleanup == []
      ensures registry == ApplyCleanups(old(registry), old(receiversToCleanup))
    {
      ghost var cs := receiversToCleanup;
      ghost var k := 0;
      while receiversToCleanup != []
        invariant Valid()
        invariant 0 <= k <= |cs| && receiversToCleanup == cs[k..]
        invariant registry == ApplyCleanups(old(registry), cs[..k])
        decreases |receiversToCleanup|
      {
        var receiver := receiversToCleanup[0];
        RemoveFromEverySet(receiver);
        receiversToCleanup := receiversToCleanup[1..];
        assert cs[..k + 1][..k] == cs[..k];
        k := k + 1;
      }
      assert cs[..k] == cs;
    }

    /** The inner loop over every set of the registry, removing r where present. */
    method RemoveFromEverySet(r: ReceiverId)
      requires Valid()
      modifies this`registry
      ensures Valid()
      ensures registry == RemovedEverywhere(old(registry), r)
    {
      var types := registry.Keys;
      while types != {}
        invariant types <= registry.Keys && registry.Keys == old(registry).Keys
        invariant forall u :: u in registry ==>
                    registry[u] == if u in types then old(registry)[u] else old(registry)[u] - {r}
        invariant Valid()
        decreases types
      {
        var u :| u in types;
        if r in registry[u] {
          registry := registry[u := registry[u] - {r}];
        }
        types := types - {u};
      }
      assert registry == RemovedEverywhere(old(registry), r);
    }

    /** GetMessage<T>(): the oldest idle message of type t, or a new one when the
        bucket is absent or empty. Creates the pool dictionary on first use. */
    method GetMessage(t: TypeId) returns (m: Message)
      requires Valid()
      modifies this`poolCreated, this`pool
      ensures Valid() && poolCreated
      ensures m.typ == t
      ensures Bucket(old(pool), t) == [] ==> fresh(m) && m.referenceCount == 0 && pool == old(pool)
      ensures Bucket(old(pool), t) != [] ==> m == Bucket(old(pool), t)[0] && m in Repr && pool == Dequeued(old(pool), t)
    {
      poolCreated := true;
      if t !in pool || |pool[t]| == 0 {
        m := new Message(t);
        return;
      }
      m := pool[t][0];
      assert m == Bucket(pool, t)[0];
      pool := pool[t := pool[t][1..]];
      assert pool == Dequeued(old(pool), t);
    }

    /** RecycleMessage(message): appends it to the bucket of its runtime type. */
    method RecycleMessage(m: Message)
      requires Valid() && poolCreated
      modifies this`pool, this`Repr
      ensures Valid()
      ensures pool == Put(old(pool), m.typ, m)
      ensures Repr == old(Repr) + {m}
    {
      if m.typ !in pool {
        pool := pool[m.typ := []];
      }
      pool := pool[m.typ := pool[m.typ] + [m]];
      Repr := Repr + {m};
      assert pool == Put(old(pool), m.typ, m);
    }

    /** ClearMessageCache<T>(): empties the bucket of t, if it exists. */
    method ClearMessageCache(t: TypeId)
      requires Valid() && poolCreated
      modifies this`pool
      ensures Valid()
      ensures pool == Cleared(old(pool), t)
    {
      if t in pool {
        pool := pool[t := []];
      }
      assert pool == Cleared(old(pool), t);
    }
  }
}
