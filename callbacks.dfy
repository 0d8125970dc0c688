/** What the callbacks of one batch ask the bus to do, as values.
    A batch runs one callback per (message, receiver) pair; the log of a batch
    records, for each callback in call order, the receiver, the type of the
    message it was handed and the reaction it performed. Every request a callback
    makes only appends to one of the bus's queues, so the whole effect of a batch
    on those queues is a function of its log and of the registry at its start. */
module Callbacks {
  import opened Scripts
  import opened Registry

  /** One MessageReceived call. */
  datatype Call = Call(receiver: ReceiverId, msgType: TypeId, reaction: Reaction)

  /** What a run of callbacks appends to the four queues: the types of the
      messages it sends, the single-type removals (type and receiver) and the
      stop-all requests. */
  datatype Effect = Effect(sent: seq<TypeId>, stopTypes: seq<TypeId>, stopReceivers: seq<ReceiverId>,
                           cleanups: seq<ReceiverId>)

  const NoEffect := Effect([], [], [], [])

  /** e1 followed by e2. */
  function Then(e1: Effect, e2: Effect): Effect
  {
    Effect(e1.sent + e2.sent, e1.stopTypes + e2.stopTypes, e1.stopReceivers + e2.stopReceivers,
           e1.cleanups + e2.cleanups)
  }

  /** The bus's three removal queues: single-type removals as type and
      receiver, and stop-all requests. */
  datatype Requests = Requests(types: seq<TypeId>, receivers: seq<ReceiverId>, cleanups: seq<ReceiverId>)

  /** The queues q once the requests of e have joined them at the back. */
  function Push(q: Requests, e: Effect): (q': Requests)
    ensures q.types <= q'.types && q.receivers <= q'.receivers && q.cleanups <= q'.cleanups
  {
    Requests(q.types + e.stopTypes, q.receivers + e.stopReceivers, q.cleanups + e.cleanups)
  }

  /** Pushing two effects one after the other is pushing the two in turn. */
  lemma PushThen(q: Requests, e1: Effect, e2: Effect)
    ensures Push(Push(q, e1), e2) == Push(q, Then(e1, e2))
  {
    assert (q.types + e1.stopTypes) + e2.stopTypes == q.types + (e1.stopTypes + e2.stopTypes);
    assert (q.receivers + e1.stopReceivers) + e2.stopReceivers == q.receivers + (e1.stopReceivers + e2.stopReceivers);
    assert (q.cleanups + e1.cleanups) + e2.cleanups == q.cleanups + (e1.cleanups + e2.cleanups);
  }

  /** An effect without removal requests leaves the queues as they are. */
  lemma PushNothing(q: Requests, e: Effect)
    requires e.stopTypes == [] && e.stopReceivers == [] && e.cleanups == []
    ensures Push(q, e) == q
  {
    assert q.types + [] == q.types && q.receivers + [] == q.receivers && q.cleanups + [] == q.cleanups;
  }

  /** The removal queues stay paired and name registered types only. */
  ghost predicate WellFormed(reg: Registry<TypeId, ReceiverId>, e: Effect)
  {
    |e.stopTypes| == |e.stopReceivers| && AllRegistered(reg, e.stopTypes)
  }

  /** The effect of one action by receiver r, handed a message of type mt, while
      the registry is reg. A send to a type without an entry and a stop for such a
      type queue nothing; a send of the message in hand always queues it, since
      its type is registered. */
  function ActionEffect(reg: Registry<TypeId, ReceiverId>, r: ReceiverId, mt: TypeId, a: Action): (e: Effect)
    ensures WellFormed(reg, e)
    ensures |e.sent| <= (if IsSend(a) then 1 else 0)
    ensures e.stopTypes == [] <==> !((a.StopOne? || a.StopOneOf?) && a.t in reg)
    ensures e.cleanups == [] <==> !(a.StopAll? || a.StopAllOf?)
  {
    match a
    case SendPooled(t) => Effect(if t in reg then [t] else [], [], [], [])
    case SendFresh(t) => Effect(if t in reg then [t] else [], [], [], [])
    case Resend => Effect(if mt in reg then [mt] else [], [], [], [])
    case StopOne(t) => if t in reg then Effect([], [t], [r], []) else NoEffect
    case StopOneOf(t, x) => if t in reg then Effect([], [t], [x], []) else NoEffect
    case StopAll => Effect([], [], [], [r])
    case StopAllOf(x) => Effect([], [], [], [x])
    case _ => NoEffect
  }

  /** The effect of a whole reaction, its actions in order. */
  function ReactionEffect(reg: Registry<TypeId, ReceiverId>, r: ReceiverId, mt: TypeId, rx: Reaction): (e: Effect)
    ensures WellFormed(reg, e)
    decreases |rx|
  {
    if rx == [] then NoEffect
    else Then(ReactionEffect(reg, r, mt, rx[..|rx| - 1]), ActionEffect(reg, r, mt, rx[|rx| - 1]))
  }

  /** The effect of a log of callbacks, in call order. */
  function LogEffect(reg: Registry<TypeId, ReceiverId>, calls: seq<Call>): (e: Effect)
    ensures WellFormed(reg, e)
    decreases |calls|
  {
    if calls == [] then NoEffect
    else
      var c := calls[|calls| - 1];
      Then(LogEffect(reg, calls[..|calls| - 1]), ReactionEffect(reg, c.receiver, c.msgType, c.reaction))
  }

  /** Effects compose associatively. */
  lemma ThenAssoc(e1: Effect, e2: Effect, e3: Effect)
    ensures Then(Then(e1, e2), e3) == Then(e1, Then(e2, e3))
  {
    assert (e1.sent + e2.sent) + e3.sent == e1.sent + (e2.sent + e3.sent);
    assert (e1.stopTypes + e2.stopTypes) + e3.stopTypes == e1.stopTypes + (e2.stopTypes + e3.stopTypes);
    assert (e1.stopReceivers + e2.stopReceivers) + e3.stopReceivers
        == e1.stopReceivers + (e2.stopReceivers + e3.stopReceivers);
    assert (e1.cleanups + e2.cleanups) + e3.cleanups == e1.cleanups + (e2.cleanups + e3.cleanups);
  }

  /** The effect of two runs of callbacks, one after the other, is the first
      effect followed by the second. */
  lemma {:induction false} LogEffectAppend(reg: Registry<TypeId, ReceiverId>, a: seq<Call>, b: seq<Call>)
    ensures LogEffect(reg, a + b) == Then(LogEffect(reg, a), LogEffect(reg, b))
    decreases |b|
  {
    if b == [] {
      assert a + b == a;
    } else {
      var n := |b| - 1;
      var c := b[n];
      var rc := ReactionEffect(reg, c.receiver, c.msgType, c.reaction);
      LogEffectAppend(reg, a, b[..n]);
      assert (a + b)[..|a + b| - 1] == a + b[..n];
      assert (a + b)[|a + b| - 1] == c;
      calc {
        LogEffect(reg, a + b);
        Then(LogEffect(reg, a + b[..n]), rc);
        Then(Then(LogEffect(reg, a), LogEffect(reg, b[..n])), rc);
        { ThenAssoc(LogEffect(reg, a), LogEffect(reg, b[..n]), rc); }
        Then(LogEffect(reg, a), Then(LogEffect(reg, b[..n]), rc));
        Then(LogEffect(reg, a), LogEffect(reg, b));
      }
    }
  }

  /** Who was called with which type of message, in call order. */
  function Callers(calls: seq<Call>): (cs: seq<(ReceiverId, TypeId)>)
    ensures |cs| == |calls|
  {
    seq(|calls|, i requires 0 <= i < |calls| => (calls[i].receiver, calls[i].msgType))
  }

  /** Each receiver of rs, in order, paired with the message type t. */
  function Pairs(rs: seq<ReceiverId>, t: TypeId): (ps: seq<(ReceiverId, TypeId)>)
    ensures |ps| == |rs|
  {
    seq(|rs|, i requires 0 <= i < |rs| => (rs[i], t))
  }

  /** One more receiver paired with t. */
  lemma PairsSnoc(rs: seq<ReceiverId>, r: ReceiverId, t: TypeId)
    ensures Pairs(rs + [r], t) == Pairs(rs, t) + [(r, t)]
  {
  }

  /** The i-th callback of the log performed the i-th reaction the script hands out. */
  ghost predicate Follows(calls: seq<Call>, s: Script)
  {
    forall i {:trigger Skip(s, i)} :: 0 <= i < |calls| ==> calls[i].reaction == NextReaction(Skip(s, i))
  }

  /** A log that follows the script, then one that follows what is left of it,
      together follow the script. */
  lemma FollowsAppend(s: Script, a: seq<Call>, b: seq<Call>)
    requires Follows(a, s) && Follows(b, Skip(s, |a|))
    ensures Follows(a + b, s)
  {
    forall i | 0 <= i < |a + b| ensures (a + b)[i].reaction == NextReaction(Skip(s, i)) {
      if i < |a| {
        assert (a + b)[i] == a[i];
      } else {
        assert (a + b)[i] == b[i - |a|];
        SkipAdd(s, |a|, i - |a|);
      }
    }
  }

  /** One more callback, running the next reaction the script hands out: the
      log still follows the script and its effect grows by that reaction's. */
  lemma CallGrows(reg: Registry<TypeId, ReceiverId>, s: Script, calls: seq<Call>, c: Call)
    requires Follows(calls, s) && c.reaction == NextReaction(Skip(s, |calls|))
    ensures Follows(calls + [c], s) && AfterNext(Skip(s, |calls|)) == Skip(s, |calls + [c]|)
    ensures Callers(calls + [c]) == Callers(calls) + [(c.receiver, c.msgType)]
    ensures LogEffect(reg, calls + [c]) ==
              Then(LogEffect(reg, calls), ReactionEffect(reg, c.receiver, c.msgType, c.reaction))
  {
    SkipNext(s, |calls|);
    assert (calls + [c])[..|calls|] == calls;
  }

  /** Two logs run one after the other, the second on what the first left of
      the script: the joined log follows the script, leaves what the second
      left, and its callers and effect are those of the two in turn. */
  lemma LogGrows(reg: Registry<TypeId, ReceiverId>, s: Script, a: seq<Call>, b: seq<Call>)
    requires Follows(a, s) && Follows(b, Skip(s, |a|))
    ensures Follows(a + b, s)
    ensures Skip(Skip(s, |a|), |b|) == Skip(s, |a + b|)
    ensures Callers(a + b) == Callers(a) + Callers(b)
    ensures LogEffect(reg, a + b) == Then(LogEffect(reg, a), LogEffect(reg, b))
  {
    FollowsAppend(s, a, b);
    SkipAdd(s, |a|, |b|);
    CallersAppend(a, b);
    LogEffectAppend(reg, a, b);
  }

  /** The callers of two logs, one after the other. */
  lemma CallersAppend(a: seq<Call>, b: seq<Call>)
    ensures Callers(a + b) == Callers(a) + Callers(b)
  {
    forall i | 0 <= i < |a + b| ensures Callers(a + b)[i] == (Callers(a) + Callers(b))[i] {
      if i < |a| {
        assert (a + b)[i] == a[i];
      } else {
        assert (a + b)[i] == b[i - |a|];
      }
    }
  }

  /** The registry once the removal queues q have been applied: the
      single-type removals in arrival order, then the stop-all requests. */
  function Drain(reg: Registry<TypeId, ReceiverId>, q: Requests): (reg': Registry<TypeId, ReceiverId>)
    requires |q.types| == |q.receivers| && AllRegistered(reg, q.types)
    ensures reg'.Keys == reg.Keys
  {
    ApplyCleanups(ApplyRemovals(reg, q.types, q.receivers), q.cleanups)
  }

  /** The registry a batch leaves behind: the removals already queued (ts0, rs0)
      and those the callbacks queued are applied in arrival order, then the
      stop-all requests already queued (cs0) and those of the callbacks. */
  function BatchRegistry(reg: Registry<TypeId, ReceiverId>, ts0: seq<TypeId>, rs0: seq<ReceiverId>,
                         cs0: seq<ReceiverId>, e: Effect): (reg': Registry<TypeId, ReceiverId>)
    requires |ts0| == |rs0| && AllRegistered(reg, ts0) && WellFormed(reg, e)
    ensures reg'.Keys == reg.Keys
  {
    Drain(reg, Push(Requests(ts0, rs0, cs0), e))
  }

  /** Receiver x asked, from inside some callback of the log, to stop receiving
      everything: its own callback did StopAll, or any callback did StopAllOf(x). */
  ghost predicate AskedToStopAll(calls: seq<Call>, x: ReceiverId)
  {
    exists i, j :: 0 <= i < |calls| && 0 <= j < |calls[i].reaction| &&
      ((calls[i].reaction[j] == StopAll && calls[i].receiver == x) || calls[i].reaction[j] == StopAllOf(x))
  }

  /** A stop-all request made by a reaction is among the reaction's cleanups. */
  lemma {:induction false} ReactionQueuesStopAll(reg: Registry<TypeId, ReceiverId>, r: ReceiverId, mt: TypeId,
                                               rx: Reaction, j: nat, x: ReceiverId)
    requires j < |rx| && ((rx[j] == StopAll && r == x) || rx[j] == StopAllOf(x))
    ensures x in ReactionEffect(reg, r, mt, rx).cleanups
    decreases |rx|
  {
    var n := |rx| - 1;
    if j < n {
      ReactionQueuesStopAll(reg, r, mt, rx[..n], j, x);
    }
  }

  /** Every cleanup of a reaction comes from a stop-all request in it. */
  lemma {:induction false} ReactionCleanupAsked(reg: Registry<TypeId, ReceiverId>, r: ReceiverId, mt: TypeId,
                                              rx: Reaction, x: ReceiverId)
    requires x in ReactionEffect(reg, r, mt, rx).cleanups
    ensures exists j :: 0 <= j < |rx| && ((rx[j] == StopAll && r == x) || rx[j] == StopAllOf(x))
    decreases |rx|
  {
    var n := |rx| - 1;
    if x in ReactionEffect(reg, r, mt, rx[..n]).cleanups {
      ReactionCleanupAsked(reg, r, mt, rx[..n], x);
      var j :| 0 <= j < n && ((rx[..n][j] == StopAll && r == x) || rx[..n][j] == StopAllOf(x));
      assert rx[j] == rx[..n][j];
    } else {
      assert (rx[n] == StopAll && r == x) || rx[n] == StopAllOf(x);
    }
  }

  /** A stop-all request made by any callback of the log is among the log's cleanups. */
  lemma {:induction false} LogQueuesStopAll(reg: Registry<TypeId, ReceiverId>, calls: seq<Call>, x: ReceiverId)
    requires AskedToStopAll(calls, x)
    ensures x in LogEffect(reg, calls).cleanups
    decreases |calls|
  {
    var i, j :| 0 <= i < |calls| && 0 <= j < |calls[i].reaction| &&
      ((calls[i].reaction[j] == StopAll && calls[i].receiver == x) || calls[i].reaction[j] == StopAllOf(x));
    var n := |calls| - 1;
    if i < n {
      assert calls[..n][i] == calls[i];
      LogQueuesStopAll(reg, calls[..n], x);
    } else {
      ReactionQueuesStopAll(reg, calls[n].receiver, calls[n].msgType, calls[n].reaction, j, x);
    }
  }

  /** Every cleanup of the log comes from a stop-all request of one of its callbacks. */
  lemma {:induction false} LogCleanupAsked(reg: Registry<TypeId, ReceiverId>, calls: seq<Call>, x: ReceiverId)
    requires x in LogEffect(reg, calls).cleanups
    ensures AskedToStopAll(calls, x)
    decreases |calls|
  {
    var n := |calls| - 1;
    var c := calls[n];
    if x in LogEffect(reg, calls[..n]).cleanups {
      LogCleanupAsked(reg, calls[..n], x);
      var i, j :| 0 <= i < n && 0 <= j < |calls[..n][i].reaction| &&
        ((calls[..n][i].reaction[j] == StopAll && calls[..n][i].receiver == x) || calls[..n][i].reaction[j] == StopAllOf(x));
      assert calls[..n][i] == calls[i];
    } else {
      ReactionCleanupAsked(reg, c.receiver, c.msgType, c.reaction, x);
      var j :| 0 <= j < |c.reaction| && ((c.reaction[j] == StopAll && c.receiver == x) || c.reaction[j] == StopAllOf(x));
      assert calls[n].reaction[j] == c.reaction[j];
    }
  }

  /** Receiver x asked, from inside some callback of the log, to stop receiving t. */
  ghost predicate AskedToStop(calls: seq<Call>, t: TypeId, x: ReceiverId)
  {
    exists i, j :: 0 <= i < |calls| && 0 <= j < |calls[i].reaction| &&
      ((calls[i].reaction[j] == StopOne(t) && calls[i].receiver == x) || calls[i].reaction[j] == StopOneOf(t, x))
  }

  /** A removal is queued by two runs together exactly when one of them queued it. */
  lemma QueuedThen(e1: Effect, e2: Effect, t: TypeId, x: ReceiverId)
    requires |e1.stopTypes| == |e1.stopReceivers| && |e2.stopTypes| == |e2.stopReceivers|
    ensures Queued(Then(e1, e2).stopTypes, Then(e1, e2).stopReceivers, t, x) <==>
              Queued(e1.stopTypes, e1.stopReceivers, t, x) || Queued(e2.stopTypes, e2.stopReceivers, t, x)
  {
    var e := Then(e1, e2);
    if Queued(e1.stopTypes, e1.stopReceivers, t, x) {
      var k :| 0 <= k < |e1.stopTypes| && e1.stopTypes[k] == t && e1.stopReceivers[k] == x;
      assert e.stopTypes[k] == t && e.stopReceivers[k] == x;
    }
    if Queued(e2.stopTypes, e2.stopReceivers, t, x) {
      var k :| 0 <= k < |e2.stopTypes| && e2.stopTypes[k] == t && e2.stopReceivers[k] == x;
      assert e.stopTypes[|e1.stopTypes| + k] == t && e.stopReceivers[|e1.stopTypes| + k] == x;
    }
    if Queued(e.stopTypes, e.stopReceivers, t, x) {
      var k :| 0 <= k < |e.stopTypes| && e.stopTypes[k] == t && e.stopReceivers[k] == x;
      if k < |e1.stopTypes| {
        assert e1.stopTypes[k] == t && e1.stopReceivers[k] == x;
      } else {
        var k2 := k - |e1.stopTypes|;
        assert e2.stopTypes[k2] == t && e2.stopReceivers[k2] == x;
      }
    }
  }

  /** A single-type stop request for a registered type made by a reaction is among
      the reaction's queued removals. */
  lemma {:induction false} ReactionQueuesStop(reg: Registry<TypeId, ReceiverId>, r: ReceiverId, mt: TypeId,
                                            rx: Reaction, j: nat, t: TypeId, x: ReceiverId)
    requires j < |rx| && t in reg && ((rx[j] == StopOne(t) && r == x) || rx[j] == StopOneOf(t, x))
    ensures Queued(ReactionEffect(reg, r, mt, rx).stopTypes, ReactionEffect(reg, r, mt, rx).stopReceivers, t, x)
    decreases |rx|
  {
    var n := |rx| - 1;
    var ea := ActionEffect(reg, r, mt, rx[n]);
    if j < n {
      ReactionQueuesStop(reg, r, mt, rx[..n], j, t, x);
    } else {
      assert ea.stopTypes[0] == t && ea.stopReceivers[0] == x;
    }
    QueuedThen(ReactionEffect(reg, r, mt, rx[..n]), ea, t, x);
  }

  /** Every removal a reaction queues comes from a single-type stop request in it. */
  lemma {:induction false} ReactionStopAsked(reg: Registry<TypeId, ReceiverId>, r: ReceiverId, mt: TypeId,
                                           rx: Reaction, t: TypeId, x: ReceiverId)
    requires Queued(ReactionEffect(reg, r, mt, rx).stopTypes, ReactionEffect(reg, r, mt, rx).stopReceivers, t, x)
    ensures exists j :: 0 <= j < |rx| && ((rx[j] == StopOne(t) && r == x) || rx[j] == StopOneOf(t, x))
    decreases |rx|
  {
    var n := |rx| - 1;
    var e0 := ReactionEffect(reg, r, mt, rx[..n]);
    var ea := ActionEffect(reg, r, mt, rx[n]);
    QueuedThen(e0, ea, t, x);
    if Queued(e0.stopTypes, e0.stopReceivers, t, x) {
      ReactionStopAsked(reg, r, mt, rx[..n], t, x);
      var j :| 0 <= j < n && ((rx[..n][j] == StopOne(t) && r == x) || rx[..n][j] == StopOneOf(t, x));
      assert rx[j] == rx[..n][j];
    } else {
      var k :| 0 <= k < |ea.stopTypes| && ea.stopTypes[k] == t && ea.stopReceivers[k] == x;
      assert (rx[n] == StopOne(t) && r == x) || rx[n] == StopOneOf(t, x);
    }
  }

  /** A single-type stop request for a registered type made by any callback of the
      log is among the log's queued removals. */
  lemma {:induction false} LogQueuesStop(reg: Registry<TypeId, ReceiverId>, calls: seq<Call>, t: TypeId, x: ReceiverId)
    requires AskedToStop(calls, t, x) && t in reg
    ensures Queued(LogEffect(reg, calls).stopTypes, LogEffect(reg, calls).stopReceivers, t, x)
    decreases |calls|
  {
    var i, j :| 0 <= i < |calls| && 0 <= j < |calls[i].reaction| &&
      ((calls[i].reaction[j] == StopOne(t) && calls[i].receiver == x) || calls[i].reaction[j] == StopOneOf(t, x));
    var n := |calls| - 1;
    var c := calls[n];
    if i < n {
      assert calls[..n][i] == calls[i];
      LogQueuesStop(reg, calls[..n], t, x);
    } else {
      ReactionQueuesStop(reg, c.receiver, c.msgType, c.reaction, j, t, x);
    }
    QueuedThen(LogEffect(reg, calls[..n]), ReactionEffect(reg, c.receiver, c.msgType, c.reaction), t, x);
  }

  /** Every removal the log queues comes from a single-type stop request of one
      of its callbacks. */
  lemma {:induction false} LogStopAsked(reg: Registry<TypeId, ReceiverId>, calls: seq<Call>, t: TypeId, x: ReceiverId)
    requires Queued(LogEffect(reg, calls).stopTypes, LogEffect(reg, calls).stopReceivers, t, x)
    ensures AskedToStop(calls, t, x)
    decreases |calls|
  {
    var n := |calls| - 1;
    var c := calls[n];
    var e0 := LogEffect(reg, calls[..n]);
    QueuedThen(e0, ReactionEffect(reg, c.receiver, c.msgType, c.reaction), t, x);
    if Queued(e0.stopTypes, e0.stopReceivers, t, x) {
      LogStopAsked(reg, calls[..n], t, x);
      var i, j :| 0 <= i < n && 0 <= j < |calls[..n][i].reaction| &&
        ((calls[..n][i].reaction[j] == StopOne(t) && calls[..n][i].receiver == x) ||
          calls[..n][i].reaction[j] == StopOneOf(t, x));
      assert calls[..n][i] == calls[i];
    } else {
      ReactionStopAsked(reg, c.receiver, c.msgType, c.reaction, t, x);
      var j :| 0 <= j < |c.reaction| &&
        ((c.reaction[j] == StopOne(t) && c.receiver == x) || c.reaction[j] == StopOneOf(t, x));
      assert calls[n].reaction[j] == c.reaction[j];
    }
  }

  /** The log queues the removal of x from a registered type t exactly when one
      of its callbacks asked for it. */
  lemma StopRequests(reg: Registry<TypeId, ReceiverId>, calls: seq<Call>, t: TypeId, x: ReceiverId)
    requires t in reg
    ensures Queued(LogEffect(reg, calls).stopTypes, LogEffect(reg, calls).stopReceivers, t, x) <==>
              AskedToStop(calls, t, x)
  {
    if AskedToStop(calls, t, x) {
      LogQueuesStop(reg, calls, t, x);
    }
    if Queued(LogEffect(reg, calls).stopTypes, LogEffect(reg, calls).stopReceivers, t, x) {
      LogStopAsked(reg, calls, t, x);
    }
  }

  /** The log queues a cleanup of x exactly when one of its callbacks asked for it. */
  lemma CleanupRequests(reg: Registry<TypeId, ReceiverId>, calls: seq<Call>, x: ReceiverId)
    ensures x in LogEffect(reg, calls).cleanups <==> AskedToStopAll(calls, x)
  {
    if AskedToStopAll(calls, x) {
      LogQueuesStopAll(reg, calls, x);
    }
    if x in LogEffect(reg, calls).cleanups {
      LogCleanupAsked(reg, calls, x);
    }
  }

  /** The registry a batch started with empty removal queues leaves behind: x
      is subscribed to a registered type t exactly when it was subscribed when
      the batch began, asked from no callback to stop receiving t, and asked
      from none to stop receiving everything. */
  lemma BatchMembership(reg: Registry<TypeId, ReceiverId>, calls: seq<Call>, t: TypeId, x: ReceiverId)
    requires t in reg
    ensures x in BatchRegistry(reg, [], [], [], LogEffect(reg, calls))[t] <==>
              x in reg[t] && !AskedToStop(calls, t, x) && !AskedToStopAll(calls, x)
  {
    var e := LogEffect(reg, calls);
    var q := Push(Requests([], [], []), e);
    assert q == Requests(e.stopTypes, e.stopReceivers, e.cleanups);
    StopRequests(reg, calls, t, x);
    CleanupRequests(reg, calls, x);
    BatchMembers(reg, q.types, q.receivers, q.cleanups, t, x);
  }

  /** From registry `before` to registry `after`, the stop requests of the log are
      honoured and nothing else changes: the same types are registered, and
      x is subscribed to t afterwards exactly when it was before and asked
      from no callback to stop receiving t or everything. */
  ghost predicate StopsHonoured(before: Registry<TypeId, ReceiverId>, after: Registry<TypeId, ReceiverId>,
                                calls: seq<Call>)
  {
    && after.Keys == before.Keys
    && forall t, x :: t in after ==>
         (x in after[t] <==> x in before[t] && !AskedToStop(calls, t, x) && !AskedToStopAll(calls, x))
  }

  /** BatchMembership for every registered type and every receiver at once. */
  lemma BatchMemberships(reg: Registry<TypeId, ReceiverId>, calls: seq<Call>)
    ensures StopsHonoured(reg, BatchRegistry(reg, [], [], [], LogEffect(reg, calls)), calls)
  {
    forall t, x | t in reg
      ensures x in BatchRegistry(reg, [], [], [], LogEffect(reg, calls))[t] <==>
                x in reg[t] && !AskedToStop(calls, t, x) && !AskedToStopAll(calls, x)
    {
      BatchMembership(reg, calls, t, x);
    }
  }
}
