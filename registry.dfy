/** The subscription registry of the bus as a value: a dictionary from a message
    type to the set of receivers subscribed to it. An entry, once created, is
    never removed; removing a receiver only shrinks the entry's set. */
module Registry {

  type Registry<T, R> = map<T, set<R>>

  /** The receivers of type t; a type without an entry has none. */
  function Members<T(!new), R>(reg: Registry<T, R>, t: T): set<R>
  {
    if t in reg then reg[t] else {}
  }

  /** The listener count the bus reports: -1 for a type without an entry,
      otherwise the size of its set (possibly 0). */
  function Count<T(!new), R>(reg: Registry<T, R>, t: T): (n: int)
    ensures n == -1 <==> t !in reg
    ensures n >= 0 ==> n == |reg[t]|
  {
    if t in reg then |reg[t]| else -1
  }

  /** Subscribing r to t: the entry of t is created lazily and gains r. */
  function Subscribed<T(!new), R>(reg: Registry<T, R>, t: T, r: R): (reg': Registry<T, R>)
    ensures reg'.Keys == reg.Keys + {t}
    ensures reg'[t] == Members(reg, t) + {r}
    ensures forall u :: u in reg && u != t ==> reg'[u] == reg[u]
  {
    reg[t := Members(reg, t) + {r}]
  }

  /** Removing r from the set of t, whose entry exists. */
  function Unsubscribed<T(!new), R>(reg: Registry<T, R>, t: T, r: R): (reg': Registry<T, R>)
    requires t in reg
    ensures reg'.Keys == reg.Keys
    ensures reg'[t] == reg[t] - {r}
    ensures forall u :: u in reg && u != t ==> reg'[u] == reg[u]
  {
    reg[t := reg[t] - {r}]
  }

  /** Removing r from the set of every type, keeping every entry. */
  function RemovedEverywhere<T(!new), R>(reg: Registry<T, R>, r: R): (reg': Registry<T, R>)
    ensures reg'.Keys == reg.Keys
    ensures forall u :: u in reg ==> reg'[u] == reg[u] - {r}
  {
    map u | u in reg :: reg[u] - {r}
  }

  /** Every type of ts has an entry in reg. */
  ghost predicate AllRegistered<T(!new), R>(reg: Registry<T, R>, ts: seq<T>)
  {
    forall i :: 0 <= i < |ts| ==> ts[i] in reg
  }

  /** Applying the queued single-type removals (ts[i], rs[i]) in arrival order. */
  function ApplyRemovals<T(!new), R>(reg: Registry<T, R>, ts: seq<T>, rs: seq<R>): (reg': Registry<T, R>)
    requires |ts| == |rs| && AllRegistered(reg, ts)
    ensures reg'.Keys == reg.Keys
    decreases |ts|
  {
    if ts == [] then reg
    else
      var n := |ts| - 1;
      Unsubscribed(ApplyRemovals(reg, ts[..n], rs[..n]), ts[n], rs[n])
  }

  /** Applying the queued remove-everywhere requests rs in arrival order. */
  function ApplyCleanups<T(!new), R>(reg: Registry<T, R>, rs: seq<R>): (reg': Registry<T, R>)
    ensures reg'.Keys == reg.Keys
    decreases |rs|
  {
    if rs == [] then reg
    else RemovedEverywhere(ApplyCleanups(reg, rs[..|rs| - 1]), rs[|rs| - 1])
  }

  /** Applying one more queued removal, the next in arrival order. */
  lemma ApplyRemovalsSnoc<T(!new), R>(reg: Registry<T, R>, ts: seq<T>, rs: seq<R>, k: nat)
    requires |ts| == |rs| && AllRegistered(reg, ts) && k < |ts|
    ensures AllRegistered(reg, ts[..k]) && AllRegistered(reg, ts[..k + 1])
    ensures ApplyRemovals(reg, ts[..k + 1], rs[..k + 1]) == Unsubscribed(ApplyRemovals(reg, ts[..k], rs[..k]), ts[k], rs[k])
  {
    assert ts[..k + 1][..k] == ts[..k] && rs[..k + 1][..k] == rs[..k];
  }

  /** The pair (t, x) is among the queued single-type removals. */
  ghost predicate Queued<T, R>(ts: seq<T>, rs: seq<R>, t: T, x: R)
    requires |ts| == |rs|
  {
    exists i :: 0 <= i < |ts| && ts[i] == t && rs[i] == x
  }

  /** After the queued removals, x is subscribed to t exactly when it was
      before and (t, x) was not queued for removal. */
  lemma {:induction false} ApplyRemovalsMembers<T(!new), R>(reg: Registry<T, R>, ts: seq<T>, rs: seq<R>, t: T, x: R)
    requires |ts| == |rs| && AllRegistered(reg, ts) && t in reg
    ensures x in ApplyRemovals(reg, ts, rs)[t] <==> x in reg[t] && !Queued(ts, rs, t, x)
    decreases |ts|
  {
    if ts != [] {
      var n := |ts| - 1;
      ApplyRemovalsMembers(reg, ts[..n], rs[..n], t, x);
      if Queued(ts, rs, t, x) && !Queued(ts[..n], rs[..n], t, x) {
        var i :| 0 <= i < |ts| && ts[i] == t && rs[i] == x;
        assert i == n;
      }
      if Queued(ts[..n], rs[..n], t, x) {
        var i :| 0 <= i < n && ts[..n][i] == t && rs[..n][i] == x;
        assert ts[i] == t && rs[i] == x;
      }
    }
  }

  /** After the queued remove-everywhere requests, x is subscribed to t exactly
      when it was before and x made no such request. */
  lemma {:induction false} ApplyCleanupsMembers<T(!new), R>(reg: Registry<T, R>, rs: seq<R>, t: T, x: R)
    requires t in reg
    ensures x in ApplyCleanups(reg, rs)[t] <==> x in reg[t] && x !in rs
    decreases |rs|
  {
    if rs != [] {
      var n := |rs| - 1;
      ApplyCleanupsMembers(reg, rs[..n], t, x);
      assert rs == rs[..n] + [rs[n]];
    }
  }

  /** The registry a batch leaves behind: x stays subscribed to t exactly when it
      was subscribed before the batch, did not ask to stop receiving t, and did
      not ask to stop receiving everything. */
  lemma BatchMembers<T(!new), R>(reg: Registry<T, R>, ts: seq<T>, rs: seq<R>, cs: seq<R>, t: T, x: R)
    requires |ts| == |rs| && AllRegistered(reg, ts) && t in reg
    ensures x in ApplyCleanups(ApplyRemovals(reg, ts, rs), cs)[t] <==>
              x in reg[t] && !Queued(ts, rs, t, x) && x !in cs
  {
    ApplyRemovalsMembers(reg, ts, rs, t, x);
    ApplyCleanupsMembers(ApplyRemovals(reg, ts, rs), cs, t, x);
  }

  /** Removing everywhere leaves every receiver other than r where it was. */
  lemma RemovedEverywhereKeepsOthers<T(!new), R>(reg: Registry<T, R>, r: R, t: T, x: R)
    requires t in reg && x != r
    ensures x in RemovedEverywhere(reg, r)[t] <==> x in reg[t]
    ensures r !in RemovedEverywhere(reg, r)[t]
  {
  }

  /** Subscribing is idempotent: a second subscription of the same pair changes nothing. */
  lemma SubscribeIdempotent<T(!new), R>(reg: Registry<T, R>, t: T, r: R)
    ensures Subscribed(Subscribed(reg, t, r), t, r) == Subscribed(reg, t, r)
  {
  }

  /** Subscribing r to t raises t's count by one if r was not yet a member, and
      leaves it as it was otherwise; a type without an entry goes from -1 to 1. */
  lemma SubscribeCount<T(!new), R>(reg: Registry<T, R>, t: T, r: R)
    ensures Count(Subscribed(reg, t, r), t) == |Members(reg, t)| + (if r in Members(reg, t) then 0 else 1)
    ensures t !in reg ==> Count(Subscribed(reg, t, r), t) == 1
  {
    if r in Members(reg, t) {
      assert Members(reg, t) + {r} == Members(reg, t);
    } else {
      assert |Members(reg, t) + {r}| == |Members(reg, t)| + 1;
    }
  }
}
