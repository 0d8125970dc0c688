/** Identities and the scripted behaviour of receivers.
    A receiver's MessageReceived callback is application code; here it is a
    reaction: the list of bus operations it performs, in order, while it handles
    one message. A run of the bus consumes one reaction per callback, in the order
    the callbacks happen; once the script is exhausted a receiver only releases
    the message it was given. */
module Scripts {

  /** The runtime type of a message, the key of every dictionary of the bus. */
  type TypeId = string

  /** The identity of a receiver object. */
  type ReceiverId = nat

  datatype Action =
    | SendPooled(t: TypeId)          // GetMessage<T>() from the bus's own pool, then Send()
    | SendFresh(t: TypeId)           // a newly allocated message of type t, then Send()
    | Resend                         // Send() again on the message being handled
    | Take(t: TypeId)                // GetMessage<T>() from the bus's pool, result not sent
    | StopOne(t: TypeId)             // StopReceivingMessage<T>(this)
    | StopOneOf(t: TypeId, x: ReceiverId)  // StopReceivingMessage<T>(x) for another receiver x
    | StopAll                        // StopReceivingAllMessages(this)
    | StopAllOf(x: ReceiverId)       // StopReceivingAllMessages(x) for another receiver x
    | ClearCache(t: TypeId)          // ClearMessageCache<T>()
    | Recycle                        // RecycleMessage() on the message being handled
    | Done                           // OnDoneUsing() on the message being handled

  /** The actions that send a message. */
  predicate IsSend(a: Action)
  {
    a.SendPooled? || a.SendFresh? || a.Resend?
  }

  type Reaction = seq<Action>
  type Script = seq<Reaction>

  /** How many messages a reaction sends. */
  function SendsIn(r: Reaction): nat
    decreases |r|
  {
    if r == [] then 0
    else (if IsSend(r[0]) then 1 else 0) + SendsIn(r[1..])
  }

  /** How many messages a whole script sends; bounds the work of a batch. */
  function Sends(s: Script): nat
    decreases |s|
  {
    if s == [] then 0 else SendsIn(s[0]) + Sends(s[1..])
  }

  /** The reaction of the next callback: the head of the script, or a bare release. */
  function NextReaction(s: Script): Reaction
  {
    if s == [] then [Done] else s[0]
  }

  /** The script left for the callbacks after the next one. */
  function AfterNext(s: Script): (rest: Script)
    ensures Sends(rest) + SendsIn(NextReaction(s)) == Sends(s)
  {
    if s == [] then [] else s[1..]
  }

  /** The script left after n callbacks. */
  function Skip(s: Script, n: nat): Script
  {
    if n <= |s| then s[n..] else []
  }

  /** Skipping a callbacks and then b more is skipping a + b. */
  lemma SkipAdd(s: Script, a: nat, b: nat)
    ensures Skip(Skip(s, a), b) == Skip(s, a + b)
  {
    if a + b <= |s| {
      assert s[a..][b..] == s[a + b..];
    }
  }

  /** One more callback takes one more reaction off the script. */
  lemma SkipNext(s: Script, n: nat)
    ensures AfterNext(Skip(s, n)) == Skip(s, n + 1)
  {
    if n < |s| {
      assert s[n..][1..] == s[n + 1..];
    }
  }

  /** The sends of a reaction split at any point. */
  lemma {:induction false} SendsInPrefix(r: Reaction, i: nat)
    requires i < |r|
    ensures SendsIn(r[..i + 1]) == SendsIn(r[..i]) + (if IsSend(r[i]) then 1 else 0)
    decreases i
  {
    if i > 0 {
      SendsInPrefix(r[1..], i - 1);
      assert r[1..][..i] == r[..i + 1][1..];
      assert r[1..][..i - 1] == r[..i][1..];
    } else {
      assert r[..1] == [r[0]];
      assert r[..1][1..] == [];
    }
  }
}
