# In-process message bus of FeatureFramework, modelled in Dafny

FeatureFramework's `MessageSystem` is a single-threaded publish/subscribe bus. It consists of:

- a registry from a message type to the set of receivers subscribed to it;
- a FIFO queue of messages waiting for delivery;
- two FIFO queues of deferred unsubscriptions: one holds (type, receiver) pairs, the other holds receivers to remove from every type;
- one batch routine, `HandleMessages`, that drains those queues;
- reference counting on messages: the last receiver to release a message recycles it into a type-keyed FIFO pool;
- a second, stand-alone pool, `MessageProvider`.

The C# state is static and therefore process-wide. Here it is the fields of one `MessageManager` object, and of one `MessageProvider` object, that the caller passes around. A receiver is an opaque identity. Its `MessageReceived` callback is application code, so it is modelled as a *script*: the bus operations each callback performs, consumed one reaction per callback in call order. A reaction is a sequence of these actions:

- `SendPooled(t)`: take a message of type t from the bus's pool (`GetMessage<T>`) and send it;
- `SendFresh(t)`: send a newly allocated message of type t;
- `Resend`: send the message being handled once more;
- `Take(t)`: take a message from the bus's pool without sending it;
- `StopOne(t)` and `StopOneOf(t, x)`: `StopReceivingMessage<T>` for the receiver itself or for any receiver x;
- `StopAll` and `StopAllOf(x)`: `StopReceivingAllMessages` for the receiver itself or for any receiver x;
- `ClearCache(t)`: `ClearMessageCache<T>`;
- `Recycle`: `RecycleMessage` on the message being handled;
- `Done`: `OnDoneUsing` on the message being handled.

Every statement about a batch holds for every finite script. That covers every run in which the receivers eventually stop sending. Each batch also returns a ghost *log*: one entry per callback, in call order, naming the receiver, the type of the message it was handed, and the reaction it performed. The contracts tie the log to the run from both ends. The i-th entry's reaction is the i-th reaction the script hands out (`Follows`), and the receivers of the log are exactly those of the deliveries (`Callers(calls) == Visits(trace)`). The types of the messages the callbacks sent, and the removals they queued, are a function of the log (`LogEffect`). A batch also returns its *trace*: one delivery per message, in delivery order, naming the message, the count it had when its delivery began, and the receivers it reached. The contracts derive that starting count for the first delivery (the count the message was queued with) and for the first delivery of each message a callback sent (the size of its type's set, which that send gave it; `FirstCounts`). For a later delivery of a message that is resent, the trace records the starting count but no contract derives it. A message the batch never delivers keeps its count. What the callbacks' actions do to the bus's pool and to the count of the message delivered last is a fold over the trace and the log (`TraceState`). The fold starts from the pool at the start of the batch and, for each delivery, from the count the trace records for it. A release is `DoneStep`, a resend sets the count afresh, a recycle is `Put`, a take is `Dequeued` and a cache clear is `Cleared`.

Files:

- `pools.dfy`, module `Pools`: the value behind both pools. It is a map from a key to a FIFO bucket, with Put / Dequeued / Cleared and the FIFO lemmas.
- `registry.dfy`, module `Registry`: the subscription registry as a value. It covers subscribing, the listener count, single-type and everywhere removal, and the queued removals applied in arrival order.
- `refcount.dfy`, module `RefCounts`: a run of `OnDoneUsing` calls as a value, and when it recycles.
- `scripts.dfy`, module `Scripts`: type and receiver identities, the actions of a callback, receiver scripts and their send count. The send count is the termination measure of a batch.
- `callbacks.dfy`, module `Callbacks`: the log of a batch and its effect on the queues as values. It proves that a stop request from a callback is honoured, and that nothing else is removed.
- `message_system.dfy`, module `MessageSystem`: the classes `Message` and `MessageManager`. Each of the three loops of `HandleMessages` and the inner `foreach` is its own method with loop invariants. Each action a callback can take is a method as well.
- `message_provider.dfy`, module `Provider`: the class `MessageProvider`.

Where the code differs from what one might expect of a pub/sub bus, the model follows the code:

- Subscriptions take effect immediately; only unsubscriptions are deferred.
- A message of a type that has never been subscribed is dropped without a trace. Its count is not touched.
- A message of a subscribed type whose set is empty is initialised with count 0. Nobody releases it, so it is never recycled.
- `HandleMessages` runs its three loops once each, in order: deliveries, then single-type removals, then everywhere removals. Nothing run by the two removal loops can enqueue work, so one pass empties all three queues.
- A message being delivered stays at the head of the queue until all its receivers are done. So inside a batch none of the three batch-starting tests can hold: every send or stop from a callback only enqueues.
- A stop request for a type without an entry is dropped, also from inside a callback.
- `DeliverToReceivers` returns at once when the set is empty, which is what a `foreach` over the empty set does.

## Model

All source paths below are under `FeatureFramework/Assets/_Project/Scripts/FeaturesFramework/MessageSystem/`; the table spells them out in full.

| member | source | states |
|---|---|---|
| Pools.Put | FeatureFramework/Assets/_Project/Scripts/FeaturesFramework/MessageSystem/MessageManager.cs:163-170 | recycling appends the object at the back of its key's bucket, creating the bucket if absent; every other bucket is unchanged |
| Pools.Dequeued | FeatureFramework/Assets/_Project/Scripts/FeaturesFramework/MessageSystem/MessageManager.cs:156 | taking from a non-empty bucket removes its front and shrinks it by one; every other bucket is unchanged |
| Pools.Cleared | FeatureFramework/Assets/_Project/Scripts/FeaturesFramework/MessageSystem/MessageManager.cs:176-183 | clearing empties exactly the given key's bucket and leaves the key set and every other bucket unchanged |
| Pools.PutAllAppends | FeatureFramework/Assets/_Project/Scripts/FeaturesFramework/MessageSystem/MessageManager.cs:163-170 | successive recycling appends to the bucket in call order and no other bucket changes |
| Pools.TakeNIsOldestFirst | FeatureFramework/Assets/_Project/Scripts/FeaturesFramework/MessageSystem/MessageManager.cs:149-157 | n successive takes return the first n idle objects, oldest first |
| Pools.FifoRoundTrip | FeatureFramework/Assets/_Project/Scripts/FeaturesFramework/MessageSystem/MessageManager.cs:149-170 | the pool is FIFO per type: objects recycled into an empty bucket come back out in the order they were recycled |
| Pools.RecycleThenTake | FeatureFramework/Assets/_Project/Scripts/FeaturesFramework/MessageSystem/MessageProvider.cs:20-41 | after recycling m into an empty bucket, the next take returns m itself and leaves the bucket empty |
| Registry.Count | FeatureFramework/Assets/_Project/Scripts/FeaturesFramework/MessageSystem/MessageManager.cs:141-142 | the listener count is -1 exactly when the type has no entry, and otherwise the size of its set, which may be 0 |
| Registry.Subscribed | FeatureFramework/Assets/_Project/Scripts/FeaturesFramework/MessageSystem/MessageManager.cs:24-34 | subscribing creates the type's entry if needed and adds the receiver to it; no other type's set changes |
| Registry.Unsubscribed | FeatureFramework/Assets/_Project/Scripts/FeaturesFramework/MessageSystem/MessageManager.cs:114 | a single-type removal takes the receiver out of that type's set only; the entry stays |
| Registry.RemovedEverywhere | FeatureFramework/Assets/_Project/Scripts/FeaturesFramework/MessageSystem/MessageManager.cs:122-128 | a stop-all removes the receiver from every set and keeps every entry |
| Registry.ApplyRemovals | FeatureFramework/Assets/_Project/Scripts/FeaturesFramework/MessageSystem/MessageManager.cs:110-116 | the second loop as a value: the queued pairs are removed in arrival order, and no entry is created or dropped |
| Registry.ApplyCleanups | FeatureFramework/Assets/_Project/Scripts/FeaturesFramework/MessageSystem/MessageManager.cs:119-131 | the third loop as a value: the queued stop-alls are applied in arrival order, and no entry is created or dropped |
| Registry.SubscribeIdempotent | FeatureFramework/Assets/_Project/Scripts/FeaturesFramework/MessageSystem/MessageManager.cs:22-35 | subscribing the same receiver to the same type twice has the effect of subscribing once |
| Registry.SubscribeCount | FeatureFramework/Assets/_Project/Scripts/FeaturesFramework/MessageSystem/MessageManager.cs:28-33 | a subscription raises the listener count by one for a new member and by nothing for an existing one; a type without an entry goes to 1 |
| Registry.ApplyRemovalsMembers | FeatureFramework/Assets/_Project/Scripts/FeaturesFramework/MessageSystem/MessageManager.cs:110-116 | after the queued single-type removals, a receiver is in a type's set exactly when it was before and that pair was not queued |
| Registry.ApplyCleanupsMembers | FeatureFramework/Assets/_Project/Scripts/FeaturesFramework/MessageSystem/MessageManager.cs:119-131 | after the queued stop-alls, a receiver is in a type's set exactly when it was before and it made no stop-all request |
| Registry.BatchMembers | FeatureFramework/Assets/_Project/Scripts/FeaturesFramework/MessageSystem/MessageManager.cs:109-131 | the registry a batch leaves: a receiver stays in a type's set exactly when it was there before the batch, did not ask to stop receiving that type, and did not ask to stop receiving all |
| Registry.RemovedEverywhereKeepsOthers | FeatureFramework/Assets/_Project/Scripts/FeaturesFramework/MessageSystem/MessageManager.cs:122-128 | a stop-all leaves every other receiver's memberships unchanged and removes its own receiver from every set |
| Registry.ApplyRemovalsSnoc | FeatureFramework/Assets/_Project/Scripts/FeaturesFramework/MessageSystem/MessageManager.cs:110-116 | applying the queued removals one more step is the single-type removal of the next pair in arrival order |
| RefCounts.DoneStep | FeatureFramework/Assets/_Project/Scripts/FeaturesFramework/MessageSystem/Message.cs:24-29 | one release lowers the count by exactly one, and appends the message to its type's bucket exactly when the count was 1; no other bucket changes |
| RefCounts.Dones | FeatureFramework/Assets/_Project/Scripts/FeaturesFramework/MessageSystem/Message.cs:24-29 | n releases lower the count by exactly n and touch no other type's bucket |
| RefCounts.DonesSnoc | FeatureFramework/Assets/_Project/Scripts/FeaturesFramework/MessageSystem/Message.cs:24-29 | n + 1 releases are n releases followed by one more |
| RefCounts.NoRecycleFromNonPositive | FeatureFramework/Assets/_Project/Scripts/FeaturesFramework/MessageSystem/Message.cs:24-29 | from a count of 0 or below, any number of releases only lowers the count and never recycles |
| RefCounts.RecycledOnLastRelease | FeatureFramework/Assets/_Project/Scripts/FeaturesFramework/MessageSystem/Message.cs:16-29 | after Init(c) with c > 0, n releases leave count c - n; the pool gains the message exactly once, on the c-th release, and is otherwise untouched |
| Scripts.AfterNext | FeatureFramework/Assets/_Project/Scripts/FeaturesFramework/MessageSystem/MessageManager.cs:101-104 | handing out the next reaction spends exactly that reaction's sends from the script's total, to bound a batch |
| Callbacks.ActionEffect | FeatureFramework/Assets/_Project/Scripts/FeaturesFramework/MessageSystem/MessageManager.cs:42-88 | what one action by a callback adds to the queues: a send to a registered type one message of that type, a single-type stop for a registered type exactly one removal pair, a stop-all exactly one cleanup, and the pool actions nothing |
| Callbacks.LogEffectAppend | FeatureFramework/Assets/_Project/Scripts/FeaturesFramework/MessageSystem/MessageManager.cs:98-107 | the queue additions of two runs of callbacks, one after the other, are those of the first followed by those of the second |
| Callbacks.CallGrows | FeatureFramework/Assets/_Project/Scripts/FeaturesFramework/MessageSystem/MessageManager.cs:101-104 | one more callback, running the next reaction of the script: the log still follows the script, and its callers and queue additions grow by that callback's own |
| Callbacks.LogGrows | FeatureFramework/Assets/_Project/Scripts/FeaturesFramework/MessageSystem/MessageManager.cs:98-107 | two logs, the second run on what the first left of the script: together they follow the script, and their callers and queue additions are those of the two in turn |
| Callbacks.FollowsAppend | FeatureFramework/Assets/_Project/Scripts/FeaturesFramework/MessageSystem/MessageManager.cs:98-107 | a log that follows the script, then one that follows the rest of it, together follow the script |
| Callbacks.Drain | FeatureFramework/Assets/_Project/Scripts/FeaturesFramework/MessageSystem/MessageManager.cs:109-131 | the two removal loops as one value: the single-type removals and then the stop-alls, keeping every entry |
| Callbacks.BatchRegistry | FeatureFramework/Assets/_Project/Scripts/FeaturesFramework/MessageSystem/MessageManager.cs:95-132 | the registry a batch leaves behind, as a function of the registry at its start, the queues at its start and its log; no entry is created or dropped |
| Callbacks.QueuedThen | FeatureFramework/Assets/_Project/Scripts/FeaturesFramework/MessageSystem/MessageManager.cs:47-48 | a removal pair is queued by two runs together exactly when one of them queued it |
| Callbacks.ReactionQueuesStop | FeatureFramework/Assets/_Project/Scripts/FeaturesFramework/MessageSystem/MessageManager.cs:42-48 | a single-type stop for a registered type inside a reaction queues that (type, receiver) pair |
| Callbacks.ReactionStopAsked | FeatureFramework/Assets/_Project/Scripts/FeaturesFramework/MessageSystem/MessageManager.cs:42-48 | every pair a reaction queues comes from a single-type stop request in it |
| Callbacks.LogQueuesStop | FeatureFramework/Assets/_Project/Scripts/FeaturesFramework/MessageSystem/MessageManager.cs:42-48 | a single-type stop for a registered type made by any callback of the batch is queued |
| Callbacks.LogStopAsked | FeatureFramework/Assets/_Project/Scripts/FeaturesFramework/MessageSystem/MessageManager.cs:42-48 | every pair the callbacks of a batch queue comes from a stop request of one of them |
| Callbacks.ReactionQueuesStopAll | FeatureFramework/Assets/_Project/Scripts/FeaturesFramework/MessageSystem/MessageManager.cs:62-64 | a stop-all request inside a reaction queues that receiver for cleanup |
| Callbacks.ReactionCleanupAsked | FeatureFramework/Assets/_Project/Scripts/FeaturesFramework/MessageSystem/MessageManager.cs:62-64 | every cleanup a reaction queues comes from a stop-all request in it |
| Callbacks.LogQueuesStopAll | FeatureFramework/Assets/_Project/Scripts/FeaturesFramework/MessageSystem/MessageManager.cs:62-64 | a stop-all request made by any callback of the batch is queued |
| Callbacks.LogCleanupAsked | FeatureFramework/Assets/_Project/Scripts/FeaturesFramework/MessageSystem/MessageManager.cs:62-64 | every cleanup the callbacks of a batch queue comes from a stop-all request of one of them |
| Callbacks.StopRequests | FeatureFramework/Assets/_Project/Scripts/FeaturesFramework/MessageSystem/MessageManager.cs:42-48 | both directions: the batch queues the removal of x from registered type t exactly when some callback asked for it |
| Callbacks.CleanupRequests | FeatureFramework/Assets/_Project/Scripts/FeaturesFramework/MessageSystem/MessageManager.cs:62-64 | both directions: the batch queues a cleanup of x exactly when some callback asked for it |
| Callbacks.BatchMembership | FeatureFramework/Assets/_Project/Scripts/FeaturesFramework/MessageSystem/MessageManager.cs:95-131 | after a batch started with empty removal queues, x is subscribed to a registered type t exactly when it was before, asked from no callback to stop receiving t, and asked from none to stop receiving everything |
| Callbacks.BatchMemberships | FeatureFramework/Assets/_Project/Scripts/FeaturesFramework/MessageSystem/MessageManager.cs:95-131 | BatchMembership for every registered type and receiver at once, with the same set of types registered |
| MessageSystem.EnumerationSize | FeatureFramework/Assets/_Project/Scripts/FeaturesFramework/MessageSystem/MessageManager.cs:101-104 | a delivery that reaches every member of the set exactly once makes as many callbacks as the set has members |
| MessageSystem.TraceGrows | FeatureFramework/Assets/_Project/Scripts/FeaturesFramework/MessageSystem/MessageManager.cs:98-107 | delivering the head of the queue extends the trace in FIFO order: the delivered messages followed by the rest of the queue and the new sends are still everything queued so far; each delivery reaches its whole set; a delivery to nobody runs no callback |
| MessageSystem.ActionState | FeatureFramework/Assets/_Project/Scripts/FeaturesFramework/MessageSystem/MessageManager.cs:76-183 | what one action does to the count of the message in hand and to the pool: only a send, a resend or a release can change the count, and only a send, a take, a cache clear, a recycle or a release can change the pool |
| MessageSystem.CallsStateSnoc | FeatureFramework/Assets/_Project/Scripts/FeaturesFramework/MessageSystem/MessageManager.cs:101-104 | one more callback of a delivery applies its reaction, action by action, to the count and pool the earlier callbacks left |
| MessageSystem.CallUpToReaction | FeatureFramework/Assets/_Project/Scripts/FeaturesFramework/MessageSystem/MessageManager.cs:101-104 | position by position, the actions of one callback of the batch's fold are that callback's reaction applied to the state before it |
| MessageSystem.DeliveryUpToStep | FeatureFramework/Assets/_Project/Scripts/FeaturesFramework/MessageSystem/MessageManager.cs:101-104 | within one delivery of the batch's fold, the last callback so far is its whole reaction applied to the state the earlier ones left |
| MessageSystem.DeliveryUpToCalls | FeatureFramework/Assets/_Project/Scripts/FeaturesFramework/MessageSystem/MessageManager.cs:99-106 | one delivery of the batch's fold is the fold of its own callbacks, from the count the message had when its delivery began and the pool the earlier deliveries left |
| MessageSystem.TraceUpToLast | FeatureFramework/Assets/_Project/Scripts/FeaturesFramework/MessageSystem/MessageManager.cs:98-107 | the fold of the first n deliveries is the fold of the n-th delivery's callbacks over the fold of the deliveries before it |
| MessageSystem.TraceUpToPrefix | FeatureFramework/Assets/_Project/Scripts/FeaturesFramework/MessageSystem/MessageManager.cs:98-107 | deliveries and callbacks that come later do not change the fold of the earlier ones |
| MessageSystem.TraceStateSnoc | FeatureFramework/Assets/_Project/Scripts/FeaturesFramework/MessageSystem/MessageManager.cs:98-107 | one more delivery, with its own callbacks after those of the trace so far, is its callbacks' fold from its starting count and the pool the trace left |
| MessageSystem.ScriptReleases | FeatureFramework/Assets/_Project/Scripts/FeaturesFramework/MessageSystem/MessageManager.cs:103 | when every reaction of the script is a single release, so is every callback of a log that follows it |
| MessageSystem.ReleasesQueueNothing | FeatureFramework/Assets/_Project/Scripts/FeaturesFramework/MessageSystem/MessageManager.cs:103 | callbacks that only release send nothing and queue no removal |
| MessageSystem.ReleasesState | FeatureFramework/Assets/_Project/Scripts/FeaturesFramework/MessageSystem/Message.cs:24-29 | callbacks that only release apply exactly one OnDoneUsing each to the message they were handed: the fold is Dones of their number |
| MessageSystem.ReleaseOnlyShape | FeatureFramework/Assets/_Project/Scripts/FeaturesFramework/MessageSystem/MessageManager.cs:95-107 | a batch started by one send whose callbacks only release has exactly one delivery, of that message, to every receiver of its type, with no further send |
| MessageSystem.ReleaseOnlyBatch | FeatureFramework/Assets/_Project/Scripts/FeaturesFramework/MessageSystem/MessageManager.cs:76-107 | in that batch, with at least one receiver, the last release brings the message's count to 0 and puts it into its type's bucket exactly once |
| MessageSystem.Message.constructor | FeatureFramework/Assets/_Project/Scripts/FeaturesFramework/MessageSystem/MessageManager.cs:154 | a new message has its runtime type and the default count 0 |
| MessageSystem.Message.Init | FeatureFramework/Assets/_Project/Scripts/FeaturesFramework/MessageSystem/Message.cs:16-19 | the reference count becomes exactly n |
| MessageSystem.Message.OnDoneUsing | FeatureFramework/Assets/_Project/Scripts/FeaturesFramework/MessageSystem/Message.cs:24-29 | the count and the bus's pool become exactly DoneStep of the old ones: the count drops by one, and the message joins its type's bucket exactly when the count becomes 0 |
| MessageSystem.Message.Send | FeatureFramework/Assets/_Project/Scripts/FeaturesFramework/MessageSystem/Message.cs:34-37 | has exactly the outcome SendMessage promises for this message: the stop requests of its callbacks honoured; the first delivery of each message a callback sent starting from its set's size; every message the batch never delivers keeping its count; the pool, and the count of the message delivered last, the fold of the callbacks' actions over the trace; and, when every callback only releases and the type has receivers, count 0 with this message recycled exactly once and no other message's count changed |
| MessageSystem.MessageManager.constructor | FeatureFramework/Assets/_Project/Scripts/FeaturesFramework/MessageSystem/MessageManager.cs:10-15 | the bus starts with both dictionaries null and every queue empty |
| MessageSystem.MessageManager.SendStartsBatch | FeatureFramework/Assets/_Project/Scripts/FeaturesFramework/MessageSystem/MessageManager.cs:84 | the send test holds only with a message to deliver, and never together with either unsubscription test |
| MessageSystem.MessageManager.RemovalStartsBatch | FeatureFramework/Assets/_Project/Scripts/FeaturesFramework/MessageSystem/MessageManager.cs:50 | the single-type removal test holds only with a removal to apply, and never together with the stop-all test |
| MessageSystem.MessageManager.CleanupStartsBatch | FeatureFramework/Assets/_Project/Scripts/FeaturesFramework/MessageSystem/MessageManager.cs:66 | the stop-all test holds only with a stop-all request to apply |
| MessageSystem.MessageManager.StartReceivingMessage | FeatureFramework/Assets/_Project/Scripts/FeaturesFramework/MessageSystem/MessageManager.cs:22-35 | creates the registry if null; the new registry is the subscription of the receiver to the type, applied at once |
| MessageSystem.MessageManager.NumberOfListeners | FeatureFramework/Assets/_Project/Scripts/FeaturesFramework/MessageSystem/MessageManager.cs:141-142 | -1 exactly when the type has no entry, otherwise the size of its set |
| MessageSystem.MessageManager.EnqueueMessage | FeatureFramework/Assets/_Project/Scripts/FeaturesFramework/MessageSystem/MessageManager.cs:80-84 | the count is set to the size of the set at send time and the message joins the back of the queue; the send test then holds exactly when the queue was empty and no unsubscription was queued |
| MessageSystem.MessageManager.EnqueueRemoval | FeatureFramework/Assets/_Project/Scripts/FeaturesFramework/MessageSystem/MessageManager.cs:47-50 | the (type, receiver) pair joins the back of the two removal queues; the removal test then holds exactly when none was queued before and the other two queues are empty |
| MessageSystem.MessageManager.EnqueueCleanup | FeatureFramework/Assets/_Project/Scripts/FeaturesFramework/MessageSystem/MessageManager.cs:64-66 | the receiver joins the back of the stop-all queue; the stop-all test then holds exactly when none was queued before and the other two queues are empty |
| MessageSystem.MessageManager.SendMessage | FeatureFramework/Assets/_Project/Scripts/FeaturesFramework/MessageSystem/MessageManager.cs:76-88 | an unregistered type changes nothing: registry, pool, Repr and every count stay as they were. Otherwise one batch runs. It delivers the message first, from the count of its set, then every message the callbacks sent, in FIFO order. Each delivery reaches exactly the receivers registered when the batch began, and the log follows the script. The first delivery of each message a callback sent starts from the size of its type's set (FirstCounts with the queue [m]). Every message the bus held that the batch never delivers keeps its count. The pool, and the count of the message delivered last, are the fold of the callbacks' actions over the trace (TraceState), from the counts the trace records. Afterwards a receiver is subscribed to a type exactly when it was before and asked from no callback to stop receiving it or everything. An empty set gives one delivery to nobody, count 0, no recycling, and no change to the pool, the registry or any other message's count. When every callback only releases and the set is not empty, the message ends with count 0, recycled exactly once into its type's bucket, the registry is unchanged, and no other message's count changes |
| MessageSystem.MessageManager.SendRegistered | FeatureFramework/Assets/_Project/Scripts/FeaturesFramework/MessageSystem/MessageManager.cs:80-87 | for a registered type the send starts a batch, whose outcome is the one SendMessage states: the first-delivery counts, the counts of the messages it never delivers, the fold of the pool and the last count, and the release-only recycling with every other count unchanged |
| MessageSystem.MessageManager.StopReceivingMessage | FeatureFramework/Assets/_Project/Scripts/FeaturesFramework/MessageSystem/MessageManager.cs:42-56 | a type without an entry is a no-op; otherwise only that type's set loses the receiver; the pool and every count are unchanged and all queues end empty |
| MessageSystem.MessageManager.StopReceivingAllMessages | FeatureFramework/Assets/_Project/Scripts/FeaturesFramework/MessageSystem/MessageManager.cs:62-70 | the receiver leaves every set; the pool and every count are unchanged and all queues end empty |
| MessageSystem.MessageManager.HandleMessages | FeatureFramework/Assets/_Project/Scripts/FeaturesFramework/MessageSystem/MessageManager.cs:95-132 | all three queues end empty. The trace's messages are the queued ones followed by those sent from callbacks, in FIFO order, the first delivered from the count it was queued with. A message a callback sent, at its first delivery, starts from the size of its type's set (FirstCounts). Every message the bus held that the batch never delivers keeps its count. Each delivery reaches every receiver registered at the start exactly once. The i-th callback ran the i-th reaction of the script, and the types sent are those the log's actions send. The final registry applies the queued removals, then those of the callbacks, then the stop-alls, in arrival order. The pool, and the count of the message delivered last, are the fold of the callbacks' actions over the trace (TraceState), from the counts the trace records. With no receiver for any queued message, no callback runs and nothing but the queues changes |
| MessageSystem.MessageManager.DeliverQueued | FeatureFramework/Assets/_Project/Scripts/FeaturesFramework/MessageSystem/MessageManager.cs:98-107 | the delivery loop empties the queue without changing the registry. The trace's messages are the queued ones, then the callbacks' sends, and each delivery reaches its whole set. The log follows the script and its callers are the deliveries' receivers. The removal queues grow by exactly the log's requests. A sent message's first delivery starts from its set's size, and a message never delivered keeps its count. The pool, and the count of the message delivered last, are the fold of the callbacks' actions over the trace (TraceState), from the counts the trace records |
| MessageSystem.MessageManager.DeliverRound | FeatureFramework/Assets/_Project/Scripts/FeaturesFramework/MessageSystem/MessageManager.cs:99-107 | one round of the delivery loop keeps what holds of the batch so far (BatchSoFar). The trace, the log, the sends and the removal queues grow by the head's delivery, and so does the fold of pool and last count. The counts stay as CountsSoFar says: each queued message a callback sent, not yet delivered, has its set's size, and every other message not delivered and not queued keeps its count. The script's sends plus the queue length strictly drop |
| MessageSystem.MessageManager.DeliverNext | FeatureFramework/Assets/_Project/Scripts/FeaturesFramework/MessageSystem/MessageManager.cs:99-107 | the delivery of the head within the batch so far. The trace, the log and the queues grow together, and the delivery records the count the head had. Each message its callbacks sent, other than the head, has its set's size, and every other message the bus held keeps its count, so CountsSoFar grows by the delivery. Its callbacks' fold gives the new pool and the head's final count, and the script's sends plus the queue length strictly drop |
| MessageSystem.MessageManager.DeliverHead | FeatureFramework/Assets/_Project/Scripts/FeaturesFramework/MessageSystem/MessageManager.cs:100-106 | the head of the queue reaches each member of its set exactly once, in a log that follows the script, and only then leaves the queue. Behind it wait exactly the messages the log's callbacks sent, each other than the head with its set's size as count. Every other message the bus held keeps its count. The removal queues grow by exactly the log's requests, and the head's count and the pool end as the fold of its callbacks' actions from the count it had |
| MessageSystem.MessageManager.Dequeue | FeatureFramework/Assets/_Project/Scripts/FeaturesFramework/MessageSystem/MessageManager.cs:106 | the head leaves the queue and the rest stays in order |
| MessageSystem.MessageManager.DeliverToReceivers | FeatureFramework/Assets/_Project/Scripts/FeaturesFramework/MessageSystem/MessageManager.cs:100-104 | the message at the head of the queue is handed to each member of its set exactly once, the i-th callback running the i-th reaction of the script. The queue grows by exactly the messages of the types the log sends, each other than the message itself with its set's size as count. Every other message the bus held keeps its count. The removal queues grow by exactly the log's requests, and the message's count and the pool end as the fold of the callbacks' actions (CallsState) |
| MessageSystem.MessageManager.VisitReceiver | FeatureFramework/Assets/_Project/Scripts/FeaturesFramework/MessageSystem/MessageManager.cs:103 | one callback: it runs the next reaction of the script, and the delivery so far (VisitSoFar) grows by it. The queues grow by exactly that reaction's additions, the count and pool by its actions. The messages sent so far have their sets' sizes as counts, and every other message the bus held keeps its count (SentCounts) |
| MessageSystem.MessageManager.MessageReceived | FeatureFramework/Assets/_Project/Scripts/FeaturesFramework/MessageSystem/MessageManager.cs:103 | the actions of one reaction in order. The queue grows by exactly the messages of the types the reaction sends, each other than the handled message with its set's size as count. The removal queues grow by exactly its requests and the registry is unchanged. Every other message the bus held keeps its count, and the message's count and the pool end as the reaction's fold (ReactionState) |
| MessageSystem.MessageManager.PerformNext | FeatureFramework/Assets/_Project/Scripts/FeaturesFramework/MessageSystem/MessageManager.cs:103 | one action of a reaction keeps what holds of the reaction so far (ReactionSoFar): queue, removal requests, count and pool grow by that action, and the messages sent so far keep their sets' sizes as counts while every other message the bus held keeps its count |
| MessageSystem.MessageManager.VisitEach | FeatureFramework/Assets/_Project/Scripts/FeaturesFramework/MessageSystem/MessageManager.cs:101-104 | the foreach over a non-empty set: every member is called exactly once, in a log that follows the script, and the delivery so far (VisitSoFar) holds for the whole set, the counts of sent and untouched messages included |
| MessageSystem.MessageManager.CountsRound | FeatureFramework/Assets/_Project/Scripts/FeaturesFramework/MessageSystem/MessageManager.cs:99-106 | a delivery keeps CountsSoFar: the head's recorded count is the one it had, the messages its callbacks sent carry their sets' sizes, and nothing else changes count |
| MessageSystem.FirstCountsSnoc | FeatureFramework/Assets/_Project/Scripts/FeaturesFramework/MessageSystem/MessageManager.cs:99-106 | a delivery whose message is not in the initial queue and not delivered before, with its set's size as count, extends FirstCounts |
| MessageSystem.FirstCountsAfterHead | FeatureFramework/Assets/_Project/Scripts/FeaturesFramework/MessageSystem/MessageManager.cs:80-87 | in a batch started by m alone, FirstCounts says that every later delivery of a message not delivered before starts from the size of its type's set |
| MessageSystem.MessageManager.Perform | FeatureFramework/Assets/_Project/Scripts/FeaturesFramework/MessageSystem/MessageManager.cs:42-88 | one action, each with its own outcome: Resend queues the message in hand, SendPooled takes and queues the oldest pooled message or a new one, SendFresh a new one, and a send of a type without an entry queues nothing; Take removes the oldest pooled message; a stop only appends to its removal queue; ClearCache empties one bucket; Recycle puts the message in hand into the pool; Done is DoneStep on it; no other count changes |
| MessageSystem.MessageManager.PerformSend | FeatureFramework/Assets/_Project/Scripts/FeaturesFramework/MessageSystem/MessageManager.cs:76-88 | the sending actions and Take: which message is queued, with the count of its set, and how the pool changes |
| MessageSystem.MessageManager.PerformStop | FeatureFramework/Assets/_Project/Scripts/FeaturesFramework/MessageSystem/MessageManager.cs:42-70 | the stop actions append exactly their request to the removal queues and start no batch |
| MessageSystem.MessageManager.PerformPool | FeatureFramework/Assets/_Project/Scripts/FeaturesFramework/MessageSystem/MessageManager.cs:163-183 | ClearCache, Recycle and Done change the pool and the message's count exactly as those operations do |
| MessageSystem.MessageManager.ApplyQueuedUnsubscriptions | FeatureFramework/Assets/_Project/Scripts/FeaturesFramework/MessageSystem/MessageManager.cs:109-131 | the second and third loops together: the registry becomes Drain of the queues, the single-type removals and then the stop-alls in arrival order, and all removal queues end empty |
| MessageSystem.MessageManager.ApplyQueuedRemovals | FeatureFramework/Assets/_Project/Scripts/FeaturesFramework/MessageSystem/MessageManager.cs:110-116 | the single-type removals are applied in arrival order and both queues end empty |
| MessageSystem.MessageManager.RemoveQueuedHead | FeatureFramework/Assets/_Project/Scripts/FeaturesFramework/MessageSystem/MessageManager.cs:112-115 | one round of the second loop: the oldest queued pair is removed from both queues, and its receiver leaves that type's set only |
| MessageSystem.MessageManager.ApplyQueuedCleanups | FeatureFramework/Assets/_Project/Scripts/FeaturesFramework/MessageSystem/MessageManager.cs:119-131 | the stop-alls are applied in arrival order and the queue ends empty |
| MessageSystem.MessageManager.RemoveFromEverySet | FeatureFramework/Assets/_Project/Scripts/FeaturesFramework/MessageSystem/MessageManager.cs:122-128 | the loop over every set removes the receiver wherever it is present and keeps every entry |
| MessageSystem.MessageManager.GetMessage | FeatureFramework/Assets/_Project/Scripts/FeaturesFramework/MessageSystem/MessageManager.cs:149-157 | creates the pool if null; an absent or empty bucket yields a new message and leaves the pool as it was; otherwise the oldest idle message of the type is removed and returned |
| MessageSystem.MessageManager.RecycleMessage | FeatureFramework/Assets/_Project/Scripts/FeaturesFramework/MessageSystem/MessageManager.cs:163-170 | the message is appended to the bucket of its runtime type |
| MessageSystem.MessageManager.ClearMessageCache | FeatureFramework/Assets/_Project/Scripts/FeaturesFramework/MessageSystem/MessageManager.cs:176-183 | only the type's bucket is emptied |
| Provider.MessageProvider.constructor | FeatureFramework/Assets/_Project/Scripts/FeaturesFramework/MessageSystem/MessageProvider.cs:13 | the provider starts with its dictionary null |
| Provider.MessageProvider.GetMessage | FeatureFramework/Assets/_Project/Scripts/FeaturesFramework/MessageSystem/MessageProvider.cs:20-28 | creates the dictionary if null; an absent or empty bucket yields a new message and the pool is unchanged; otherwise the front of the bucket is removed and returned and no other bucket changes |
| Provider.MessageProvider.RecycleMessage | FeatureFramework/Assets/_Project/Scripts/FeaturesFramework/MessageSystem/MessageProvider.cs:34-41 | the message is appended to the back of its type's bucket, created if absent; no other bucket changes |

## Left out

- Null dictionaries: the places where the C# code dereferences a null dictionary are preconditions (the registry or pool must already exist), not modelled crashes. This covers `NumberOfListeners`, `StopReceivingMessage`, `StopReceivingAllMessages`, `RecycleMessage`, `ClearMessageCache` and a release that reaches 0. Inside a callback, `ClearMessageCache` reads the pool too (MessageManager.cs:179), as do `RecycleMessage` (:167) and a release that reaches 0. The model runs a batch only once the pool exists, so a null-pool crash inside a callback is not modelled either.
- MessageSystem.MessageManager.SendMessage: requires the bus's pool to exist whenever the type is registered. The source needs it only when some callback touches the pool or a release brings a count to 0, so this precondition is coarser than the code's.
- MessageSystem.Message.Send: inherits the same coarser pool precondition.
- Subscriptions made from inside a callback are not modelled, so callbacks cannot call `StartReceivingMessage`. In C#, adding a new receiver to the set being delivered changes the set under its `foreach` (MessageManager.cs:30-32 against :101), and the enumeration throws. Any other subscription takes effect at once, so later deliveries reach a set that differs from the one registered when the batch began. The batch guarantees of `SendMessage` and `HandleMessages` hold only for runs without such subscriptions. Public operations are only called outside a batch.
- A callback that throws is not modelled. In C# the exception leaves the batch before line 106, so the head message stays queued. Every later `SendMessage` then fails the `Count == 1` test at line 84, and no batch starts again.
- Only the message being handled can be resent, recycled or released from a callback (`Resend`, `Recycle`, `Done`). A receiver that keeps a message and sends, recycles or releases it (`OnDoneUsing`) from a later callback is not modelled: `Done` acts only on the message handed to the callback that performs it.
- `HashSet` enumeration order is a nondeterministic choice. Only "each member exactly once" is stated, never a particular order.
- Receivers that send forever would make `HandleMessages` loop forever. Scripts are finite, so such runs are outside the model. Once a script is used up, each further callback only releases its message.
- MessageSystem.MessageManager.HandleMessages: the count after the batch is stated for the message delivered last and for every message the batch never delivers, but not for an earlier delivered message. The starting count of a delivery is derived for the first one and for the first delivery of each message a callback sent. Two starting counts are recorded in the trace but not derived: that of a later delivery of a resent message, and that of a message queued behind the head before the call.
- MessageSystem.MessageManager.DeliverQueued: the same gap as HandleMessages, which it inherits.
- MessageSystem.MessageManager.DeliverRound: the same gap; BatchSoFar leaves the count of a message that is still queued, and also was queued at the start or delivered before, to the trace and the fold.
- MessageSystem.MessageManager.DeliverNext: the same gap as DeliverRound.
- MessageSystem.MessageManager.SendMessage: the final count of a message delivered earlier than last is not stated, and for a resent message the starting count of its later deliveries is recorded but not derived. When every callback only releases, the message's final count (0) is stated and every other count is unchanged.
- MessageSystem.MessageManager.SendRegistered: the same gap as SendMessage.
- MessageSystem.Message.Send: the same gap as SendMessage.
- MessageSystem.Message.OnDoneUsing: does not model the 32-bit wrap-around of the reference count, which would need about 2^31 extra releases.
- Message payloads, `System.Action` fields of concrete messages, `Debug.Log`, and the receiver interface's virtual dispatch are not modelled.
- The feature framework around the bus (the feature manager, features and test features) is not part of this model.
- The bus's pool and `MessageProvider`'s pool are two separate states, held by two separate objects here. A message drawn from the provider and released on the bus goes into the bus's pool. Nothing links the two objects.
