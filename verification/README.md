# WAMP broker (AutobahnPython) in Dafny

This project models the basic WAMP broker of AutobahnPython, the `Broker` class in
`autobahn/autobahn/wamp/broker.py`. It proves properties of that model.

The broker keeps four dictionaries:

- each session to the ids of its subscriptions;
- each protocol session id to its session;
- each topic to its subscription id and subscriber set;
- each subscription id to its topic and subscriber set.

It handles the PUBLISH, SUBSCRIBE and UNSUBSCRIBE messages of a joined session. It
answers with PUBLISHED, EVENT, SUBSCRIBED, UNSUBSCRIBED or ERROR messages, and it
cleans a session out of the dictionaries when the session leaves.

Files:

- `wamp.dfy` (module `Wamp`): the vocabulary.
  - Identifiers.
  - `Session`, a class whose identity is object identity and which carries its
    protocol id.
  - The fields of the inbound and outbound messages the broker reads and writes.
  - `Outcome`: an operation ends normally, with the ProtocolError raised for an
    unexpected message, or with the KeyError a missing dictionary entry raises.
- `subscription_index.dfy` (module `SubscriptionIndex`): the four dictionaries as one
  value `Index`.
  - Two invariants:
    - `WellFormed`: stored ids are below the allocator, and the topic side, the
      subscription side and the sessions' own sets are linked. Every operation keeps
      it, including the operations that stop with a KeyError.
    - `Mirrored`: the topic side and the subscription side hold the same subscriber
      sets, and each live session's own set lists exactly the subscriptions it is in.
      Publish as written can break it (see Findings).
  - The effect of subscribe, unsubscribe and the removeSession cleanup as functions.
  - One lemma per invariant each operation preserves.
- `routing.dfy` (module `Routing`): who receives a publication.
  - The eligible and exclude lists, resolved through the session registry.
  - Self-exclusion.
  - What a publish does to the index through the alias on the stored subscriber set.
  - The fan-out of one EVENT per receiver.
- `broker.dfy` (module `WampBroker`): the `Broker` class.
  - The four dictionaries, the id counter and the outbox are fields.
  - Methods `AddSession`, `RemoveSession`, `ProcessMessage`, `ProcessPublish`,
    `ProcessSubscribe` and `ProcessUnsubscribe`. Each is proved against a
    specification on values. The specification differs by method:
    - `ProcessSubscribe` and `ProcessUnsubscribe` follow the step functions
      `SubscribeNext` and `UnsubscribeNext` on `BrokerState` (index, id counter,
      messages sent).
    - `ProcessPublish` follows the relation `PublishStep`, which leaves the order of
      the EVENTs free.
    - `ProcessMessage` follows whichever of these its message kind selects.
    - `AddSession` follows `Register` on the index, with the other fields unchanged.
    - `RemoveSession` follows `DropSubscriber` when it ends normally, and
      `InterruptedAt` when it ends with a KeyError.

The identifier allocator (`util.id()`) is the field `nextId`, a counter read and
advanced by `Broker.NewId`. Sending a message on a session's transport appends
`(session, message)` to the field `outbox`.

The sessions already passed to `RemoveSession` are kept in the ghost field `retired`.
The source leaves a removed session's own entry in place, so `Mirrored` exempts those
sessions.

The methods do not require the invariants. What each one ensures about them:

- `Valid()` (`WellFormed`): the operations `AddSession`, `RemoveSession`,
  `ProcessMessage`, `ProcessPublish`, `ProcessPublishCopying`, `ProcessSubscribe` and
  `ProcessUnsubscribe` each ensure `old(Valid()) ==> Valid()`, whatever the outcome.
  The helpers `NewId` and `Deliver` state their effect on the fields instead.
- `IsMirrored()` (`Mirrored`), from a mirrored and well-formed broker:
  - `AddSession`, `ProcessSubscribe`, `ProcessUnsubscribe` and `ProcessPublishCopying`
    always keep it. `ProcessUnsubscribe` then never ends in a KeyError.
  - `RemoveSession` keeps it, and ends normally, when the session was not removed
    before.
  - `ProcessPublish` and `ProcessMessage` keep it unless the message is a publish that
    drops the subscribed publisher through the alias (`DropsPublisher`).

Behaviour of the code that the model keeps:

- addSession guards against a double join with an `assert`, not with a dedicated
  error. `AddSession` requires the session to be new.
- removeSession does not delete the session's own entries (`sessionSubs` and
  `sessionById`). `RemoveSession` leaves them in place.
- An `eligible` list none of whose ids resolves to a registered session leaves the
  receivers unfiltered (broker.py:118): the narrowing happens only when the resolved
  list is non-empty.
- An UNSUBSCRIBE of a known subscription is answered UNSUBSCRIBED even when the caller
  was not one of its subscribers.
- When the publisher is discarded from the receivers, it is discarded from the very set
  stored for the topic whenever neither filter replaced that set. The index therefore
  changes during a publish (see Findings).

## Model

| member | source | states |
|---|---|---|
| WampBroker.Broker.constructor | autobahn/autobahn/wamp/broker.py:36-54 | The broker starts with four empty dictionaries and an empty outbox, and satisfies both invariants. |
| SubscriptionIndex.EmptyIsMirrored | autobahn/autobahn/wamp/broker.py:36-54 | The empty index is well formed and mirrored. |
| WampBroker.Broker.NewId | autobahn/autobahn/wamp/broker.py:174 | The allocator returns the current counter and advances it, so no id is handed out twice. |
| WampBroker.Broker.AddSession | autobahn/autobahn/wamp/broker.py:57-64 | For a session not yet registered: its subscription set is empty, its id maps to it, nothing else changes, and both invariants are kept. |
| SubscriptionIndex.Register | autobahn/autobahn/wamp/broker.py:63-64 | The new session gets an empty subscription set and its id maps to it. The other sessions, the other ids, and the topic and subscription sides are unchanged. |
| SubscriptionIndex.RegisterKeepsInvariants | autobahn/autobahn/wamp/broker.py:57-64 | Registering a new session keeps the index well formed and mirrored. |
| WampBroker.Broker.RemoveSession | autobahn/autobahn/wamp/broker.py:67-81 | A normal end leaves the cleanup of all the session's subscriptions, with emptied entries deleted. It ends normally exactly when the walk over the session's subscriptions succeeds (`WalkSucceeds`), and raises KeyError otherwise. In particular it raises KeyError whenever one of the session's subscriptions, or its topic, has no entry, and it cannot raise KeyError when the session is removable. The session's own entries and the outbox are unchanged (no message is sent). After a KeyError the dictionaries are exactly those the walk left (`InterruptedAt`). The walk cleaned up some subset `done` of the session's subscriptions, over which it succeeds. It then stopped at a further subscription `sub`, with which it fails. The index stays well formed even after a KeyError. After a normal end on a well-formed index the session is in no subscriber set. When the index is mirrored and the session live, no KeyError occurs and the index stays mirrored. |
| WampBroker.DiscardEverywhere | autobahn/autobahn/wamp/broker.py:73-81 | The loop over the session's subscriptions. A normal end returns the cleaned subscription and topic dictionaries. It ends normally exactly when `WalkSucceeds` holds for the session's subscriptions. It ends with a KeyError whenever some held subscription or its topic has no entry, and never for a removable session. A KeyError returns the dictionaries as the walk left them (`InterruptedAt`): cleaned through a succeeding part `done` of the walk, and stopped at a subscription `sub` that makes it fail. Either way, the dictionaries it returns keep a well-formed index well formed. |
| WampBroker.DiscardOne | autobahn/autobahn/wamp/broker.py:74-81 | One pass of the loop discards the session from one subscription entry and from its topic's entry, deleting each once empty. It gives a KeyError exactly when the subscription has no entry, or its topic has none. A missing subscription changes nothing. A missing topic leaves the subscription side already cleaned. When the walk so far succeeded, the pass ends normally exactly when the walk extended by `sub` succeeds. After a KeyError the dictionaries are exactly `InterruptedAt` of `done` and `sub`, and a well-formed index stays well formed. |
| WampBroker.DiscardNext | autobahn/autobahn/wamp/broker.py:73-81 | One pass in terms of the subscriptions left to do. A normal end moves `sub` to the done ones, with the dictionaries cleaned through them. A KeyError shows the walk over all the session's subscriptions fails, and the walk extended by `sub` fails too. It leaves the dictionaries exactly as `InterruptedAt` says, and a well-formed index stays well formed. |
| SubscriptionIndex.WalkSucceedsBetween | autobahn/autobahn/wamp/broker.py:73-81 | A removable session's walk succeeds, and the walk of a session with a missing entry fails. |
| SubscriptionIndex.WalkStep | autobahn/autobahn/wamp/broker.py:74-78 | After a successful walk over `done`, the subscription `sub` and its topic still have entries in the partly cleaned dictionaries exactly when the walk over `done + {sub}` succeeds. A topic shared with an earlier subscription survives only if the earlier discard left another subscriber in it. |
| SubscriptionIndex.WalkShrinks | autobahn/autobahn/wamp/broker.py:73-81 | A walk that succeeds over a set of subscriptions succeeds over every subset of it, so a failure part way through means the whole walk fails. |
| SubscriptionIndex.SubscriptionsWithout | autobahn/autobahn/wamp/broker.py:73-77 | The cleaned subscription side. A held entry is kept exactly when subscribers other than the session remain, and then holds exactly those. Other entries are unchanged, and no other entry appears. |
| SubscriptionIndex.TopicsWithout | autobahn/autobahn/wamp/broker.py:78-81 | The cleaned topic side. A touched topic is kept exactly when subscribers other than the session remain, and then holds exactly those with the same subscription. Other topics are unchanged, and no other topic appears. |
| SubscriptionIndex.DropSubscriber | autobahn/autobahn/wamp/broker.py:73-81 | The session is discarded from the given subscriptions and from their topics, and emptied entries are deleted. The session's own entries and the id registry are unchanged. The session is left in none of the touched entries. Entries outside the given subscriptions and their topics are unchanged. |
| SubscriptionIndex.InterruptedDropKeepsWellFormed | autobahn/autobahn/wamp/broker.py:73-78 | removeSession stopped by the KeyError at line 78 leaves a well-formed index. |
| SubscriptionIndex.MirroredRemovable | autobahn/autobahn/wamp/broker.py:73-81 | In a mirrored index, every subscription of a live session and its topic have entries, and no two share a topic. So the cleanup cannot raise KeyError. |
| SubscriptionIndex.RemoveSessionKeeps | autobahn/autobahn/wamp/broker.py:67-81 | After the cleanup the index is well formed and the session is in no subscription's or topic's subscriber set. A mirrored index stays mirrored once the session is retired. |
| SubscriptionIndex.DropKeepsWellFormed | autobahn/autobahn/wamp/broker.py:73-81 | The cleanup keeps ids below the allocator and keeps the links. |
| SubscriptionIndex.DropLeavesNoTrace | autobahn/autobahn/wamp/broker.py:67-81 | On a well-formed index, the full cleanup leaves the session in no subscriber set on either side. |
| SubscriptionIndex.DropKeepsMirrored | autobahn/autobahn/wamp/broker.py:67-81 | The cleanup of a mirrored index is mirrored, with the session added to the retired sessions. |
| WampBroker.Broker.ProcessMessage | autobahn/autobahn/wamp/broker.py:84-100 | PUBLISH, SUBSCRIBE and UNSUBSCRIBE each take their own step. Any other message is a ProtocolError and changes nothing. An operation that ends normally keeps the links. The mirror is kept unless the message is a publish that drops the subscribed publisher through the alias. |
| WampBroker.Broker.ProcessPublish | autobahn/autobahn/wamp/broker.py:103-166 | The publish as written: the index changes exactly as `PublishIndex` says, and the messages are those of `Delivered`. The links are kept. The mirror is kept unless the publisher is dropped through the alias. |
| WampBroker.Broker.SelectReceivers | autobahn/autobahn/wamp/broker.py:105-137 | Returns the topic's subscription and the receivers `Receivers` defines. It also says whether the receiver set is still the stored set, which is when the topic has an entry and neither filter resolved a session. |
| Routing.Resolved | autobahn/autobahn/wamp/broker.py:114-117 | Every listed id of a registered session contributes that session, and nothing else is in the set. The set is empty exactly when no listed id is registered. |
| Routing.ResolveSessions | autobahn/autobahn/wamp/broker.py:113-117 | The list loop keeps exactly the sessions the ids resolve to; unknown ids are skipped. The list is empty exactly when no id resolves. |
| Routing.ListsExactly | autobahn/autobahn/wamp/broker.py:118-119 | A resolved list is non-empty exactly when its set of sessions is, and `set(list)` is that set. |
| Routing.Narrow | autobahn/autobahn/wamp/broker.py:112-134 | A subscriber receives exactly when all of these hold: it is eligible, or no eligible id resolved; it is not excluded; and it is not the publisher, unless `excludeMe` is explicitly true. |
| Routing.Receivers | autobahn/autobahn/wamp/broker.py:105-137 | Nobody receives on a topic without an entry. Otherwise a subscriber of the topic receives exactly when all of these hold: it is a resolved eligible session, or no eligible id resolved; it is not a resolved excluded session; and it is not the publisher, unless `excludeMe` is true. Nobody else receives. |
| Routing.PublishIndex | autobahn/autobahn/wamp/broker.py:109-134 | A publish changes only the published topic's subscriber set. It changes it exactly when the publisher is a subscriber discarded through the alias, and then only by removing the publisher. |
| Routing.PublishKeepsWellFormed | autobahn/autobahn/wamp/broker.py:109-134 | The publish as written keeps the links and the id bound. |
| Routing.PublishWithoutAliasKeepsMirrored | autobahn/autobahn/wamp/broker.py:109-134 | A publish that does not drop a subscribed publisher through the alias keeps the mirror. |
| Routing.PublishKeeps | autobahn/autobahn/wamp/broker.py:109-134 | The two facts above for a given result of the publish. |
| Routing.PublisherDropsOutOfItsTopic | autobahn/autobahn/wamp/broker.py:134 | As written, a subscribed publisher dropped through the alias keeps its subscription but leaves the topic's set. The mirror breaks, and the next publication on the topic, by anyone, does not reach it. |
| Routing.AliasedPublishLeadsToKeyError | autobahn/autobahn/wamp/broker.py:200-216 | As written: `a` and `b` subscribe to a topic, `a` publishes with default options, and `b` unsubscribes. The topic entry is then gone while the subscription entry and `a`'s claim to it remain. `a`'s unsubscribe then raises KeyError (`UnsubscribeNext`), and so does its removal (`MissesEntry`, which `RemoveSession` turns into KeyError). |
| Routing.LastTopicSubscriberLeaves | autobahn/autobahn/wamp/broker.py:204-216 | The last session on the topic side unsubscribes. The topic entry is deleted while the subscription entry survives, so removing the other subscriber would raise KeyError. |
| WampBroker.Broker.Deliver | autobahn/autobahn/wamp/broker.py:139-166 | One publication id is drawn. The outbox gains the optional PUBLISHED and then one EVENT per receiver, as `Sent` defines. |
| Routing.EventTo | autobahn/autobahn/wamp/broker.py:150-165 | The EVENT for one receiver is addressed with the receiver's own session id and carries the subscription, the publication id and the payload. It names the publisher's id exactly when `discloseMe` is set. |
| WampBroker.SentAcknowledgement | autobahn/autobahn/wamp/broker.py:139-145 | A publication adds one message per receiver, plus one PUBLISHED to the publisher exactly when acknowledgement was requested. The PUBLISHED comes first and carries the request and publication ids. Earlier messages are untouched. |
| WampBroker.SentEvents | autobahn/autobahn/wamp/broker.py:147-166 | Each EVENT goes to a receiver, addressed with that receiver's own id, and carries the subscription, the publication id and the payload. It names the publisher exactly when `discloseMe` is set. Every receiver gets exactly one. |
| Routing.FanOutExtend | autobahn/autobahn/wamp/broker.py:159-166 | Sending one more receiver its EVENT extends a fan-out to that receiver. |
| Routing.FanOutSize | autobahn/autobahn/wamp/broker.py:159-166 | A fan-out sends exactly as many EVENTs as there are receivers. |
| WampBroker.Broker.ProcessPublishCopying | autobahn/autobahn/wamp/broker.py:103-166 | The corrected publish: the same messages as the publish as written, but the index is unchanged, so both invariants are always kept. |
| WampBroker.Broker.ProcessSubscribe | autobahn/autobahn/wamp/broker.py:169-197 | The new state is `SubscribeNext`: an id is drawn only for a topic without an entry, the session joins both sides and its own set, and one SUBSCRIBED is sent. Both invariants are kept. |
| WampBroker.SubscribeEntries | autobahn/autobahn/wamp/broker.py:172-190 | The three dictionary updates of subscribe produce `SubscribeIndex`. |
| WampBroker.SubscribeNext | autobahn/autobahn/wamp/broker.py:169-197 | The counter advances exactly when the topic is new, and then the subscription is the drawn id; otherwise it is the topic's existing one. The topic's and the subscription's subscriber sets become their old sets (or empty) plus the session, and the session's own set gains the subscription. Every other topic, subscription and session entry, and the id registry, is unchanged. The only message is SUBSCRIBED with that subscription. |
| SubscriptionIndex.SubscribeIndex | autobahn/autobahn/wamp/broker.py:172-190 | The subscription is the new id exactly when the topic had no entry. The topic's subscriber set becomes its old set (or empty) plus the session. The subscription's entry becomes its old entry plus the session, or a new entry for the topic holding only the session. The session's own set gains the subscription. Every other entry on each side, and the id registry, is unchanged. |
| WampBroker.SubscribeNextKeeps | autobahn/autobahn/wamp/broker.py:169-190 | A SUBSCRIBE keeps the links and the id bound, and keeps the mirror. |
| SubscriptionIndex.SubscribeKeepsWellFormed | autobahn/autobahn/wamp/broker.py:172-190 | Subscribing keeps the links and keeps every id below the advanced allocator. |
| SubscriptionIndex.SubscribeKeepsMirrored | autobahn/autobahn/wamp/broker.py:172-190 | Subscribing keeps the mirror, because a new topic gets an id no other entry holds. |
| SubscriptionIndex.SubscribeIdempotent | autobahn/autobahn/wamp/broker.py:172-190 | Subscribing twice to the same topic returns the same subscription and changes no dictionary the second time. |
| WampBroker.SubscribeTwice | autobahn/autobahn/wamp/broker.py:169-197 | A repeated SUBSCRIBE draws no id, changes nothing in the index, and replies with the same subscription id. |
| WampBroker.Broker.ProcessUnsubscribe | autobahn/autobahn/wamp/broker.py:200-225 | The outcome and new state are `UnsubscribeNext`. The links are kept, even after a KeyError. From a mirrored index it always ends normally and stays mirrored. |
| WampBroker.UnsubscribeNext | autobahn/autobahn/wamp/broker.py:200-225 | An unknown id sends ERROR with no_such_subscription and changes nothing. A known id removes the caller from both sides and from its own set, deletes emptied entries, and sends UNSUBSCRIBED. KeyError occurs exactly when the known id's topic has no entry; then nothing is sent. |
| WampBroker.UnsubscribeNextSteps | autobahn/autobahn/wamp/broker.py:202-218 | For a known id, the step is the literal sequence of discards and deletions, in both the KeyError and the normal case. |
| WampBroker.UnsubscribeNextKeeps | autobahn/autobahn/wamp/broker.py:202-218 | An UNSUBSCRIBE keeps the links, whatever its outcome. From a mirrored index it ends normally and stays mirrored. |
| SubscriptionIndex.UnsubscribeIndex | autobahn/autobahn/wamp/broker.py:204-218 | The caller leaves its own set of subscriptions. The subscription's entry is kept exactly when other subscribers remain, and then holds exactly them. The same holds for the topic's entry. Every other entry on each side, every other session, and the id registry are unchanged. |
| SubscriptionIndex.UnsubscribeKeepsWellFormed | autobahn/autobahn/wamp/broker.py:202-218 | Unsubscribing keeps the links and the id bound. |
| SubscriptionIndex.UnsubscribeKeyErrorKeepsWellFormed | autobahn/autobahn/wamp/broker.py:204-211 | Unsubscribe stopped by the KeyError at line 211 leaves a well-formed index: no topic names a subscription whose topic has no entry. |
| SubscriptionIndex.UnsubscribeKeepsMirrored | autobahn/autobahn/wamp/broker.py:202-218 | In a mirrored index a known subscription's topic has an entry (no KeyError), and unsubscribing keeps the mirror. |
| SubscriptionIndex.UnsubscribeSteps | autobahn/autobahn/wamp/broker.py:204-216 | The two discard-and-delete steps of unsubscribe are the cleanup restricted to one subscription and its topic. |
| SubscriptionIndex.UnsubscribeUndoesSubscribe | autobahn/autobahn/wamp/broker.py:172-218 | Subscribing to a new topic and then unsubscribing from the returned id gives back the original index. |
| Routing.FirstSubscriber | autobahn/autobahn/wamp/broker.py:172-190 | After two sessions join, the first subscriber of a topic gets id 0 (the fresh counter's first id), the index is mirrored, and the topic's set is that session. |
| Routing.TwoSubscribersShareTopic | autobahn/autobahn/wamp/broker.py:172-190 | Two sessions subscribing to one topic share one subscription whose topic set holds both, and the index stays mirrored. |
| Routing.LaterSubscriber | autobahn/autobahn/wamp/broker.py:177-190 | A session subscribing to a topic that has an entry joins the topic's existing subscription and is added to its subscriber set. Both invariants are kept. |

## Left out

- Transport: sending is appending to `outbox`. Send failures and asynchrony are not modelled.
- Identifier allocator: `util.id()` is a counter. The model relies only on each id being new.
- EVENT order: the source walks a Python set, whose order is unspecified. The model
  appends the EVENTs in an order it picks, and states per receiver what each gets.
- Message encoding and the interface plumbing (`zope.interface`, `IBroker`) are left
  out. Payloads are `seq<string>` and `map<string, string>`.
- `None` values: an absent `eligible` or `exclude` list is an empty list, and an absent
  `acknowledge` or `discloseMe` is false. `excludeMe` keeps its three values.
- The INVALID_TOPIC branch of subscribe is unreachable and is left out.
- Exceptions: the `assert`s on session registration are `requires`. ProtocolError and
  KeyError are `Outcome` values, not exceptions that unwind the caller.
- WampBroker.Broker.RemoveSession: after a KeyError, the contract says the dictionaries
  are `InterruptedAt` of SOME succeeding part of the walk and a failing next subscription.
  Which part it is depends on the iteration order of the Python set at broker.py:73,
  which is not modelled.
- WampBroker.DiscardEverywhere: at a KeyError, likewise only SOME succeeding part of the
  walk and a failing next subscription is given, for the same reason.
- WampBroker.Broker.ProcessMessage: dispatches to the publish as written, so it inherits
  its effect on the index. The corrected publish is `ProcessPublishCopying`.
- Python name rebinding is not modelled: the fan-out loop rebinds `session`, and nothing
  reads it afterwards.
- Concurrency is not modelled. Each operation runs to completion on its own.

## Findings

| source | as written | input that shows it | evidently intended | confidence | as-written member | corrected member |
|---|---|---|---|---|---|---|
| autobahn/autobahn/wamp/broker.py:134 | Discarding the publisher from the receivers removes it from the subscriber set stored for the topic, whenever no eligible or exclude filter replaced that set. | A subscriber of a topic publishes to it with no eligible or exclude ids and `excludeMe` unset. It stays on the subscription side, has left the topic side, and the next publication on the topic, by anyone, does not reach it. | A publish leaves the subscriber sets unchanged; the receivers are a copy. | not executed | Routing.PublisherDropsOutOfItsTopic | WampBroker.Broker.ProcessPublishCopying |
| autobahn/autobahn/wamp/broker.py:211 | The topic entry can be deleted while its subscription entry survives, so the lookup of the topic raises KeyError (also at line 78 in removeSession). | Sessions `a` and `b` subscribe to one topic; `a` publishes to it with default options; `b` unsubscribes; `a` unsubscribes or is removed. | Unsubscribe and removeSession always find the topic of a known subscription. | not executed | Routing.AliasedPublishLeadsToKeyError | WampBroker.Broker.ProcessPublishCopying |
