/** Publication routing: who receives an EVENT for a PUBLISH, what the
    publish does to the topic index on the way, and what the fan-out of one
    EVENT per receiver looks like. */
module Routing {
  import opened Wamp
  import opened SubscriptionIndex

  /** The sessions the listed ids resolve to; an id of no registered session
      contributes nothing. */
  function Resolved(ids: seq<SessionId>, registry: map<SessionId, Session>): (r: set<Session>)
    ensures forall id :: id in ids && id in registry ==> registry[id] in r
    ensures r <= registry.Values
    ensures forall x :: x in r ==> exists id :: id in ids && id in registry && registry[id] == x
    ensures r == {} <==> forall id :: id in ids ==> id !in registry
  {
    set id | id in ids && id in registry :: registry[id]
  }

  /** The loop that turns an `eligible` or `exclude` list into the list of
      sessions it names, skipping ids that resolve to nothing. */
  method ResolveSessions(ids: seq<SessionId>, registry: map<SessionId, Session>) returns (found: seq<Session>)
    ensures forall x :: x in found <==> x in Resolved(ids, registry)
    ensures |found| <= |ids|
    ensures found == [] <==> forall id :: id in ids ==> id !in registry
  {
    found := [];
    for i := 0 to |ids|
      invariant forall x :: x in found <==> x in Resolved(ids[..i], registry)
      invariant |found| <= i
      invariant found == [] <==> forall id :: id in ids[..i] ==> id !in registry
    {
      assert ids[..i + 1] == ids[..i] + [ids[i]];
      if ids[i] in registry {
        found := found + [registry[ids[i]]];
      }
    }
    assert ids[..|ids|] == ids;
  }

  /** A list that holds exactly the members of a set: the set of its
      elements is that set, and it is empty exactly when the set is. */
  lemma ListsExactly(found: seq<Session>, members: set<Session>)
    requires forall x :: x in found <==> x in members
    ensures (set x | x in found) == members
    ensures found == [] <==> members == {}
  {
    if found != [] {
      assert found[0] in members;
    }
  }

  /** The receivers among a topic's subscribers: narrowed to the eligible
      sessions when at least one eligible id resolved, then the excluded
      sessions removed, then the publisher removed unless `excludeMe` is
      explicitly true. */
  function Narrow(subscribers: set<Session>, eligible: set<Session>, exclude: set<Session>,
                  publisher: Session, excludeMe: Option<bool>): (r: set<Session>)
    ensures r <= subscribers
    ensures forall x :: x in subscribers ==>
              (x in r <==>
                 && (eligible == {} || x in eligible)
                 && x !in exclude
                 && (x == publisher ==> excludeMe == Some(true)))
  {
    var afterEligible := if eligible != {} then eligible * subscribers else subscribers;
    var afterExclude := if exclude != {} then afterEligible - exclude else afterEligible;
    if excludeMe.None? || !excludeMe.value then afterExclude - {publisher} else afterExclude
  }

  /** The receivers of a publication: nobody when the topic has no entry,
      otherwise the topic's subscribers narrowed by the request's filters. */
  function Receivers(ix: Index, publisher: Session, p: PublishRequest): (r: set<Session>)
    ensures p.topic !in ix.topics ==> r == {}
    ensures p.topic in ix.topics ==> r <= ix.topics[p.topic].subscribers
    ensures p.excludeMe != Some(true) ==> publisher !in r
    ensures Resolved(p.eligible, ix.sessionById) != {} ==> r <= Resolved(p.eligible, ix.sessionById)
    ensures r !! Resolved(p.exclude, ix.sessionById)
    ensures p.topic in ix.topics ==>
              forall x :: x in ix.topics[p.topic].subscribers ==>
                (x in r <==>
                   && (Resolved(p.eligible, ix.sessionById) == {} || x in Resolved(p.eligible, ix.sessionById))
                   && x !in Resolved(p.exclude, ix.sessionById)
                   && (x == publisher ==> p.excludeMe == Some(true)))
  {
    if p.topic in ix.topics then
      Narrow(ix.topics[p.topic].subscribers, Resolved(p.eligible, ix.sessionById),
             Resolved(p.exclude, ix.sessionById), publisher, p.excludeMe)
    else {}
  }

  /** The publisher is discarded from the very set stored for the topic:
      neither filter resolved any session, so `receivers` is still that set,
      and `excludeMe` is not true. */
  predicate DiscardsThroughAlias(ix: Index, publisher: Session, p: PublishRequest)
  {
    && p.topic in ix.topics
    && Resolved(p.eligible, ix.sessionById) == {}
    && Resolved(p.exclude, ix.sessionById) == {}
    && p.excludeMe != Some(true)
  }

  /** What a publish does to the index: only the topic side of the published
      topic can change, and only by losing the publisher, and exactly when
      the publisher is discarded through the alias while subscribed. */
  function PublishIndex(ix: Index, publisher: Session, p: PublishRequest): (r: Index)
    ensures r.sessionSubs == ix.sessionSubs && r.sessionById == ix.sessionById
    ensures r.subscriptions == ix.subscriptions
    ensures r.topics.Keys == ix.topics.Keys
    ensures forall t :: t in ix.topics && t != p.topic ==> r.topics[t] == ix.topics[t]
    ensures p.topic in ix.topics ==> r.topics[p.topic].subscription == ix.topics[p.topic].subscription
    ensures DiscardsThroughAlias(ix, publisher, p) ==>
              r.topics[p.topic].subscribers == ix.topics[p.topic].subscribers - {publisher}
    ensures r != ix <==> DiscardsThroughAlias(ix, publisher, p) && publisher in ix.topics[p.topic].subscribers
  {
    if DiscardsThroughAlias(ix, publisher, p) then
      var e := ix.topics[p.topic];
      assert publisher !in e.subscribers ==> e.(subscribers := e.subscribers - {publisher}) == e;
      ix.(topics := ix.topics[p.topic := e.(subscribers := e.subscribers - {publisher})])
    else
      ix
  }

  lemma PublishKeepsWellFormed(ix: Index, next: nat, publisher: Session, p: PublishRequest)
    requires WellFormed(ix, next)
    ensures WellFormed(PublishIndex(ix, publisher, p), next)
  {
    var r := PublishIndex(ix, publisher, p);
    forall t | t in r.topics ensures TopicBacked(r, t) {
      assert TopicBacked(ix, t);
    }
  }

  /** A publish that does not discard through the alias keeps the mirror. */
  lemma PublishWithoutAliasKeepsMirrored(ix: Index, retired: set<Session>, publisher: Session, p: PublishRequest)
    requires Mirrored(ix, retired)
    requires !DiscardsThroughAlias(ix, publisher, p) || publisher !in ix.topics[p.topic].subscribers
    ensures Mirrored(PublishIndex(ix, publisher, p), retired)
  {
  }

  /** Both facts above for a given result of the publish. */
  lemma PublishKeeps(ix: Index, next: nat, retired: set<Session>, publisher: Session, p: PublishRequest, r: Index)
    requires r == PublishIndex(ix, publisher, p)
    ensures WellFormed(ix, next) ==> WellFormed(r, next)
    ensures Mirrored(ix, retired) && !(DiscardsThroughAlias(ix, publisher, p) && publisher in ix.topics[p.topic].subscribers) ==>
              Mirrored(r, retired)
  {
    if WellFormed(ix, next) {
      PublishKeepsWellFormed(ix, next, publisher, p);
    }
    if Mirrored(ix, retired) && !(DiscardsThroughAlias(ix, publisher, p) && publisher in ix.topics[p.topic].subscribers) {
      PublishWithoutAliasKeepsMirrored(ix, retired, publisher, p);
    }
  }

  /** As written, a subscriber that publishes with the default options drops
      out of its topic's subscriber set while keeping the subscription: the
      mirror is broken, and the next publication on the topic, by anyone,
      does not reach it. */
  lemma PublisherDropsOutOfItsTopic(ix: Index, retired: set<Session>, publisher: Session, p: PublishRequest)
    requires Mirrored(ix, retired)
    requires DiscardsThroughAlias(ix, publisher, p) && publisher in ix.topics[p.topic].subscribers
    ensures var r := PublishIndex(ix, publisher, p);
            var sub := ix.topics[p.topic].subscription;
            && sub in r.subscriptions && publisher in r.subscriptions[sub].subscribers
            && publisher !in r.topics[p.topic].subscribers
            && !Mirrored(r, retired)
            && (forall other: Session, q: PublishRequest :: q.topic == p.topic ==> publisher !in Receivers(r, other, q))
  {
    var r := PublishIndex(ix, publisher, p);
    var sub := ix.topics[p.topic].subscription;
    assert publisher in ix.subscriptions[sub].subscribers;
    assert r.subscriptions[sub].subscribers != r.topics[p.topic].subscribers;
  }

  /** Two sessions join; the first subscribes to a topic and draws id 0. */
  lemma FirstSubscriber(a: Session, b: Session, t: Topic)
    requires a != b
    ensures var ix0 := Register(Register(Empty, a), b);
            var first := SubscribeIndex(ix0, a, t, 0);
            && first.1 == 0 && b in first.0.sessionSubs
            && WellFormed(first.0, 1) && Mirrored(first.0, {})
            && t in first.0.topics && first.0.topics[t].subscribers == {a}
  {
    var ix0 := Register(Register(Empty, a), b);
    EmptyIsMirrored({});
    RegisterKeepsInvariants(Empty, 0, {}, a);
    RegisterKeepsInvariants(Register(Empty, a), 0, {}, b);
    assert ix0.topics == map[];
    SubscribeKeepsWellFormed(ix0, 0, a, t);
    SubscribeKeepsMirrored(ix0, 0, {}, a, t);
  }

  /** Two sessions that join and subscribe to the same topic share one
      subscription, and the index is mirrored. */
  lemma TwoSubscribersShareTopic(a: Session, b: Session, t: Topic)
    requires a != b
    ensures var ix0 := Register(Register(Empty, a), b);
            var first := SubscribeIndex(ix0, a, t, 0);
            var second := SubscribeIndex(first.0, b, t, 1);
            && second.1 == first.1
            && WellFormed(second.0, 1) && Mirrored(second.0, {})
            && t in second.0.topics && second.0.topics[t].subscribers == {a, b}
  {
    FirstSubscriber(a, b, t);
    var first := SubscribeIndex(Register(Register(Empty, a), b), a, t, 0);
    LaterSubscriber(first.0, 1, {}, b, t);
    AddToSingleton(first.0.topics[t].subscribers, a, b);
  }

  lemma AddToSingleton(x: set<Session>, a: Session, b: Session)
    requires x == {a}
    ensures x + {b} == {a, b}
  {
  }

  /** A session subscribing to a topic that already has an entry joins its
      subscription, adds itself to its subscribers, and keeps both
      invariants. */
  lemma LaterSubscriber(ix: Index, next: nat, retired: set<Session>, s: Session, t: Topic)
    requires WellFormed(ix, next) && Mirrored(ix, retired) && s in ix.sessionSubs && t in ix.topics
    ensures var r := SubscribeIndex(ix, s, t, next);
            && r.1 == ix.topics[t].subscription
            && WellFormed(r.0, next) && Mirrored(r.0, retired)
            && r.0.topics[t].subscribers == ix.topics[t].subscribers + {s}
  {
    SubscribeKeepsWellFormed(ix, next, s, t);
    SubscribeKeepsMirrored(ix, next, retired, s, t);
  }

  /** As written, the alias leads to a KeyError: when `a` and `b` are the two
      subscribers of a topic, `a` publishes to it with the default options and
      `b` then unsubscribes, the subscription entry outlives its topic entry,
      so `a`'s own unsubscribe looks up a topic that is gone, and so does its
      removal (`MissesEntry`, on which RemoveSession ends in KeyError). */
  lemma AliasedPublishLeadsToKeyError(ix: Index, retired: set<Session>, a: Session, b: Session, p: PublishRequest)
    requires Mirrored(ix, retired) && a != b && a !in retired
    requires a in ix.sessionSubs && b in ix.sessionSubs
    requires p.topic in ix.topics && ix.topics[p.topic].subscribers == {a, b}
    requires p.eligible == [] && p.exclude == [] && p.excludeMe == None
    ensures var sub := ix.topics[p.topic].subscription;
            var published := PublishIndex(ix, a, p);
            var left := UnsubscribeIndex(published, b, sub);
            && published.subscriptions[sub].topic in published.topics
            && sub in left.subscriptions && left.subscriptions[sub].topic !in left.topics
            && a in left.sessionSubs && sub in left.sessionSubs[a]
            && MissesEntry(left, a)
  {
    var t := p.topic;
    var sub := ix.topics[t].subscription;
    assert ix.subscriptions[sub] == SubscriptionEntry(t, {a, b});
    assert sub in ix.sessionSubs[a];
    assert Resolved([], ix.sessionById) == {};
    var published := PublishIndex(ix, a, p);
    assert published.topics[t] == TopicEntry(sub, {b});
    LastTopicSubscriberLeaves(published, a, b, t, sub);
  }

  /** The step of the scenario above after the publish: the topic side holds
      only `b`, the subscription side `a` and `b`; `b` unsubscribes. */
  lemma LastTopicSubscriberLeaves(ix: Index, a: Session, b: Session, t: Topic, sub: SubscriptionId)
    requires a != b && b in ix.sessionSubs && a in ix.sessionSubs && sub in ix.sessionSubs[a]
    requires sub in ix.subscriptions && ix.subscriptions[sub] == SubscriptionEntry(t, {a, b})
    requires t in ix.topics && ix.topics[t] == TopicEntry(sub, {b})
    ensures var left := UnsubscribeIndex(ix, b, sub);
            && sub in left.subscriptions && left.subscriptions[sub].topic !in left.topics
            && a in left.sessionSubs && sub in left.sessionSubs[a]
            && MissesEntry(left, a)
  {
    var left := UnsubscribeIndex(ix, b, sub);
    assert TopicsOf(ix.subscriptions, {sub}) == {t};
    assert {a, b} - {b} == {a};
    assert left.subscriptions[sub] == SubscriptionEntry(t, {a});
    assert {b} - {b} == {};
    assert t !in left.topics;
  }

  /** The EVENT built for one receiver: addressed with the receiver's own
      session id, naming the publisher only when it asked to be disclosed. */
  function EventTo(receiver: Session, subscription: SubscriptionId, publication: PublicationId,
                   p: PublishRequest, publisher: Session): (r: Outbound)
    ensures r.Event? && r.sessionId == receiver.id
    ensures r.subscription == subscription && r.publication == publication
    ensures r.args == p.args && r.kwargs == p.kwargs
    ensures r.publisher.Some? <==> p.discloseMe
    ensures r.publisher.Some? ==> r.publisher.value == publisher.id
  {
    Event(receiver.id, subscription, publication, p.args, p.kwargs,
          if p.discloseMe then Some(publisher.id) else None)
  }

  /** `events` hands each receiver exactly one EVENT built for it, in some
      order, and nothing to anybody else. */
  predicate FanOut(events: seq<Delivery>, receivers: set<Session>, subscription: SubscriptionId,
                   publication: PublicationId, p: PublishRequest, publisher: Session)
  {
    && (forall i :: 0 <= i < |events| ==>
          events[i].0 in receivers && events[i].1 == EventTo(events[i].0, subscription, publication, p, publisher))
    && (forall i, j :: 0 <= i < j < |events| ==> events[i].0 != events[j].0)
    && (forall x :: x in receivers ==> exists i :: 0 <= i < |events| && events[i].0 == x)
  }

  /** Sending one more receiver its EVENT extends a fan-out to that
      receiver. */
  lemma FanOutExtend(events: seq<Delivery>, receivers: set<Session>, receiver: Session, subscription: SubscriptionId,
                     publication: PublicationId, p: PublishRequest, publisher: Session)
    requires FanOut(events, receivers, subscription, publication, p, publisher)
    requires receiver !in receivers
    ensures FanOut(events + [(receiver, EventTo(receiver, subscription, publication, p, publisher))],
                   receivers + {receiver}, subscription, publication, p, publisher)
  {
    var events' := events + [(receiver, EventTo(receiver, subscription, publication, p, publisher))];
    forall x | x in receivers + {receiver}
      ensures exists i :: 0 <= i < |events'| && events'[i].0 == x
    {
      if x == receiver {
        assert events'[|events|].0 == x;
      } else {
        var i :| 0 <= i < |events| && events[i].0 == x;
        assert events'[i] == events[i];
      }
    }
  }

  /** A fan-out sends exactly as many EVENTs as there are receivers. */
  lemma {:induction false} FanOutSize(events: seq<Delivery>, receivers: set<Session>, subscription: SubscriptionId,
                                      publication: PublicationId, p: PublishRequest, publisher: Session)
    requires FanOut(events, receivers, subscription, publication, p, publisher)
    ensures |events| == |receivers|
  {
    if events == [] {
      assert forall x :: x !in receivers;
    } else {
      var n := |events| - 1;
      var last := events[n].0;
      var rest := events[..n];
      forall x | x in receivers - {last}
        ensures exists i :: 0 <= i < |rest| && rest[i].0 == x
      {
        var i :| 0 <= i < |events| && events[i].0 == x;
        assert i != n && rest[i] == events[i];
      }
      FanOutSize(rest, receivers - {last}, subscription, publication, p, publisher);
    }
  }
}
