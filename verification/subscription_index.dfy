/** The broker's four dictionaries as one value, the invariants they keep,
    and the effect of each index-changing operation as a function, with the
    lemmas that say which invariant each operation preserves. */
module SubscriptionIndex {
  import opened Wamp

  /** `_topic_to_sessions[topic]`: the topic's subscription and its subscribers. */
  datatype TopicEntry = TopicEntry(subscription: SubscriptionId, subscribers: set<Session>)

  /** `_subscription_to_sessions[subscription]`: the topic and its subscribers. */
  datatype SubscriptionEntry = SubscriptionEntry(topic: Topic, subscribers: set<Session>)

  datatype Index = Index(
    sessionSubs: map<Session, set<SubscriptionId>>,
    sessionById: map<SessionId, Session>,
    topics: map<Topic, TopicEntry>,
    subscriptions: map<SubscriptionId, SubscriptionEntry>)

  const Empty: Index := Index(map[], map[], map[], map[])

  /** Every subscription id in the index was drawn before `next`, so an id
      drawn now is fresh. */
  predicate IdsBelow(ix: Index, next: nat)
  {
    && (forall t :: t in ix.topics ==> ix.topics[t].subscription < next)
    && (forall sub :: sub in ix.subscriptions ==> sub < next)
    && (forall s, sub :: s in ix.sessionSubs && sub in ix.sessionSubs[s] ==> sub < next)
  }

  /** The topic's subscription exists, belongs to the topic, and has at least
      the topic's subscribers. */
  predicate TopicBacked(ix: Index, t: Topic)
    requires t in ix.topics
  {
    var sub := ix.topics[t].subscription;
    && sub in ix.subscriptions
    && ix.subscriptions[sub].topic == t
    && ix.topics[t].subscribers <= ix.subscriptions[sub].subscribers
  }

  /** The links every operation of the broker keeps, publish included. */
  predicate Linked(ix: Index)
  {
    && (forall sub :: sub in ix.subscriptions ==> ix.subscriptions[sub].subscribers != {})
    && (forall t :: t in ix.topics ==> TopicBacked(ix, t))
    && (forall sub, s :: sub in ix.subscriptions && s in ix.subscriptions[sub].subscribers ==>
          s in ix.sessionSubs && sub in ix.sessionSubs[s])
  }

  predicate WellFormed(ix: Index, next: nat)
  {
    IdsBelow(ix, next) && Linked(ix)
  }

  /** The invariant the broker is designed around: the topic side and the
      subscription side are exact mirrors (same subscribers, never empty, one
      subscription per topic and back), and a session's own set lists exactly
      the subscriptions it is in. `retired` holds the sessions already passed
      to removeSession, whose own entries are left behind stale. */
  predicate Mirrored(ix: Index, retired: set<Session>)
  {
    Linked(ix) && TopicsMirrored(ix) && SubscriptionsMirrored(ix) && SessionsMirrored(ix, retired)
  }

  /** Each topic has exactly the subscribers of its subscription. */
  predicate TopicsMirrored(ix: Index)
  {
    forall t :: t in ix.topics ==>
      var sub := ix.topics[t].subscription;
      sub in ix.subscriptions && ix.subscriptions[sub].subscribers == ix.topics[t].subscribers
  }

  /** Each subscription is the one its topic names. */
  predicate SubscriptionsMirrored(ix: Index)
  {
    forall sub :: sub in ix.subscriptions ==>
      ix.subscriptions[sub].topic in ix.topics && ix.topics[ix.subscriptions[sub].topic].subscription == sub
  }

  /** A session not yet removed is in every subscription its own set lists. */
  predicate SessionsMirrored(ix: Index, retired: set<Session>)
  {
    forall s, sub :: s in ix.sessionSubs && s !in retired && sub in ix.sessionSubs[s] ==>
      sub in ix.subscriptions && s in ix.subscriptions[sub].subscribers
  }

  lemma EmptyIsMirrored(retired: set<Session>)
    ensures WellFormed(Empty, 0) && Mirrored(Empty, retired)
  {
  }

  // ---------------------------------------------------------------- addSession

  /** addSession: an empty subscription set, and the id resolves to the session. */
  function Register(ix: Index, s: Session): (r: Index)
    ensures s in r.sessionSubs && r.sessionSubs[s] == {}
    ensures s.id in r.sessionById && r.sessionById[s.id] == s
    ensures r.sessionSubs.Keys == ix.sessionSubs.Keys + {s}
    ensures forall x :: x in ix.sessionSubs && x != s ==> r.sessionSubs[x] == ix.sessionSubs[x]
    ensures forall id :: id in ix.sessionById && id != s.id ==> id in r.sessionById && r.sessionById[id] == ix.sessionById[id]
    ensures r.topics == ix.topics && r.subscriptions == ix.subscriptions
  {
    ix.(sessionSubs := ix.sessionSubs[s := {}], sessionById := ix.sessionById[s.id := s])
  }

  lemma RegisterKeepsInvariants(ix: Index, next: nat, retired: set<Session>, s: Session)
    requires WellFormed(ix, next) && s !in ix.sessionSubs
    ensures WellFormed(Register(ix, s), next)
    ensures Mirrored(ix, retired) ==> Mirrored(Register(ix, s), retired)
  {
    var r := Register(ix, s);
    forall sub, x | sub in r.subscriptions && x in r.subscriptions[sub].subscribers
      ensures x in r.sessionSubs && sub in r.sessionSubs[x]
    {
      assert x in ix.sessionSubs;
    }
    forall t | t in r.topics ensures TopicBacked(r, t) {
      assert TopicBacked(ix, t);
    }
  }

  // ---------------------------------------------------------------- subscribe

  /** Subscribe on the index: the topic's subscription (or `newId` when the
      topic has no entry), with the session added on the topic side, the
      subscription side and in its own set. */
  function SubscribeIndex(ix: Index, s: Session, topic: Topic, newId: SubscriptionId): (r: (Index, SubscriptionId))
    requires s in ix.sessionSubs
    ensures topic !in ix.topics ==> r.1 == newId
    ensures topic in ix.topics ==> r.1 == ix.topics[topic].subscription
    ensures topic in r.0.topics && r.0.topics[topic].subscription == r.1
    ensures s in r.0.topics[topic].subscribers
    ensures r.1 in r.0.subscriptions && s in r.0.subscriptions[r.1].subscribers
    ensures s in r.0.sessionSubs && r.1 in r.0.sessionSubs[s]
    ensures r.0.sessionById == ix.sessionById
    ensures r.0.topics.Keys == ix.topics.Keys + {topic}
    ensures forall t :: t in ix.topics && t != topic ==> r.0.topics[t] == ix.topics[t]
    ensures r.0.topics[topic].subscribers == (if topic in ix.topics then ix.topics[topic].subscribers else {}) + {s}
    ensures r.0.subscriptions.Keys == ix.subscriptions.Keys + {r.1}
    ensures forall x :: x in ix.subscriptions && x != r.1 ==> r.0.subscriptions[x] == ix.subscriptions[x]
    ensures r.1 in ix.subscriptions ==>
              r.0.subscriptions[r.1] == ix.subscriptions[r.1].(subscribers := ix.subscriptions[r.1].subscribers + {s})
    ensures r.1 !in ix.subscriptions ==> r.0.subscriptions[r.1] == SubscriptionEntry(topic, {s})
    ensures r.0.sessionSubs.Keys == ix.sessionSubs.Keys
    ensures r.0.sessionSubs[s] == ix.sessionSubs[s] + {r.1}
    ensures forall x :: x in ix.sessionSubs && x != s ==> r.0.sessionSubs[x] == ix.sessionSubs[x]
  {
    var sub := if topic in ix.topics then ix.topics[topic].subscription else newId;
    var onTopic := if topic in ix.topics then ix.topics[topic].subscribers else {};
    var entry := if sub in ix.subscriptions then ix.subscriptions[sub] else SubscriptionEntry(topic, {});
    (ix.(topics := ix.topics[topic := TopicEntry(sub, onTopic + {s})],
         subscriptions := ix.subscriptions[sub := entry.(subscribers := entry.subscribers + {s})],
         sessionSubs := ix.sessionSubs[s := ix.sessionSubs[s] + {sub}]),
     sub)
  }

  /** Subscribing again to the same topic returns the same subscription and
      changes nothing, whatever id the allocator would have offered. */
  lemma SubscribeIdempotent(ix: Index, s: Session, topic: Topic, newId: SubscriptionId, newId': SubscriptionId)
    requires s in ix.sessionSubs
    ensures var once := SubscribeIndex(ix, s, topic, newId);
            SubscribeIndex(once.0, s, topic, newId') == once
  {
    var once := SubscribeIndex(ix, s, topic, newId);
    var twice := SubscribeIndex(once.0, s, topic, newId');
    assert twice.1 == once.1;
    assert once.0.topics[topic].subscribers + {s} == once.0.topics[topic].subscribers;
    assert once.0.subscriptions[once.1].subscribers + {s} == once.0.subscriptions[once.1].subscribers;
    assert once.0.sessionSubs[s] + {once.1} == once.0.sessionSubs[s];
    assert twice.0.topics == once.0.topics;
    assert twice.0.subscriptions == once.0.subscriptions;
    assert twice.0.sessionSubs == once.0.sessionSubs;
  }

  lemma SubscribeKeepsWellFormed(ix: Index, next: nat, s: Session, topic: Topic)
    requires WellFormed(ix, next) && s in ix.sessionSubs
    ensures WellFormed(SubscribeIndex(ix, s, topic, next).0, if topic in ix.topics then next else next + 1)
  {
    var r := SubscribeIndex(ix, s, topic, next);
    SubscribeKeepsIdsBelow(ix, next, s, topic, r);
    SubscribeKeepsLinked(ix, next, s, topic, r);
  }

  lemma SubscribeKeepsIdsBelow(ix: Index, next: nat, s: Session, topic: Topic, r: (Index, SubscriptionId))
    requires IdsBelow(ix, next) && s in ix.sessionSubs
    requires r == SubscribeIndex(ix, s, topic, next)
    ensures IdsBelow(r.0, if topic in ix.topics then next else next + 1)
  {
  }

  lemma SubscribeKeepsLinked(ix: Index, next: nat, s: Session, topic: Topic, r: (Index, SubscriptionId))
    requires WellFormed(ix, next) && s in ix.sessionSubs
    requires r == SubscribeIndex(ix, s, topic, next)
    ensures Linked(r.0)
  {
    var (after, sub) := r;
    if topic in ix.topics {
      assert TopicBacked(ix, topic);
    } else {
      assert sub !in ix.subscriptions;
    }
    assert after.subscriptions[sub].topic == topic;
    forall t | t in after.topics ensures TopicBacked(after, t) {
      if t != topic {
        assert TopicBacked(ix, t);
        assert ix.topics[t].subscription != sub;
      }
    }
    forall x, y | x in after.subscriptions && y in after.subscriptions[x].subscribers
      ensures y in after.sessionSubs && x in after.sessionSubs[y]
    {
      SubscribeLinksBack(ix, next, s, topic, r, x, y);
    }
  }

  lemma SubscribeLinksBack(ix: Index, next: nat, s: Session, topic: Topic, r: (Index, SubscriptionId),
                           x: SubscriptionId, y: Session)
    requires Linked(ix) && s in ix.sessionSubs
    requires r == SubscribeIndex(ix, s, topic, next)
    requires x in r.0.subscriptions && y in r.0.subscriptions[x].subscribers
    ensures y in r.0.sessionSubs && x in r.0.sessionSubs[y]
  {
    if x != r.1 || y != s {
      assert x in ix.subscriptions && y in ix.subscriptions[x].subscribers;
    }
  }

  lemma SubscribeKeepsMirrored(ix: Index, next: nat, retired: set<Session>, s: Session, topic: Topic)
    requires WellFormed(ix, next) && Mirrored(ix, retired) && s in ix.sessionSubs
    ensures Mirrored(SubscribeIndex(ix, s, topic, next).0, retired)
  {
    SubscribeKeepsWellFormed(ix, next, s, topic);
    var r := SubscribeIndex(ix, s, topic, next);
    SubscribeMirrorsTopics(ix, next, retired, s, topic, r);
    SubscribeMirrorsSubscriptions(ix, next, retired, s, topic, r);
    SubscribeMirrorsSessions(ix, next, retired, s, topic, r);
  }

  /** After subscribe a live session's own set still lists only
      subscriptions it is in; the subscriber's new id is in its entry. */
  lemma SubscribeMirrorsSessions(ix: Index, next: nat, retired: set<Session>, s: Session, topic: Topic,
                                 r: (Index, SubscriptionId))
    requires Mirrored(ix, retired) && s in ix.sessionSubs
    requires r == SubscribeIndex(ix, s, topic, next)
    ensures SessionsMirrored(r.0, retired)
  {
    forall x, y | x in r.0.sessionSubs && x !in retired && y in r.0.sessionSubs[x]
      ensures y in r.0.subscriptions && x in r.0.subscriptions[y].subscribers
    {
      SubscribeMirrorsSession(ix, next, retired, s, topic, r, x, y);
    }
  }

  lemma SubscribeMirrorsSession(ix: Index, next: nat, retired: set<Session>, s: Session, topic: Topic,
                                r: (Index, SubscriptionId), x: Session, y: SubscriptionId)
    requires SessionsMirrored(ix, retired) && s in ix.sessionSubs
    requires r == SubscribeIndex(ix, s, topic, next)
    requires x in r.0.sessionSubs && x !in retired && y in r.0.sessionSubs[x]
    ensures y in r.0.subscriptions && x in r.0.subscriptions[y].subscribers
  {
    if y == r.1 {
      if x != s {
        assert y in ix.sessionSubs[x];
        assert x in ix.subscriptions[y].subscribers;
      }
    } else {
      assert y in ix.sessionSubs[x];
      assert x in ix.subscriptions[y].subscribers;
    }
  }

  /** After subscribe each topic still has the subscribers of its
      subscription: a new topic gets a fresh id no other topic holds. */
  lemma SubscribeMirrorsTopics(ix: Index, next: nat, retired: set<Session>, s: Session, topic: Topic,
                               r: (Index, SubscriptionId))
    requires WellFormed(ix, next) && Mirrored(ix, retired) && s in ix.sessionSubs
    requires r == SubscribeIndex(ix, s, topic, next)
    ensures TopicsMirrored(r.0)
  {
    forall t | t in r.0.topics
      ensures r.0.topics[t].subscription in r.0.subscriptions
      ensures r.0.subscriptions[r.0.topics[t].subscription].subscribers == r.0.topics[t].subscribers
    {
      SubscribeMirrorsTopic(ix, next, retired, s, topic, r, t);
    }
  }

  lemma SubscribeMirrorsTopic(ix: Index, next: nat, retired: set<Session>, s: Session, topic: Topic,
                              r: (Index, SubscriptionId), t: Topic)
    requires WellFormed(ix, next) && Mirrored(ix, retired) && s in ix.sessionSubs
    requires r == SubscribeIndex(ix, s, topic, next) && t in r.0.topics
    ensures r.0.topics[t].subscription in r.0.subscriptions
    ensures r.0.subscriptions[r.0.topics[t].subscription].subscribers == r.0.topics[t].subscribers
  {
    if t != topic {
      assert ix.topics[t].subscription != r.1;
    }
  }

  /** After subscribe each subscription is still its topic's: a fresh id
      names no older subscription, whose topic is then not the new one. */
  lemma SubscribeMirrorsSubscriptions(ix: Index, next: nat, retired: set<Session>, s: Session, topic: Topic,
                                      r: (Index, SubscriptionId))
    requires WellFormed(ix, next) && Mirrored(ix, retired) && s in ix.sessionSubs
    requires r == SubscribeIndex(ix, s, topic, next)
    ensures SubscriptionsMirrored(r.0)
  {
    var sub := r.1;
    if topic !in ix.topics {
      assert sub !in ix.subscriptions;
      forall x | x in ix.subscriptions ensures ix.subscriptions[x].topic != topic {
      }
    }
    forall x | x in r.0.subscriptions
      ensures r.0.subscriptions[x].topic in r.0.topics && r.0.topics[r.0.subscriptions[x].topic].subscription == x
    {
      if x != sub {
        assert ix.subscriptions[x].topic != topic;
      }
    }
  }

  // ------------------------------------------------- unsubscribe and removeSession

  /** The topics of the subscriptions in `held` that have an entry. */
  function TopicsOf(subs: map<SubscriptionId, SubscriptionEntry>, held: set<SubscriptionId>): set<Topic>
  {
    set sub | sub in held && sub in subs :: subs[sub].topic
  }

  /** The subscription side after the session is discarded from every
      subscription in `held`, each entry deleted once nobody is left. */
  function SubscriptionsWithout(m: map<SubscriptionId, SubscriptionEntry>, s: Session, held: set<SubscriptionId>)
    : (r: map<SubscriptionId, SubscriptionEntry>)
    ensures forall sub :: sub in r ==> sub in m && r[sub].topic == m[sub].topic && r[sub].subscribers <= m[sub].subscribers
    ensures forall sub :: sub in r && sub in held ==> s !in r[sub].subscribers && r[sub].subscribers != {}
    ensures forall sub :: sub in m && sub !in held ==> sub in r && r[sub] == m[sub]
    ensures forall sub :: sub in m && sub in held ==> (sub in r <==> m[sub].subscribers - {s} != {})
    ensures forall sub :: sub in r && sub in held ==> r[sub].subscribers == m[sub].subscribers - {s}
  {
    map sub | sub in m && (sub !in held || m[sub].subscribers - {s} != {}) ::
      if sub in held then m[sub].(subscribers := m[sub].subscribers - {s}) else m[sub]
  }

  /** The topic side after the session is discarded from every topic in
      `touched`, each entry deleted once nobody is left. */
  function TopicsWithout(m: map<Topic, TopicEntry>, s: Session, touched: set<Topic>)
    : (r: map<Topic, TopicEntry>)
    ensures forall t :: t in r && t in touched ==> s !in r[t].subscribers && r[t].subscribers != {}
    ensures forall t :: t in m && t !in touched ==> t in r && r[t] == m[t]
    ensures forall t :: t in r ==> t in m && r[t].subscription == m[t].subscription && r[t].subscribers <= m[t].subscribers
    ensures forall t :: t in m && t in touched ==> (t in r <==> m[t].subscribers - {s} != {})
    ensures forall t :: t in r && t in touched ==> r[t].subscribers == m[t].subscribers - {s}
  {
    map t | t in m && (t !in touched || m[t].subscribers - {s} != {}) ::
      if t in touched then m[t].(subscribers := m[t].subscribers - {s}) else m[t]
  }

  /** The session discarded from the subscriptions in `held` and from their
      topics, emptied entries deleted: the cleanup removeSession runs over all
      the session's subscriptions and unsubscribe runs over one. */
  function DropSubscriber(ix: Index, s: Session, held: set<SubscriptionId>): (r: Index)
    ensures r.sessionSubs == ix.sessionSubs && r.sessionById == ix.sessionById
    ensures forall sub :: sub in r.subscriptions && sub in held ==> s !in r.subscriptions[sub].subscribers
    ensures forall t :: t in r.topics && t in TopicsOf(ix.subscriptions, held) ==> s !in r.topics[t].subscribers
    ensures forall sub :: sub in ix.subscriptions && sub !in held ==>
              sub in r.subscriptions && r.subscriptions[sub] == ix.subscriptions[sub]
    ensures forall t :: t in ix.topics && t !in TopicsOf(ix.subscriptions, held) ==> t in r.topics && r.topics[t] == ix.topics[t]
  {
    ix.(subscriptions := SubscriptionsWithout(ix.subscriptions, s, held),
        topics := TopicsWithout(ix.topics, s, TopicsOf(ix.subscriptions, held)))
  }

  /** Every subscription in `subs` has an entry, and so does its topic. */
  predicate HasEntries(ix: Index, subs: set<SubscriptionId>)
  {
    forall sub :: sub in subs ==> sub in ix.subscriptions && ix.subscriptions[sub].topic in ix.topics
  }

  /** removeSession can walk the session's subscriptions without a KeyError:
      each has an entry whose topic has an entry, and no two share a topic
      (the first would otherwise be able to delete the topic the second
      looks up). */
  predicate Removable(ix: Index, s: Session)
    requires s in ix.sessionSubs
  {
    var held := ix.sessionSubs[s];
    && HasEntries(ix, held)
    && (forall a, b :: a in held && b in held && a != b ==>
          ix.subscriptions[a].topic != ix.subscriptions[b].topic)
  }

  /** removeSession is bound to raise KeyError: some subscription the
      session holds has no entry, or its topic has none. */
  predicate MissesEntry(ix: Index, s: Session)
    requires s in ix.sessionSubs
  {
    !HasEntries(ix, ix.sessionSubs[s])
  }

  /** removeSession's walk over `subs` finds every entry it looks up: each
      subscription and its topic have entries, and when two of them share a
      topic, the topic is still there for the second one, because the first
      discard left someone other than the session in it. */
  predicate WalkSucceeds(ix: Index, s: Session, subs: set<SubscriptionId>)
  {
    && HasEntries(ix, subs)
    && (forall a, b :: a in subs && b in subs && a != b && ix.subscriptions[a].topic == ix.subscriptions[b].topic ==>
          ix.topics[ix.subscriptions[a].topic].subscribers - {s} != {})
  }

  /** The dictionaries removeSession's walk leaves when it stops with a
      KeyError at `sub` after cleaning up `done`: the topic side is cleaned
      through `done`, and the subscription side through `done`, plus `sub`
      itself when its entry was there and only its topic's was missing. */
  predicate InterruptedAt(ix: Index, s: Session, done: set<SubscriptionId>, sub: SubscriptionId,
                          byTopic: map<Topic, TopicEntry>, bySubscription: map<SubscriptionId, SubscriptionEntry>)
  {
    var cleaned := SubscriptionsWithout(ix.subscriptions, s, done);
    && byTopic == TopicsWithout(ix.topics, s, TopicsOf(ix.subscriptions, done))
    && bySubscription == (if sub in cleaned then SubscriptionsWithout(ix.subscriptions, s, done + {sub}) else cleaned)
  }

  /** A removable session's walk succeeds, and one with a missing entry
      does not. */
  lemma WalkSucceedsBetween(ix: Index, s: Session)
    requires s in ix.sessionSubs
    ensures Removable(ix, s) ==> WalkSucceeds(ix, s, ix.sessionSubs[s])
    ensures MissesEntry(ix, s) ==> !WalkSucceeds(ix, s, ix.sessionSubs[s])
  {
  }

  /** The walk over `done` succeeded; the next subscription `sub` is found,
      with its topic, in the dictionaries as that walk left them exactly when
      the walk over `done + {sub}` succeeds too. */
  lemma WalkStep(ix: Index, s: Session, done: set<SubscriptionId>, sub: SubscriptionId)
    requires WalkSucceeds(ix, s, done) && sub !in done
    ensures var bySubscription := SubscriptionsWithout(ix.subscriptions, s, done);
            var byTopic := TopicsWithout(ix.topics, s, TopicsOf(ix.subscriptions, done));
            WalkSucceeds(ix, s, done + {sub}) <==> sub in bySubscription && bySubscription[sub].topic in byTopic
  {
    if sub in ix.subscriptions {
      if ix.subscriptions[sub].topic in TopicsOf(ix.subscriptions, done) {
        WalkStepShared(ix, s, done, sub);
      } else {
        WalkStepFresh(ix, s, done, sub);
      }
    }
  }

  /** The step when an earlier subscription of the walk has the same topic. */
  lemma WalkStepShared(ix: Index, s: Session, done: set<SubscriptionId>, sub: SubscriptionId)
    requires WalkSucceeds(ix, s, done) && sub !in done
    requires sub in ix.subscriptions && ix.subscriptions[sub].topic in TopicsOf(ix.subscriptions, done)
    ensures var bySubscription := SubscriptionsWithout(ix.subscriptions, s, done);
            var byTopic := TopicsWithout(ix.topics, s, TopicsOf(ix.subscriptions, done));
            WalkSucceeds(ix, s, done + {sub}) <==> sub in bySubscription && bySubscription[sub].topic in byTopic
  {
    var bySubscription := SubscriptionsWithout(ix.subscriptions, s, done);
    var touched := TopicsOf(ix.subscriptions, done);
    var byTopic := TopicsWithout(ix.topics, s, touched);
    var t := ix.subscriptions[sub].topic;
    assert sub in bySubscription && bySubscription[sub].topic == t;
    var a :| a in done && a in ix.subscriptions && ix.subscriptions[a].topic == t;
    if WalkSucceeds(ix, s, done + {sub}) {
      assert ix.topics[t].subscribers - {s} != {};
    }
    if t in byTopic {
      assert ix.topics[t].subscribers - {s} != {};
      assert HasEntries(ix, done + {sub});
    }
  }

  /** The step when no earlier subscription of the walk has the same topic. */
  lemma WalkStepFresh(ix: Index, s: Session, done: set<SubscriptionId>, sub: SubscriptionId)
    requires WalkSucceeds(ix, s, done) && sub !in done
    requires sub in ix.subscriptions && ix.subscriptions[sub].topic !in TopicsOf(ix.subscriptions, done)
    ensures var bySubscription := SubscriptionsWithout(ix.subscriptions, s, done);
            var byTopic := TopicsWithout(ix.topics, s, TopicsOf(ix.subscriptions, done));
            WalkSucceeds(ix, s, done + {sub}) <==> sub in bySubscription && bySubscription[sub].topic in byTopic
  {
    var bySubscription := SubscriptionsWithout(ix.subscriptions, s, done);
    var touched := TopicsOf(ix.subscriptions, done);
    var t := ix.subscriptions[sub].topic;
    assert sub in bySubscription && bySubscription[sub].topic == t;
    forall y | y in done ensures ix.subscriptions[y].topic != t {
      assert ix.subscriptions[y].topic in touched;
    }
  }

  /** A walk that succeeds over a set of subscriptions succeeds over any
      part of it. */
  lemma WalkShrinks(ix: Index, s: Session, part: set<SubscriptionId>, subs: set<SubscriptionId>)
    requires part <= subs
    ensures WalkSucceeds(ix, s, subs) ==> WalkSucceeds(ix, s, part)
  {
  }

  /** One more subscription of the session handled: the topic of `sub`
      joins the touched topics. */
  lemma TopicsOfStep(subs: map<SubscriptionId, SubscriptionEntry>, done: set<SubscriptionId>, sub: SubscriptionId)
    requires sub in subs
    ensures TopicsOf(subs, done + {sub}) == TopicsOf(subs, done) + {subs[sub].topic}
  {
  }

  /** Discarding the session from one more subscription entry, and deleting
      the entry if that empties it, extends the cleanup by that subscription. */
  lemma SubscriptionsWithoutStep(m: map<SubscriptionId, SubscriptionEntry>, s: Session,
                                 done: set<SubscriptionId>, sub: SubscriptionId)
    requires sub in m && sub !in done
    ensures var cur := SubscriptionsWithout(m, s, done);
            var e := cur[sub];
            var u := cur[sub := e.(subscribers := e.subscribers - {s})];
            && e == m[sub]
            && (if u[sub].subscribers == {} then u - {sub} else u) == SubscriptionsWithout(m, s, done + {sub})
  {
    var cur := SubscriptionsWithout(m, s, done);
    var e := cur[sub];
    var u := cur[sub := e.(subscribers := e.subscribers - {s})];
    var v := if u[sub].subscribers == {} then u - {sub} else u;
    var w := SubscriptionsWithout(m, s, done + {sub});
    assert v.Keys == w.Keys;
    forall x | x in v ensures v[x] == w[x] {
    }
  }

  /** Discarding the session from one more topic entry, and deleting the
      entry if that empties it, extends the cleanup by that topic (a topic
      already touched only loses the session again, which changes nothing). */
  lemma TopicsWithoutStep(m: map<Topic, TopicEntry>, s: Session, touched: set<Topic>, t: Topic)
    requires t in TopicsWithout(m, s, touched)
    ensures var cur := TopicsWithout(m, s, touched);
            var e := cur[t];
            var u := cur[t := e.(subscribers := e.subscribers - {s})];
            (if u[t].subscribers == {} then u - {t} else u) == TopicsWithout(m, s, touched + {t})
  {
    var cur := TopicsWithout(m, s, touched);
    var e := cur[t];
    var u := cur[t := e.(subscribers := e.subscribers - {s})];
    var v := if u[t].subscribers == {} then u - {t} else u;
    var w := TopicsWithout(m, s, touched + {t});
    assert v.Keys == w.Keys;
    forall x | x in v ensures v[x] == w[x] {
    }
  }

  /** unsubscribe's two discards are the cleanup restricted to one
      subscription and its topic. */
  lemma UnsubscribeSteps(ix: Index, s: Session, sub: SubscriptionId)
    requires sub in ix.subscriptions
    ensures var e := ix.subscriptions[sub];
            var u := ix.subscriptions[sub := e.(subscribers := e.subscribers - {s})];
            (if u[sub].subscribers == {} then u - {sub} else u) == SubscriptionsWithout(ix.subscriptions, s, {sub})
    ensures TopicsOf(ix.subscriptions, {sub}) == {ix.subscriptions[sub].topic}
    ensures var t := ix.subscriptions[sub].topic;
            t in ix.topics ==>
              var e := ix.topics[t];
              var u := ix.topics[t := e.(subscribers := e.subscribers - {s})];
              (if u[t].subscribers == {} then u - {t} else u) == TopicsWithout(ix.topics, s, {t})
  {
    var none: set<SubscriptionId> := {};
    assert SubscriptionsWithout(ix.subscriptions, s, none) == ix.subscriptions;
    assert none + {sub} == {sub};
    SubscriptionsWithoutStep(ix.subscriptions, s, none, sub);
    var t := ix.subscriptions[sub].topic;
    if t in ix.topics {
      var untouched: set<Topic> := {};
      assert TopicsWithout(ix.topics, s, untouched) == ix.topics;
      assert untouched + {t} == {t};
      TopicsWithoutStep(ix.topics, s, untouched, t);
    }
  }

  /** Unsubscribing from a subscription that a first SUBSCRIBE just created
      restores the index exactly. */
  lemma UnsubscribeUndoesSubscribe(ix: Index, next: nat, s: Session, topic: Topic)
    requires IdsBelow(ix, next) && s in ix.sessionSubs && topic !in ix.topics
    ensures var (r, sub) := SubscribeIndex(ix, s, topic, next);
            s in r.sessionSubs && UnsubscribeIndex(r, s, sub) == ix
  {
    var (r, sub) := SubscribeIndex(ix, s, topic, next);
    var back := UnsubscribeIndex(r, s, sub);
    assert sub !in ix.subscriptions && sub !in ix.sessionSubs[s];
    assert r.subscriptions[sub] == SubscriptionEntry(topic, {s});
    assert r.topics[topic].subscribers == {s};
    assert sub !in back.subscriptions && topic !in back.topics;
    assert back.subscriptions == ix.subscriptions;
    assert back.topics == ix.topics;
    assert ix.sessionSubs[s] + {sub} - {sub} == ix.sessionSubs[s];
    assert back.sessionSubs == ix.sessionSubs;
  }

  lemma DropKeepsWellFormed(ix: Index, next: nat, s: Session, held: set<SubscriptionId>)
    requires WellFormed(ix, next)
    ensures WellFormed(DropSubscriber(ix, s, held), next)
  {
    DropKeepsLinked(ix, s, held);
  }

  lemma DropKeepsLinked(ix: Index, s: Session, held: set<SubscriptionId>)
    requires Linked(ix)
    ensures Linked(DropSubscriber(ix, s, held))
  {
    var r := DropSubscriber(ix, s, held);
    var touched := TopicsOf(ix.subscriptions, held);
    forall t | t in r.topics ensures TopicBacked(r, t) {
      assert TopicBacked(ix, t);
      var sub := ix.topics[t].subscription;
      if sub in held {
        assert t in touched;
        assert r.topics[t].subscribers <= ix.subscriptions[sub].subscribers - {s};
      }
    }
  }

  /** After removeSession's cleanup the session is in no subscriber set at all. */
  lemma DropLeavesNoTrace(ix: Index, next: nat, s: Session)
    requires WellFormed(ix, next) && s in ix.sessionSubs
    ensures var r := DropSubscriber(ix, s, ix.sessionSubs[s]);
            && (forall sub :: sub in r.subscriptions ==> s !in r.subscriptions[sub].subscribers)
            && (forall t :: t in r.topics ==> s !in r.topics[t].subscribers)
  {
    var r := DropSubscriber(ix, s, ix.sessionSubs[s]);
    DropKeepsWellFormed(ix, next, s, ix.sessionSubs[s]);
    forall sub | sub in r.subscriptions ensures s !in r.subscriptions[sub].subscribers {
      if sub !in ix.sessionSubs[s] {
        assert r.subscriptions[sub] == ix.subscriptions[sub];
      }
    }
    forall t | t in r.topics ensures s !in r.topics[t].subscribers {
      assert TopicBacked(r, t);
    }
  }

  /** Under the mirror invariant a session that has not been removed yet can
      always be removed without a KeyError. */
  lemma MirroredRemovable(ix: Index, retired: set<Session>, s: Session)
    requires Mirrored(ix, retired) && s in ix.sessionSubs && s !in retired
    ensures Removable(ix, s)
  {
    var held := ix.sessionSubs[s];
    forall a, b | a in held && b in held && a != b
      ensures ix.subscriptions[a].topic != ix.subscriptions[b].topic
    {
      assert a in ix.subscriptions && b in ix.subscriptions;
    }
  }

  /** What removeSession's cleanup leaves behind when it completes: the
      links hold, the session is in no subscriber set, and a mirrored index
      stays mirrored once the session is retired. */
  lemma RemoveSessionKeeps(ix: Index, next: nat, retired: set<Session>, s: Session, r: Index)
    requires WellFormed(ix, next) && s in ix.sessionSubs
    requires r == DropSubscriber(ix, s, ix.sessionSubs[s])
    ensures WellFormed(r, next)
    ensures forall sub :: sub in r.subscriptions ==> s !in r.subscriptions[sub].subscribers
    ensures forall t :: t in r.topics ==> s !in r.topics[t].subscribers
    ensures Mirrored(ix, retired) ==> Mirrored(r, retired + {s})
  {
    DropKeepsWellFormed(ix, next, s, ix.sessionSubs[s]);
    DropLeavesNoTrace(ix, next, s);
    if Mirrored(ix, retired) {
      DropKeepsMirrored(ix, retired, s, ix.sessionSubs[s]);
    }
  }

  /** The subscriptions whose topic is touched are exactly the held ones,
      when the index is mirrored. */
  lemma MirroredTouched(ix: Index, retired: set<Session>, held: set<SubscriptionId>, t: Topic)
    requires Mirrored(ix, retired) && t in ix.topics
    ensures t in TopicsOf(ix.subscriptions, held) <==> ix.topics[t].subscription in held
  {
    if t in TopicsOf(ix.subscriptions, held) {
      var sub :| sub in held && sub in ix.subscriptions && ix.subscriptions[sub].topic == t;
      assert ix.topics[t].subscription == sub;
    }
    if ix.topics[t].subscription in held {
      assert TopicBacked(ix, t);
    }
  }

  /** The cleanup keeps the mirror, and the dropped session joins `retired`
      (its own entry keeps the ids it held). */
  lemma DropKeepsMirrored(ix: Index, retired: set<Session>, s: Session, held: set<SubscriptionId>)
    requires Mirrored(ix, retired) && s in ix.sessionSubs
    requires held == ix.sessionSubs[s]
    ensures Mirrored(DropSubscriber(ix, s, held), retired + {s})
  {
    var r := DropSubscriber(ix, s, held);
    var touched := TopicsOf(ix.subscriptions, held);
    DropKeepsLinked(ix, s, held);
    forall t | t in r.topics
      ensures r.topics[t].subscription in r.subscriptions
      ensures r.subscriptions[r.topics[t].subscription].subscribers == r.topics[t].subscribers
    {
      MirroredTouched(ix, retired, held, t);
      assert TopicBacked(r, t);
    }
    forall sub | sub in r.subscriptions
      ensures r.subscriptions[sub].topic in r.topics
      ensures r.topics[r.subscriptions[sub].topic].subscription == sub
    {
      var t := ix.subscriptions[sub].topic;
      MirroredTouched(ix, retired, held, t);
    }
    forall x, sub | x in r.sessionSubs && x !in retired + {s} && sub in r.sessionSubs[x]
      ensures sub in r.subscriptions && x in r.subscriptions[sub].subscribers
    {
      assert x in ix.subscriptions[sub].subscribers;
    }
  }

  /** unsubscribe on the index: the cleanup for one subscription, and the id
      dropped from the caller's own set. */
  function UnsubscribeIndex(ix: Index, s: Session, sub: SubscriptionId): (r: Index)
    requires s in ix.sessionSubs
    ensures r.sessionById == ix.sessionById && r.sessionSubs.Keys == ix.sessionSubs.Keys
    ensures r.sessionSubs[s] == ix.sessionSubs[s] - {sub}
    ensures forall x :: x in ix.sessionSubs && x != s ==> r.sessionSubs[x] == ix.sessionSubs[x]
    ensures forall x :: x in ix.subscriptions && x != sub ==> x in r.subscriptions && r.subscriptions[x] == ix.subscriptions[x]
    ensures r.subscriptions.Keys <= ix.subscriptions.Keys && r.topics.Keys <= ix.topics.Keys
    ensures sub in ix.subscriptions ==>
              var e := ix.subscriptions[sub];
              && (sub in r.subscriptions <==> e.subscribers - {s} != {})
              && (sub in r.subscriptions ==> r.subscriptions[sub] == e.(subscribers := e.subscribers - {s}))
              && (e.topic in ix.topics ==>
                    var te := ix.topics[e.topic];
                    && (e.topic in r.topics <==> te.subscribers - {s} != {})
                    && (e.topic in r.topics ==> r.topics[e.topic] == te.(subscribers := te.subscribers - {s})))
    ensures forall t :: t in ix.topics && (sub !in ix.subscriptions || t != ix.subscriptions[sub].topic) ==>
              t in r.topics && r.topics[t] == ix.topics[t]
  {
    assert sub in ix.subscriptions ==> TopicsOf(ix.subscriptions, {sub}) == {ix.subscriptions[sub].topic};
    assert sub !in ix.subscriptions ==> TopicsOf(ix.subscriptions, {sub}) == {};
    DropSubscriber(ix, s, {sub}).(sessionSubs := ix.sessionSubs[s := ix.sessionSubs[s] - {sub}])
  }

  lemma UnsubscribeKeepsWellFormed(ix: Index, next: nat, s: Session, sub: SubscriptionId)
    requires WellFormed(ix, next) && s in ix.sessionSubs
    ensures WellFormed(UnsubscribeIndex(ix, s, sub), next)
  {
    UnsubscribeKeepsLinked(ix, s, sub);
  }

  /** Unsubscribe stopped by the KeyError: the caller has left the
      subscription's set, the topics are untouched, and the index is still
      well formed, since no topic names a subscription whose topic has no
      entry. */
  lemma UnsubscribeKeyErrorKeepsWellFormed(ix: Index, next: nat, s: Session, sub: SubscriptionId)
    requires WellFormed(ix, next)
    requires sub in ix.subscriptions && ix.subscriptions[sub].topic !in ix.topics
    ensures WellFormed(ix.(subscriptions := SubscriptionsWithout(ix.subscriptions, s, {sub})), next)
  {
    var r := ix.(subscriptions := SubscriptionsWithout(ix.subscriptions, s, {sub}));
    forall t | t in r.topics ensures TopicBacked(r, t) {
      assert TopicBacked(ix, t);
      assert ix.topics[t].subscription != sub;
    }
  }

  /** removeSession stopped by the KeyError at the topic of `sub`, after
      the subscriptions in `done` were cleaned and the session discarded from
      `sub`'s own entry: the index is still well formed. */
  lemma InterruptedDropKeepsWellFormed(ix: Index, next: nat, s: Session, done: set<SubscriptionId>, sub: SubscriptionId)
    requires WellFormed(ix, next)
    requires sub in ix.subscriptions && sub !in done
    requires ix.subscriptions[sub].topic !in TopicsWithout(ix.topics, s, TopicsOf(ix.subscriptions, done))
    ensures WellFormed(ix.(subscriptions := SubscriptionsWithout(ix.subscriptions, s, done + {sub}),
                           topics := TopicsWithout(ix.topics, s, TopicsOf(ix.subscriptions, done))), next)
  {
    var d := DropSubscriber(ix, s, done);
    DropKeepsWellFormed(ix, next, s, done);
    SubscriptionsWithoutStep(ix.subscriptions, s, done, sub);
    UnsubscribeSteps(d, s, sub);
    UnsubscribeKeyErrorKeepsWellFormed(d, next, s, sub);
  }

  lemma UnsubscribeKeepsLinked(ix: Index, s: Session, sub: SubscriptionId)
    requires Linked(ix) && s in ix.sessionSubs
    ensures Linked(UnsubscribeIndex(ix, s, sub))
  {
    DropKeepsLinked(ix, s, {sub});
    var d := DropSubscriber(ix, s, {sub});
    var r := UnsubscribeIndex(ix, s, sub);
    forall t | t in r.topics ensures TopicBacked(r, t) {
      assert TopicBacked(d, t);
    }
    forall x, y | x in r.subscriptions && y in r.subscriptions[x].subscribers
      ensures y in r.sessionSubs && x in r.sessionSubs[y]
    {
      assert y in d.sessionSubs && x in d.sessionSubs[y];
    }
  }

  /** Under the mirror invariant unsubscribing from a known subscription
      finds its topic (no KeyError) and keeps the mirror. */
  lemma UnsubscribeKeepsMirrored(ix: Index, retired: set<Session>, s: Session, sub: SubscriptionId)
    requires Mirrored(ix, retired) && s in ix.sessionSubs && sub in ix.subscriptions
    ensures ix.subscriptions[sub].topic in ix.topics
    ensures Mirrored(UnsubscribeIndex(ix, s, sub), retired)
  {
    var r := UnsubscribeIndex(ix, s, sub);
    UnsubscribeKeepsLinked(ix, s, sub);
    UnsubscribeMirrorsTopics(ix, retired, s, sub, r);
    UnsubscribeMirrorsSubscriptions(ix, retired, s, sub, r);
    UnsubscribeMirrorsSessions(ix, retired, s, sub, r);
  }


  /** After unsubscribe each remaining topic still has the subscribers of
      its subscription. */
  lemma UnsubscribeMirrorsTopics(ix: Index, retired: set<Session>, s: Session, sub: SubscriptionId, r: Index)
    requires Mirrored(ix, retired) && s in ix.sessionSubs && sub in ix.subscriptions
    requires r == UnsubscribeIndex(ix, s, sub)
    ensures TopicsMirrored(r)
  {
    forall t | t in r.topics
      ensures r.topics[t].subscription in r.subscriptions
      ensures r.subscriptions[r.topics[t].subscription].subscribers == r.topics[t].subscribers
    {
      MirroredTouched(ix, retired, {sub}, t);
    }
  }

  /** After unsubscribe each remaining subscription is still its topic's. */
  lemma UnsubscribeMirrorsSubscriptions(ix: Index, retired: set<Session>, s: Session, sub: SubscriptionId, r: Index)
    requires Mirrored(ix, retired) && s in ix.sessionSubs && sub in ix.subscriptions
    requires r == UnsubscribeIndex(ix, s, sub)
    ensures SubscriptionsMirrored(r)
  {
    forall x | x in r.subscriptions
      ensures r.subscriptions[x].topic in r.topics
      ensures r.topics[r.subscriptions[x].topic].subscription == x
    {
      MirroredTouched(ix, retired, {sub}, ix.subscriptions[x].topic);
    }
  }

  /** After unsubscribe a live session's own set still lists only
      subscriptions it is in. */
  lemma UnsubscribeMirrorsSessions(ix: Index, retired: set<Session>, s: Session, sub: SubscriptionId, r: Index)
    requires Mirrored(ix, retired) && s in ix.sessionSubs && sub in ix.subscriptions
    requires r == UnsubscribeIndex(ix, s, sub)
    ensures SessionsMirrored(r, retired)
  {
    forall x, y | x in r.sessionSubs && x !in retired && y in r.sessionSubs[x]
      ensures y in r.subscriptions && x in r.subscriptions[y].subscribers
    {
      UnsubscribeMirrorsSession(ix, retired, s, sub, r, x, y);
    }
  }

  lemma UnsubscribeMirrorsSession(ix: Index, retired: set<Session>, s: Session, sub: SubscriptionId, r: Index,
                                  x: Session, y: SubscriptionId)
    requires Mirrored(ix, retired) && s in ix.sessionSubs && sub in ix.subscriptions
    requires r == UnsubscribeIndex(ix, s, sub)
    requires x in r.sessionSubs && x !in retired && y in r.sessionSubs[x]
    ensures y in r.subscriptions && x in r.subscriptions[y].subscribers
  {
    assert y in ix.sessionSubs[x];
    assert x in ix.subscriptions[y].subscribers;
    if y == sub {
      assert x != s;
      assert x in ix.subscriptions[y].subscribers - {s};
    }
  }
}
