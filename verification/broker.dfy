/** The broker role: the object holding the four dictionaries, the id
    allocator and the outgoing messages, and the operations the session layer
    calls on it (addSession, removeSession, processMessage and the three
    message handlers). Each operation is stated against a step of the whole
    broker state below. */
module WampBroker {
  import opened Wamp
  import opened SubscriptionIndex
  import opened Routing

  /** Everything a broker operation can change: the index, the id counter and
      every message handed to a transport so far. */
  datatype BrokerState = BrokerState(ix: Index, nextId: nat, outbox: seq<Delivery>)

  /** SUBSCRIBE: the session joins the topic's subscription, created with a
      freshly drawn id when the topic has no entry, and gets one SUBSCRIBED
      reply. */
  function SubscribeNext(st: BrokerState, s: Session, request: RequestId, topic: Topic): (r: BrokerState)
    requires s in st.ix.sessionSubs
    ensures r.nextId == if topic in st.ix.topics then st.nextId else st.nextId + 1
    ensures topic in r.ix.topics && s in r.ix.topics[topic].subscribers
    ensures var sub := r.ix.topics[topic].subscription;
            && (topic in st.ix.topics ==> sub == st.ix.topics[topic].subscription)
            && (topic !in st.ix.topics ==> sub == st.nextId)
            && sub in r.ix.subscriptions && s in r.ix.subscriptions[sub].subscribers
            && s in r.ix.sessionSubs && sub in r.ix.sessionSubs[s]
            && r.outbox == st.outbox + [(s, Subscribed(s.id, request, sub))]
    ensures r.ix.sessionById == st.ix.sessionById
    ensures r.ix.topics.Keys == st.ix.topics.Keys + {topic}
    ensures r.ix.topics[topic].subscribers == (if topic in st.ix.topics then st.ix.topics[topic].subscribers else {}) + {s}
    ensures forall t :: t in st.ix.topics && t != topic ==> r.ix.topics[t] == st.ix.topics[t]
    ensures var sub := r.ix.topics[topic].subscription;
            && r.ix.subscriptions.Keys == st.ix.subscriptions.Keys + {sub}
            && r.ix.subscriptions[sub].subscribers ==
                 (if sub in st.ix.subscriptions then st.ix.subscriptions[sub].subscribers else {}) + {s}
            && (forall x :: x in st.ix.subscriptions && x != sub ==> r.ix.subscriptions[x] == st.ix.subscriptions[x])
            && r.ix.sessionSubs[s] == st.ix.sessionSubs[s] + {sub}
    ensures r.ix.sessionSubs.Keys == st.ix.sessionSubs.Keys
    ensures forall x :: x in st.ix.sessionSubs && x != s ==> r.ix.sessionSubs[x] == st.ix.sessionSubs[x]
  {
    var next := SubscribeIndex(st.ix, s, topic, st.nextId);
    BrokerState(next.0, if topic in st.ix.topics then st.nextId else st.nextId + 1,
                st.outbox + [(s, Subscribed(s.id, request, next.1))])
  }

  /** Both invariants survive a SUBSCRIBE. */
  lemma SubscribeNextKeeps(st: BrokerState, s: Session, request: RequestId, topic: Topic,
                           retired: set<Session>, r: BrokerState)
    requires s in st.ix.sessionSubs && r == SubscribeNext(st, s, request, topic)
    ensures WellFormed(st.ix, st.nextId) ==> WellFormed(r.ix, r.nextId)
    ensures WellFormed(st.ix, st.nextId) && Mirrored(st.ix, retired) ==> Mirrored(r.ix, retired)
  {
    if WellFormed(st.ix, st.nextId) {
      SubscribeKeepsWellFormed(st.ix, st.nextId, s, topic);
      if Mirrored(st.ix, retired) {
        SubscribeKeepsMirrored(st.ix, st.nextId, retired, s, topic);
      }
    }
  }

  /** A repeated SUBSCRIBE gets the same subscription id, draws no id and
      changes no dictionary; it only sends the second reply. */
  lemma SubscribeTwice(st: BrokerState, s: Session, request: RequestId, request': RequestId, topic: Topic)
    requires s in st.ix.sessionSubs
    ensures var once := SubscribeNext(st, s, request, topic);
            var twice := SubscribeNext(once, s, request', topic);
            && twice.ix == once.ix && twice.nextId == once.nextId
            && twice.outbox[|once.outbox| - 1].1.subscription == twice.outbox[|once.outbox|].1.subscription
  {
    var once := SubscribeNext(st, s, request, topic);
    SubscribeIdempotent(st.ix, s, topic, st.nextId, once.nextId);
  }

  /** UNSUBSCRIBE: an unknown subscription id gets an ERROR with
      no_such_subscription and changes nothing; a known one removes the caller
      on both sides (deleting emptied entries) and from its own set, and gets
      UNSUBSCRIBED whether or not the caller was subscribed; a known one whose
      topic entry is gone raises KeyError after the subscription side changed. */
  function UnsubscribeNext(st: BrokerState, s: Session, request: RequestId, sub: SubscriptionId): (r: (Outcome, BrokerState))
    requires s in st.ix.sessionSubs
    ensures r.0 != ProtocolError && r.1.nextId == st.nextId
    ensures sub !in st.ix.subscriptions ==>
              && r.0 == Ok && r.1.ix == st.ix
              && r.1.outbox == st.outbox + [(s, Error(s.id, UnsubscribeRequest, request, NoSuchSubscription))]
    ensures r.0 == KeyError <==> sub in st.ix.subscriptions && st.ix.subscriptions[sub].topic !in st.ix.topics
    ensures r.0 == KeyError ==> r.1.outbox == st.outbox && r.1.ix.topics == st.ix.topics
    ensures r.0 == Ok && sub in st.ix.subscriptions ==>
              var topic := st.ix.subscriptions[sub].topic;
              && r.1.outbox == st.outbox + [(s, Unsubscribed(s.id, request))]
              && s in r.1.ix.sessionSubs && sub !in r.1.ix.sessionSubs[s]
              && (sub in r.1.ix.subscriptions ==> s !in r.1.ix.subscriptions[sub].subscribers)
              && (st.ix.subscriptions[sub].subscribers <= {s} ==> sub !in r.1.ix.subscriptions)
              && (topic in r.1.ix.topics ==> s !in r.1.ix.topics[topic].subscribers)
              && (st.ix.topics[topic].subscribers <= {s} ==> topic !in r.1.ix.topics)
  {
    if sub !in st.ix.subscriptions then
      (Ok, st.(outbox := st.outbox + [(s, Error(s.id, UnsubscribeRequest, request, NoSuchSubscription))]))
    else if st.ix.subscriptions[sub].topic !in st.ix.topics then
      (KeyError, st.(ix := st.ix.(subscriptions := SubscriptionsWithout(st.ix.subscriptions, s, {sub}))))
    else
      assert TopicsOf(st.ix.subscriptions, {sub}) == {st.ix.subscriptions[sub].topic};
      (Ok, BrokerState(UnsubscribeIndex(st.ix, s, sub), st.nextId, st.outbox + [(s, Unsubscribed(s.id, request))]))
  }

  /** UNSUBSCRIBE of a known subscription spelled out step by step: the
      caller discarded from the subscription's set (the entry deleted once
      empty), then the KeyError if the topic has no entry, else the caller
      discarded from the topic's set (the entry deleted once empty) and from
      its own set, and the reply. */
  lemma UnsubscribeNextSteps(st: BrokerState, s: Session, request: RequestId, sub: SubscriptionId)
    requires s in st.ix.sessionSubs && sub in st.ix.subscriptions
    ensures var e := st.ix.subscriptions[sub];
            var u := st.ix.subscriptions[sub := e.(subscribers := e.subscribers - {s})];
            var subs := if u[sub].subscribers == {} then u - {sub} else u;
            && (e.topic !in st.ix.topics ==>
                  UnsubscribeNext(st, s, request, sub) == (KeyError, st.(ix := st.ix.(subscriptions := subs))))
            && (e.topic in st.ix.topics ==>
                  var te := st.ix.topics[e.topic];
                  var v := st.ix.topics[e.topic := te.(subscribers := te.subscribers - {s})];
                  var topics := if v[e.topic].subscribers == {} then v - {e.topic} else v;
                  UnsubscribeNext(st, s, request, sub) ==
                    (Ok, BrokerState(Index(st.ix.sessionSubs[s := st.ix.sessionSubs[s] - {sub}], st.ix.sessionById, topics, subs),
                                     st.nextId, st.outbox + [(s, Unsubscribed(s.id, request))])))
  {
    UnsubscribeSteps(st.ix, s, sub);
  }

  /** An UNSUBSCRIBE keeps the links, even when it ends in the KeyError;
      from a mirrored index it always ends normally and stays mirrored. */
  lemma UnsubscribeNextKeeps(st: BrokerState, s: Session, request: RequestId, sub: SubscriptionId,
                             retired: set<Session>, r: (Outcome, BrokerState))
    requires s in st.ix.sessionSubs
    requires r == UnsubscribeNext(st, s, request, sub)
    ensures WellFormed(st.ix, st.nextId) ==> WellFormed(r.1.ix, r.1.nextId)
    ensures Mirrored(st.ix, retired) ==> r.0 == Ok && Mirrored(r.1.ix, retired)
  {
    if sub in st.ix.subscriptions {
      if WellFormed(st.ix, st.nextId) {
        if st.ix.subscriptions[sub].topic in st.ix.topics {
          UnsubscribeKeepsWellFormed(st.ix, st.nextId, s, sub);
        } else {
          UnsubscribeKeyErrorKeepsWellFormed(st.ix, st.nextId, s, sub);
        }
      }
      if Mirrored(st.ix, retired) {
        UnsubscribeKeepsMirrored(st.ix, retired, s, sub);
      }
    }
  }

  /** The subscription a topic's EVENTs carry (no EVENT is sent for a topic
      without an entry, so the value then does not matter). */
  function SubscriptionOf(ix: Index, topic: Topic): SubscriptionId
  {
    if topic in ix.topics then ix.topics[topic].subscription else 0
  }

  /** The PUBLISHED acknowledgement, when one was requested. */
  function Acknowledgement(s: Session, p: PublishRequest, publication: PublicationId): seq<Delivery>
  {
    if p.acknowledge then [(s, Published(s.id, p.request, publication))] else []
  }

  /** The messages appended for a publication: the optional PUBLISHED first,
      then one EVENT per receiver in some order. */
  predicate Sent(outbox: seq<Delivery>, outbox': seq<Delivery>, s: Session, p: PublishRequest,
                 publication: PublicationId, subscription: SubscriptionId, receivers: set<Session>)
  {
    var k := |outbox| + |Acknowledgement(s, p, publication)|;
    && |outbox'| >= k
    && outbox'[..k] == outbox + Acknowledgement(s, p, publication)
    && FanOut(outbox'[k..], receivers, subscription, publication, p, s)
  }

  /** The optional PUBLISHED followed by a fan-out is what `Sent` asks for. */
  lemma SentFromParts(outbox: seq<Delivery>, head: seq<Delivery>, events: seq<Delivery>, s: Session, p: PublishRequest,
                      publication: PublicationId, subscription: SubscriptionId, receivers: set<Session>)
    requires head == outbox + Acknowledgement(s, p, publication)
    requires FanOut(events, receivers, subscription, publication, p, s)
    ensures Sent(outbox, head + events, s, p, publication, subscription, receivers)
  {
    assert (head + events)[..|head|] == head;
    assert (head + events)[|head|..] == events;
  }

  /** The messages of a PUBLISH: a publication id is drawn, then the
      messages above go to the receivers the index and the request select. */
  predicate Delivered(st: BrokerState, st': BrokerState, s: Session, p: PublishRequest)
  {
    && st'.nextId == st.nextId + 1
    && Sent(st.outbox, st'.outbox, s, p, st.nextId, SubscriptionOf(st.ix, p.topic), Receivers(st.ix, s, p))
  }

  /** PUBLISH as written: the messages above, and the index change the alias
      makes. */
  predicate PublishStep(st: BrokerState, st': BrokerState, s: Session, p: PublishRequest)
  {
    st'.ix == PublishIndex(st.ix, s, p) && Delivered(st, st', s, p)
  }

  /** How many messages a publication adds, and the PUBLISHED among them:
      exactly one, to the publisher and ahead of every EVENT, when
      acknowledgement was asked for, and none otherwise. */
  lemma SentAcknowledgement(outbox: seq<Delivery>, outbox': seq<Delivery>, s: Session, p: PublishRequest,
                            publication: PublicationId, subscription: SubscriptionId, receivers: set<Session>)
    requires Sent(outbox, outbox', s, p, publication, subscription, receivers)
    ensures |outbox'| == |outbox| + (if p.acknowledge then 1 else 0) + |receivers|
    ensures outbox'[..|outbox|] == outbox
    ensures forall i :: |outbox| <= i < |outbox'| ==> (outbox'[i].1.Published? <==> p.acknowledge && i == |outbox|)
    ensures p.acknowledge ==> outbox'[|outbox|] == (s, Published(s.id, p.request, publication))
  {
    var n := |outbox|;
    var ack := Acknowledgement(s, p, publication);
    var k := n + |ack|;
    FanOutSize(outbox'[k..], receivers, subscription, publication, p, s);
    assert outbox'[..n] == (outbox'[..k])[..n];
    forall i | n <= i < |outbox'|
      ensures outbox'[i].1.Published? <==> p.acknowledge && i == n
    {
      if i < k {
        assert outbox'[i] == outbox'[..k][i];
      } else {
        assert outbox'[i] == outbox'[k..][i - k];
      }
    }
    if p.acknowledge {
      assert outbox'[n] == outbox'[..k][n];
    }
  }

  /** The EVENTs of a publication: each goes to a receiver, addressed with
      that receiver's own session id, and carries the subscription, the
      publication id and the payload, and the publisher's id exactly when
      disclosure was asked for; each receiver gets one, and no receiver two. */
  lemma SentEvents(outbox: seq<Delivery>, outbox': seq<Delivery>, s: Session, p: PublishRequest,
                   publication: PublicationId, subscription: SubscriptionId, receivers: set<Session>)
    requires Sent(outbox, outbox', s, p, publication, subscription, receivers)
    ensures forall i :: |outbox| <= i < |outbox'| && outbox'[i].1.Event? ==>
              && outbox'[i].0 in receivers
              && outbox'[i].1.sessionId == outbox'[i].0.id
              && outbox'[i].1.subscription == subscription
              && outbox'[i].1.publication == publication
              && outbox'[i].1.args == p.args && outbox'[i].1.kwargs == p.kwargs
              && outbox'[i].1.publisher == (if p.discloseMe then Some(s.id) else None)
    ensures forall x :: x in receivers ==>
              exists i :: |outbox| <= i < |outbox'| && outbox'[i].0 == x && outbox'[i].1.Event?
    ensures forall i, j :: |outbox| <= i < j < |outbox'| && outbox'[i].1.Event? && outbox'[j].1.Event? ==>
              outbox'[i].0 != outbox'[j].0
  {
    SentEventsAddressed(outbox, outbox', s, p, publication, subscription, receivers);
    SentEventsReachAll(outbox, outbox', s, p, publication, subscription, receivers);
    SentEventsDistinct(outbox, outbox', s, p, publication, subscription, receivers);
  }

  lemma SentEventsAddressed(outbox: seq<Delivery>, outbox': seq<Delivery>, s: Session, p: PublishRequest,
                            publication: PublicationId, subscription: SubscriptionId, receivers: set<Session>)
    requires Sent(outbox, outbox', s, p, publication, subscription, receivers)
    ensures forall i :: |outbox| <= i < |outbox'| && outbox'[i].1.Event? ==>
              outbox'[i].0 in receivers && outbox'[i].1 == EventTo(outbox'[i].0, subscription, publication, p, s)
  {
    var k := |outbox| + |Acknowledgement(s, p, publication)|;
    SentSplit(outbox, outbox', s, p, publication, subscription, receivers);
    forall i | |outbox| <= i < |outbox'| && outbox'[i].1.Event?
      ensures outbox'[i].0 in receivers && outbox'[i].1 == EventTo(outbox'[i].0, subscription, publication, p, s)
    {
      assert outbox'[i] == outbox'[k..][i - k];
    }
  }

  lemma SentEventsReachAll(outbox: seq<Delivery>, outbox': seq<Delivery>, s: Session, p: PublishRequest,
                           publication: PublicationId, subscription: SubscriptionId, receivers: set<Session>)
    requires Sent(outbox, outbox', s, p, publication, subscription, receivers)
    ensures forall x :: x in receivers ==>
              exists i :: |outbox| <= i < |outbox'| && outbox'[i].0 == x && outbox'[i].1.Event?
  {
    var k := |outbox| + |Acknowledgement(s, p, publication)|;
    var events := outbox'[k..];
    forall x | x in receivers
      ensures exists i :: |outbox| <= i < |outbox'| && outbox'[i].0 == x && outbox'[i].1.Event?
    {
      var j :| 0 <= j < |events| && events[j].0 == x;
      assert outbox'[k + j] == events[j];
    }
  }

  lemma SentEventsDistinct(outbox: seq<Delivery>, outbox': seq<Delivery>, s: Session, p: PublishRequest,
                           publication: PublicationId, subscription: SubscriptionId, receivers: set<Session>)
    requires Sent(outbox, outbox', s, p, publication, subscription, receivers)
    ensures forall i, j :: |outbox| <= i < j < |outbox'| && outbox'[i].1.Event? && outbox'[j].1.Event? ==>
              outbox'[i].0 != outbox'[j].0
  {
    var k := |outbox| + |Acknowledgement(s, p, publication)|;
    var events := outbox'[k..];
    SentSplit(outbox, outbox', s, p, publication, subscription, receivers);
    forall i, j | |outbox| <= i < j < |outbox'| && outbox'[i].1.Event? && outbox'[j].1.Event?
      ensures outbox'[i].0 != outbox'[j].0
    {
      assert outbox'[i] == events[i - k] && outbox'[j] == events[j - k];
    }
  }

  /** Past the old outbox, only the fan-out part of what `Sent` describes
      holds EVENTs. */
  lemma SentSplit(outbox: seq<Delivery>, outbox': seq<Delivery>, s: Session, p: PublishRequest,
                  publication: PublicationId, subscription: SubscriptionId, receivers: set<Session>)
    requires Sent(outbox, outbox', s, p, publication, subscription, receivers)
    ensures var k := |outbox| + |Acknowledgement(s, p, publication)|;
            && (forall i :: |outbox| <= i < k ==> !outbox'[i].1.Event?)
            && (forall i :: k <= i < |outbox'| ==> outbox'[i] == outbox'[k..][i - k])
  {
    var k := |outbox| + |Acknowledgement(s, p, publication)|;
    forall i | |outbox| <= i < k
      ensures !outbox'[i].1.Event?
    {
      assert outbox'[i] == outbox'[..k][i];
    }
  }

  /** Whether handling `msg` is a publish that discards a subscribed publisher
      through the alias: the one step that can break the mirror. */
  predicate DropsPublisher(ix: Index, s: Session, msg: Inbound)
  {
    msg.Publish? && DiscardsThroughAlias(ix, s, msg.publish) && s in ix.topics[msg.publish.topic].subscribers
  }

  /** The dictionary updates of subscribe: the topic entry created with
      `newId` when missing, then the session added to the topic's set, to the
      subscription's set (created when missing) and to its own set. */
  method SubscribeEntries(ix: Index, session: Session, topic: Topic, newId: SubscriptionId)
    returns (byTopic: map<Topic, TopicEntry>, bySubscription: map<SubscriptionId, SubscriptionEntry>,
             bySession: map<Session, set<SubscriptionId>>, subscription: SubscriptionId)
    requires session in ix.sessionSubs
    ensures (ix.(topics := byTopic, subscriptions := bySubscription, sessionSubs := bySession), subscription)
            == SubscribeIndex(ix, session, topic, newId)
  {
    ghost var expected := SubscribeIndex(ix, session, topic, newId);
    byTopic, bySubscription, bySession := ix.topics, ix.subscriptions, ix.sessionSubs;
    if topic !in byTopic {
      byTopic := byTopic[topic := TopicEntry(newId, {})];
    }
    subscription := byTopic[topic].subscription;
    var subscribers := byTopic[topic].subscribers;
    if session !in subscribers {
      byTopic := byTopic[topic := TopicEntry(subscription, subscribers + {session})];
    } else {
      assert subscribers + {session} == subscribers;
    }
    assert byTopic == expected.0.topics;
    if subscription !in bySubscription {
      bySubscription := bySubscription[subscription := SubscriptionEntry(topic, {})];
    }
    var entry := bySubscription[subscription];
    if session !in entry.subscribers {
      bySubscription := bySubscription[subscription := entry.(subscribers := entry.subscribers + {session})];
    } else {
      assert entry.(subscribers := entry.subscribers + {session}) == entry;
    }
    assert bySubscription == expected.0.subscriptions;
    if subscription !in bySession[session] {
      bySession := bySession[session := bySession[session] + {subscription}];
    } else {
      assert bySession[session] + {subscription} == bySession[session];
    }
    assert bySession == expected.0.sessionSubs;
  }

  /** One pass of removeSession's loop: the session discarded from the
      subscription's entry and then from its topic's entry, each deleted once
      empty. A missing entry is a KeyError. */
  method DiscardOne(ghost ix: Index, ghost next: nat, session: Session, ghost done: set<SubscriptionId>, sub: SubscriptionId,
                    byTopic: map<Topic, TopicEntry>, bySubscription: map<SubscriptionId, SubscriptionEntry>)
    returns (outcome: Outcome, byTopic': map<Topic, TopicEntry>, bySubscription': map<SubscriptionId, SubscriptionEntry>)
    requires sub !in done
    requires bySubscription == SubscriptionsWithout(ix.subscriptions, session, done)
    requires byTopic == TopicsWithout(ix.topics, session, TopicsOf(ix.subscriptions, done))
    ensures outcome == Ok || outcome == KeyError
    ensures outcome == KeyError <==> sub !in bySubscription || bySubscription[sub].topic !in byTopic
    ensures outcome == Ok ==> sub in ix.subscriptions && ix.subscriptions[sub].topic in ix.topics
    ensures sub !in bySubscription ==> bySubscription' == bySubscription && byTopic' == byTopic
    ensures outcome == KeyError && sub in bySubscription ==>
              && bySubscription' == SubscriptionsWithout(ix.subscriptions, session, done + {sub})
              && byTopic' == byTopic
    ensures (&& sub in ix.subscriptions && ix.subscriptions[sub].topic in ix.topics
             && ix.subscriptions[sub].topic !in TopicsOf(ix.subscriptions, done)) ==> outcome == Ok
    ensures outcome == Ok ==>
              && bySubscription' == SubscriptionsWithout(ix.subscriptions, session, done + {sub})
              && byTopic' == TopicsWithout(ix.topics, session, TopicsOf(ix.subscriptions, done + {sub}))
    ensures WalkSucceeds(ix, session, done) ==> (outcome == Ok <==> WalkSucceeds(ix, session, done + {sub}))
    ensures outcome == KeyError && WellFormed(ix, next) ==>
              WellFormed(ix.(topics := byTopic', subscriptions := bySubscription'), next)
    ensures outcome == KeyError ==> InterruptedAt(ix, session, done, sub, byTopic', bySubscription')
  {
    if WalkSucceeds(ix, session, done) {
      WalkStep(ix, session, done, sub);
    }
    byTopic', bySubscription' := byTopic, bySubscription;
    if sub !in bySubscription' {
      if WellFormed(ix, next) {
        DropKeepsWellFormed(ix, next, session, done);
      }
      return KeyError, byTopic', bySubscription';
    }
    var entry := bySubscription'[sub];
    var topic := entry.topic;
    SubscriptionsWithoutStep(ix.subscriptions, session, done, sub);
    TopicsOfStep(ix.subscriptions, done, sub);
    bySubscription' := bySubscription'[sub := entry.(subscribers := entry.subscribers - {session})];
    if bySubscription'[sub].subscribers == {} {
      bySubscription' := bySubscription' - {sub};
    }
    if topic !in byTopic' {
      if WellFormed(ix, next) {
        InterruptedDropKeepsWellFormed(ix, next, session, done, sub);
      }
      return KeyError, byTopic', bySubscription';
    }
    TopicsWithoutStep(ix.topics, session, TopicsOf(ix.subscriptions, done), topic);
    var tentry := byTopic'[topic];
    byTopic' := byTopic'[topic := tentry.(subscribers := tentry.subscribers - {session})];
    if byTopic'[topic].subscribers == {} {
      byTopic' := byTopic' - {topic};
    }
    outcome := Ok;
  }

  /** One pass of the loop of removeSession, stated in terms of the
      subscriptions the walk has still `todo`: a normal end moves `sub` to the
      done ones, a KeyError shows the whole walk over `held` fails. */
  method DiscardNext(ghost ix: Index, ghost next: nat, session: Session, ghost held: set<SubscriptionId>,
                     ghost todo: set<SubscriptionId>, sub: SubscriptionId,
                     byTopic: map<Topic, TopicEntry>, bySubscription: map<SubscriptionId, SubscriptionEntry>)
    returns (outcome: Outcome, byTopic': map<Topic, TopicEntry>, bySubscription': map<SubscriptionId, SubscriptionEntry>)
    requires todo <= held && sub in todo
    requires bySubscription == SubscriptionsWithout(ix.subscriptions, session, held - todo)
    requires byTopic == TopicsWithout(ix.topics, session, TopicsOf(ix.subscriptions, held - todo))
    requires WalkSucceeds(ix, session, held - todo)
    ensures outcome == Ok || outcome == KeyError
    ensures outcome == Ok ==>
              && bySubscription' == SubscriptionsWithout(ix.subscriptions, session, held - (todo - {sub}))
              && byTopic' == TopicsWithout(ix.topics, session, TopicsOf(ix.subscriptions, held - (todo - {sub})))
              && WalkSucceeds(ix, session, held - (todo - {sub}))
    ensures outcome == KeyError ==>
              && !WalkSucceeds(ix, session, held)
              && !WalkSucceeds(ix, session, (held - todo) + {sub})
              && InterruptedAt(ix, session, held - todo, sub, byTopic', bySubscription')
              && (WellFormed(ix, next) ==> WellFormed(ix.(topics := byTopic', subscriptions := bySubscription'), next))
  {
    ghost var done := held - todo;
    outcome, byTopic', bySubscription' := DiscardOne(ix, next, session, done, sub, byTopic, bySubscription);
    DoneGrows(held, todo, sub);
    WalkShrinks(ix, session, done + {sub}, held);
  }

  /** Moving `sub` from the ones left to do to the ones done. */
  lemma DoneGrows(held: set<SubscriptionId>, todo: set<SubscriptionId>, sub: SubscriptionId)
    requires todo <= held && sub in todo
    ensures held - (todo - {sub}) == (held - todo) + {sub}
  {
  }

  /** The loop of removeSession: the session is discarded from each of its
      subscriptions and from that subscription's topic, emptied entries are
      deleted, and a missing entry stops the walk with a KeyError. Returns
      the topic and subscription dictionaries as they stand when the walk
      ends. */
  method DiscardEverywhere(ix: Index, ghost next: nat, session: Session)
    returns (outcome: Outcome, byTopic: map<Topic, TopicEntry>, bySubscription: map<SubscriptionId, SubscriptionEntry>)
    requires session in ix.sessionSubs
    ensures outcome == Ok || outcome == KeyError
    ensures WellFormed(ix, next) ==> WellFormed(ix.(topics := byTopic, subscriptions := bySubscription), next)
    ensures Removable(ix, session) ==> outcome == Ok
    ensures MissesEntry(ix, session) ==> outcome == KeyError
    ensures outcome == Ok <==> WalkSucceeds(ix, session, ix.sessionSubs[session])
    ensures outcome == KeyError ==>
              var held := ix.sessionSubs[session];
              exists done, sub ::
                && done <= held && sub in held && sub !in done
                && WalkSucceeds(ix, session, done) && !WalkSucceeds(ix, session, done + {sub})
                && InterruptedAt(ix, session, done, sub, byTopic, bySubscription)
    ensures outcome == Ok ==>
              var held := ix.sessionSubs[session];
              && bySubscription == SubscriptionsWithout(ix.subscriptions, session, held)
              && byTopic == TopicsWithout(ix.topics, session, TopicsOf(ix.subscriptions, held))
  {
    var held := ix.sessionSubs[session];
    var todo := held;
    byTopic, bySubscription := ix.topics, ix.subscriptions;
    outcome := Ok;
    assert held - todo == {};
    while todo != {}
      invariant todo <= held
      invariant bySubscription == SubscriptionsWithout(ix.subscriptions, session, held - todo)
      invariant byTopic == TopicsWithout(ix.topics, session, TopicsOf(ix.subscriptions, held - todo))
      invariant outcome == Ok
      invariant WalkSucceeds(ix, session, held - todo)
      decreases |todo|
    {
      var sub :| sub in todo;
      outcome, byTopic, bySubscription := DiscardNext(ix, next, session, held, todo, sub, byTopic, bySubscription);
      if outcome == KeyError {
        ghost var done := held - todo;
        assert done <= held && sub in held && sub !in done;
        WalkSucceedsBetween(ix, session);
        return;
      }
      todo := todo - {sub};
    }
    assert held - todo == held;
    WalkSucceedsBetween(ix, session);
    if WellFormed(ix, next) {
      DropKeepsWellFormed(ix, next, session, held);
    }
  }

  class Broker {
    /** session -> ids of its subscriptions (for removeSession) */
    var sessionSubs: map<Session, set<SubscriptionId>>
    /** session id -> session (for eligible and exclude) */
    var sessionById: map<SessionId, Session>
    /** topic -> (subscription, subscribers) (for publish and subscribe) */
    var topics: map<Topic, TopicEntry>
    /** subscription -> (topic, subscribers) (for unsubscribe) */
    var subscriptions: map<SubscriptionId, SubscriptionEntry>
    /** the next id the allocator hands out */
    var nextId: nat
    /** every message handed to a session's transport, in order */
    var outbox: seq<Delivery>
    /** sessions already passed to RemoveSession */
    ghost var retired: set<Session>

    function Snapshot(): Index
      reads this
    {
      SubscriptionIndex.Index(sessionSubs, sessionById, topics, subscriptions)
    }

    function State(): BrokerState
      reads this
    {
      BrokerState(Snapshot(), nextId, outbox)
    }

    ghost predicate Valid()
      reads this
    {
      WellFormed(Snapshot(), nextId)
    }

    ghost predicate IsMirrored()
      reads this
    {
      Mirrored(Snapshot(), retired)
    }

    constructor ()
      ensures Valid() && IsMirrored()
      ensures Snapshot() == Empty && nextId == 0 && outbox == [] && retired == {}
    {
      sessionSubs, sessionById, topics, subscriptions := map[], map[], map[], map[];
      nextId, outbox := 0, [];
      retired := {};
      new;
      EmptyIsMirrored({});
    }

    /** The id allocator: a counter, so every id drawn is new. */
    method NewId() returns (id: nat)
      modifies this`nextId
      ensures id == old(nextId) && nextId == old(nextId) + 1
    {
      id := nextId;
      nextId := nextId + 1;
    }

    method AddSession(session: Session)
      requires session !in sessionSubs
      modifies this
      ensures session in sessionSubs && sessionSubs[session] == {}
      ensures session.id in sessionById && sessionById[session.id] == session
      ensures Snapshot() == Register(old(Snapshot()), session)
      ensures nextId == old(nextId) && outbox == old(outbox) && retired == old(retired)
      ensures old(Valid()) ==> Valid()
      ensures old(Valid()) && old(IsMirrored()) ==> IsMirrored()
    {
      if Valid() {
        RegisterKeepsInvariants(Snapshot(), nextId, retired, session);
      }
      sessionSubs := sessionSubs[session := {}];
      sessionById := sessionById[session.id := session];
    }

    method RemoveSession(session: Session) returns (outcome: Outcome)
      requires session in sessionSubs
      modifies this
      ensures outcome == Ok || outcome == KeyError
      ensures Removable(old(Snapshot()), session) ==> outcome == Ok
      ensures MissesEntry(old(Snapshot()), session) ==> outcome == KeyError
      ensures outcome == Ok <==> WalkSucceeds(old(Snapshot()), session, old(sessionSubs[session]))
      ensures outcome == KeyError ==>
                exists done, sub ::
                  && done <= old(sessionSubs[session]) && sub in old(sessionSubs[session]) && sub !in done
                  && WalkSucceeds(old(Snapshot()), session, done) && !WalkSucceeds(old(Snapshot()), session, done + {sub})
                  && InterruptedAt(old(Snapshot()), session, done, sub, topics, subscriptions)
      ensures outcome == Ok ==> Snapshot() == DropSubscriber(old(Snapshot()), session, old(sessionSubs[session]))
      ensures old(Valid()) ==> Valid()
      ensures old(Valid()) && outcome == Ok ==>
                && (forall sub :: sub in subscriptions ==> session !in subscriptions[sub].subscribers)
                && (forall t :: t in topics ==> session !in topics[t].subscribers)
      ensures sessionSubs == old(sessionSubs) && sessionById == old(sessionById)
      ensures nextId == old(nextId) && outbox == old(outbox)
      ensures retired == old(retired) + {session}
      ensures old(IsMirrored()) && session !in old(retired) ==> outcome == Ok && IsMirrored()
    {
      var before := Snapshot();
      retired := retired + {session};
      outcome, topics, subscriptions := DiscardEverywhere(before, nextId, session);
      if outcome == Ok {
        ghost var after := DropSubscriber(before, session, before.sessionSubs[session]);
        assert Snapshot() == after;
        if old(Valid()) {
          RemoveSessionKeeps(before, nextId, old(retired), session, after);
        }
        if old(IsMirrored()) {
          DropKeepsMirrored(before, old(retired), session, before.sessionSubs[session]);
        }
      }
      if old(IsMirrored()) && session !in old(retired) {
        MirroredRemovable(before, old(retired), session);
      }
    }

    method ProcessMessage(session: Session, msg: Inbound) returns (outcome: Outcome)
      requires session in sessionSubs
      modifies this
      ensures retired == old(retired)
      ensures match msg
        case Publish(p) => outcome == Ok && PublishStep(old(State()), State(), session, p)
        case Subscribe(request, topic) => outcome == Ok && State() == SubscribeNext(old(State()), session, request, topic)
        case Unsubscribe(request, sub) => (outcome, State()) == UnsubscribeNext(old(State()), session, request, sub)
        case Unexpected(_) => outcome == ProtocolError && State() == old(State())
      ensures old(Valid()) ==> Valid()
      ensures old(Valid()) && old(IsMirrored()) && !DropsPublisher(old(Snapshot()), session, msg) ==>
                outcome != KeyError && IsMirrored()
    {
      match msg
      case Publish(p) =>
        ProcessPublish(session, p);
        outcome := Ok;
      case Subscribe(request, topic) =>
        ProcessSubscribe(session, request, topic);
        outcome := Ok;
      case Unsubscribe(request, sub) =>
        outcome := ProcessUnsubscribe(session, request, sub);
      case Unexpected(_) =>
        outcome := ProtocolError;
    }

    method ProcessPublish(session: Session, p: PublishRequest)
      requires session in sessionSubs
      modifies this
      ensures PublishStep(old(State()), State(), session, p)
      ensures retired == old(retired)
      ensures old(Valid()) ==> Valid()
      ensures old(IsMirrored()) && !DropsPublisher(old(Snapshot()), session, Publish(p)) ==> IsMirrored()
    {
      ghost var before := State();
      var subscription, receivers, aliased := SelectReceivers(session, p);
      if aliased && (p.excludeMe.None? || !p.excludeMe.value) {
        // `receivers` is the set stored for the topic: discarding the
        // publisher from it changes the topic side of the index
        topics := topics[p.topic := TopicEntry(subscription, receivers)];
        assert before.ix.topics[p.topic].subscribers - {session} == receivers;
      }
      assert Snapshot() == PublishIndex(before.ix, session, p);
      Deliver(session, p, subscription, receivers);
      PublishKeeps(before.ix, before.nextId, retired, session, p, Snapshot());
    }

    /** The publish with the receivers computed on a copy of the topic's
        subscriber set: it leaves the index as it is. */
    method ProcessPublishCopying(session: Session, p: PublishRequest)
      requires session in sessionSubs
      modifies this
      ensures Snapshot() == old(Snapshot()) && Delivered(old(State()), State(), session, p)
      ensures retired == old(retired)
      ensures old(Valid()) ==> Valid()
      ensures old(IsMirrored()) ==> IsMirrored()
    {
      var subscription, receivers, _ := SelectReceivers(session, p);
      Deliver(session, p, subscription, receivers);
    }

    /** The receiver computation of a publish: the topic's subscription and
        the receivers, and whether `receivers` is still the very set stored
        for the topic (no eligible or exclude filter replaced it). */
    method SelectReceivers(session: Session, p: PublishRequest)
      returns (subscription: SubscriptionId, receivers: set<Session>, aliased: bool)
      ensures subscription == SubscriptionOf(Snapshot(), p.topic)
      ensures receivers == Receivers(Snapshot(), session, p)
      ensures aliased <==> p.topic in topics && Resolved(p.eligible, sessionById) == {} &&
                           Resolved(p.exclude, sessionById) == {}
      ensures aliased && (p.excludeMe.None? || !p.excludeMe.value) ==>
                receivers == topics[p.topic].subscribers - {session}
    {
      if p.topic in topics {
        ghost var eligibleSessions := Resolved(p.eligible, sessionById);
        ghost var excludedSessions := Resolved(p.exclude, sessionById);
        subscription, receivers := topics[p.topic].subscription, topics[p.topic].subscribers;
        aliased := true;
        if p.eligible != [] {
          var eligible := ResolveSessions(p.eligible, sessionById);
          ListsExactly(eligible, eligibleSessions);
          if eligible != [] {
            receivers := (set x | x in eligible) * receivers;
            aliased := false;
          }
        }
        if p.exclude != [] {
          var exclude := ResolveSessions(p.exclude, sessionById);
          ListsExactly(exclude, excludedSessions);
          if exclude != [] {
            receivers := receivers - (set x | x in exclude);
            aliased := false;
          }
        }
        if p.excludeMe.None? || !p.excludeMe.value {
          receivers := receivers - {session};
        }
      } else {
        subscription, receivers, aliased := 0, {}, false;
      }
    }

    /** Draws the publication id, sends the acknowledgement when asked for,
        then one EVENT per receiver. */
    method Deliver(session: Session, p: PublishRequest, subscription: SubscriptionId, receivers: set<Session>)
      modifies this`nextId, this`outbox
      ensures nextId == old(nextId) + 1
      ensures Sent(old(outbox), outbox, session, p, old(nextId), subscription, receivers)
    {
      var publication := NewId();
      if p.acknowledge {
        outbox := outbox + [(session, Published(session.id, p.request, publication))];
      }
      // The EVENTs are collected in send order and appended together.
      ghost var head := outbox;
      assert head == old(outbox) + Acknowledgement(session, p, publication);
      var events: seq<Delivery> := [];
      if receivers != {} {
        var todo := receivers;
        while todo != {}
          invariant todo <= receivers
          invariant outbox == head && nextId == old(nextId) + 1
          invariant FanOut(events, receivers - todo, subscription, publication, p, session)
          decreases |todo|
        {
          var receiver :| receiver in todo;
          FanOutExtend(events, receivers - todo, receiver, subscription, publication, p, session);
          events := events + [(receiver, EventTo(receiver, subscription, publication, p, session))];
          assert receivers - (todo - {receiver}) == (receivers - todo) + {receiver};
          todo := todo - {receiver};
        }
        assert receivers - todo == receivers;
      }
      SentFromParts(old(outbox), outbox, events, session, p, publication, subscription, receivers);
      outbox := outbox + events;
    }

    method ProcessSubscribe(session: Session, request: RequestId, topic: Topic)
      requires session in sessionSubs
      modifies this
      ensures State() == SubscribeNext(old(State()), session, request, topic)
      ensures retired == old(retired)
      ensures old(Valid()) ==> Valid()
      ensures old(Valid()) && old(IsMirrored()) ==> IsMirrored()
    {
      ghost var before := State();
      // The id a new topic gets: drawn from the allocator only when the
      // topic has no entry yet.
      var drawn := nextId;
      if topic !in topics {
        drawn := NewId();
      }
      var byTopic, bySubscription, bySession, subscription := SubscribeEntries(Snapshot(), session, topic, drawn);
      topics, subscriptions, sessionSubs := byTopic, bySubscription, bySession;
      outbox := outbox + [(session, Subscribed(session.id, request, subscription))];
      SubscribeNextKeeps(before, session, request, topic, retired, State());
    }

    method ProcessUnsubscribe(session: Session, request: RequestId, subscription: SubscriptionId)
      returns (outcome: Outcome)
      requires session in sessionSubs
      modifies this
      ensures (outcome, State()) == UnsubscribeNext(old(State()), session, request, subscription)
      ensures old(Valid()) ==> Valid()
      ensures retired == old(retired)
      ensures old(IsMirrored()) ==> outcome == Ok && IsMirrored()
    {
      ghost var before := State();
      if subscription in subscriptions {
        UnsubscribeNextSteps(before, session, request, subscription);
        // The dictionaries are updated on local copies and stored back;
        // nothing observes the broker in between.
        var byTopic, bySubscription := topics, subscriptions;
        var entry := bySubscription[subscription];
        var topic := entry.topic;
        bySubscription := bySubscription[subscription := entry.(subscribers := entry.subscribers - {session})];
        if bySubscription[subscription].subscribers == {} {
          bySubscription := bySubscription - {subscription};
        }
        subscriptions := bySubscription;
        if topic !in byTopic {
          outcome := KeyError;
          UnsubscribeNextKeeps(before, session, request, subscription, retired, (outcome, State()));
          return;
        }
        var tentry := byTopic[topic];
        byTopic := byTopic[topic := tentry.(subscribers := tentry.subscribers - {session})];
        if byTopic[topic].subscribers == {} {
          byTopic := byTopic - {topic};
        }
        topics := byTopic;
        sessionSubs := sessionSubs[session := sessionSubs[session] - {subscription}];
        outbox := outbox + [(session, Unsubscribed(session.id, request))];
      } else {
        outbox := outbox + [(session, Error(session.id, UnsubscribeRequest, request, NoSuchSubscription))];
      }
      outcome := Ok;
      UnsubscribeNextKeeps(before, session, request, subscription, retired, (outcome, State()));
    }
  }
}
