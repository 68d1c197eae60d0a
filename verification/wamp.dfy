/** Vocabulary of the WAMP broker role: identifiers, sessions and the
    messages the broker reads (Publish, Subscribe, Unsubscribe) and writes
    (Published, Event, Subscribed, Unsubscribed, Error). Only the fields the
    broker touches are kept; the wire encoding is not modelled. */
module Wamp {

  datatype Option<T> = None | Some(value: T)

  type SessionId = nat
  type SubscriptionId = nat
  type PublicationId = nat
  type RequestId = nat
  type Topic = string

  /** A joined client session. The broker only holds a reference to it and
      reads its protocol-level session id; identity is object identity. */
  class Session {
    const id: SessionId

    constructor (id: SessionId)
      ensures this.id == id
    {
      this.id := id;
    }
  }

  /** The fields of a PUBLISH the broker reads. A missing `eligible` or
      `exclude` list behaves like an empty one, and a missing `acknowledge`
      or `discloseMe` like false; `excludeMe` keeps its three values. */
  datatype PublishRequest = PublishRequest(
    request: RequestId,
    topic: Topic,
    args: seq<string>,
    kwargs: map<string, string>,
    acknowledge: bool,
    eligible: seq<SessionId>,
    exclude: seq<SessionId>,
    excludeMe: Option<bool>,
    discloseMe: bool)

  /** Messages a session hands to the broker. `Unexpected` stands for every
      other message class (CALL, REGISTER, ...), named by its kind. */
  datatype Inbound =
    | Publish(publish: PublishRequest)
    | Subscribe(request: RequestId, topic: Topic)
    | Unsubscribe(request: RequestId, subscription: SubscriptionId)
    | Unexpected(kind: string)

  /** The request kind an ERROR reply refers to. */
  datatype RequestKind = SubscribeRequest | UnsubscribeRequest

  /** Messages the broker sends. Every one carries, first, the session id of
      the session it is sent to. */
  datatype Outbound =
    | Published(sessionId: SessionId, request: RequestId, publication: PublicationId)
    | Event(sessionId: SessionId, subscription: SubscriptionId, publication: PublicationId,
            args: seq<string>, kwargs: map<string, string>, publisher: Option<SessionId>)
    | Subscribed(sessionId: SessionId, request: RequestId, subscription: SubscriptionId)
    | Unsubscribed(sessionId: SessionId, request: RequestId)
    | Error(sessionId: SessionId, requestKind: RequestKind, request: RequestId, error: string)

  /** A message handed to a session's transport. */
  type Delivery = (Session, Outbound)

  const NoSuchSubscription: string := "wamp.error.no_such_subscription"

  /** How a broker operation ends: normally, with the ProtocolError raised for
      an unexpected message, or with the KeyError a missing dictionary entry
      raises. */
  datatype Outcome = Ok | ProtocolError | KeyError
}
