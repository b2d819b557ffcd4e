/**
 * The MQTT client (`MqttClientImpl`): the requests it sends, the packets it
 * answers, and the handlers it calls. The connection is reduced to what the
 * client does with it: writing packets, closing, and handing over decoded
 * packets one at a time.
 */
module Client {
  import opened Common
  import opened Packets
  import opened MessageIds
  import opened Trace
  import Topics

  /** PROTOCOL_NAME and PROTOCOL_VERSION (level 4 is MQTT 3.1.1). */
  const ProtocolName: string := "MQTT"
  const ProtocolVersion: int := 4

  /** The part of `MqttClientOptions` the client reads; a Java null is `None`. */
  datatype ClientOptions = ClientOptions(
    clientId: Option<string>,
    isAutoGeneratedClientId: bool,
    username: Option<string>,
    password: Option<string>,
    isWillFlag: bool,
    willTopic: Option<string>,
    willMessage: Option<string>,
    willQoS: int,
    isWillRetain: bool,
    isCleanSession: bool,
    keepAliveTimeSeconds: int,
    isAutoKeepAlive: bool)

  /** The options once a connection is up: a missing or empty identifier is replaced by the generated one when asked for. */
  function WithGeneratedClientId(o: ClientOptions, generated: string): (r: ClientOptions)
    ensures r.(clientId := o.clientId) == o
    ensures r.clientId ==
      if o.isAutoGeneratedClientId && (o.clientId.None? || o.clientId.value == "") then Some(generated)
      else o.clientId
  {
    if o.isAutoGeneratedClientId && (o.clientId.None? || o.clientId.value == "") then
      o.(clientId := Some(generated))
    else o
  }

  /** The CONNECT packet built from the options (section 3.1). */
  function ConnectPacket(o: ClientOptions): (p: Packet)
    ensures IsClientPacket(p) && p.fixedHeader.messageType == MessageType.Connect
    ensures p.body.variableHeader.name == "MQTT" && p.body.variableHeader.version == 4
    ensures p.body.variableHeader.hasUserName <==> p.body.connectPayload.userName.Some?
    ensures p.body.variableHeader.hasPassword <==> p.body.connectPayload.password.Some?
    ensures p.body.connectPayload.userName == o.username
    ensures p.body.connectPayload.password == o.password
    ensures p.body.connectPayload.clientIdentifier == "" <==> o.clientId.None? || o.clientId.value == ""
    ensures o.clientId.Some? ==> p.body.connectPayload.clientIdentifier == o.clientId.value
    ensures p.body.connectPayload.willTopic == o.willTopic && p.body.connectPayload.willMessage == o.willMessage
    ensures p.body.variableHeader.isWillRetain == o.isWillRetain && p.body.variableHeader.willQos == o.willQoS
    ensures p.body.variableHeader.isWillFlag == o.isWillFlag
    ensures p.body.variableHeader.isCleanSession == o.isCleanSession
    ensures p.body.variableHeader.keepAliveTimeSeconds == o.keepAliveTimeSeconds
  {
    var hasUsername := o.username.Some?;
    var hasPassword := o.password.Some?;
    Packet(
      FixedHeader(MessageType.Connect, false, AtMostOnce, false),
      ConnectBody(
        ConnectVariableHeader(
          ProtocolName, ProtocolVersion, hasUsername, hasPassword,
          o.isWillRetain, o.willQoS, o.isWillFlag, o.isCleanSession, o.keepAliveTimeSeconds),
        ConnectPayload(
          if o.clientId.None? then "" else o.clientId.value,
          o.willTopic, o.willMessage,
          if hasUsername then o.username else None,
          if hasPassword then o.password else None)))
  }

  /**
   * The client identifier a connection sends: the configured one when it is
   * not empty, else the generated one when generation is on, else the empty
   * string, which asks the server to assign one (section 3.1.3.1).
   */
  lemma ClientIdentifierSent(o: ClientOptions, generated: string)
    requires generated != ""
    ensures var id := ConnectPacket(WithGeneratedClientId(o, generated)).body.connectPayload.clientIdentifier;
      && (o.clientId.Some? && o.clientId.value != "" ==> id == o.clientId.value)
      && (o.isAutoGeneratedClientId && (o.clientId.None? || o.clientId.value == "") ==> id == generated)
      && (id == "" <==> !o.isAutoGeneratedClientId && (o.clientId.None? || o.clientId.value == ""))
  {
  }

  /** Whether `initChannel` installs the idle-state and keep-alive handlers. */
  predicate KeepAliveArmed(o: ClientOptions) {
    o.isAutoKeepAlive && o.keepAliveTimeSeconds != 0
  }

  /** The SUBSCRIBE payload: one subscription per entry, with the requested QoS. */
  function Subscriptions(topics: seq<(string, int)>): (subscriptions: seq<TopicSubscription>)
    requires forall k | 0 <= k < |topics| :: 0 <= topics[k].1 <= 2
    ensures |subscriptions| == |topics|
    ensures forall k | 0 <= k < |topics| ::
      subscriptions[k].topicName == topics[k].0 && QoSValue(subscriptions[k].qos) == topics[k].1
  {
    if topics == [] then []
    else [TopicSubscription(topics[0].0, QoSOf(topics[0].1))] + Subscriptions(topics[1..])
  }

  /** What reaches the keep-alive handler through `userEventTriggered`. */
  datatype IdleState = ReaderIdle | WriterIdle | AllIdle
  datatype UserEvent = IdleStateEvent(state: IdleState) | OtherEvent

  class MqttClient {
    var options: ClientOptions
    /** `connection != null`: a connection has been established at least once. */
    var hasConnection: bool
    /** Whether the current connection's pipeline holds the keep-alive handler. */
    var keepAliveArmed: bool
    var messageIdCounter: int

    /** Whether each handler field is non-null. */
    var hasPublishCompleteHandler: bool
    var hasUnsubscribeCompleteHandler: bool
    var hasPublishHandler: bool
    var hasSubscribeCompleteHandler: bool
    var hasConnectHandler: bool
    var hasPingrespHandler: bool
    var hasCloseHandler: bool

    /** Everything the client has done, in order. */
    ghost var trace: seq<Effect>

    ghost predicate Valid()
      reads this
    {
      Consistent(trace, messageIdCounter) && (keepAliveArmed ==> hasConnection)
    }

    constructor (options: ClientOptions)
      ensures Valid()
      ensures this.options == options && !hasConnection && !keepAliveArmed
      ensures messageIdCounter == 0 && trace == []
      ensures !hasPublishCompleteHandler && !hasUnsubscribeCompleteHandler && !hasPublishHandler
      ensures !hasSubscribeCompleteHandler && !hasConnectHandler && !hasPingrespHandler && !hasCloseHandler
    {
      this.options := options;
      hasConnection := false;
      keepAliveArmed := false;
      messageIdCounter := 0;
      hasPublishCompleteHandler := false;
      hasUnsubscribeCompleteHandler := false;
      hasPublishHandler := false;
      hasSubscribeCompleteHandler := false;
      hasConnectHandler := false;
      hasPingrespHandler := false;
      hasCloseHandler := false;
      trace := [];
      Initial();
    }

    /** `clientId`: the identifier in the options, generated or not. */
    function ClientId(): Option<string>
      reads this
    {
      options.clientId
    }

    // -------------------------------------------------------------------------
    // Handler setters

    method PublishCompleteHandler(present: bool)
      requires Valid()
      modifies this`hasPublishCompleteHandler
      ensures Valid() && hasPublishCompleteHandler == present
    {
      hasPublishCompleteHandler := present;
    }

    method PublishHandler(present: bool)
      requires Valid()
      modifies this`hasPublishHandler
      ensures Valid() && hasPublishHandler == present
    {
      hasPublishHandler := present;
    }

    method SubscribeCompleteHandler(present: bool)
      requires Valid()
      modifies this`hasSubscribeCompleteHandler
      ensures Valid() && hasSubscribeCompleteHandler == present
    {
      hasSubscribeCompleteHandler := present;
    }

    method UnsubscribeCompleteHandler(present: bool)
      requires Valid()
      modifies this`hasUnsubscribeCompleteHandler
      ensures Valid() && hasUnsubscribeCompleteHandler == present
    {
      hasUnsubscribeCompleteHandler := present;
    }

    method PingResponseHandler(present: bool)
      requires Valid()
      modifies this`hasPingrespHandler
      ensures Valid() && hasPingrespHandler == present
    {
      hasPingrespHandler := present;
    }

    method CloseHandler(present: bool)
      requires Valid()
      modifies this`hasCloseHandler
      ensures Valid() && hasCloseHandler == present
    {
      hasCloseHandler := present;
    }

    // -------------------------------------------------------------------------
    // Building blocks

    /** `nextMessageId`: advance the counter and return its new value. */
    method NextMessageId() returns (id: int)
      requires 0 <= messageIdCounter <= MaxMessageId
      modifies this`messageIdCounter
      ensures id == messageIdCounter == NextId(old(messageIdCounter))
    {
      messageIdCounter := if messageIdCounter % MaxMessageId != 0 then messageIdCounter + 1 else 1;
      id := messageIdCounter;
    }

    /** `write`: hand one packet to the connection. */
    method Write(p: Packet)
      requires hasConnection
      modifies this`trace
      ensures trace == old(trace) + [Wrote(p)]
    {
      trace := trace + [Wrote(p)];
    }

    method PublishAcknowledge(publishMessageId: int)
      requires hasConnection
      modifies this`trace
      ensures trace == old(trace) + [Wrote(AckPacket(PubAck, publishMessageId))]
    {
      Write(Packet(FixedHeader(PubAck, false, AtMostOnce, false), MessageIdBody(publishMessageId)));
    }

    method PublishReceived(publishMessageId: int)
      requires hasConnection
      modifies this`trace
      ensures trace == old(trace) + [Wrote(AckPacket(PubRec, publishMessageId))]
    {
      Write(Packet(FixedHeader(PubRec, false, AtMostOnce, false), MessageIdBody(publishMessageId)));
    }

    method PublishComplete(publishMessageId: int)
      requires hasConnection
      modifies this`trace
      ensures trace == old(trace) + [Wrote(AckPacket(PubComp, publishMessageId))]
    {
      Write(Packet(FixedHeader(PubComp, false, AtMostOnce, false), MessageIdBody(publishMessageId)));
    }

    method PublishRelease(publishMessageId: int)
      requires hasConnection
      modifies this`trace
      ensures trace == old(trace) + [Wrote(AckPacket(PubRel, publishMessageId))]
    {
      Write(Packet(FixedHeader(PubRel, false, AtLeastOnce, false), MessageIdBody(publishMessageId)));
    }

    // -------------------------------------------------------------------------
    // Requests

    /**
     * `connect`: on a transport failure only the given handler hears of it; on
     * success the handler is kept for the CONNACK, the identifier is generated
     * if needed, the pipeline is set up and CONNECT is written.
     */
    method Connect(transportOk: bool, hasHandler: bool, generatedClientId: string)
      requires Valid()
      requires generatedClientId != ""
      modifies this`options, this`hasConnection, this`keepAliveArmed, this`hasConnectHandler, this`trace
      ensures Valid()
      ensures !transportOk ==>
        && options == old(options) && hasConnection == old(hasConnection)
        && keepAliveArmed == old(keepAliveArmed) && hasConnectHandler == old(hasConnectHandler)
        && trace == old(trace) + (if hasHandler then [Called(ConnectFailed(TransportFailure))] else [])
      ensures transportOk ==>
        && hasConnectHandler == hasHandler
        && options == WithGeneratedClientId(old(options), generatedClientId)
        && hasConnection && keepAliveArmed == KeepAliveArmed(options)
        && trace == old(trace) + [Wrote(ConnectPacket(options))]
    {
      if !transportOk {
        if hasHandler {
          trace := trace + [Called(ConnectFailed(TransportFailure))];
          StepOfOne(Called(ConnectFailed(TransportFailure)));
          ExtendWithoutId(old(trace), messageIdCounter, [Called(ConnectFailed(TransportFailure))]);
        }
      } else {
        hasConnectHandler := hasHandler;
        options := WithGeneratedClientId(options, generatedClientId);
        keepAliveArmed := KeepAliveArmed(options);
        hasConnection := true;
        Write(ConnectPacket(options));
        StepOfOne(Wrote(ConnectPacket(options)));
        ExtendWithoutId(old(trace), messageIdCounter, [Wrote(ConnectPacket(options))]);
      }
    }

    /** `disconnect`: write DISCONNECT, report success, then close the connection. */
    method Disconnect(hasHandler: bool)
      requires Valid() && hasConnection
      modifies this`trace
      ensures Valid()
      ensures trace == old(trace) + DisconnectEffects(hasHandler)
    {
      var disconnect := Packet(FixedHeader(MessageType.Disconnect, false, AtMostOnce, false), EmptyBody);
      Write(disconnect);
      if hasHandler {
        trace := trace + [Called(DisconnectSucceeded)];
      }
      trace := trace + [ClosedConnection];
      ghost var b := DisconnectEffects(hasHandler);
      assert trace == old(trace) + b;
      assert Consistent(old(trace) + b, messageIdCounter) by {
        DisconnectStep(hasHandler);
        ExtendWithoutId(old(trace), messageIdCounter, b);
      }
    }

    /**
     * `publish`: an invalid topic name is reported to the handler and nothing
     * else happens; otherwise an identifier is drawn, PUBLISH is written and
     * the handler is given the identifier.
     */
    method Publish(topic: string, payload: seq<byte>, qosLevel: QoS, isDup: bool, isRetain: bool, hasSentHandler: bool)
      requires Valid()
      requires Topics.IsValidTopicName(topic) ==> hasConnection
      modifies this`trace, this`messageIdCounter
      ensures Valid()
      ensures !Topics.IsValidTopicName(topic) ==>
        && messageIdCounter == old(messageIdCounter)
        && trace == old(trace) + (if hasSentHandler then [Called(PublishRejected)] else [])
      ensures Topics.IsValidTopicName(topic) ==>
        && messageIdCounter == NextId(old(messageIdCounter))
        && trace == old(trace)
          + [Wrote(Packet(FixedHeader(MessageType.Publish, isDup, qosLevel, isRetain),
                          PublishBody(topic, messageIdCounter, payload)))]
          + (if hasSentHandler then [Called(PublishSent(messageIdCounter))] else [])
    {
      if !Topics.IsValidTopicName(topic) {
        if hasSentHandler {
          trace := trace + [Called(PublishRejected)];
        }
        ghost var b := if hasSentHandler then [Called(PublishRejected)] else [];
        assert Consistent(old(trace) + b, messageIdCounter) by {
          RejectStep(hasSentHandler, PublishRejected);
          ExtendWithoutId(old(trace), messageIdCounter, b);
        }
        return;
      }
      var messageId := NextMessageId();
      var request := Packet(FixedHeader(MessageType.Publish, isDup, qosLevel, isRetain), PublishBody(topic, messageId, payload));
      Write(request);
      if hasSentHandler {
        trace := trace + [Called(PublishSent(messageId))];
      }
      ghost var b := [Wrote(request)] + (if hasSentHandler then [Called(PublishSent(messageId))] else []);
      assert trace == old(trace) + b;
      assert Consistent(old(trace) + b, messageIdCounter) by {
        RequestStep(request, messageId, hasSentHandler);
        ExtendWithId(old(trace), old(messageIdCounter), b);
      }
    }

    /**
     * `subscribe`: if any filter is invalid the handler is told which and
     * nothing else happens; otherwise an identifier is drawn, SUBSCRIBE is
     * written with every entry, and the handler is given the identifier.
     */
    method Subscribe(topics: seq<(string, int)>, hasSentHandler: bool)
      requires Valid()
      requires Topics.InvalidFilters(topics) == [] ==>
        hasConnection && forall k | 0 <= k < |topics| :: 0 <= topics[k].1 <= 2
      modifies this`trace, this`messageIdCounter
      ensures Valid()
      ensures Topics.InvalidFilters(topics) != [] ==>
        && messageIdCounter == old(messageIdCounter)
        && trace == old(trace)
          + (if hasSentHandler then [Called(SubscribeRejected(Topics.InvalidFilters(topics)))] else [])
      ensures Topics.InvalidFilters(topics) == [] ==>
        && messageIdCounter == NextId(old(messageIdCounter))
        && trace == old(trace)
          + [Wrote(Packet(FixedHeader(MessageType.Subscribe, false, AtLeastOnce, false),
                          SubscribeBody(messageIdCounter, Subscriptions(topics))))]
          + (if hasSentHandler then [Called(SubscribeSent(messageIdCounter))] else [])
    {
      var invalidTopics := Topics.InvalidFilters(topics);
      if |invalidTopics| > 0 {
        if hasSentHandler {
          trace := trace + [Called(SubscribeRejected(invalidTopics))];
        }
        ghost var b := if hasSentHandler then [Called(SubscribeRejected(invalidTopics))] else [];
        assert Consistent(old(trace) + b, messageIdCounter) by {
          RejectStep(hasSentHandler, SubscribeRejected(invalidTopics));
          ExtendWithoutId(old(trace), messageIdCounter, b);
        }
        return;
      }
      var messageId := NextMessageId();
      var request := Packet(FixedHeader(MessageType.Subscribe, false, AtLeastOnce, false),
                   SubscribeBody(messageId, Subscriptions(topics)));
      Write(request);
      if hasSentHandler {
        trace := trace + [Called(SubscribeSent(messageId))];
      }
      ghost var b := [Wrote(request)] + (if hasSentHandler then [Called(SubscribeSent(messageId))] else []);
      assert trace == old(trace) + b;
      assert Consistent(old(trace) + b, messageIdCounter) by {
        RequestStep(request, messageId, hasSentHandler);
        ExtendWithId(old(trace), old(messageIdCounter), b);
      }
    }

    /** `unsubscribe`: the filter is not validated; an identifier is drawn and UNSUBSCRIBE written. */
    method Unsubscribe(topic: string, hasSentHandler: bool)
      requires Valid() && hasConnection
      modifies this`trace, this`messageIdCounter
      ensures Valid()
      ensures messageIdCounter == NextId(old(messageIdCounter))
      ensures trace == old(trace)
        + [Wrote(Packet(FixedHeader(MessageType.Unsubscribe, false, AtLeastOnce, false),
                        UnsubscribeBody(messageIdCounter, [topic])))]
        + (if hasSentHandler then [Called(UnsubscribeSent(messageIdCounter))] else [])
    {
      var messageId := NextMessageId();
      var request := Packet(FixedHeader(MessageType.Unsubscribe, false, AtLeastOnce, false),
                   UnsubscribeBody(messageId, [topic]));
      Write(request);
      if hasSentHandler {
        trace := trace + [Called(UnsubscribeSent(messageId))];
      }
      ghost var b := [Wrote(request)] + (if hasSentHandler then [Called(UnsubscribeSent(messageId))] else []);
      assert trace == old(trace) + b;
      assert Consistent(old(trace) + b, messageIdCounter) by {
        RequestStep(request, messageId, hasSentHandler);
        ExtendWithId(old(trace), old(messageIdCounter), b);
      }
    }

    /** `ping`: write PINGREQ. */
    method Ping()
      requires Valid() && hasConnection
      modifies this`trace
      ensures Valid()
      ensures trace == old(trace) + [Wrote(Packet(FixedHeader(PingReq, false, AtMostOnce, false), EmptyBody))]
    {
      var pingreq := Packet(FixedHeader(PingReq, false, AtMostOnce, false), EmptyBody);
      Write(pingreq);
      StepOfOne(Wrote(pingreq));
      ExtendWithoutId(old(trace), messageIdCounter, [Wrote(pingreq)]);
    }

    /** The keep-alive handler: a writer-idle event sends PINGREQ, anything else is ignored. */
    method UserEventTriggered(evt: UserEvent)
      requires Valid() && keepAliveArmed
      modifies this`trace
      ensures Valid()
      ensures evt == IdleStateEvent(WriterIdle) ==>
        trace == old(trace) + [Wrote(Packet(FixedHeader(PingReq, false, AtMostOnce, false), EmptyBody))]
      ensures evt != IdleStateEvent(WriterIdle) ==> trace == old(trace)
    {
      if evt.IdleStateEvent? {
        if evt.state == WriterIdle {
          Ping();
        }
      }
    }

    // -------------------------------------------------------------------------
    // Packets from the server

    /** Append a packet handed over by the connection and, if present, the handler call it causes. */
    method Notify(inbound: InboundPacket, present: bool, event: Event)
      requires Valid()
      requires RequiredReply(inbound).None? && HandlerCall(inbound) == Some(event) && !event.PublishDelivered?
      modifies this`trace
      ensures Valid()
      ensures trace == old(trace) + [Received(inbound)] + (if present then [Called(event)] else [])
    {
      trace := trace + [Received(inbound)];
      if present {
        trace := trace + [Called(event)];
      }
      ghost var b := [Received(inbound)] + (if present then [Called(event)] else []);
      assert trace == old(trace) + b;
      assert Consistent(old(trace) + b, messageIdCounter) by {
        NotifyStep(inbound, present, event);
        ExtendWithoutId(old(trace), messageIdCounter, b);
      }
    }

    /** `handleClosed`: the connection was closed by the other side. */
    method HandleClosed()
      requires Valid() && hasConnection
      modifies this`trace
      ensures Valid()
      ensures trace == old(trace) + (if hasCloseHandler then [Called(ConnectionClosed)] else [])
    {
      if hasCloseHandler {
        trace := trace + [Called(ConnectionClosed)];
        StepOfOne(Called(ConnectionClosed));
        ExtendWithoutId(old(trace), messageIdCounter, [Called(ConnectionClosed)]);
      }
    }

    method HandlePingresp()
      requires Valid() && hasConnection
      modifies this`trace
      ensures Valid()
      ensures trace == old(trace) + [Received(PingRespIn)] + (if hasPingrespHandler then [Called(PingResponse)] else [])
    {
      Notify(PingRespIn, hasPingrespHandler, PingResponse);
    }

    method HandleUnsuback(unsubackMessageId: int)
      requires Valid() && hasConnection
      modifies this`trace
      ensures Valid()
      ensures trace == old(trace) + [Received(UnsubAckIn(unsubackMessageId))]
        + (if hasUnsubscribeCompleteHandler then [Called(UnsubscribeCompleted(unsubackMessageId))] else [])
    {
      Notify(UnsubAckIn(unsubackMessageId), hasUnsubscribeCompleteHandler, UnsubscribeCompleted(unsubackMessageId));
    }

    /** `handlePuback` and `handlePubcomp` both report the identifier as a completed publication. */
    method HandlePuback(pubackMessageId: int)
      requires Valid() && hasConnection
      modifies this`trace
      ensures Valid()
      ensures trace == old(trace) + [Received(PubAckIn(pubackMessageId))]
        + (if hasPublishCompleteHandler then [Called(PublishCompleted(pubackMessageId))] else [])
    {
      Notify(PubAckIn(pubackMessageId), hasPublishCompleteHandler, PublishCompleted(pubackMessageId));
    }

    method HandlePubcomp(pubcompMessageId: int)
      requires Valid() && hasConnection
      modifies this`trace
      ensures Valid()
      ensures trace == old(trace) + [Received(PubCompIn(pubcompMessageId))]
        + (if hasPublishCompleteHandler then [Called(PublishCompleted(pubcompMessageId))] else [])
    {
      Notify(PubCompIn(pubcompMessageId), hasPublishCompleteHandler, PublishCompleted(pubcompMessageId));
    }

    method HandleSuback(msg: SubAckMessage)
      requires Valid() && hasConnection
      modifies this`trace
      ensures Valid()
      ensures trace == old(trace) + [Received(SubAckIn(msg))]
        + (if hasSubscribeCompleteHandler then [Called(SubscribeCompleted(msg))] else [])
    {
      Notify(SubAckIn(msg), hasSubscribeCompleteHandler, SubscribeCompleted(msg));
    }

    /** `handleConnack`: success for CONNECTION_ACCEPTED, a refusal carrying the code otherwise. */
    method HandleConnack(msg: ConnAckMessage)
      requires Valid() && hasConnection
      modifies this`trace
      ensures Valid()
      ensures trace == old(trace) + [Received(ConnAckIn(msg))]
        + (if !hasConnectHandler then []
           else if msg.code == ConnectionAccepted then [Called(ConnectSucceeded(msg))]
           else [Called(ConnectFailed(ConnectionRefused(msg.code)))])
    {
      if msg.code == ConnectionAccepted {
        Notify(ConnAckIn(msg), hasConnectHandler, ConnectSucceeded(msg));
      } else {
        Notify(ConnAckIn(msg), hasConnectHandler, ConnectFailed(ConnectionRefused(msg.code)));
      }
    }

    /** `handlePubrec`: answer with PUBREL. */
    method HandlePubrec(pubrecMessageId: int)
      requires Valid() && hasConnection
      modifies this`trace
      ensures Valid()
      ensures trace == old(trace) + [Received(PubRecIn(pubrecMessageId)), Wrote(AckPacket(PubRel, pubrecMessageId))]
    {
      trace := trace + [Received(PubRecIn(pubrecMessageId))];
      PublishRelease(pubrecMessageId);
      assert trace == old(trace) + [Received(PubRecIn(pubrecMessageId)), Wrote(AckPacket(PubRel, pubrecMessageId))];
      AnsweredStep(PubRecIn(pubrecMessageId));
      ExtendWithoutId(old(trace), messageIdCounter, [Received(PubRecIn(pubrecMessageId)), Wrote(AckPacket(PubRel, pubrecMessageId))]);
    }

    /** `handlePubrel`: answer with PUBCOMP; the message is not delivered. */
    method HandlePubrel(pubrelMessageId: int)
      requires Valid() && hasConnection
      modifies this`trace
      ensures Valid()
      ensures trace == old(trace) + [Received(PubRelIn(pubrelMessageId)), Wrote(AckPacket(PubComp, pubrelMessageId))]
    {
      trace := trace + [Received(PubRelIn(pubrelMessageId))];
      PublishComplete(pubrelMessageId);
      assert trace == old(trace) + [Received(PubRelIn(pubrelMessageId)), Wrote(AckPacket(PubComp, pubrelMessageId))];
      AnsweredStep(PubRelIn(pubrelMessageId));
      ExtendWithoutId(old(trace), messageIdCounter, [Received(PubRelIn(pubrelMessageId)), Wrote(AckPacket(PubComp, pubrelMessageId))]);
    }

    /**
     * `handlePublish`: deliver at QoS 0; acknowledge with PUBACK and then
     * deliver at QoS 1; answer with PUBREC and do not deliver at QoS 2.
     */
    method HandlePublish(msg: PublishMessage)
      requires Valid() && hasConnection
      modifies this`trace
      ensures Valid()
      ensures trace == old(trace) + PublishEffects(msg, hasPublishHandler)
    {
      trace := trace + [Received(PublishIn(msg))];
      match msg.qos {
        case AtMostOnce =>
          if hasPublishHandler {
            trace := trace + [Called(PublishDelivered(msg))];
          }
        case AtLeastOnce =>
          PublishAcknowledge(msg.messageId);
          if hasPublishHandler {
            trace := trace + [Called(PublishDelivered(msg))];
          }
        case ExactlyOnce =>
          PublishReceived(msg.messageId);
      }
      assert trace == old(trace) + PublishEffects(msg, hasPublishHandler) by {
        PublishEffectsShape(msg, hasPublishHandler);
      }
      assert Consistent(old(trace) + PublishEffects(msg, hasPublishHandler), messageIdCounter) by {
        PublishStep(msg, hasPublishHandler);
        ExtendWithoutId(old(trace), messageIdCounter, PublishEffects(msg, hasPublishHandler));
      }
    }
  }

  // ---------------------------------------------------------------------------
  // The trace invariants of each kind of step

  /** What `disconnect` does: write DISCONNECT, report success if asked, close. */
  function DisconnectEffects(hasHandler: bool): (effects: seq<Effect>)
    ensures 2 <= |effects| <= 3
    ensures effects[0] == Wrote(Packet(FixedHeader(MessageType.Disconnect, false, AtMostOnce, false), EmptyBody))
    ensures effects[|effects| - 1] == ClosedConnection
    ensures hasHandler <==> Called(DisconnectSucceeded) in effects
  {
    [Wrote(Packet(FixedHeader(MessageType.Disconnect, false, AtMostOnce, false), EmptyBody))]
      + (if hasHandler then [Called(DisconnectSucceeded)] else []) + [ClosedConnection]
  }

  lemma DisconnectStep(hasHandler: bool)
    ensures StepOk(DisconnectEffects(hasHandler)) && IssuedIds(DisconnectEffects(hasHandler)) == []
  {
    var disconnect := Wrote(Packet(FixedHeader(MessageType.Disconnect, false, AtMostOnce, false), EmptyBody));
    if hasHandler {
      assert DisconnectEffects(hasHandler) == [disconnect, Called(DisconnectSucceeded), ClosedConnection];
      StepOfThree(disconnect, Called(DisconnectSucceeded), ClosedConnection);
    } else {
      assert DisconnectEffects(hasHandler) == [disconnect, ClosedConnection];
      StepOfTwo(disconnect, ClosedConnection);
    }
  }

  lemma RejectStep(present: bool, event: Event)
    requires event == PublishRejected || event.SubscribeRejected?
    ensures var b := if present then [Called(event)] else [];
      StepOk(b) && IssuedIds(b) == []
  {
    if present {
      StepOfOne(Called(event));
    }
  }

  /** A request packet written, then its sent handler given the identifier. */
  lemma RequestStep(request: Packet, id: int, present: bool)
    requires IsClientPacket(request) && DrawnIds(Wrote(request)) == [id]
    requires request.fixedHeader.messageType in {MessageType.Publish, MessageType.Subscribe, MessageType.Unsubscribe}
    ensures var event := match request.fixedHeader.messageType
        case Publish => PublishSent(id)
        case Subscribe => SubscribeSent(id)
        case _ => UnsubscribeSent(id);
      var b := [Wrote(request)] + (if present then [Called(event)] else []);
      StepOk(b) && IssuedIds(b) == [id]
  {
    var event := match request.fixedHeader.messageType
        case Publish => PublishSent(id)
        case Subscribe => SubscribeSent(id)
        case _ => UnsubscribeSent(id);
    if present {
      assert EffectOk([Wrote(request), Called(event)], 1);
      StepOfTwo(Wrote(request), Called(event));
    } else {
      StepOfOne(Wrote(request));
    }
  }

  /** A packet handed over by the connection, then the handler call it causes. */
  lemma NotifyStep(inbound: InboundPacket, present: bool, event: Event)
    requires RequiredReply(inbound).None? && HandlerCall(inbound) == Some(event) && !event.PublishDelivered?
    ensures var b := [Received(inbound)] + (if present then [Called(event)] else []);
      StepOk(b) && IssuedIds(b) == []
  {
    if present {
      assert EffectOk([Received(inbound), Called(event)], 1);
      StepOfTwo(Received(inbound), Called(event));
    } else {
      StepOfOne(Received(inbound));
    }
  }

  lemma AnsweredStep(p: InboundPacket)
    requires RequiredReply(p).Some?
    ensures StepOk([Received(p), Wrote(RequiredReply(p).value)])
    ensures IssuedIds([Received(p), Wrote(RequiredReply(p).value)]) == []
  {
    StepOfTwo(Received(p), Wrote(RequiredReply(p).value));
  }

  /**
   * What `handlePublish` does with a message, given whether a publish handler
   * is set: receive it, write the reply it requires (none at QoS 0), and hand
   * it to the handler unless it is a QoS 2 message.
   */
  function PublishEffects(m: PublishMessage, present: bool): (effects: seq<Effect>)
    ensures |effects| == 1 + (if m.qos == AtMostOnce then 0 else 1)
                           + (if present && m.qos != ExactlyOnce then 1 else 0)
    ensures effects[0] == Received(PublishIn(m))
    ensures m.qos != AtMostOnce ==> effects[1] == Wrote(RequiredReply(PublishIn(m)).value)
    ensures present && m.qos != ExactlyOnce ==> effects[|effects| - 1] == Called(PublishDelivered(m))
  {
    var deliver := if present then [Called(PublishDelivered(m))] else [];
    match m.qos
    case AtMostOnce => [Received(PublishIn(m))] + deliver
    case AtLeastOnce => [Received(PublishIn(m)), Wrote(AckPacket(PubAck, m.messageId))] + deliver
    case ExactlyOnce => [Received(PublishIn(m)), Wrote(AckPacket(PubRec, m.messageId))]
  }

  lemma PublishEffectsShape(m: PublishMessage, present: bool)
    ensures m.qos == AtMostOnce ==>
      PublishEffects(m, present) == [Received(PublishIn(m))] + (if present then [Called(PublishDelivered(m))] else [])
    ensures m.qos == AtLeastOnce ==>
      PublishEffects(m, present) == [Received(PublishIn(m)), Wrote(AckPacket(PubAck, m.messageId))]
        + (if present then [Called(PublishDelivered(m))] else [])
    ensures m.qos == ExactlyOnce ==>
      PublishEffects(m, present) == [Received(PublishIn(m)), Wrote(AckPacket(PubRec, m.messageId))]
  {
  }

  lemma PublishStep(m: PublishMessage, present: bool)
    ensures StepOk(PublishEffects(m, present)) && IssuedIds(PublishEffects(m, present)) == []
  {
    var received, delivered := Received(PublishIn(m)), Called(PublishDelivered(m));
    match m.qos {
      case AtMostOnce =>
        if present {
          assert PublishEffects(m, present) == [received, delivered];
          assert EffectOk([received, delivered], 1);
          StepOfTwo(received, delivered);
        } else {
          assert PublishEffects(m, present) == [received];
          StepOfOne(received);
        }
      case AtLeastOnce =>
        var ack := Wrote(AckPacket(PubAck, m.messageId));
        if present {
          assert PublishEffects(m, present) == [received, ack, delivered];
          assert EffectOk([received, ack, delivered], 2);
          StepOfThree(received, ack, delivered);
        } else {
          assert PublishEffects(m, present) == [received, ack];
          StepOfTwo(received, ack);
        }
      case ExactlyOnce =>
        assert PublishEffects(m, present) == [received, Wrote(AckPacket(PubRec, m.messageId))];
        StepOfTwo(received, Wrote(AckPacket(PubRec, m.messageId)));
    }
  }
}
