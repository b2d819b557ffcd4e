/**
 * The control packets the client builds and the decoded packets it is handed
 * (MQTT 3.1.1, chapters 2 and 3), as the Netty codec classes carry them. The
 * encoding to octets belongs to the codec and is not modelled.
 */
module Packets {
  import opened Common

  /** MqttQoS: AT_MOST_ONCE, AT_LEAST_ONCE, EXACTLY_ONCE. */
  datatype QoS = AtMostOnce | AtLeastOnce | ExactlyOnce

  /** The integer value of a QoS level. */
  function QoSValue(q: QoS): (value: int)
    ensures 0 <= value <= 2
  {
    match q
    case AtMostOnce => 0
    case AtLeastOnce => 1
    case ExactlyOnce => 2
  }

  /** `MqttQoS.valueOf` for the values it accepts. */
  function QoSOf(value: int): (q: QoS)
    requires 0 <= value <= 2
    ensures QoSValue(q) == value
  {
    if value == 0 then AtMostOnce else if value == 1 then AtLeastOnce else ExactlyOnce
  }

  /** MqttMessageType. */
  datatype MessageType =
    | Connect | ConnAck | Publish | PubAck | PubRec | PubRel | PubComp
    | Subscribe | SubAck | Unsubscribe | UnsubAck | PingReq | PingResp | Disconnect

  /** MqttConnectReturnCode (section 3.2.2.3). */
  datatype ConnectReturnCode =
    | ConnectionAccepted
    | RefusedUnacceptableProtocolVersion
    | RefusedIdentifierRejected
    | RefusedServerUnavailable
    | RefusedBadUserNameOrPassword
    | RefusedNotAuthorized

  /** MqttFixedHeader; the remaining length is always passed as 0 and computed by the encoder. */
  datatype FixedHeader = FixedHeader(messageType: MessageType, isDup: bool, qos: QoS, isRetain: bool)

  /** MqttConnectVariableHeader. */
  datatype ConnectVariableHeader = ConnectVariableHeader(
    name: string, version: int,
    hasUserName: bool, hasPassword: bool,
    isWillRetain: bool, willQos: int, isWillFlag: bool,
    isCleanSession: bool, keepAliveTimeSeconds: int)

  /** MqttConnectPayload; a Java null is `None`. */
  datatype ConnectPayload = ConnectPayload(
    clientIdentifier: string,
    willTopic: Option<string>, willMessage: Option<string>,
    userName: Option<string>, password: Option<string>)

  /** MqttTopicSubscription. */
  datatype TopicSubscription = TopicSubscription(topicName: string, qos: QoS)

  /** Variable header and payload of an outbound packet. */
  datatype Body =
    | ConnectBody(variableHeader: ConnectVariableHeader, connectPayload: ConnectPayload)
    | PublishBody(topicName: string, messageId: int, payload: seq<byte>)
    | SubscribeBody(messageId: int, subscriptions: seq<TopicSubscription>)
    | UnsubscribeBody(messageId: int, topics: seq<string>)
    | MessageIdBody(messageId: int)
    | EmptyBody

  /** An MqttMessage handed to `write`. */
  datatype Packet = Packet(fixedHeader: FixedHeader, body: Body)

  /** DUP 0, the given QoS bits and RETAIN 0: the fixed reserved flags. */
  predicate ReservedFlags(h: FixedHeader, q: QoS) {
    !h.isDup && h.qos == q && !h.isRetain
  }

  /**
   * A packet a client may send, with the body its type calls for and the
   * fixed-header flags of section 2.2.2 (table 2.2): 0010 for PUBREL, SUBSCRIBE
   * and UNSUBSCRIBE, 0000 for the others, and the publication's own flags for
   * PUBLISH. CONNACK, SUBACK, UNSUBACK and PINGRESP are sent by servers only.
   */
  predicate IsClientPacket(p: Packet) {
    var h := p.fixedHeader;
    match h.messageType
    case Connect => p.body.ConnectBody? && ReservedFlags(h, AtMostOnce)
    case Publish => p.body.PublishBody?
    case PubAck | PubRec | PubComp => p.body.MessageIdBody? && ReservedFlags(h, AtMostOnce)
    case PubRel | Subscribe | Unsubscribe =>
      (if h.messageType == PubRel then p.body.MessageIdBody?
       else if h.messageType == Subscribe then p.body.SubscribeBody?
       else p.body.UnsubscribeBody?)
      && ReservedFlags(h, AtLeastOnce)
    case PingReq | Disconnect => p.body.EmptyBody? && ReservedFlags(h, AtMostOnce)
    case ConnAck | SubAck | UnsubAck | PingResp => false
  }

  /** An acknowledgement carrying only a packet identifier, as `publishAcknowledge` and its siblings build it. */
  function AckPacket(messageType: MessageType, messageId: int): (p: Packet)
    requires messageType in {PubAck, PubRec, PubRel, PubComp}
    ensures IsClientPacket(p) && p.fixedHeader.messageType == messageType
    ensures p.body == MessageIdBody(messageId)
  {
    var qos := if messageType == PubRel then AtLeastOnce else AtMostOnce;
    Packet(FixedHeader(messageType, false, qos, false), MessageIdBody(messageId))
  }

  // ---------------------------------------------------------------------------
  // Decoded inbound packets

  /** MqttConnAckMessage. */
  datatype ConnAckMessage = ConnAckMessage(code: ConnectReturnCode, isSessionPresent: bool)

  /** MqttPublishMessage. */
  datatype PublishMessage = PublishMessage(
    topicName: string, qos: QoS, isDup: bool, isRetain: bool, messageId: int, payload: seq<byte>)

  /** MqttSubAckMessage. */
  datatype SubAckMessage = SubAckMessage(messageId: int, grantedQoSLevels: seq<int>)

  /** A decoded packet passed to one of the client's `handle` methods. */
  datatype InboundPacket =
    | ConnAckIn(connAck: ConnAckMessage)
    | PublishIn(message: PublishMessage)
    | PubAckIn(messageId: int)
    | PubRecIn(messageId: int)
    | PubRelIn(messageId: int)
    | PubCompIn(messageId: int)
    | SubAckIn(subAck: SubAckMessage)
    | UnsubAckIn(messageId: int)
    | PingRespIn
}
