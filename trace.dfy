/**
 * What a client does, as one sequence of effects in the order they happen:
 * packets handed to it by the connection, packets it writes, calls of the
 * application's handlers, and closing the connection. The invariants below
 * are the promises the client keeps about that sequence.
 */
module Trace {
  import opened Common
  import opened Packets
  import opened MessageIds

  /** Why a connect handler receives a failed future. */
  datatype ConnectFailure =
    | TransportFailure
    | ConnectionRefused(code: ConnectReturnCode)

  /** One call of an application handler, with the value it is handed. */
  datatype Event =
    | ConnectSucceeded(connAck: ConnAckMessage)
    | ConnectFailed(cause: ConnectFailure)
    | DisconnectSucceeded
    | PublishSent(messageId: int)
    | PublishRejected
    | SubscribeSent(messageId: int)
    | SubscribeRejected(invalidTopics: seq<(string, int)>)
    | UnsubscribeSent(messageId: int)
    | PublishCompleted(messageId: int)
    | UnsubscribeCompleted(messageId: int)
    | PublishDelivered(message: PublishMessage)
    | SubscribeCompleted(subAck: SubAckMessage)
    | PingResponse
    | ConnectionClosed

  datatype Effect =
    | Received(inbound: InboundPacket)
    | Wrote(packet: Packet)
    | Called(event: Event)
    | ClosedConnection

  // ---------------------------------------------------------------------------
  // Packet identifiers drawn from the counter

  /** The identifier a written packet drew from `nextMessageId`, if any. */
  function DrawnIds(e: Effect): (ids: seq<int>)
    ensures |ids| <= 1
  {
    if e.Wrote? then
      match e.packet.body
      case PublishBody(_, id, _) => [id]
      case SubscribeBody(id, _) => [id]
      case UnsubscribeBody(id, _) => [id]
      case _ => []
    else []
  }

  /** The identifiers of the PUBLISH, SUBSCRIBE and UNSUBSCRIBE packets written, in order. */
  function IssuedIds(t: seq<Effect>): (ids: seq<int>)
    ensures |ids| <= |t|
  {
    if t == [] then [] else IssuedIds(t[..|t| - 1]) + DrawnIds(t[|t| - 1])
  }

  lemma {:induction false} IssuedIdsAppend(a: seq<Effect>, b: seq<Effect>)
    ensures IssuedIds(a + b) == IssuedIds(a) + IssuedIds(b)
    decreases |b|
  {
    if b == [] {
      assert a + b == a;
    } else {
      var b' := b[..|b| - 1];
      assert (a + b)[..|a + b| - 1] == a + b';
      assert (a + b)[|a + b| - 1] == b[|b| - 1];
      IssuedIdsAppend(a, b');
    }
  }

  // ---------------------------------------------------------------------------
  // Acknowledgements owed to the server (MQTT 3.1.1, section 4.3)

  /**
   * The packet the client must send back on receiving `p`: PUBACK for a QoS 1
   * PUBLISH, PUBREC for a QoS 2 PUBLISH, PUBREL for a PUBREC and PUBCOMP for a
   * PUBREL, each carrying the received packet identifier.
   */
  function RequiredReply(p: InboundPacket): (reply: Option<Packet>)
    ensures reply.Some? <==>
      (p.PublishIn? && p.message.qos != AtMostOnce) || p.PubRecIn? || p.PubRelIn?
    ensures reply.Some? ==> IsClientPacket(reply.value)
    ensures reply.Some? && p.PublishIn? ==>
      reply.value.body == MessageIdBody(p.message.messageId) &&
      reply.value.fixedHeader.messageType == (if p.message.qos == AtLeastOnce then PubAck else PubRec)
    ensures reply.Some? && p.PubRecIn? ==>
      reply.value == AckPacket(PubRel, p.messageId)
    ensures reply.Some? && p.PubRelIn? ==>
      reply.value == AckPacket(PubComp, p.messageId)
  {
    match p
    case PublishIn(m) =>
      (match m.qos
       case AtMostOnce => None
       case AtLeastOnce => Some(AckPacket(PubAck, m.messageId))
       case ExactlyOnce => Some(AckPacket(PubRec, m.messageId)))
    case PubRecIn(id) => Some(AckPacket(PubRel, id))
    case PubRelIn(id) => Some(AckPacket(PubComp, id))
    case _ => None
  }

  /** If effect `i` is a packet that needs a reply, the next effect writes that reply. */
  predicate AnsweredAt(t: seq<Effect>, i: int)
    requires 0 <= i < |t|
  {
    t[i].Received? && RequiredReply(t[i].inbound).Some? ==>
      i + 1 < |t| && t[i + 1] == Wrote(RequiredReply(t[i].inbound).value)
  }

  // ---------------------------------------------------------------------------
  // Why handlers are called

  /**
   * The handler call that receiving `p` causes, when that handler is set:
   * PUBACK and PUBCOMP complete a publication, SUBACK and UNSUBACK a request,
   * CONNACK completes or refuses the connection, and a PUBLISH below QoS 2 is
   * delivered. PUBREC and PUBREL are only answered, and a QoS 2 PUBLISH is
   * answered and never delivered.
   */
  function HandlerCall(p: InboundPacket): (call: Option<Event>)
    ensures call.None? <==> p.PubRecIn? || p.PubRelIn? || (p.PublishIn? && p.message.qos == ExactlyOnce)
    ensures p.ConnAckIn? ==>
      (call == Some(ConnectSucceeded(p.connAck)) <==> p.connAck.code == ConnectionAccepted) &&
      (p.connAck.code != ConnectionAccepted ==> call == Some(ConnectFailed(ConnectionRefused(p.connAck.code))))
    ensures p.PubAckIn? || p.PubCompIn? ==> call == Some(PublishCompleted(p.messageId))
    ensures p.PublishIn? && p.message.qos != ExactlyOnce ==> call == Some(PublishDelivered(p.message))
  {
    match p
    case ConnAckIn(m) =>
      Some(if m.code == ConnectionAccepted then ConnectSucceeded(m) else ConnectFailed(ConnectionRefused(m.code)))
    case PublishIn(m) => if m.qos == ExactlyOnce then None else Some(PublishDelivered(m))
    case PubAckIn(id) => Some(PublishCompleted(id))
    case PubRecIn(_) => None
    case PubRelIn(_) => None
    case PubCompIn(id) => Some(PublishCompleted(id))
    case SubAckIn(m) => Some(SubscribeCompleted(m))
    case UnsubAckIn(id) => Some(UnsubscribeCompleted(id))
    case PingRespIn => Some(PingResponse)
  }

  /** Effect `e` wrote a packet of type `messageType` that drew identifier `id`. */
  predicate SentWith(e: Effect, messageType: MessageType, id: int) {
    e.Wrote? && e.packet.fixedHeader.messageType == messageType && DrawnIds(e) == [id]
  }

  /**
   * If effect `i` calls a handler, its cause comes just before: a sent handler
   * follows the write that drew its identifier, the disconnect handler
   * follows DISCONNECT, a message is delivered right after it is received at
   * QoS 0 and right after its PUBACK at QoS 1, and the other server-driven
   * calls follow the packet that causes them. Rejections, transport failures
   * and the close handler have no packet as cause.
   */
  predicate CausedAt(t: seq<Effect>, i: int)
    requires 0 <= i < |t|
  {
    t[i].Called? ==>
      match t[i].event
      case ConnectFailed(TransportFailure) => true
      case PublishRejected => true
      case SubscribeRejected(_) => true
      case ConnectionClosed => true
      case PublishSent(id) => i >= 1 && SentWith(t[i - 1], MessageType.Publish, id)
      case SubscribeSent(id) => i >= 1 && SentWith(t[i - 1], MessageType.Subscribe, id)
      case UnsubscribeSent(id) => i >= 1 && SentWith(t[i - 1], MessageType.Unsubscribe, id)
      case DisconnectSucceeded =>
        i >= 1 && t[i - 1].Wrote? && t[i - 1].packet.fixedHeader.messageType == MessageType.Disconnect
      case PublishDelivered(m) =>
        || (m.qos == AtMostOnce && i >= 1 && t[i - 1] == Received(PublishIn(m)))
        || (m.qos == AtLeastOnce && i >= 2 && t[i - 2] == Received(PublishIn(m)) &&
            t[i - 1] == Wrote(AckPacket(PubAck, m.messageId)))
      case _ => i >= 1 && t[i - 1].Received? && HandlerCall(t[i - 1].inbound) == Some(t[i].event)
  }

  /**
   * Effect `i` keeps the trace invariants: a packet written is one a client
   * may send, with the flags section 2.2.2 fixes; a packet that needs a reply
   * gets it next; a handler call has its cause just before.
   */
  predicate EffectOk(t: seq<Effect>, i: int)
    requires 0 <= i < |t|
  {
    (t[i].Wrote? ==> IsClientPacket(t[i].packet)) && AnsweredAt(t, i) && CausedAt(t, i)
  }

  /** Every effect of `b` keeps the trace invariants; this survives concatenation. */
  predicate StepOk(b: seq<Effect>) {
    forall i :: 0 <= i < |b| ==> EffectOk(b, i)
  }

  /**
   * The invariant of a client whose counter is `counter` after trace `t`: the
   * trace invariants hold, and the identifiers issued are exactly the first
   * ones `nextMessageId` produces, the counter standing at the last of them.
   */
  predicate Consistent(t: seq<Effect>, counter: int) {
    StepOk(t) &&
    IssuedIds(t) == Allocated(|IssuedIds(t)|) &&
    counter == CounterAfter(|IssuedIds(t)|)
  }

  lemma Initial()
    ensures Consistent([], 0)
  {
  }

  /** The trace invariants of two pieces carry over to their concatenation. */
  lemma StepOkAppend(a: seq<Effect>, b: seq<Effect>)
    requires StepOk(a) && StepOk(b)
    ensures StepOk(a + b)
  {
    var t := a + b;
    forall i | 0 <= i < |t|
      ensures EffectOk(t, i)
    {
      if i < |a| {
        assert EffectOk(a, i);
        assert t[i] == a[i];
        if i + 1 < |a| {
          assert t[i + 1] == a[i + 1];
        }
        if i >= 1 {
          assert t[i - 1] == a[i - 1];
        }
        if i >= 2 {
          assert t[i - 2] == a[i - 2];
        }
      } else {
        var j := i - |a|;
        assert EffectOk(b, j);
        assert t[i] == b[j];
        if j + 1 < |b| {
          assert t[i + 1] == b[j + 1];
        }
        if j >= 1 {
          assert t[i - 1] == b[j - 1];
        }
        if j >= 2 {
          assert t[i - 2] == b[j - 2];
        }
      }
    }
  }

  lemma IssuedIdsOfOne(e: Effect)
    ensures IssuedIds([e]) == DrawnIds(e)
  {
    assert [e][..0] == [];
  }

  lemma StepOfOne(e: Effect)
    requires EffectOk([e], 0)
    ensures StepOk([e]) && IssuedIds([e]) == DrawnIds(e)
  {
    IssuedIdsOfOne(e);
  }

  lemma StepOfTwo(e0: Effect, e1: Effect)
    requires EffectOk([e0, e1], 0) && EffectOk([e0, e1], 1)
    ensures StepOk([e0, e1]) && IssuedIds([e0, e1]) == DrawnIds(e0) + DrawnIds(e1)
  {
    forall i | 0 <= i < 2
      ensures EffectOk([e0, e1], i)
    {
      if i == 1 {
      }
    }
    assert [e0, e1][..1] == [e0];
    IssuedIdsOfOne(e0);
  }

  lemma StepOfThree(e0: Effect, e1: Effect, e2: Effect)
    requires EffectOk([e0, e1, e2], 0) && EffectOk([e0, e1, e2], 1) && EffectOk([e0, e1, e2], 2)
    ensures StepOk([e0, e1, e2]) && IssuedIds([e0, e1, e2]) == DrawnIds(e0) + DrawnIds(e1) + DrawnIds(e2)
  {
    forall i | 0 <= i < 3
      ensures EffectOk([e0, e1, e2], i)
    {
      if i == 1 {
      } else if i == 2 {
      }
    }
    assert [e0, e1, e2][..2] == [e0, e1];
    assert [e0, e1][..1] == [e0];
    IssuedIdsOfOne(e0);
  }

  /** Extending a consistent trace by a step that draws no identifier. */
  lemma ExtendWithoutId(t: seq<Effect>, counter: int, b: seq<Effect>)
    requires Consistent(t, counter)
    requires StepOk(b) && IssuedIds(b) == []
    ensures Consistent(t + b, counter)
  {
    StepOkAppend(t, b);
    IssuedIdsAppend(t, b);
    assert IssuedIds(t + b) == IssuedIds(t);
  }

  /** Extending a consistent trace by a step that draws the next identifier. */
  lemma ExtendWithId(t: seq<Effect>, counter: int, b: seq<Effect>)
    requires Consistent(t, counter)
    requires StepOk(b) && IssuedIds(b) == [NextId(counter)]
    ensures Consistent(t + b, NextId(counter))
  {
    StepOkAppend(t, b);
    IssuedIdsAppend(t, b);
    var n := |IssuedIds(t)|;
    assert IssuedIds(t + b) == Allocated(n) + [CounterAfter(n + 1)];
  }

  /**
   * Every identifier issued lies in [1, 65535], and the next one differs from
   * each of the last 65534 issued: no two requests within a run of 65535
   * consecutive requests share an identifier.
   */
  lemma NextIdIsFresh(t: seq<Effect>, counter: int)
    requires Consistent(t, counter)
    ensures forall k :: 0 <= k < |IssuedIds(t)| ==> 1 <= IssuedIds(t)[k] <= MaxMessageId
    ensures forall k :: 0 <= k < |IssuedIds(t)| && |IssuedIds(t)| - k < MaxMessageId ==>
      IssuedIds(t)[k] != NextId(counter)
  {
    var ids := IssuedIds(t);
    var n := |ids|;
    forall k | 0 <= k < n
      ensures 1 <= ids[k] <= MaxMessageId
    {
      AllocatedInRange(n, k);
    }
    forall k | 0 <= k < n && n - k < MaxMessageId
      ensures ids[k] != NextId(counter)
    {
      assert Allocated(n + 1) == ids + [NextId(counter)];
      AllocatedDistinctWithinCycle(n + 1, k, n);
    }
  }

  /**
   * A message reaches the publish handler only right after it was received,
   * at QoS 1 only after its PUBACK was written, and never at QoS 2.
   */
  lemma DeliveryFollowsReceipt(t: seq<Effect>, counter: int, i: int, m: PublishMessage)
    requires Consistent(t, counter) && 0 <= i < |t|
    requires t[i] == Called(PublishDelivered(m))
    ensures m.qos != ExactlyOnce
    ensures m.qos == AtMostOnce ==> i >= 1 && t[i - 1] == Received(PublishIn(m))
    ensures m.qos == AtLeastOnce ==>
      i >= 2 && t[i - 2] == Received(PublishIn(m)) && t[i - 1] == Wrote(AckPacket(PubAck, m.messageId))
  {
    assert EffectOk(t, i);
  }

  /** The publish-complete handler hears only identifiers that a PUBACK or PUBCOMP has just carried. */
  lemma CompletionFollowsAcknowledgement(t: seq<Effect>, counter: int, i: int, id: int)
    requires Consistent(t, counter) && 0 <= i < |t|
    requires t[i] == Called(PublishCompleted(id))
    ensures i >= 1 && (t[i - 1] == Received(PubAckIn(id)) || t[i - 1] == Received(PubCompIn(id)))
  {
    assert EffectOk(t, i);
  }

  /** A refused connection is reported with the code of the CONNACK just received, which is never CONNECTION_ACCEPTED. */
  lemma RefusalCarriesReturnCode(t: seq<Effect>, counter: int, i: int, code: ConnectReturnCode)
    requires Consistent(t, counter) && 0 <= i < |t|
    requires t[i] == Called(ConnectFailed(ConnectionRefused(code)))
    ensures code != ConnectionAccepted
    ensures i >= 1 && t[i - 1].Received? && t[i - 1].inbound.ConnAckIn? && t[i - 1].inbound.connAck.code == code
  {
    assert EffectOk(t, i);
  }

  /**
   * The identifier a sent handler receives is the one the packet written just
   * before drew, the last identifier issued so far, and a valid one.
   */
  lemma IssuedIdsOfPrefix(t: seq<Effect>, i: int)
    requires 1 <= i <= |t|
    ensures IssuedIds(t[..i]) == IssuedIds(t[..i - 1]) + DrawnIds(t[i - 1])
  {
    assert t[..i][..i - 1] == t[..i - 1];
  }

  lemma SentIdWasIssued(t: seq<Effect>, counter: int, i: int, id: int)
    requires Consistent(t, counter) && 0 <= i < |t|
    requires t[i] == Called(PublishSent(id)) || t[i] == Called(SubscribeSent(id)) || t[i] == Called(UnsubscribeSent(id))
    ensures IssuedIds(t[..i]) != [] && IssuedIds(t[..i])[|IssuedIds(t[..i])| - 1] == id
    ensures 1 <= id <= MaxMessageId
  {
    assert i >= 1 && DrawnIds(t[i - 1]) == [id] by {
      assert EffectOk(t, i);
    }
    IssuedIdsOfPrefix(t, i);
    var n := |IssuedIds(t[..i])|;
    assert IssuedIds(t)[n - 1] == id by {
      assert t == t[..i] + t[i..];
      IssuedIdsAppend(t[..i], t[i..]);
    }
    AllocatedInRange(|IssuedIds(t)|, n - 1);
  }

}
