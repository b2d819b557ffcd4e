# Vert.x MQTT client, modelled in Dafny

This project models the core of the Vert.x MQTT client, `MqttClientImpl`, which speaks MQTT 3.1.1 to a server.
The model covers:

- how the client builds and writes each request packet (CONNECT, PUBLISH, SUBSCRIBE, UNSUBSCRIBE, PINGREQ, DISCONNECT);
- how it validates topic names and topic filters before sending them;
- how it allocates packet identifiers;
- how it answers and dispatches each packet the server sends (CONNACK, PUBLISH, PUBACK, PUBREC, PUBREL, PUBCOMP, SUBACK, UNSUBACK, PINGRESP);
- the keep-alive ping and the handler setters.

The model follows the code as written:

- The client keeps no table of outstanding packets.
- An inbound QoS 2 message is answered with PUBREC and never delivered to the application.
- A PUBREL is answered with PUBCOMP and nothing else.

Modules, one per file:

- `Common` (`common.dfy`): `Option` and `byte`.
- `Utf8` (`utf8.dfy`): UTF-8 encoding of a string. The size check on topics counts its bytes.
- `MessageIds` (`message_ids.dfy`): the identifier counter of `nextMessageId` and the sequence of identifiers it issues.
- `Packets` (`packets.dfy`): the MQTT control packets the client writes and the decoded packets it is handed. `IsClientPacket` holds the fixed-header rules of table 2.2 in section 2.2.2 of MQTT 3.1.1.
- `Topics` (`topics.dfy`): `isValidTopicName`, `isValidTopicFilter` and `isValidStringSizeInUTF8`. This includes what the two regular expressions at lines 105-106 accept under `Matcher.find`.
- `Trace` (`trace.dfy`): the client's history as one sequence of effects: packets received, packets written, handler calls and the connection closed. `Consistent` holds the invariant every operation keeps, and several lemmas say what that invariant means.
- `Client` (`client.dfy`): the class `MqttClient`. Its fields are the ones the source updates: the options, the counter, and whether each handler is set. Each method's contract gives the new trace and counter exactly. The requests (`Connect`, `Disconnect`, `Publish`, `Subscribe`, `Unsubscribe`, `Ping`, `UserEventTriggered`), the handler setters and the `Handle…` methods also keep `Valid()`, which is `Consistent` plus a keep-alive condition. Six building blocks do not keep it: `NextMessageId`, `Write`, `PublishAcknowledge`, `PublishReceived`, `PublishComplete` and `PublishRelease`. They are called only inside those methods, and `NextMessageId` alone breaks `Valid()` until the packet that uses the identifier is written.

The trace invariant says:

- every packet written obeys the fixed-header rules;
- every PUBLISH at QoS 1 or 2, every PUBREC and every PUBREL is answered at once with the matching acknowledgement, carrying the same identifier;
- every handler call has its cause just before it, with two kinds of exception. A QoS 1 delivery comes two effects after the PUBLISH that causes it, with the PUBACK written in between. And four calls have no packet as a cause: a transport failure reported to the connect handler, a rejected publish, a rejected subscribe, and the close handler;
- the identifiers drawn so far are exactly `1, 2, …, 65535, 1, 2, …` in order, and the counter is the last of them, or 0 when none has been drawn.

### How `$` is read in the filter pattern

Java's `$`, without `MULTILINE`, also matches just before a final line terminator. So `Matcher.find` accepts a filter that is well formed up to a trailing `#` and then continues with one line terminator, or with `\r\n`. `FilterPatternFindsExactly` states this precisely: the pattern finds a match exactly when the filter's levels are valid, or when it is one of these `#`-then-terminator strings. `HashFilterAcceptsFinalNewline` and `PlusFilterRejectsFinalNewline` show that the quirk reaches `isValidTopicFilter` after `#`, but not after `+`, because the look-ahead `(?![^/])` there rejects the terminator.

For topic names it makes no difference. The name character class does not exclude line terminators, so `^[^#+\u0000]+$` succeeds exactly when the name is nonempty and contains no `#`, `+` or NUL.

The model states what the code accepts. The MQTT 3.1.1 rules in section 4.7 reject these filters.

## Model

| member | source | states |
|---|---|---|
| MessageIds.NextId | src/main/java/io/vertx/mqtt/impl/MqttClientImpl.java:562-567 | The next identifier is always in 1..65535; it is 1 after 0 or after 65535, and otherwise one more than the counter. |
| MessageIds.CounterAfter | src/main/java/io/vertx/mqtt/impl/MqttClientImpl.java:562-567 | After n draws from a fresh client the counter lies in 0..65535 and is nonzero once anything was drawn. |
| MessageIds.CounterAfterCycles | src/main/java/io/vertx/mqtt/impl/MqttClientImpl.java:562-567 | The counter after n draws is `(n-1) mod 65535 + 1`: the counter restarts at 1 after 65535, not at 0. |
| MessageIds.Allocated | src/main/java/io/vertx/mqtt/impl/MqttClientImpl.java:562-567 | The first n identifiers `nextMessageId` issues from a fresh counter, in order; there are exactly n of them. |
| MessageIds.AllocatedAt | src/main/java/io/vertx/mqtt/impl/MqttClientImpl.java:562-567 | The k-th identifier issued (from 0) is `k mod 65535 + 1`. |
| MessageIds.AllocatedInRange | src/main/java/io/vertx/mqtt/impl/MqttClientImpl.java:76 | No issued identifier is 0 or above MAX_MESSAGE_ID. |
| MessageIds.AllocatedDistinctWithinCycle | src/main/java/io/vertx/mqtt/impl/MqttClientImpl.java:562-567 | Two identifiers issued fewer than 65535 draws apart are different. |
| MessageIds.AllocatedRecursAfterCycle | src/main/java/io/vertx/mqtt/impl/MqttClientImpl.java:562-567 | An identifier recurs exactly 65535 draws later. |
| Utf8.Encode | src/main/java/io/vertx/mqtt/impl/MqttClientImpl.java:783 | The encoded bytes number `Length(s)`, the count the size check uses. |
| Utf8.EncodeScalar | src/main/java/io/vertx/mqtt/impl/MqttClientImpl.java:783 | A character encodes to a lead byte announcing its width, followed by continuation bytes. |
| Utf8.DecodeEncodeScalar | src/main/java/io/vertx/mqtt/impl/MqttClientImpl.java:783 | Decoding a character's encoding gives the character back. |
| Utf8.LengthAppend | src/main/java/io/vertx/mqtt/impl/MqttClientImpl.java:783 | The encoded length of a concatenation is the sum of the lengths. |
| Utf8.LengthBounds | src/main/java/io/vertx/mqtt/impl/MqttClientImpl.java:783 | A string encodes to between 1 and 4 bytes per character. |
| Utf8.LengthOfAscii | src/main/java/io/vertx/mqtt/impl/MqttClientImpl.java:783 | An ASCII string encodes to one byte per character. |
| Topics.IsValidStringSizeInUtf8 | src/main/java/io/vertx/mqtt/impl/MqttClientImpl.java:781-790 | True exactly when the UTF-8 length is in MIN_TOPIC_LEN..MAX_TOPIC_LEN; so a valid string has from 1 to 65535 characters, and any nonempty string of at most 16383 characters passes. |
| Topics.AsciiSizeValid | src/main/java/io/vertx/mqtt/impl/MqttClientImpl.java:783-784 | For an ASCII string the octet limit is a character limit: the size is valid exactly when it has 1 to 65535 characters. |
| Topics.DollarMatchesAt | src/main/java/io/vertx/mqtt/impl/MqttClientImpl.java:105-106 | Where Java's `$` without MULTILINE succeeds: at the end, before a final `\r\n`, or before one final line terminator that is not the `\n` of a `\r\n`. |
| Topics.DollarLeavesTerminators | src/main/java/io/vertx/mqtt/impl/MqttClientImpl.java:105-106 | Where Java's `$` matches, only line terminators remain after it. |
| Topics.NamePatternFinds | src/main/java/io/vertx/mqtt/impl/MqttClientImpl.java:757-758 | `find()` of the name pattern: some nonempty prefix with no `#`, `+` or NUL ends at a position where `$` matches. |
| Topics.NamePatternFindsExactly | src/main/java/io/vertx/mqtt/impl/MqttClientImpl.java:105 | The topic-name pattern finds a match exactly when the name is nonempty and has no `#`, `+` or NUL. |
| Topics.IsValidTopicName | src/main/java/io/vertx/mqtt/impl/MqttClientImpl.java:752-759 | A name is valid exactly when its UTF-8 size is in range and it contains no `#`, `+` or NUL. |
| Topics.SlashIndex | src/main/java/io/vertx/mqtt/impl/MqttClientImpl.java:106 | Gives the position of the first `/`. |
| Topics.Join | src/main/java/io/vertx/mqtt/impl/MqttClientImpl.java:106 | (helper of `Levels`) the levels joined back together with `/` between neighbours. |
| Topics.Levels | src/main/java/io/vertx/mqtt/impl/MqttClientImpl.java:106 | `s` split at every `/`: there is at least one level, no level contains `/`, and joining the levels with `/` gives `s` back. |
| Topics.LevelsValid | src/main/java/io/vertx/mqtt/impl/MqttClientImpl.java:106 | Every level is `+`, or `#` as the last level, or free of wildcards: the rule that `FilterPatternFindsExactly` shows the pattern enforces. |
| Topics.SingleLevelWellPlaced | src/main/java/io/vertx/mqtt/impl/MqttClientImpl.java:106 | For a filter without `/`, the wildcard placement the pattern demands is the rule for a last level. |
| Topics.SplitLevelWellPlaced | src/main/java/io/vertx/mqtt/impl/MqttClientImpl.java:106 | `x/y` has wildcards well placed exactly when `x` is a valid inner level and `y` has them well placed. |
| Topics.FirstLevelOfWellPlaced | src/main/java/io/vertx/mqtt/impl/MqttClientImpl.java:106 | In a well-placed filter, the first level is a valid inner level. |
| Topics.RestOfWellPlaced | src/main/java/io/vertx/mqtt/impl/MqttClientImpl.java:106 | The rest of a well-placed filter after its first `/` is well placed. |
| Topics.JoinWellPlaced | src/main/java/io/vertx/mqtt/impl/MqttClientImpl.java:106 | A valid inner level, `/`, and a well-placed rest make a well-placed filter. |
| Topics.WellPlacedIffLevelsValid | src/main/java/io/vertx/mqtt/impl/MqttClientImpl.java:106 | Wildcards meet the pattern's placement rule exactly when each level is valid: `#` only as the whole last level, `+` only as a whole level. |
| Topics.BodyBeforeTerminator | src/main/java/io/vertx/mqtt/impl/MqttClientImpl.java:106 | The pattern's body matches before a `$` position exactly when that prefix is well placed and does not end in `+`. |
| Topics.TerminatorsExtendFilter | src/main/java/io/vertx/mqtt/impl/MqttClientImpl.java:106 | A well-placed prefix that does not end in a wildcard stays well placed with the trailing terminators. |
| Topics.FilterPatternFinds | src/main/java/io/vertx/mqtt/impl/MqttClientImpl.java:772-773 | `find()` of the filter pattern: the body of the pattern matches the prefix before some position where `$` matches. |
| Topics.FilterPatternFindsExactly | src/main/java/io/vertx/mqtt/impl/MqttClientImpl.java:106 | The filter pattern finds a match exactly when the levels are valid, or the filter is a well-formed `…#` followed by a final line terminator. |
| Topics.HashBeforeTerminatorBreaksLevels | src/main/java/io/vertx/mqtt/impl/MqttClientImpl.java:106 | The filters that are accepted only through `$` do not have valid levels. |
| Topics.HashFilterAcceptsFinalNewline | src/main/java/io/vertx/mqtt/impl/MqttClientImpl.java:767-774 | A valid filter ending in `#`, extended with `\n`, passes `isValidTopicFilter` even though its levels are not valid. |
| Topics.PlusFilterRejectsFinalNewline | src/main/java/io/vertx/mqtt/impl/MqttClientImpl.java:767-774 | After `+`, a trailing `\n` is rejected. |
| Topics.IsValidTopicFilter | src/main/java/io/vertx/mqtt/impl/MqttClientImpl.java:767-774 | A filter is valid exactly when its UTF-8 size is in range and it has valid levels or is one of the `#`-then-terminator filters. |
| Topics.InvalidFilters | src/main/java/io/vertx/mqtt/impl/MqttClientImpl.java:334-337 | There are no more invalid entries than entries. |
| Topics.InvalidFiltersMembers | src/main/java/io/vertx/mqtt/impl/MqttClientImpl.java:334-337 | The collected entries are exactly the subscription entries whose filter is invalid. |
| Topics.InvalidFiltersEmpty | src/main/java/io/vertx/mqtt/impl/MqttClientImpl.java:334-339 | Nothing is collected exactly when every filter is valid, which is when SUBSCRIBE is sent. |
| Packets.IsClientPacket | src/main/java/io/vertx/mqtt/impl/MqttClientImpl.java:159-528 | The fixed-header rule for packets a client sends (table 2.2, section 2.2.2 of MQTT 3.1.1): only client-to-server types, each with the body its type calls for. DUP, QoS and RETAIN are zero except on PUBLISH, which keeps its own flags, and QoS is 1 on PUBREL, SUBSCRIBE and UNSUBSCRIBE. |
| Packets.QoSValue | src/main/java/io/vertx/mqtt/impl/MqttClientImpl.java:358 | A QoS level is 0, 1 or 2. |
| Packets.QoSOf | src/main/java/io/vertx/mqtt/impl/MqttClientImpl.java:358 | `valueOf` maps 0, 1 and 2 to the level with that value. |
| Packets.AckPacket | src/main/java/io/vertx/mqtt/impl/MqttClientImpl.java:463-528 | PUBACK, PUBREC, PUBREL and PUBCOMP carry the acknowledged identifier and obey the fixed-header rules: PUBREL at QoS 1, the others with zero flags. |
| Trace.DrawnIds | src/main/java/io/vertx/mqtt/impl/MqttClientImpl.java:562-567 | A single effect draws at most one identifier. |
| Trace.IssuedIdsAppend | src/main/java/io/vertx/mqtt/impl/MqttClientImpl.java:562-567 | The identifiers drawn by two stretches of history are those of the first followed by those of the second. |
| Trace.HandlerCall | src/main/java/io/vertx/mqtt/impl/MqttClientImpl.java:606-737 | No handler call follows exactly a PUBREC, a PUBREL or a QoS 2 PUBLISH. A CONNACK gives success exactly when its code is CONNECTION_ACCEPTED, and otherwise a refusal with the code. PUBACK and PUBCOMP complete a publication with their identifier, and a PUBLISH below QoS 2 is delivered. |
| Trace.RequiredReply | src/main/java/io/vertx/mqtt/impl/MqttClientImpl.java:674-715 | Exactly a QoS 1 or 2 PUBLISH, a PUBREC and a PUBREL need a reply: PUBACK or PUBREC with the message's identifier, then PUBREL and then PUBCOMP with the received identifier. |
| Trace.Consistent | src/main/java/io/vertx/mqtt/impl/MqttClientImpl.java:562-737 | The invariant the client keeps: each effect is in order (`EffectOk`), the identifiers issued are exactly the first ones `nextMessageId` produces, and the counter is the last of them, or 0 when none has been drawn. |
| Trace.Initial | src/main/java/io/vertx/mqtt/impl/MqttClientImpl.java:102 | A new client's empty history with counter 0 satisfies the invariant. |
| Trace.StepOkAppend | src/main/java/io/vertx/mqtt/impl/MqttClientImpl.java:581-737 | Appending a step that is in order by itself to a history that is in order keeps the history in order. |
| Trace.IssuedIdsOfOne | src/main/java/io/vertx/mqtt/impl/MqttClientImpl.java:562-567 | Identifiers issued by one effect are its drawn ones. |
| Trace.StepOfOne | src/main/java/io/vertx/mqtt/impl/MqttClientImpl.java:569-576 | A one-effect step that is in order by itself keeps the history in order, and it draws that effect's identifiers. |
| Trace.StepOfTwo | src/main/java/io/vertx/mqtt/impl/MqttClientImpl.java:581-737 | The same for a two-effect step. |
| Trace.StepOfThree | src/main/java/io/vertx/mqtt/impl/MqttClientImpl.java:206-226 | The same for a three-effect step. |
| Trace.ExtendWithoutId | src/main/java/io/vertx/mqtt/impl/MqttClientImpl.java:581-737 | A step that is in order and draws no identifier keeps the invariant with the counter unchanged. |
| Trace.ExtendWithId | src/main/java/io/vertx/mqtt/impl/MqttClientImpl.java:562-567 | A step that is in order and draws exactly `nextMessageId` keeps the invariant with the advanced counter. |
| Trace.NextIdIsFresh | src/main/java/io/vertx/mqtt/impl/MqttClientImpl.java:562-567 | Every identifier issued is in 1..65535, and the next one differs from each of the last 65534 issued. |
| Trace.DeliveryFollowsReceipt | src/main/java/io/vertx/mqtt/impl/MqttClientImpl.java:674-700 | The publish handler is called only with a message just received: at QoS 0 right after receipt, at QoS 1 after its PUBACK was written, and never at QoS 2. |
| Trace.CompletionFollowsAcknowledgement | src/main/java/io/vertx/mqtt/impl/MqttClientImpl.java:620-641 | The publish-complete handler gets only an identifier carried by the PUBACK or PUBCOMP just received. |
| Trace.RefusalCarriesReturnCode | src/main/java/io/vertx/mqtt/impl/MqttClientImpl.java:722-737 | A refused connection is reported with the code of the CONNACK just received, and that code is never CONNECTION_ACCEPTED. |
| Trace.IssuedIdsOfPrefix | src/main/java/io/vertx/mqtt/impl/MqttClientImpl.java:562-567 | One more effect of history adds exactly its drawn identifiers. |
| Trace.SentIdWasIssued | src/main/java/io/vertx/mqtt/impl/MqttClientImpl.java:265-269 | The identifier a sent handler receives is the last one issued before it, and it lies in 1..65535. |
| Client.WithGeneratedClientId | src/main/java/io/vertx/mqtt/impl/MqttClientImpl.java:149-151 | Only the client identifier changes. It becomes the generated one exactly when generation is on and the configured identifier is null or empty. |
| Client.ConnectPacket | src/main/java/io/vertx/mqtt/impl/MqttClientImpl.java:159-185 | CONNECT obeys the fixed-header rules and names protocol "MQTT" level 4. The user-name and password flags are set exactly when those fields are present, and carry the configured values. The identifier is the configured one, and empty exactly when none is configured or it is empty. The will flag, will QoS, will retain, will topic and will message, the clean-session flag and the keep-alive seconds are copied from the options. |
| Client.ClientIdentifierSent | src/main/java/io/vertx/mqtt/impl/MqttClientImpl.java:149-151 | CONNECT carries the client identifier that is configured and nonempty, or else the generated one when generation is on. It is empty exactly when generation is off and none is configured. |
| Client.KeepAliveArmed | src/main/java/io/vertx/mqtt/impl/MqttClientImpl.java:536-537 | The idle-state and keep-alive handlers are installed exactly when auto keep-alive is on and the keep-alive time is not 0. |
| Client.Subscriptions | src/main/java/io/vertx/mqtt/impl/MqttClientImpl.java:356-359 | SUBSCRIBE holds one subscription per entry, in order, with the entry's filter and requested QoS. |
| Client.DisconnectEffects | src/main/java/io/vertx/mqtt/impl/MqttClientImpl.java:206-226 | DISCONNECT is written first and the connection is closed last. The success report comes in between exactly when a handler is given. |
| Client.DisconnectStep | src/main/java/io/vertx/mqtt/impl/MqttClientImpl.java:206-226 | The disconnect step is in order and draws no identifier. |
| Client.RejectStep | src/main/java/io/vertx/mqtt/impl/MqttClientImpl.java:242-249 | Reporting a rejected publish or subscribe is in order and draws no identifier. |
| Client.RequestStep | src/main/java/io/vertx/mqtt/impl/MqttClientImpl.java:259-269 | A request written and then its sent handler given the request's identifier is in order, and it draws exactly that identifier. |
| Client.NotifyStep | src/main/java/io/vertx/mqtt/impl/MqttClientImpl.java:581-665 | Receiving a packet that needs no reply, then calling the handler it causes, is in order and draws nothing. |
| Client.AnsweredStep | src/main/java/io/vertx/mqtt/impl/MqttClientImpl.java:648-715 | Receiving a packet and writing its required reply is in order and draws nothing. |
| Client.PublishEffects | src/main/java/io/vertx/mqtt/impl/MqttClientImpl.java:674-700 | An inbound PUBLISH is received first; at QoS 1 and 2 the required reply is written next; it is delivered last, exactly when a handler is set and the QoS is not 2. |
| Client.PublishEffectsShape | src/main/java/io/vertx/mqtt/impl/MqttClientImpl.java:678-697 | The effects for each QoS level, written out. |
| Client.PublishStep | src/main/java/io/vertx/mqtt/impl/MqttClientImpl.java:674-700 | Handling an inbound PUBLISH is in order and draws no identifier. |
| Client.MqttClient.Valid | src/main/java/io/vertx/mqtt/impl/MqttClientImpl.java:102 | The class invariant: `Consistent` holds for the history and the counter, and keep-alive is armed only on a connection. |
| Client.MqttClient.constructor | src/main/java/io/vertx/mqtt/impl/MqttClientImpl.java:114-117 | A new client keeps the options, has no connection, no handlers, counter 0 and empty history. |
| Client.MqttClient.ClientId | src/main/java/io/vertx/mqtt/impl/MqttClientImpl.java:453-456 | `clientId()` returns the identifier in the options, which after a connection is the generated one when generation applied. |
| Client.MqttClient.PublishCompleteHandler | src/main/java/io/vertx/mqtt/impl/MqttClientImpl.java:278-282 | Sets only whether a publish-complete handler is present. |
| Client.MqttClient.PublishHandler | src/main/java/io/vertx/mqtt/impl/MqttClientImpl.java:288-292 | Sets only whether a publish handler is present. |
| Client.MqttClient.SubscribeCompleteHandler | src/main/java/io/vertx/mqtt/impl/MqttClientImpl.java:298-302 | Sets only whether a subscribe-complete handler is present. |
| Client.MqttClient.UnsubscribeCompleteHandler | src/main/java/io/vertx/mqtt/impl/MqttClientImpl.java:377-381 | Sets only whether an unsubscribe-complete handler is present. |
| Client.MqttClient.PingResponseHandler | src/main/java/io/vertx/mqtt/impl/MqttClientImpl.java:422-426 | Sets only whether a ping-response handler is present. |
| Client.MqttClient.CloseHandler | src/main/java/io/vertx/mqtt/impl/MqttClientImpl.java:432-435 | Sets only whether a close handler is present. |
| Client.MqttClient.NextMessageId | src/main/java/io/vertx/mqtt/impl/MqttClientImpl.java:562-567 | Stores `NextId` of the old counter and returns it; nothing else changes. |
| Client.MqttClient.Write | src/main/java/io/vertx/mqtt/impl/MqttClientImpl.java:569-576 | Appends the packet to what was written; needs a connection. |
| Client.MqttClient.PublishAcknowledge | src/main/java/io/vertx/mqtt/impl/MqttClientImpl.java:463-474 | Writes PUBACK with the given identifier. |
| Client.MqttClient.PublishReceived | src/main/java/io/vertx/mqtt/impl/MqttClientImpl.java:481-492 | Writes PUBREC with the given identifier. |
| Client.MqttClient.PublishComplete | src/main/java/io/vertx/mqtt/impl/MqttClientImpl.java:499-510 | Writes PUBCOMP with the given identifier. |
| Client.MqttClient.PublishRelease | src/main/java/io/vertx/mqtt/impl/MqttClientImpl.java:517-528 | Writes PUBREL with the given identifier. |
| Client.MqttClient.Connect | src/main/java/io/vertx/mqtt/impl/MqttClientImpl.java:131-192 | On a transport failure the state is unchanged and only the given handler hears of it. Otherwise the handler is kept, the identifier is generated if needed, keep-alive is armed as `initChannel` decides, CONNECT is written, and the invariant still holds. |
| Client.MqttClient.Disconnect | src/main/java/io/vertx/mqtt/impl/MqttClientImpl.java:206-226 | Performs exactly `DisconnectEffects`, keeps the invariant, and leaves the counter alone. |
| Client.MqttClient.Publish | src/main/java/io/vertx/mqtt/impl/MqttClientImpl.java:240-272 | With an invalid topic name, only the rejection is reported and no identifier is used. Otherwise one identifier is drawn, PUBLISH is written with the caller's flags, topic, payload and that identifier, and the handler is given the same identifier. |
| Client.MqttClient.Subscribe | src/main/java/io/vertx/mqtt/impl/MqttClientImpl.java:332-371 | If any filter is invalid, only those entries are reported and no identifier is used. Otherwise one identifier is drawn, SUBSCRIBE is written at QoS 1 with every entry, and the handler is given the same identifier. |
| Client.MqttClient.Unsubscribe | src/main/java/io/vertx/mqtt/impl/MqttClientImpl.java:387-408 | Draws one identifier, writes UNSUBSCRIBE at QoS 1 for the one filter without validating it, and gives the handler the identifier. |
| Client.MqttClient.Ping | src/main/java/io/vertx/mqtt/impl/MqttClientImpl.java:441-451 | Writes PINGREQ and nothing else. |
| Client.MqttClient.UserEventTriggered | src/main/java/io/vertx/mqtt/impl/MqttClientImpl.java:536-553 | A writer-idle event writes PINGREQ. Any other event changes nothing. |
| Client.MqttClient.Notify | src/main/java/io/vertx/mqtt/impl/MqttClientImpl.java:581-665 | Records the received packet and then, if its handler is set, the handler call it causes. |
| Client.MqttClient.HandleClosed | src/main/java/io/vertx/mqtt/impl/MqttClientImpl.java:581-587 | Calls the close handler exactly when one is set. |
| Client.MqttClient.HandlePingresp | src/main/java/io/vertx/mqtt/impl/MqttClientImpl.java:592-599 | Calls the ping-response handler exactly when one is set. |
| Client.MqttClient.HandleUnsuback | src/main/java/io/vertx/mqtt/impl/MqttClientImpl.java:606-613 | Gives the UNSUBACK identifier to the unsubscribe-complete handler exactly when one is set. |
| Client.MqttClient.HandlePuback | src/main/java/io/vertx/mqtt/impl/MqttClientImpl.java:620-627 | Gives the PUBACK identifier to the publish-complete handler exactly when one is set. |
| Client.MqttClient.HandlePubcomp | src/main/java/io/vertx/mqtt/impl/MqttClientImpl.java:634-641 | Gives the PUBCOMP identifier to the same publish-complete handler. |
| Client.MqttClient.HandleSuback | src/main/java/io/vertx/mqtt/impl/MqttClientImpl.java:660-667 | Gives the SUBACK message to the subscribe-complete handler exactly when one is set. |
| Client.MqttClient.HandleConnack | src/main/java/io/vertx/mqtt/impl/MqttClientImpl.java:722-737 | Without a connect handler, nothing is reported. CONNECTION_ACCEPTED reports success with the message, and any other code reports a refusal carrying that code. |
| Client.MqttClient.HandlePubrec | src/main/java/io/vertx/mqtt/impl/MqttClientImpl.java:648-653 | Answers PUBREC with PUBREL carrying the same identifier, and calls no handler. |
| Client.MqttClient.HandlePubrel | src/main/java/io/vertx/mqtt/impl/MqttClientImpl.java:707-715 | Answers PUBREL with PUBCOMP carrying the same identifier, and delivers nothing. |
| Client.MqttClient.HandlePublish | src/main/java/io/vertx/mqtt/impl/MqttClientImpl.java:674-700 | Performs exactly `PublishEffects` for the message and the publish handler's presence, and keeps the invariant. |

## Left out

- Netty and the network: connecting, `initChannel`'s pipeline, encoding, `MqttClientConnection` and its dispatch, and closing are not part of this model. The transport's outcome is a parameter of `Connect`, and each decoded packet is a call of the matching `Handle…` method.
- `synchronized (this.connection)`: the model is sequential.
- The idle timer: `IdleStateHandler` is represented only by the events it hands to `UserEventTriggered`.
- `generateRandomClientId`: a UUID is random, so the generated identifier is a nonempty parameter of `Connect`.
- Logging, the `log.debug`/`log.error` calls, and the text of error messages. A rejected subscribe is reported with the invalid entries themselves, not with the formatted string.
- The handler objects: each handler field is a flag saying whether it is set. The values handlers receive are recorded in the trace.
- Client.MqttClient.Subscribe: requires every QoS to be 0..2 when all filters are valid, because `valueOf` throws on any other value, and the exception is not modelled. In the source, `nextMessageId()` runs first, at line 355, before `valueOf` throws at line 358. So an out-of-range QoS uses up an identifier, writes nothing and calls no handler. The model does not cover that path.
- Client.MqttClient.constructor: the options are kept as a value. The source stores the caller's `MqttClientOptions` object by reference (line 116). So the generated client identifier set at line 150 is also visible through the caller's object, and changes the caller makes to it later reach the next CONNECT build (lines 165-183). The model captures neither.
- Null topics: `publish` with a null topic, or `subscribe` with a null key in the map, throws a NullPointerException from `getBytes` at line 783. Dafny strings cannot be null, so this path is not modelled.
- Client.MqttClient.Write: requires a connection, because with a null connection the source crashes on `synchronized`. The same requirement holds for every method that writes or handles a packet.
- Client.MqttClient.Disconnect: closing is recorded as an effect, but `hasConnection` stays true, because the source keeps `connection` non-null after closing and later writes go to the closed connection.
- The overloads without a handler (`connect()`, `disconnect()`, `publish(…)` without a handler, `subscribe(topic, qos)`, `unsubscribe(topic)`) are the handler-taking methods with the handler flag false, and the single-topic `subscribe` is the map form with one entry.
- The subscription map is a sequence of entries. As a Java `Map` it would have no duplicate keys and an unspecified order, and the model does not impose either.
- MqttClientOptions: only the fields the client reads are modelled. `hasUsername`/`hasPassword` are read as "the value is non-null".
- The will flag, will topic and will QoS are copied into CONNECT unchecked, as the source does; their consistency (section 3.1.2.5 of MQTT 3.1.1) is not enforced.
- Client.MqttClient.Publish: the model, like the source, draws an identifier even at QoS 0 and passes the caller's `isDup` at QoS 0 unchanged.
- Client.MqttClient.HandlePublish: a QoS 2 message is never delivered, and the later PUBREL does not deliver it either, because the source never stores it.
- `isValidStringSizeInUTF8`: strings are sequences of Unicode scalar values, so Java's unpaired surrogates, which `getBytes` replaces with `?`, cannot occur. The `UnsupportedEncodingException` branch is left out, since UTF-8 is always supported.
- Topic-filter matching is stated as predicates equivalent to what the regular expression finds, not as a regular-expression engine.
