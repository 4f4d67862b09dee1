# Verified models of the networking library

The library stacks session layers on a byte stream: MQTT 3.1.1 and WebSocket (RFC 6455) endpoints above a stream that
queues what the layer below does not take, with a growing byte buffer, intrusive tail queues and trees, SHA-1, Base64
and an HTTP and a JSON module beside them.  This project models these parts in Dafny and proves what they promise.

| module | models |
|---|---|
| `Bytes`, `CStrings`, `Wrappers`, `Buffers`, `Sources` | bytes, C strings, optional values, the buffer with an offset into its allocation, the stream below as a reader sees it |
| `MqttCodec`, `MqttPackets` | the fixed header with its length field; CONNECT, PUBLISH, SUBSCRIBE and UNSUBSCRIBE bodies |
| `MqttSession`, `MqttActions`, `MqttNetwork` | one endpoint as a class and as a specification on values; its runs; two endpoints joined by channels |
| `MqttWire`, `MqttRequests` | the bytes of packets as the standard lists them; what submitting a request and answering it do |
| `MqttFifo`, `MqttReuse`, `MqttDelivery` | the order of first transmissions in every run; exactly-once delivery with packet ids used again; what else reaches the application and what is answered |
| `TailQueue`, `SessionQueues` | the linked queue, and what the session does to its queues done to the links |
| `MqttDeframer` | from chunks of bytes to frames handed to the session |
| `WsCodec`, `WsSession`, `WsExamples` | WebSocket frames and masks; deframing, reassembly and control frames after the handshake; the frames of the standard |
| `TreeNodes`, `NodeOrder`, `RbShape`, `RbColor`, `RbTree` | the red-black tree: links and shapes, order and balance, the operations |
| `SplayTree` | the top-down splay tree |
| `Sha1Transform`, `Sha1`, `Sha1Example` | the compression function; streaming, counting and padding; one digest computed through |
| `Streams` | the outgoing queue under partial writes |
| `Base64`, `Json` | the codec, the matcher |
| `Http`, `HttpAnswers` | serializing and parsing messages; what the parser answers to any input |

Where the C code updates an object, the model is a class whose methods carry contracts of the form "the new abstract
state is this function of the old one"; what the code promises is then proved about these functions, over every run
where it is about runs.  Linked structures are proved on the heap: a ghost map holds the links of all nodes, `Agree`
ties it to the fields, and everything about shapes is proved on the map.  A red-black or splay tree under repair is
seen as a subtree in a context, the way from the subtree up to the root; loop invariants speak of the two parts.

Bytes are integers below 256, shifts and masks are written as divisions and remainders, and sums that can wrap are
written with the modulus: the WebSocket frame length and the Base64 size (64 bits), the SHA-1 counters and guard
(32 bits).  SHA-1 works on bit vectors.

Results that differ from what one would expect of the code:

- The attempt counter of the MQTT resend timer is not reset when a tick promotes the next request, so a message can be
  abandoned after one transmission instead of three (`MqttActions.AbandonedAfterOneTransmission`, and the exact
  condition in `MqttActions.TransmissionsBeforeAbandoned`).
- A length above 16 bits is cut by `mqtt_put_short` while the size evaluated for the fixed header counts all of it
  (`MqttPackets.PublishSize` and its siblings say exactly when the two agree; `MqttPackets.ConnectSize` also covers
  binary fields that are present and empty).
- An empty slice at the head of the outgoing queue is offered again and again and never removed
  (`Streams.EmptySliceBlocks`); `Streams.DrainsIffNoneEmpty` is the exact condition.
- `SHA1Update` compares a 32-bit sum that can wrap; it is right iff that sum does not (`Sha1.GuardIsExact`).
- A response is not checked against what has been sent: one that names a request still waiting takes it out, and it is
  never written (`MqttFifo.AnsweredUnsent`).  Apart from that every request has been transmitted or still waits, and none
  overtakes another one (`MqttFifo.FirstInFirstOut`).
- A QoS 0 message that has to wait behind a request is queued like one: it is written again until it is abandoned, up to
  three times in all (`MqttRequests.QueuedQos0IsRepeated`; it is queued exactly when something is queued already,
  `MqttRequests.Submission`).
- `stream_ws_peek_frame` and `stream_mqtt_peek_frame` return 0 for a waiting message with an empty body, which is also
  their answer for a closed stream: exactly then (`WsSession.PeekIsZero`, `MqttDeframer.PeekIsZero`), and both happen
  (`ZeroBothWays` in both modules).
- `base64_decode` takes a pad anywhere in a group of four for one at its end, and ignores everything behind the group
  (`Base64.BlocksMean`).
- `SPLAY_REMOVE` returns its argument, which need not be the node it removed.
- The close frame carries two 16-bit numbers where RFC 6455 section 5.5.1 has two bytes: on a little-endian machine its
  payload is 3, 0, 234, 0, and the model keeps these bytes.
- The words of an HTTP start line are looked for behind any characters that are not graphic, line ends included, so a word
  can be found in a header line (`HttpAnswers.Answer` says where).
- `http_msg_serialize` reserves three digits for the status; with a status of ten digits the first line can be one byte
  longer than reserved, and then the result is -1 (`Http.StartLength`, `Http.Serialize`).
- `http_msg_serialize` does not terminate a message without a body: what the buffer held behind the text is taken for a
  body, so the buffer parses back iff the message has a body or a NUL was there already (`Http.Serialize`,
  `Http.BufferParses`).

## Model

| member | source | states |
|---|---|---|
| MqttNetwork.ExactlyOnce | source/stream_mqtt.c:375-457 | Two endpoints over reliable FIFO channels, any interleaving of publishing, resending, abandoning and receiving, packet ids of QoS 2 messages not reused: in every reachable state and in both directions a QoS 2 message reaches the application at most once and with the published bytes, and exactly once as soon as the PUBCOMP for its id has been written (MQTT 3.1.1 section 4.3.3) |
| MqttReuse.ExactlyOnceInOrder | source/stream_mqtt.c:375-457 | The same with packet ids used again as soon as the release of their last message has been acknowledged: in every run, in both directions and for every id, the messages delivered are those published, in order, each once and unchanged; only the last one may be missing, and it is not once its release has been acknowledged |
| MqttReuse.RunGood | source/stream_mqtt.c:375-457 | The invariant behind `MqttReuse.ExactlyOnceInOrder`: for every id, what is on its way, queued, stored and delivered fits one phase of the handshake, late copies of frames of earlier messages included |
| MqttReuse.RecTakesAll | source/stream_mqtt.c:402-409 | A PUBREC takes out every queued PUBLISH with its id, sent or not, so an id in use must not be used again |
| MqttDelivery.DeliveredAndAnswered | source/stream_mqtt.c:326-480 | In every run of the two endpoints and in both directions: apart from the QoS 2 messages, the frames delivered are exactly those that the frames handled so far hold for the application (QoS 0 and 1 messages, CONNECT, CONNACK, SUBSCRIBE, SUBACK, UNSUBSCRIBE, UNSUBACK, DISCONNECT), in order, each once and unchanged; and what has been written in handling them is exactly what they call for: one PUBACK, PUBREC, PUBREL or PUBCOMP with the id of each frame of the handshakes, one PINGRESP for each PINGREQ |
| MqttDelivery.HandledInItsStep | source/stream_mqtt.c:326-480 | Each frame is delivered and answered in the very step that handles it |
| MqttDelivery.LeftIsRead | source/stream_mqtt.c:306-320 | In every run of one endpoint the messages that were delivered and not handled by the observer are, in order and each once, those that the application has read and those still waiting for it |
| MqttReuse.RunFramesOk | source/stream_mqtt.c:653-733 | In every such run everything written and queued is well-formed, so the next frame of a channel can always be received |
| MqttNetwork.RunKeepsInv | source/stream_mqtt.c:326-480 | The invariant behind `MqttNetwork.ExactlyOnce`, for both directions at once, holds after any number of steps of either endpoint |
| MqttNetwork.InboundIsWaiting | source/stream_mqtt.c:380-384 | In every run and at both endpoints the ids in `inbound` are unique, and they are exactly those whose PUBLISH has been handled and whose PUBREL has not |
| MqttNetwork.ReleaseFollowsPublish | source/stream_mqtt.c:694-704 | In every run neither endpoint writes a PUBLISH(n) with QoS 2 after a PUBREL(n), or a PUBREL(n) without a PUBLISH(n) before it |
| MqttNetwork.WireCarriesFrames | source/stream_mqtt.c:488-538 | In every run the bytes that either endpoint has written, cut at any byte, deframe on the other side to exactly the complete ones of the frames written |
| MqttActions.OutgoingDiscipline | source/stream_mqtt.c:794-837 | In every run of one endpoint: transmitted frames form a prefix of `outgoing`, requests are only ever written from its head, the resend timer runs only over a non-empty queue and after each tick exactly then, attempts stay below 3 |
| MqttFifo.FirstInFirstOut | source/stream_mqtt.c:653-733 | In every run of one endpoint the requests transmitted for the first time, followed by those still waiting, are a subsequence of those the application has made: no request overtakes another one; and nothing is missing iff no response named a request that was still waiting |
| MqttFifo.WrittenBefore | source/stream_mqtt.c:794-837 | Every other request that a step writes has been written before |
| MqttFifo.AnsweredUnsent | source/stream_mqtt.c:402-403 | A run in which a PUBACK takes out a message that has not been written |
| MqttRequests.Submission | source/stream_mqtt.c:653-775 | Over an empty queue a request is written once, starts the timer with all attempts left and waits alone for its answer, and a QoS 0 message is written and forgotten; behind other requests both are queued unsent and nothing else happens |
| MqttRequests.Answered | source/stream_mqtt.c:395-435 | A response takes out exactly the items that it answers by packet type and id and keeps the others in order; the timer stops iff there were any; a PUBREC is followed by the PUBREL, written at once, at the head and with all attempts left |
| MqttRequests.QueuedQos0IsRepeated | source/stream_mqtt.c:671-681 | A run in which a QoS 0 message that had to wait is written three times |
| MqttActions.ExpiriesDrain | source/stream_mqtt.c:814-830 | Without acknowledgements and new requests each expiry lowers 3 * the length of outgoing - attempts by exactly one, and the queue is empty exactly when that is used up |
| MqttActions.HeadIsResent | source/stream_mqtt.c:818-822 | As long as attempts are left an expiry writes the head again, byte for byte, and changes nothing else |
| MqttActions.TransmissionsBeforeAbandoned | source/stream_mqtt.c:814-837 | A frame promoted to the head by a tick is written 3 - attempts times before it is abandoned, so the full three times iff the attempt counter is 0 |
| MqttActions.AbandonedAfterOneTransmission | source/stream_mqtt.c:395-398 | A run in which that counter is not 0: it survives the acknowledgement of the previous request, and the next message is abandoned after one transmission |
| MqttSession.StreamMqtt.HandleReceivedFrame | source/stream_mqtt.c:326-480 | The handler of every packet type changes the queues, the resend timer, the attempts, what is written and what is delivered exactly as the specification of a received frame says |
| MqttSession.StreamMqtt.DoTime | source/stream_mqtt.c:814-837 | One tick of the resend timer: resend, abandon or promote, as specified |
| MqttSession.StreamMqtt.Publish | source/stream_mqtt.c:653-685 | Written at once iff nothing is queued; queued iff it was not written or needs an acknowledgement |
| MqttSession.StreamMqtt.Request | source/stream_mqtt.c:711-733 | The same for SUBSCRIBE and UNSUBSCRIBE, which are always queued |
| MqttSession.StreamMqtt.Pubrel | source/stream_mqtt.c:694-704 | PUBREL is written at once and queued at the head |
| MqttSession.StreamMqtt.RemoveFrame | source/stream_mqtt.c:288-302 | The order-preserving filter, and the result says whether anything matched |
| MqttSession.StreamMqtt.ReleaseInbound | source/stream_mqtt.c:437-457 | The messages with the released id leave `inbound` one by one, each before it is delivered, in order, each once |
| MqttSession.StreamMqtt.ReadFrame | source/stream_mqtt.c:545-568 | The first incoming message, if it fits |
| MqttDeframer.CutAnywhere | source/stream_mqtt.c:488-538 | Of the bytes of well-formed frames, cut anywhere, exactly the wholly contained frames come out, in order and unchanged, and the strict prefix of the next one is left |
| MqttDeframer.WholeFramesFit | source/stream_mqtt.c:509-530 | The number of those frames is the largest one whose bytes fit before the cut |
| MqttDeframer.DeframeAppend | source/stream_mqtt.c:509-530 | Deframing a part and later the rest with what was left gives the same frames as deframing all at once |
| MqttDeframer.DeframeFormatAll | source/mqtt.c:138-150 | Formatting any frames and deframing the bytes gives the frames back, whatever follows |
| MqttDeframer.Receiver.PeekFrame | source/stream_mqtt.c:488-538 | However the reads split a clean stream: the session has handled exactly the frames of the bytes read, in order, and result, session, leftover bytes and the reads still to come are those of reading until a message waits or an answer comes without data |
| MqttDeframer.PeekReadsOn | source/stream_mqtt.c:488-538 | Without a message waiting in the end, reading has gone on to the first answer without data, and the result is 0 if that is the end of the stream and -1 otherwise; with one, the result is the length of its body |
| MqttDeframer.PeekIsZero | source/stream_mqtt.c:488-538 | The result is 0 iff the waiting message has an empty body, or none waits and the stream is closed |
| MqttDeframer.ZeroBothWays | source/stream_mqtt.c:488-538 | Both happen: an empty frame left by the observer, and a closed stream |
| MqttDeframer.Receiver.Drain | source/stream_mqtt.c:510-530 | The inner loop ends, hands over every whole frame of the buffer and leaves the rest |
| MqttCodec.LengthRoundTrip | source/mqtt.c:41-90 | The remaining-length field decodes back iff the value is at most 268435455; above that the decoder reports an error (MQTT 3.1.1 section 2.2.3) |
| MqttCodec.EncodingIsMinimal | source/mqtt.c:72-90 | One byte per base-128 digit: 1 to 4 bytes up to 268435455, more than 4 above |
| MqttCodec.NoShorterEncoding | source/mqtt.c:41-90 | Whatever decodes to a value is at least as long as the encoding written for it |
| MqttCodec.LengthPrefixNeedsMore | source/mqtt.c:41-63 | Every strict prefix of an encoding asks for more bytes |
| MqttCodec.EncodeLength | source/mqtt.c:72-90 | The encoding loop writes exactly the digits and nothing else in the buffer |
| MqttWire.DigitsMean | source/mqtt.c:72-90 | The digits of the length field are worth the length, weights growing by 128, and all but the last one are marked |
| MqttWire.LengthTable | source/mqtt.c:72-90 | The smallest and the largest length of each size, as MQTT 3.1.1 section 2.2.3 lists them |
| MqttWire.FrameBytes | source/mqtt.c:138-162 | Packet type in the upper and flags in the lower half of the first byte, then length and body |
| MqttWire.IdPackets | source/stream_mqtt.c:590-600 | The bytes of PUBACK, PUBREC, PUBREL, PUBCOMP and PINGRESP |
| MqttCodec.DecodeLength | source/mqtt.c:41-63 | The decoding loop computes the specified result |
| MqttCodec.FrameRoundTrip | source/mqtt.c:97-162 | Parsing a formatted frame, whatever follows it, gives type, flags and body back; a body too long for the length field is refused |
| MqttCodec.ParseStable | source/mqtt.c:97-129 | A decided parse does not change when bytes are appended |
| MqttCodec.StrictPrefixNeedsMore | source/mqtt.c:97-129 | A strict prefix of a frame asks for more than there is and for no more than the frame has |
| MqttPackets.PublishSize | source/mqtt.c:411-442 | The size put into the fixed header is the size of the body written iff topic and payload lengths fit 16 bits |
| MqttPackets.PublishRoundTrip | source/mqtt.c:388-442 | Parsing a formatted PUBLISH body gives id, topic and payload back |
| MqttPackets.PublishOnly | source/mqtt.c:389-410 | A PUBLISH body is read iff its topic and id are there, and what is read of it is what it has been written for, unless the payload is longer than 16 bits can say |
| MqttWire.PublishBytes | source/mqtt.c:429-445 | The bytes of the PUBLISH body: the topic with its length, the id iff the QoS is not 0, the payload |
| MqttWire.PublishFirstByte | source/stream_mqtt.c:656-660 | The first byte of a PUBLISH: 0x30, 8 for DUP, twice the QoS, 1 for RETAIN |
| MqttPackets.SubscribeSize | source/mqtt.c:480-512 | The evaluated size is the written size iff the topic length fits 16 bits |
| MqttPackets.SubscribeRoundTrip | source/mqtt.c:455-512 | Parsing a formatted SUBSCRIBE body gives id, topic and QoS back |
| MqttPackets.SubscribeOnly | source/mqtt.c:455-478 | No other body is read as that SUBSCRIBE |
| MqttWire.SubscribeBytes | source/mqtt.c:497-512 | The frame of a SUBSCRIBE, byte by byte |
| MqttPackets.UnsubscribeSize | source/mqtt.c:593-622 | The evaluated size is the written size iff the topic length fits 16 bits |
| MqttPackets.UnsubscribeRoundTrip | source/mqtt.c:570-622 | Parsing a formatted UNSUBSCRIBE body gives id and topic back |
| MqttPackets.UnsubscribeOnly | source/mqtt.c:571-592 | No other body is read as that UNSUBSCRIBE |
| MqttWire.UnsubscribeBytes | source/mqtt.c:609-622 | The frame of an UNSUBSCRIBE, byte by byte |
| MqttPackets.ConnectSize | source/mqtt.c:258-329 | When the evaluated CONNECT size equals the written one: exactly under the stated conditions on the lengths and on which fields are present |
| MqttPackets.ConnectRoundTrip | source/mqtt.c:216-329 | Under the conditions of the protocol, parsing a formatted CONNECT body gives every field back |
| MqttWire.ConnectBits | source/mqtt.c:293-307 | Each bit of the connect flags (MQTT 3.1.1 section 3.1.2) |
| MqttWire.ConnectExample | source/mqtt.c:282-329 | The bytes of a CONNECT body with every field |
| Buffers.Buffer.Append | source/buffer.c:94-132 | The offset-based array refines a sequence: rewinding, growing and copying together append |
| Buffers.Buffer.Take | source/buffer.c:139-147 | The bytes taken and the bytes left make up the bytes that were there |
| Buffers.Buffer.Cut | include/mx/buffer.h:41-47 | Drops the first bytes |
| Buffers.Buffer.Copy | source/buffer.c:82-87 | The contents become those of the other buffer |
| WsSession.MessagesReassemble | source/stream_ws.c:342-394 | For every sequence of messages, every fragmentation into an opcode frame and CONTINUE frames and every interleaving of control frames: the slices are the complete messages, opcode and payload, in order, and the part of the unfinished one (RFC 6455 section 5.4) |
| WsSession.StreamWs.BytesToMessages | source/stream_ws.c:401-487 | The same from the bytes up: with any masks and however the reads split the bytes, what the application has read and the cache are the messages sent, in order |
| WsSession.StreamWs.ReadsMessages | source/stream_ws.c:461-487 | What has been read is a prefix of the complete messages, and every cached slice but the last has FIN set |
| WsSession.StreamWs.AllMessagesRead | source/stream_ws.c:461-487 | When no complete message waits any more, the application has read every complete one, and the cache holds the part of the unfinished one |
| WsSession.HandleAllKeepsCache | source/stream_ws.c:365-383 | As long as fragmentation is legal (RFC 6455 section 5.4) and no masked frame reaches a client, handling frames, in whatever portions, keeps the cache equal to the slices collected and not yet read |
| WsSession.CollectedComplete | source/stream_ws.c:375-383 | Every slice except possibly the last one is complete |
| WsSession.PongPerPing | source/stream_ws.c:384-388 | Each PING is answered by one PONG with the same payload, in order, and nothing else is written (RFC 6455 sections 5.5.2 and 5.5.3) |
| WsSession.DeframeFormatAll | source/stream_ws.c:435-447 | The bytes of frames and of a strict prefix of another one deframe to exactly the frames, and the prefix is left |
| WsSession.StreamWs.PeekFrame | source/stream_ws.c:401-455 | Chunk by chunk, unmasking in place: the session state is the specified reaction to the frames of all bytes read, and result, leftover bytes and the reads still to come are those of reading until a complete message waits or an answer comes without data |
| WsSession.PeekReadsOn | source/stream_ws.c:401-455 | Without a complete message waiting in the end, reading has gone on to the first answer without data, and the result is 0 if that is the end of the stream and -1 otherwise; with one, the result is its length |
| WsSession.PeekIsZero | source/stream_ws.c:401-455 | The result is 0 iff the waiting message is empty, or none waits and the stream is closed |
| WsSession.ZeroBothWays | source/stream_ws.c:401-455 | Both happen: a complete empty message, and a closed stream |
| WsSession.StreamWs.HandleReceivedFrame | source/stream_ws.c:342-394 | Unmasking in the buffer and the switch over the opcode do what is specified for the frame, and leave the bytes behind it alone |
| WsExamples.MaskedRefused | source/stream_ws.c:342-393 | A client that gets a masked frame writes one CLOSE before anything else and is closing from then on, and nothing else makes an endpoint close; the frame counts, the PONG flag and the data type change exactly as the frame says |
| WsExamples.PingAnswered | source/stream_ws.c:384-388 | A PING is answered by one PONG with its payload, masked by a client only |
| WsSession.StreamWs.ReadFrame | source/stream_ws.c:461-487 | Returns the first message iff it is complete and fits, and removes just that |
| WsCodec.FrameRoundTrip | source/websocket.c:33-147 | For every flags byte, optional mask and payload: parsing the formatted bytes, whatever follows, gives FIN, opcode, length and mask flag back, and unmasking at the payload offset gives the payload (RFC 6455 sections 5.2 and 5.3) |
| WsCodec.LengthFieldIsMinimal | source/websocket.c:105-131 | No header that parses to the same payload length and mask flag is shorter than the one written |
| WsCodec.ParseStable | source/websocket.c:33-96 | A successful parse does not change when bytes are appended |
| WsCodec.StrictPrefixNeedsMore | source/websocket.c:33-96 | A strict prefix asks for more than there is and for no more than the frame has |
| WsCodec.MaskedTwice | source/websocket.c:22-26 | Masking is its own inverse |
| WsCodec.ApplyMask | source/websocket.c:22-26 | Bit by bit the bytes of the stretch are masked, and the rest of the buffer is left alone |
| WsCodec.XorBit | source/websocket.c:22-26 | Exclusive or: a bit of the result is set iff it is set in exactly one of the two bytes |
| WsCodec.MaskedBits | source/websocket.c:22-26 | Masking inverts each bit of byte k iff that bit is set in byte k modulo 4 of the mask (RFC 6455 section 5.3) |
| WsCodec.MaskedOnly | source/websocket.c:22-26 | Nothing else is the masked payload |
| WsExamples.Unmasked | source/websocket.c:105-150 | The unmasked frames of RFC 6455 section 5.7, byte by byte |
| WsExamples.MaskedText | source/websocket.c:105-150 | Its masked frame |
| WsExamples.LongFrames | source/websocket.c:105-150 | Its frames of 256 bytes and 64 KiB |
| WsCodec.LongRoundTrip | source/websocket.c:60-78 | A 64-bit length survives its eight bytes |
| RbTree.Head.Insert | include/mx/tree.h:589-616 | On nodes with parent links: the key is found and nothing changes, or no node has it and the node is put exactly where its key belongs, all other nodes staying in order; links, order, colours and black heights stay right |
| RbTree.Head.Remove | include/mx/tree.h:521-585 | The node is gone, the order of the others stays; links, order, colours and black heights stay right |
| RbTree.Head.InsertColor | include/mx/tree.h:401-442 | The fix-up loop ends and turns a tree whose only flaw is a red node below a red one into a red-black tree with the same nodes in the same order |
| RbTree.Head.RemoveColor | include/mx/tree.h:445-518 | The fix-up loop ends and turns a tree in which one subtree lacks a black node into a red-black tree with the same nodes in the same order |
| RbTree.Head.Rotate | include/mx/tree.h:335-373 | The rotation macros on the links: shape, parents and the place in the tree above |
| RbTree.Head.Find | include/mx/tree.h:620-634 | The node with the key, and none iff there is none |
| RbTree.Head.NFind | include/mx/tree.h:638-656 | The first node in order whose key is not below the given one |
| RbTree.Head.Next | include/mx/tree.h:659-678 | The first node in order whose key is above that of the given one |
| RbShape.RotateAt | include/mx/tree.h:335-373 | A rotation of the links of a tree gives the links of the rotated tree, with every parent link right and nothing else touched |
| RbColor.InorderRotated | include/mx/tree.h:335-373 | A rotation keeps the order of the nodes |
| RbColor.RedUncle | include/mx/tree.h:408-414 | Red uncle: recolouring moves the only flaw to the grandparent |
| RbColor.OuterDone | include/mx/tree.h:421-422 | Black uncle: recolouring and a rotation leave no flaw |
| RbColor.RedSibling | include/mx/tree.h:451-456 | Red sibling: recolouring and a rotation give a black sibling, the lack of one black node staying where it is |
| RbColor.MoveUp | include/mx/tree.h:457-463 | Black sibling with black children: painting it red moves the lack up to the parent |
| RbColor.InnerRed | include/mx/tree.h:465-473 | Black sibling with a red inner child only: a rotation gives it a red outer child |
| RbColor.BorrowedDone | include/mx/tree.h:474-480 | Black sibling with a red outer child: recolouring and a rotation make up for the lack |
| RbColor.RemoveDone | include/mx/tree.h:516-517 | At the end of the loop painting the node black gives a red-black tree |
| RbColor.PlugFine | include/mx/tree.h:46-55 | A subtree without a flaw in a context without a flaw makes a tree without a flaw, over the whole path to the root |
| RbColor.HeightIsLogarithmic | include/mx/tree.h:46-55 | Every red-black tree has height at most 2 lg (n + 1), as the header says |
| NodeOrder.InsertedNodes | include/mx/tree.h:589-616 | The nodes after an insertion are the old ones and the new one, one more than before |
| NodeOrder.DeletedNodes | include/mx/tree.h:521-585 | The nodes after a removal are the old ones without the removed one |
| NodeOrder.InsertedDeleted | include/mx/tree.h:521-616 | Removing a node just inserted gives back the old sequence |
| SplayTree.Head.Splay | include/mx/tree.h:202-235 | Top-down splaying ends, keeps the nodes in order, and leaves at the root the key or the node next to its place |
| SplayTree.Head.Insert | include/mx/tree.h:157-179 | The key is found and the order stays, or no node has it and the node is added where its key belongs and is the root |
| SplayTree.Head.Remove | include/mx/tree.h:181-200 | The node with the key is removed and the others stay in order; without such a node nothing is removed; the result is the argument itself |
| SplayTree.Head.Find | include/mx/tree.h:122-131 | The node with the key becomes the root and is returned, and none iff there is none |
| SplayTree.Head.MinMax | include/mx/tree.h:237-272 | The first or last node in order, which becomes the root |
| SplayTree.RotateParts | include/mx/tree.h:81-91 | A rotation of the links keeps the three trees apart and right |
| SplayTree.LinkParts | include/mx/tree.h:93-103 | Linking moves the root to the end of an assembly tree, whose stale inner link nothing depends on |
| SplayTree.AssembleParts | include/mx/tree.h:105-110 | Assembling joins the three trees into one on exactly their nodes, the stub gone |
| SplayTree.CloseOrder | include/mx/tree.h:105-110 | Closing an assembly tree puts its nodes on the right side of the middle tree |
| Sha1Transform.Transform | source/sha1.c:65-185 | The unrolled rounds with rotating registers and the 16-word circular schedule compute the compression of FIPS 180-4 section 6.1.2 for every state and block |
| Sha1Transform.Expand | source/sha1.c:28-41 | Entry i of the circular block is word i of the 80-word schedule |
| Sha1Transform.MixIsF | source/sha1.c:44-48 | The rewritten boolean forms are Ch, Parity and Maj |
| Sha1Transform.ConstantsAreRoots | source/sha1.c:44-48 | The round constants are 2^30 times the square roots of 2, 3, 5 and 10, rounded down |
| Sha1Transform.RotationDoubles | source/sha1.c:28 | A rotation by one doubles modulo 2^32 and adds what was lost at the top |
| Sha1Transform.RotationsRepeat | source/sha1.c:28 | A rotation by five is five of these, and two of them undo a rotation by 30 |
| Sha1Example.DigestOfAbc | source/sha1.c:283-292 | The digest of "abc" through all 80 rounds (FIPS 180-2 appendix A.1) |
| Sha1.Sha1Context.Update | source/sha1.c:206-230 | After any sequence of updates the state is the fold over the whole blocks of all bytes, the buffer holds the rest and the two counters the number of bits modulo 2^64 |
| Sha1.GuardIsExact | source/sha1.c:215-217 | The 32-bit comparison that decides whether a block is full is right iff buffered and new bytes sum below 2^32 |
| Sha1.CounterAdds | source/sha1.c:211-214 | The two-word counter with its carry adds eight times the length modulo 2^64 |
| Sha1.Sha1Context.PadZeros | source/sha1.c:266-272 | The padding loop ends, having appended 0x80 and the number of zero bytes of FIPS 180-4 section 5.1.1 |
| Sha1.Sha1Context.Final | source/sha1.c:235-281 | The digest of everything passed to the updates |
| Sha1.Sha1 | source/sha1.c:283-292 | The byte-at-a-time loop gives the one-shot digest of the message |
| Streams.RunConserves | source/stream.c:230-358 | In every run of writes and queue handling, whatever the layer below answers: the bytes it took and the queued ones are, in order, the bytes of all writes that succeeded |
| Streams.Stream.DoWrite | source/stream.c:339-358 | A write queues behind what is queued, or passes on what the layer below takes and queues the rest, or fails and leaves no trace |
| Streams.Stream.HandleOutgoing | source/stream.c:277-303 | The loop offers the slices in order, cuts partly taken ones and removes whole ones, as specified |
| Streams.HandleConserves | source/stream.c:277-303 | One call loses, repeats and reorders no byte |
| Streams.HandleStops | source/stream.c:284-302 | One write for each slice up to the first that is not taken as a whole: that one loses what was taken of it, and the result is what its write returned if that is not positive, and else the number of all bytes taken |
| Streams.WritesAtOnce | source/stream.c:341-357 | A write goes below iff nothing is queued, and what succeeds is reported as written in full |
| Streams.HandleProgresses | source/stream.c:277-303 | With a head that is not empty, fewer bytes are queued after a call in which the layer below takes anything |
| Streams.WriteConserves | source/stream.c:339-358 | A write adds its bytes behind all others iff it succeeds, and fails iff nothing is queued and the layer below fails other than with EAGAIN |
| Streams.DrainsIffNoneEmpty | source/stream.c:284-300 | With a layer below that takes every slice, the queue drains iff no slice is empty |
| Streams.EmptySliceBlocks | source/stream.c:287-290 | An empty slice at the head is never removed |
| Streams.RunKeepsFull | source/stream.c:230-358 | As long as no empty buffer is written, no queued slice is empty |
| Base64.RoundTrip | source/base64.c:28-146 | Decoding the encoder output, with or without line feeds, gives back every byte string for which the buffer holds 3 * ceil(len / 3) bytes, and nothing otherwise (RFC 4648 section 4) |
| Base64.Encode | source/base64.c:28-79 | Writes exactly the text and a NUL within the buffer, or nothing if the requested size is not there or cannot be computed |
| Base64.Decode | source/base64.c:91-146 | Both loops, the padding and every rejection, as specified, never writing beyond the buffer |
| Base64.BlocksMean | source/base64.c:118-143 | Each group of four symbols gives three bytes up to the first group with a pad, wherever in it the pad is; that one gives two bytes or one, or rejects the text if it has more than two pads, and what follows it is ignored |
| Base64.TripleBits | source/base64.c:127-129 | The three bytes and the four values they come from are the same 24 bits |
| Base64.OverflowTestIsExact | source/base64.c:35-39 | `olen < len` rejects a length iff its 64-bit size computation wraps, that is iff len >= 2^62 |
| Base64.TextFits | source/base64.c:35-37 | Everything written, line feeds and NUL included, fits in the size asked for |
| Base64.EncodedLength | source/base64.c:47-75 | The exact length: four characters for every three bytes begun, a line feed for every 18 groups begun |
| Base64.AlphabetRuns | source/base64.c:14-15 | The runs of the alphabet |
| Base64.QuadBits | source/base64.c:47-51 | Four symbols and the three bytes they stand for are the same 24 bits |
| Base64.Vectors | source/base64.c:28-79 | Test vectors of RFC 4648 section 10 |
| Base64.FeedsStand | source/base64.c:53-74 | A line feed stands behind every 72 characters and at the end, and nowhere else |
| TailQueue.Queue.InsertHead | include/mx/queue.h:629-640 | On the linked entries: prepends, all back links and the last pointer right; the head is linked as an element like any other |
| TailQueue.Queue.InsertTail | include/mx/queue.h:642-650 | Appends |
| TailQueue.Queue.InsertAfter | include/mx/queue.h:604-617 | Puts the element behind the given one |
| TailQueue.Queue.InsertBefore | include/mx/queue.h:619-627 | Puts the element before the given one, through the pointer to the pointer to it |
| TailQueue.Queue.Remove | include/mx/queue.h:660-676 | Removes just that element, which then belongs to no queue and can be inserted again |
| TailQueue.Queue.Last | include/mx/queue.h:652-653 | Reading the last entry as a head finds the last element, none iff the queue is empty |
| TailQueue.Queue.Prev | include/mx/queue.h:657-658 | The same trick finds the element before one |
| TailQueue.Queue.RemoveMatching | source/stream_mqtt.c:288-302 | The FOREACH_SAFE loop that removes matches leaves exactly the order-preserving filter, and the links of the head and of what is left |
| TailQueue.WithoutKeeps | source/stream_mqtt.c:288-302 | What is left in the queue is what does not match |
| SessionQueues.Release | source/stream_mqtt.c:437-457 | The loop of PUBREL on two linked queues: the entries that leave one and enter the other stand for what the session does to its sequences |
| SessionQueues.Acknowledge | source/stream_mqtt.c:395-409 | The same for a response: the requests taken out of the linked queue, the PUBREL put in front, and the timer |
| SessionQueues.StoreInbound | source/stream_mqtt.c:380-384 | The same for a QoS 2 message that takes the place of one with its id |
| TailQueue.InsertLinked | include/mx/queue.h:604-650 | Inserting anywhere keeps the whole chain of links consistent |
| TailQueue.RemoveLinked | include/mx/queue.h:660-676 | Removing anywhere keeps the whole chain of links consistent |
| Json.Compare | source/json.c:159-192 | The mutually recursive comparison with its nested search loop decides the matching relation |
| Json.MatchIsSelection | source/json.c:89-192 | With any flags, a value matches a pattern iff there is a way to choose one of its items or fields for each part of the pattern, recursively, with strict arrays all in order and with strict objects all fields |
| Json.StrictIsEquality | source/json.c:89-192 | Of values without NUL in strings, NaN, numbers beyond 32 bits and repeated keys, two match strictly iff they are equal up to the order of fields |
| Json.SameTextMeans | source/json.c:77-87 | Strings match iff they have the same length and agree up to the first NUL |
| Json.Reflexive | source/json.c:89-192 | With any flags a value matches itself iff it contains no NaN |
| Json.Transitive | source/json.c:89-192 | Matching is transitive with any flags |
| Json.Weakened | source/json.c:89-192 | What matches under some flags matches under weaker ones |
| Json.StrictSymmetric | source/json.c:125-156 | Fully strict matching is symmetric |
| Http.RoundTrip | source/http.c:229-396 | Whatever is serialized of a message with one-word start-line fields, trimmed colon-free header names, trimmed non-empty values without CR and a NUL-free body parses back: start line and body exactly, the headers in reverse order (RFC 7230 sections 3.1 and 3.2) |
| Http.TwoRoundTrips | source/http.c:229-396 | Serializing and parsing twice restores the message, headers in order |
| Http.Serialize | source/http.c:341-396 | The result is the length of the text iff every size test passes, and then the buffer holds exactly the text, a NUL behind it iff there is a body, and nothing else is changed; for NUL-free text the C string in the buffer parses back iff there is a body or a NUL was behind the text before |
| Http.BufferParses | source/http.c:341-396 | A buffer that holds the text of a message parses back iff a NUL follows the text |
| Http.FittingIsWhole | source/http.c:346-391 | When every size test passes, the text and one more byte fit: no printed line is cut off |
| Http.StartLength | source/http.c:353-357 | The estimate for the first line covers it iff the status has fewer than ten digits, and is one too small otherwise |
| Http.HeadersRoom | source/http.c:362-390 | Behind the first line, four spare bytes always pass the tests, and a passed test means that everything fits |
| Http.ParseMessage | source/http.c:267-338 | The loop and the tests give the answer of `HttpAnswers.Answer` for every input on which the code follows no null pointer; in particular 0 iff CR LF CR LF occurs nowhere |
| Http.NeedsMore | source/http.c:26-28 | More data is needed iff CR LF CR LF occurs nowhere |
| HttpAnswers.Answer | source/http.c:267-338 | For every input: 0 iff there is no empty line; a message iff the three words are there, the status is a number and every header line has a name, a colon and a value; -1 iff the first fault is a missing word, a bad status or a missing colon; and what the message holds |
| HttpAnswers.Refused | source/http.c:267-338 | Without undefined behaviour: -1 iff the empty line is there and a word is missing, the status is no number or a header line has no colon |
| HttpAnswers.PrefixNeedsMore | source/http.c:26-28 | A prefix of the text of a message asks for more iff it ends before the last byte of the empty line |
| HttpAnswers.HeadersDecided | source/http.c:229-264 | The header lines one by one: accepted, refused, and what the headers are |
| HttpAnswers.ViewPoints | source/http.c:33-45 | The pointers of the view for every input: first, second and third word, null where no space is left |
| HttpAnswers.StrtolMeans | source/string.c:107-118 | An optional sign and digits are a number, cut off at the bounds of a long |
| HttpAnswers.LTrimMeans | source/string.c:162-168 | Leading characters that are not graphic are gone, and no others |
| HttpAnswers.RTrimMeans | source/string.c:175-184 | Trailing characters that are not graphic are gone, but never the first one |
| HttpAnswers.Example | source/http.c:229-396 | A response with two headers as it stands on the wire, and what is found in it |
| Http.ParseHeaderLines | source/http.c:229-264 | The loop over the header lines: the headers in reverse order, or an error, as specified |
| Http.HeadersParse | source/http.c:229-264 | Parsing printed header lines stops at the empty line with the headers reversed in front of the list |
| Http.EndOfHeaders | source/http.c:26-31 | The first CR LF CR LF is the one behind the last header line |
| Http.ThreeWords | source/http.c:33-45 | The three pointers of the view point to the three words of the start line |
| Http.DecRoundTrip | source/http.c:315-318 | Printed in decimal and read back, a number is the same |
| Http.XstrWordLen | source/string.c:297-317 | The loop counts the leading graphic characters |
| Http.Xstrrtrim | source/string.c:175-184 | The loop cuts the trailing characters that are not graphic, but never the first one |

## Left out

- MqttSession.StreamMqtt.Publish: requires topic and payload below 65536 bytes, because longer ones produce a frame whose length field is wrong; `MqttPackets.PublishSize` says so exactly.
- MqttSession.StreamMqtt.HandleReceivedFrame: requires a body long enough for the fields read from it; on a shorter one the C code reads behind the body.
- MqttSession.StreamMqtt.DoTime: the keep-alive branch of the tick is left out, as are the keep-alive timers that `MqttSession.StreamMqtt.HandleReceivedFrame` restarts.
- MqttNetwork.ExactlyOnce: ids of QoS 2 messages are not reused; `MqttReuse.ExactlyOnceInOrder` is the result with reuse, for an id whose release has been acknowledged.
- MqttReuse.ExactlyOnceInOrder: an id whose message was given up is never used again; `MqttReuse.RecTakesAll` shows why one in use must not be.
- WsSession.StreamWs.HandleReceivedFrame: the restart of the keep-alive timer on a PING is left out.
- Sha1.Sha1Context.Update: requires that buffered and new bytes sum below 2^32; `Sha1.GuardIsExact` shows that the comparison in the code is wrong otherwise.
- Streams.Stream.HandleOutgoing: the layer below is a sink with arbitrary answers; a decorated stream is such a sink, but the stack of two stream objects and the `int` count of the bytes written beyond 2^31 are not modelled.
- Buffers.Buffer.Cut: requires that no more is cut than there is, as every caller ensures; the C code does not test it.
- Base64.Encode: the `int` line length is unbounded here; without line feeds it is not used.
- SplayTree.Head.MinMax: called with a side, so the endless loop of a zero direction does not arise.
- Red-black and splay trees: keys are integers compared as such, for any comparison function of the user; RB_PREV, RB_MINMAX, SPLAY_NEXT and the FOREACH macros would add easy members.
- The mirrored halves of RB_INSERT_COLOR, RB_REMOVE_COLOR, the rotations and the splay loops are one branch with a side as parameter; loop bodies are split into methods.
- MQTT keep-alive, PINGRESP bookkeeping, connection status and the fields of CONNECT and CONNACK that set them: timers and status only.
- Observers may answer anything for each message, but do not call back into the session.
- Clocks: an expiry of the resend timer may happen in any tick while the timer runs.
- MQTT streams with a bad length field: the buffer is dropped whole, so only clean streams are independent of the chunks.
- WebSocket: the HTTP handshake, the byte-stream mode of `stream_ws_do_read`, keep-alive, and a mask other than the one freshly generated.
- The formatters of `source/mqtt.c` and `source/websocket.c` are functions giving the bytes; where in a caller's buffer they are put is modelled for the length field, the mask and Base64 only.
- Http.ParseMessage: requires that the input does not make the code follow a null pointer (a start line without two spaces) or trim an empty header name or value; what the message holds after an error is not modelled.
- Http.ParseHeaderLines: requires header names and values that are not empty, because the code trims them from the last character on.
- Http.Xstrrtrim: requires a string that is not empty, because the loop in the code starts before an empty one.
- Http.Serialize: for buffers below 2 GB; the NUL that each call appends to the body buffer changes no later text and is not modelled.
- The view functions of `source/http.c`, `http_msg_remove_header` and the tokenizer of `source/string.c`.
- JSON objects are sequences of fields without repeated keys, and the getters of json-c are projections; infinite and NaN doubles are kept, both zeros are one.
- Sockets, TLS, logging, random devices, allocation failure, constructors and destructors of configuration structures.
