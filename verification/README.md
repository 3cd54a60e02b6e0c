# Verified models of the mesh node firmware

The firmware in `firmware/platformio` runs a mesh of LED nodes that exchange a cellular automaton's rules, listen for their
neighbors and report to an MQTT broker. This project models the parts of it that carry protocols and data structures, and
proves what they are for.

* **MQTT packets** (`Bytes`, `VarLen`, `Connection`, `Publish311`, `Readers311`, `Acks311`, `Properties5`, `Publish5`,
  `Readers5`, `Wire`): messages are built in place in one buffer, the header written backwards once the length is known, the MQTT 5
  property block shifted when its length needs more room. The readers invert the builders.
* **Sending** (`PublishSend`, `PublishCall`, `PublishCall5`, `Leftovers`, `ItemList`, `Outbox`, `QosRuns`, `QosSteps`, `Client`,
  `PacketIds`):
  the fragmenting send loop, the outbox as a linked queue on the heap that refines a list, the client's calls and its loop as steps of a state
  machine, and the quality-of-service guarantees over all runs.
* **Receiving** (`Receive`, `Deliver`, `Deliver5`): a packet collected over any splitting of the byte stream, and a publish larger than the
  buffer handed on in parts.
* **Mesh configuration** (`StateManager`, `Gossip`): rules spread by sequence number through a network that loses, repeats and
  reorders, with reboots.
* **Neighbors** (`Neighbors`, `LocalStatus`, `NeighborRuns`, `Ranking`, `Beacon`): the bounded table of the strongest neighbors, what fills it, and
  what is reported from it.
* **Watchdog** (`Watchdog`): the reconnect logic on wrapping 32-bit timestamps.
* **LED strip** (`LedStrip`, `LedDrivers`): two drivers whose buffers stay in step.

Code that changes things step by step is modelled by classes and methods over arrays and heap nodes, each proved against a
function of the old state; the properties are lemmas about those functions. Run `dafny verify dfyconfig.toml`.

Where a promised property does not hold, the exact condition is proved:

* Enqueuing a message too large for the buffer leaves an offset behind, with which a later publish that fits can send
  payload bytes twice (`PublishCall.WritesExactlyThePacket`, `Leftovers.PublishAfterEnqueue`); when the message had QoS 0 and was not
  to be stored it leaves its total too, and the next acknowledgement or null message announces a wrong length
  (`Acks311.MsgAck`, `Leftovers.AckAfterEnqueue`).
* The buffer is exactly the stream since the last reset for every stream but those that announce a total which is negative as
  an `int`, by their fifth length byte, and are read past the buffer (`Receive.Receiver.MessageReceive`,
  `Receive.NegativeByFifthByte`).
* A packet of fewer than six bytes that ends in two bytes with the top bit set, such as the PUBACK of identifier 0x8080, can be
  overrun by a resumed read (`Receive.LosableIffAtRisk`, `Receive.LoseBySplit`).
* A publish whose header misses the input buffer by at most two bytes is accepted but not delivered right
  (`Deliver.ReceivePublish`, `Deliver.HeaderCut`), and so is an MQTT 5 one whose properties do not fit (`Deliver5.ReceivePublish`).
* A read that times out between two parts of a publish ends it: the rest of its payload is taken for packets
  (`Deliver.ReceivePublish`).
* Identifiers still in use break the order of message states exactly when they belong to an acknowledged message
  (`QosRuns.GoesBackExactlyWhenReused`); incremental ones are safe for 65534 further allocations (`PacketIds.NextIsFresh`).
* The two conversions from access point to station address disagree when the last byte is zero (`Beacon.ConversionsAgree`).

## Model

| member | source | states |
|---|---|---|
| `VarLen.DecodeEncode` | firmware/platformio/managed_components/espressif__mqtt/lib/mqtt5_msg.c:36-63 | Reading back an encoded length gives the number and the number of bytes it took, whatever bytes follow, for every number. |
| `VarLen.EncodeIsShortest` | firmware/platformio/managed_components/espressif__mqtt/lib/mqtt_msg.c:107-123 | No complete length field for the same number is shorter than the one written. |
| `VarLen.EncodeShape` | firmware/platformio/managed_components/espressif__mqtt/lib/mqtt_msg.c:107-123 | Every byte of an encoding but the last has its continuation bit set. |
| `VarLen.FitsFourBytes` | firmware/platformio/managed_components/espressif__mqtt/lib/mqtt_msg.c:121-125 | The encoding takes at most four bytes exactly for numbers below 2^28, the bound the builders check. |
| `VarLen.Generate` | firmware/platformio/managed_components/espressif__mqtt/lib/mqtt5_msg.c:36-48 | The do-while loop produces exactly the encoding. |
| `VarLen.Read` | firmware/platformio/managed_components/espressif__mqtt/lib/mqtt5_msg.c:50-63 | The shifting loop over a buffer returns the decoded value modulo 2^32 and the bytes used, also when the field is cut short, and says when a sixth byte makes the shift undefined. |
| `Connection.FirstByteFields` | firmware/platformio/managed_components/espressif__mqtt/lib/include/mqtt_msg.h:96-123 | Type, DUP, QoS and RETAIN are read back from the packed byte, and setting DUP changes DUP only. |
| `Wire.LengthBytes` | firmware/platformio/managed_components/espressif__mqtt/lib/mqtt_msg.c:107-123 | The length bytes of every number below 2^28: seven bits a byte, lowest first, 128 added to all but the last. |
| `Bytes.Be16Bytes` | firmware/platformio/managed_components/espressif__mqtt/lib/mqtt_msg.c:49-83 | String lengths and identifiers go out high byte first. |
| `Wire.FirstOfPublish` | firmware/platformio/managed_components/espressif__mqtt/lib/include/mqtt_msg.h:96-123 | The first byte of a PUBLISH is 0x30 plus 8 for DUP, twice the QoS, and RETAIN. |
| `Connection.Connection.AppendString` | firmware/platformio/managed_components/espressif__mqtt/lib/mqtt_msg.c:49-61 | A length-prefixed string goes behind the body, or nothing changes when it does not fit. |
| `Connection.Connection.AppendMessageId` | firmware/platformio/managed_components/espressif__mqtt/lib/mqtt_msg.c:63-83 | A given identifier, or the fresh one when none is given, goes behind the body; 0 signals that it does not fit. |
| `Connection.Connection.FiniMessage` | firmware/platformio/managed_components/espressif__mqtt/lib/mqtt_msg.c:98-139 | The message becomes the packet of the body with the header in front of it in place; the header announces a leftover fragmented total if there is one; the fragment offset moves with 32-bit wrap-around; it fails exactly for announced lengths of 2^28 and more. |
| `Publish311.MsgPublish` | firmware/platformio/managed_components/espressif__mqtt/lib/mqtt_msg.c:439-477 | When it fails and when not, exactly; otherwise the buffer holds the header of the whole packet and as much of its body as fits, and the fragment fields say where the rest starts. |
| `Publish311.StageBody` | firmware/platformio/managed_components/espressif__mqtt/lib/mqtt_msg.c:439-475 | Topic, identifier and payload are appended in order, cut where the buffer ends. |
| `Publish311.StagePayload` | firmware/platformio/managed_components/espressif__mqtt/lib/mqtt_msg.c:459-474 | A payload that fits clears the fragmented total, one that does not records where it starts and how long it all is. |
| `Publish311.BuiltIsPacket` | firmware/platformio/managed_components/espressif__mqtt/lib/mqtt_msg.c:98-139 | A publish is built with the length it should have if and only if it has a payload or no total but its own is left over. |
| `Publish311.RefusedOnlyFor` | firmware/platformio/managed_components/espressif__mqtt/lib/mqtt_msg.c:439-477 | A message with payload is refused exactly without a topic, or when its header does not fit the buffer, or for 2^28 bytes and more. |
| `Wire.PublishBytes` | firmware/platformio/managed_components/espressif__mqtt/lib/mqtt_msg.c:439-477 | The bytes of a PUBLISH: first byte, remaining length, topic length and topic, identifier for a QoS above 0, payload. |
| `Readers311.GetTotalLength` | firmware/platformio/managed_components/espressif__mqtt/lib/mqtt_msg.c:141-159 | The loop returns the packet length as a 32-bit number and the header length of any bytes, complete or not, and says when a sixth length byte makes it undefined. |
| `Readers311.GetPublishTopic` | firmware/platformio/managed_components/espressif__mqtt/lib/mqtt_msg.c:192-216 | Finds the topic in exactly the cases in which the received bytes contain it with something behind its length. |
| `Readers311.GetPublishData` | firmware/platformio/managed_components/espressif__mqtt/lib/mqtt_msg.c:218-264 | Finds the start and the number of payload bytes received so far, unless a sixth length byte makes them undefined. |
| `Readers311.GetId` | firmware/platformio/managed_components/espressif__mqtt/lib/mqtt_msg.c:278-338 | Finds the packet identifier of a publish with QoS > 0 or of an acknowledgement, and 0 otherwise. |
| `Readers311.HeaderOfPacket` | firmware/platformio/managed_components/espressif__mqtt/lib/mqtt_msg.c:98-159 | From any part of a packet that contains its length field, the readers get the full packet length. |
| `Readers311.ReadersInvertPublish` | firmware/platformio/managed_components/espressif__mqtt/lib/mqtt_msg.c:192-317 | Round trip: for any topic, QoS, flags, identifier and payload, and any received part that covers the header, the readers return topic, identifier, flags, total length and the payload bytes received, empty payloads included. |
| `Acks311.MsgAck` | firmware/platformio/managed_components/espressif__mqtt/lib/mqtt_msg.c:479-513 | The bytes built, in every case: a PUBACK, PUBREC, PUBREL or PUBCOMP is right if and only if no fragmented total other than its own length is left over from an earlier message. |
| `Connection.PrefixIsPacket` | firmware/platformio/managed_components/espressif__mqtt/lib/mqtt_msg.c:98-139 | A header that announces any other length than the body has never makes the packet of that body. |
| `Acks311.IdOfAck` | firmware/platformio/managed_components/espressif__mqtt/lib/mqtt_msg.c:310-336 | The reader finds type and identifier of every acknowledgement built. |
| `Acks311.AckBytes` | firmware/platformio/managed_components/espressif__mqtt/lib/mqtt_msg.c:479-513 | The four bytes of PUBACK, PUBREC, PUBREL and PUBCOMP: 0x40, 0x50, 0x62 or 0x70, the length 2, and the identifier, high byte first. |
| `Wire.AckIdBytes` | firmware/platformio/managed_components/espressif__mqtt/lib/mqtt_msg.c:310-336 | The identifier of every acknowledgement received, SUBACK and UNSUBACK included, is read from the two bytes behind a one-byte length, by the readers of both versions. |
| `PublishSend.WriteAll` | firmware/platformio/managed_components/espressif__mqtt/mqtt_client.c:727-749 | Success means all bytes went out in order; failure means a proper prefix did. |
| `PublishSend.SendFragments` | firmware/platformio/managed_components/espressif__mqtt/mqtt_client.c:2219-2250 | From any staged message and leftover offset: what the loop writes is that message followed by the payload from the first byte it did not count as sent, it stops, clears both fragment fields, and it strays outside the payload in exactly the stated case. |
| `PublishSend.StageFragment` | firmware/platformio/managed_components/espressif__mqtt/mqtt_client.c:2234-2243 | The next part of the payload becomes the message, never more than the buffer holds. |
| `PublishCall.MessageJoins` | firmware/platformio/managed_components/espressif__mqtt/lib/mqtt_msg.c:459-470 | A packet cut where the buffer ends, followed by the payload from there on, is the packet an unbounded buffer would hold. |
| `PublishCall.CountedWhenWhole` | firmware/platformio/managed_components/espressif__mqtt/mqtt_client.c:2227-2231 | What the loop counts as sent of a packet that went out whole, as a function of the offset left behind by earlier messages, payloads and null messages alike. |
| `PublishCall.WritesExactlyThePacket` | firmware/platformio/managed_components/espressif__mqtt/mqtt_client.c:2219-2250 | A call writes exactly the packet if and only if a null message finds no total but its own left over, and the packet is fragmented or the leftover offset is harmless. |
| `PublishCall.EnqueuePublish` | firmware/platformio/managed_components/espressif__mqtt/mqtt_client.c:2131-2158 | Which outcome, exactly; the stored item holds the whole packet even when only part of it fits the buffer; the total of a fragmented message stays behind only when it was not stored, its offset always. |
| `PublishCall.StoredIsPacket` | firmware/platformio/managed_components/espressif__mqtt/mqtt_client.c:1228-1242 | The item stored for a publish has its identifier, QoS and tick, is a PUBLISH in state QUEUED, and holds the whole packet unless a null message meets a leftover total other than its own. |
| `PublishCall.Publish` | firmware/platformio/managed_components/espressif__mqtt/mqtt_client.c:2160-2274 | What is on the wire, in the outbox and in the fragment fields after every outcome of a call, from any leftover connection state, with or without payload; published means exactly the packet was written if and only if the leftover fields spare it. |
| `PublishCall.SendStaged` | firmware/platformio/managed_components/espressif__mqtt/mqtt_client.c:2219-2258 | The connected half, for packets of both versions: the bytes written, and the item marked transmitted with its tick only when all were. |
| `Leftovers.EnqueueLarge` | firmware/platformio/managed_components/espressif__mqtt/mqtt_client.c:2131-2158 | What enqueuing a message too large for the buffer leaves behind, from any connection state: an offset always, and a total larger than the buffer exactly when it was not stored. |
| `Leftovers.PublishAfterEnqueue` | firmware/platformio/managed_components/espressif__mqtt/mqtt_client.c:2160-2250 | The next publish, for all pairs of messages: it goes out right if and only if it is fragmented itself, or the payload of the large one started no later in its packet than its own in the buffer, and a null message finds no total; else the end of its payload goes out twice. |
| `Leftovers.RepeatsTwelveBytes` | firmware/platformio/managed_components/espressif__mqtt/mqtt_client.c:2219-2250 | That it does happen: two QoS 0 messages and a buffer of 64 bytes, after which twelve payload bytes have gone out twice. |
| `Leftovers.AckAfterEnqueue` | firmware/platformio/managed_components/espressif__mqtt/lib/mqtt_msg.c:98-139 | An acknowledgement after enqueuing a message too large for the buffer is well formed if and only if that message was stored. |
| `Publish5.AppendProperty` | firmware/platformio/managed_components/espressif__mqtt/lib/mqtt5_msg.c:90-119 | One field of the given width goes behind the body, or nothing changes when it does not fit. |
| `Publish5.ShiftRight` | firmware/platformio/managed_components/espressif__mqtt/lib/mqtt5_msg.c:75-80 | The overlapping copy, last byte first, moves the block by the given distance without damaging it. |
| `Publish5.UpdatePropertyLength` | firmware/platformio/managed_components/espressif__mqtt/lib/mqtt5_msg.c:65-88 | The length takes its place in front of the property block, which is moved right in place when it needs more than the byte kept free. |
| `Publish5.AppendUsers` | firmware/platformio/managed_components/espressif__mqtt/lib/mqtt5_msg.c:781-787 | Every user property is appended, in list order. |
| `Publish5.ConfigBytesAreProperties` | firmware/platformio/managed_components/espressif__mqtt/lib/mqtt5_msg.c:749-791 | The bytes the builder appends are the encodings of the configured properties, in its order. |
| `Publish5.MsgPublish` | firmware/platformio/managed_components/espressif__mqtt/lib/mqtt5_msg.c:723-808 | When it fails and when not, exactly; otherwise the buffer holds the packet with its property block, as far as it fits, and the fragment fields say where the rest starts; a message that fits clears the total. |
| `Publish5.RefusedOnlyFor` | firmware/platformio/managed_components/espressif__mqtt/lib/mqtt5_msg.c:723-808 | A message with payload is refused exactly with neither topic nor alias, or when its header with the properties does not fit the buffer, or for 2^28 bytes and more. |
| `Wire.Publish5Bytes` | firmware/platformio/managed_components/espressif__mqtt/lib/mqtt5_msg.c:723-808 | The bytes of an MQTT 5 PUBLISH: as before, with the length of the properties and the properties in front of the payload. |
| `PublishCall5.EnqueuePublish` | firmware/platformio/managed_components/espressif__mqtt/mqtt_client.c:2131-2158 | Over MQTT 5 too the stored item holds the whole packet even when only part of it fits the buffer. |
| `PublishCall5.Publish` | firmware/platformio/managed_components/espressif__mqtt/mqtt_client.c:2160-2274 | The MQTT 5 call writes and stores exactly the packet, properties included, in fragments or whole, if and only if it is fragmented or the leftover offset is harmless. |
| `Properties5.ReadOneProperty` | firmware/platformio/managed_components/espressif__mqtt/lib/mqtt5_msg.c:333-396 | Each kind of property is read back from its encoding at any offset. |
| `Wire.PropertyBytes` | firmware/platformio/managed_components/espressif__mqtt/lib/mqtt5_msg.c:749-791 | The bytes of each kind of property, by its identifier number, with two-byte lengths and numbers high byte first. |
| `Properties5.ReadBlock` | firmware/platformio/managed_components/espressif__mqtt/lib/mqtt5_msg.c:331-401 | Reading the encoding of any list of properties applies them in order and stops right behind them. |
| `Properties5.PropertyListMeansConfig` | firmware/platformio/managed_components/espressif__mqtt/lib/mqtt5_msg.c:749-791 | What a receiver gathers from the properties of a configuration is that configuration, field by field, user properties in order. |
| `Readers5.GetPublishPropertyPayload` | firmware/platformio/managed_components/espressif__mqtt/lib/mqtt5_msg.c:302-410 | The reader of a received publish on any bytes, malformed ones included. |
| `Readers5.ReadProperties` | firmware/platformio/managed_components/espressif__mqtt/lib/mqtt5_msg.c:328-410 | The property loop and the payload bounds behind it. |
| `Readers5.GetId` | firmware/platformio/managed_components/espressif__mqtt/lib/mqtt5_msg.c:262-300 | The identifier of a publish or an acknowledgement whose length field has at most five bytes. |
| `Readers5.ParseInvertsBuild` | firmware/platformio/managed_components/espressif__mqtt/lib/mqtt5_msg.c:302-410 | Round trip: parsing what the builder made returns topic, identifier, exactly the configured properties, user properties in order, and the payload bytes received, for any property block under 65536 bytes. |
| `Receive.Receiver.ReadLength` | firmware/platformio/managed_components/espressif__mqtt/mqtt_client.c:1285-1300 | The length loop, resumed anywhere, stops behind the first byte without continuation bit, or after six. |
| `Receive.Receiver.MessageReceive` | firmware/platformio/managed_components/espressif__mqtt/mqtt_client.c:1255-1362 | Every call, on every stream and splitting of it: a call that reads a first byte ends in an invalid header if and only if the byte is none of types 1, 2, 4, 5, 7, 9, 11 to 14 with flags 0, types 6, 8, 10 with flags 2, and PUBLISH with a QoS below 3 and no DUP at QoS 0; the buffer is exactly the stream since the last reset; the call reads outside the buffer if and only if the total announced when the length loop ends is negative as an int, and meets an undefined shift if and only if there is a sixth length byte; at a packet, completion happens with exactly that packet (or a full buffer of an oversized publish), and never otherwise, unless the state was lost. |
| `Receive.HeaderFlags` | firmware/platformio/managed_components/espressif__mqtt/lib/mqtt_msg.c:583-617 | Which first bytes pass the check, type by type and flag by flag. |
| `Receive.Receiver.RefusedOnlyForSize` | firmware/platformio/managed_components/espressif__mqtt/mqtt_client.c:1302-1343 | A packet is refused for its size exactly when it is larger than the buffer and, if it is a PUBLISH, length field, topic and identifier without the two bytes of the topic length are, too. |
| `Receive.NegativeByFifthByte` | firmware/platformio/managed_components/espressif__mqtt/lib/mqtt_msg.c:141-159 | When an announced total is negative: by the low four bits of a fifth length byte, up to a carry out of the lower bits. |
| `Receive.FiveLengthBytes` | firmware/platformio/managed_components/espressif__mqtt/mqtt_client.c:1283-1343 | Such a stream: it passes the header check, starts with no packet of any length, and its announced total is negative. |
| `Receive.LosableIffAtRisk` | firmware/platformio/managed_components/espressif__mqtt/mqtt_client.c:1283-1284 | Some number of buffered bytes makes a resumed call overrun the packet if and only if the packet has fewer than six bytes, a body of at least two, and ends in two bytes with the top bit set. |
| `Receive.LoseBySplit` | firmware/platformio/managed_components/espressif__mqtt/mqtt_client.c:1255-1362 | A split reaches that state for each of these packets: two calls, after which the packet is never completed with the right bytes. |
| `Receive.PubackAtRisk` | firmware/platformio/managed_components/espressif__mqtt/mqtt_client.c:1283-1284 | Such a packet exists: the PUBACK of identifier 0x8080, with three bytes buffered. |
| `Receive.LengthComplete` | firmware/platformio/managed_components/espressif__mqtt/mqtt_client.c:1283-1300 | When the length loop ends, the field is complete, and the packet is not overrun exactly if the state was not lost. |
| `Receive.LengthTimeout` | firmware/platformio/managed_components/espressif__mqtt/mqtt_client.c:1291-1294 | A timeout in the loop leaves a state that can be resumed, and a lost state lost. |
| `Deliver.DeliverPublish` | firmware/platformio/managed_components/espressif__mqtt/mqtt_client.c:1081-1171 | The events of a message are contiguous from offset 0, only the first has the topic, all say the same about the message, and their data is the first part followed by the bytes read since; finishing means the stream stands at the end of the message. |
| `Deliver.EventsInOrder` | firmware/platformio/managed_components/espressif__mqtt/mqtt_client.c:1127-1168 | What carrying a part of a payload means, event by event: each event has its slice of the payload at its offset, the first has the topic, and all have the total, identifier and flags of the message. |
| `Deliver.DispatchParts` | firmware/platformio/managed_components/espressif__mqtt/mqtt_client.c:1127-1168 | The dispatch loop ends because the bytes that remain shrink with every read. |
| `Deliver.HeaderCut` | firmware/platformio/managed_components/espressif__mqtt/mqtt_client.c:1325-1330 | With the last one or two header bytes missing from the buffer, the announced total is too long or the topic is not found: the size check leaves out the two bytes of the topic length. |
| `Deliver.ArrivingPublish` | firmware/platformio/managed_components/espressif__mqtt/mqtt_client.c:1283-1284 | A publish is never among the packets that resuming can lose. |
| `Deliver.DeliveredFrom` | firmware/platformio/managed_components/espressif__mqtt/mqtt_client.c:1127-1168 | The events carry exactly the sender's topic and payload if and only if the whole header was in the first part. |
| `Deliver.ReceivePublish` | firmware/platformio/managed_components/espressif__mqtt/mqtt_client.c:1426-1432 | End to end: over any splitting of the stream, a delivered publish arrives with exactly its payload if and only if its header fits the buffer, and the next message starts where this one ended; the header check refuses it only for QoS 3, or DUP at QoS 0; after a timeout between two parts the application has a proper prefix of the payload, and the first byte not delivered is taken for the start of the next packet. |
| `Deliver5.DeliverPublish` | firmware/platformio/managed_components/espressif__mqtt/mqtt5_client.c:106-146 | Over MQTT 5 the first event shows the topic sent or the one its alias stands for, aliases are learned, refused topics deliver nothing, and the rest is the same loop. |
| `Deliver5.ShownUnder` | firmware/platformio/managed_components/espressif__mqtt/mqtt5_client.c:106-146 | Over all messages of a connection: one with a topic and an alias within the maximum is shown under that topic, one without a topic under the topic last sent with its alias, and one whose alias was never given a topic, or is too large, not at all. |
| `Deliver5.HeaderCut` | firmware/platformio/managed_components/espressif__mqtt/lib/mqtt5_msg.c:302-410 | With part of the header or the properties missing from the buffer, the payload is announced too long, if anything is read at all. |
| `Deliver5.DeliveredAhead` | firmware/platformio/managed_components/espressif__mqtt/mqtt_client.c:1127-1168 | The events carry exactly the part of the payload received, under the right topic, if the header was in the first part; otherwise they announce too long a payload. |
| `Deliver5.ReceivePublish` | firmware/platformio/managed_components/espressif__mqtt/mqtt_client.c:1426-1432 | End to end over MQTT 5: over any splitting of the stream exactly topic, properties and payload arrive, if and only if header and properties fit the buffer and the alias is known; the header check refuses the message only for QoS 3, or DUP at QoS 0. |
| `ItemList.OneByOneIsOnePass` | firmware/platformio/managed_components/espressif__mqtt/lib/mqtt_outbox.c:165-200 | Repeating the single deletion until none is left keeps exactly the items that the one-pass deletion keeps. |
| `ItemList.ExpiredByTick` | firmware/platformio/managed_components/espressif__mqtt/lib/mqtt_outbox.c:165-200 | By positions and ticks: which items stay and which identifiers are reported when the expired items go, and that both keep their order. |
| `ItemList.FirstIsOldest` | firmware/platformio/managed_components/espressif__mqtt/lib/mqtt_outbox.c:67-90 | The scan finds the oldest item that passes. |
| `Outbox.Outbox.InsertTail` | firmware/platformio/managed_components/espressif__mqtt/test/host/mocks/include/sys/queue.h:26-30 | Appending keeps the chain in order and the tail pointer on the last node. |
| `Outbox.Outbox.Bypass` | firmware/platformio/managed_components/espressif__mqtt/test/host/mocks/include/sys/queue.h:60-71 | The removal leaves no link to the node, and head and tail right. |
| `Outbox.Outbox.Enqueue` | firmware/platformio/managed_components/espressif__mqtt/lib/mqtt_outbox.c:42-65 | The list grows by this item at the end, in state QUEUED. |
| `Outbox.Outbox.Get` | firmware/platformio/managed_components/espressif__mqtt/lib/mqtt_outbox.c:67-76 | The oldest item with the identifier. |
| `Outbox.Outbox.Dequeue` | firmware/platformio/managed_components/espressif__mqtt/lib/mqtt_outbox.c:78-90 | The oldest item in the asked state, which stays in the queue. |
| `Outbox.Outbox.DeleteItem` | firmware/platformio/managed_components/espressif__mqtt/lib/mqtt_outbox.c:92-106 | Exactly this item goes. |
| `Outbox.Outbox.Delete` | firmware/platformio/managed_components/espressif__mqtt/lib/mqtt_outbox.c:120-135 | Only the oldest item with this identifier and type goes. |
| `Outbox.Outbox.SetPending` | firmware/platformio/managed_components/espressif__mqtt/lib/mqtt_outbox.c:137-145 | The state of the oldest item with the identifier changes and nothing else. |
| `Outbox.Outbox.SetTick` | firmware/platformio/managed_components/espressif__mqtt/lib/mqtt_outbox.c:155-163 | The tick of the oldest item with the identifier changes and nothing else. |
| `Outbox.Outbox.MarkDup` | firmware/platformio/managed_components/espressif__mqtt/mqtt_client.c:1563-1565 | The DUP bit of the stored packet is set in place. |
| `Outbox.Outbox.DeleteSingleExpired` | firmware/platformio/managed_components/espressif__mqtt/lib/mqtt_outbox.c:165-182 | Only the oldest item that has been there for longer than the timeout goes, and its identifier is returned; none goes when all have ticks at most the timeout ago. |
| `Outbox.Outbox.DeleteExpired` | firmware/platformio/managed_components/espressif__mqtt/lib/mqtt_outbox.c:184-200 | Exactly the items with a tick more than the timeout ago go, the others stay in order, in one pass that frees nodes while it walks. |
| `Outbox.Outbox.DeleteExpiredOneByOne` | firmware/platformio/managed_components/espressif__mqtt/mqtt_client.c:1604-1620 | The reporting loop terminates, leaves exactly the items with a tick at most the timeout ago, in order, and reports the identifiers of all others, in order. |
| `Outbox.Outbox.DeleteAllItems` | firmware/platformio/managed_components/espressif__mqtt/lib/mqtt_outbox.c:207-216 | Nothing is left. |
| `QosRuns.StepLeads` | firmware/platformio/managed_components/espressif__mqtt/mqtt_client.c:1463-1602 | Every publish, subscription, acknowledgement, resend, expiry and reconnect keeps the invariant, and no item goes back, changes or vanishes unlogged. |
| `QosRuns.RunLeads` | firmware/platformio/managed_components/espressif__mqtt/mqtt_client.c:1748-1790 | The same over every run. |
| `QosRuns.SilentOnceAcknowledged` | firmware/platformio/managed_components/espressif__mqtt/mqtt_client.c:1478-1495 | Once a PUBREC for an item has come in, no packet with its identifier is written until the item has been removed. |
| `QosRuns.DupExactlyWhenTransmitted` | firmware/platformio/managed_components/espressif__mqtt/mqtt_client.c:1557-1602 | What the client loop writes of a QoS > 0 publish carries DUP exactly when the item was transmitted before; PUBREL is resent only after a PUBREC. |
| `QosRuns.StatesOnlyAdvance` | firmware/platformio/managed_components/espressif__mqtt/mqtt_client.c:1748-1790 | An item seen at one point of a run is found later with the same message and no earlier state, unless its removal was logged. |
| `QosRuns.GoesBackExactlyWhenReused` | firmware/platformio/managed_components/espressif__mqtt/mqtt_client.c:2252-2261 | Without any assumption on identifiers or states: a publish, a subscription or a resend turns a stored item back if and only if the identifier it marks as transmitted is held first by an item that has its PUBREC. |
| `QosRuns.ReusedIdentifierGoesBack` | firmware/platformio/managed_components/espressif__mqtt/mqtt_client.c:2252-2261 | For one, a publish under the identifier of an acknowledged message. |
| `QosSteps.PublishEffect` | firmware/platformio/managed_components/espressif__mqtt/mqtt_client.c:2160-2274 | A publish step appends one item, transmitted with the time of sending if it was sent, and logs the write that was tried. |
| `QosSteps.SubscribeEffect` | firmware/platformio/managed_components/espressif__mqtt/mqtt_client.c:1976-2102 | A subscription appends one transmitted item and logs its write. |
| `QosSteps.PubrecEffect` | firmware/platformio/managed_components/espressif__mqtt/mqtt_client.c:1478-1495 | A PUBREC moves on the oldest item with its identifier and no other, and PUBREL is written even if there is none. |
| `QosSteps.AcknowledgedEffect` | firmware/platformio/managed_components/espressif__mqtt/mqtt_client.c:1214-1226 | An acknowledgement removes the oldest item with its identifier and type, or nothing. |
| `QosSteps.ResendQueuedEffect` | firmware/platformio/managed_components/espressif__mqtt/mqtt_client.c:1748-1765 | The oldest queued item is written; when that succeeds a QoS 0 publish leaves and an item with QoS becomes transmitted. |
| `QosSteps.RetransmitEffect` | firmware/platformio/managed_components/espressif__mqtt/mqtt_client.c:1767-1779 | The oldest transmitted item is written again if and only if its tick is more than the timeout ago, a publish with QoS with bit 3 of its first byte set. |
| `QosSteps.RetransmitPubrelEffect` | firmware/platformio/managed_components/espressif__mqtt/mqtt_client.c:1780-1790 | PUBREL is written again for the oldest acknowledged item if and only if its tick is more than the timeout ago. |
| `QosSteps.ExpireEffect` | firmware/platformio/managed_components/espressif__mqtt/lib/mqtt_outbox.c:165-200 | Expiry takes exactly the items with a tick more than the timeout ago and logs them in order. |
| `QosSteps.StopEffect` | firmware/platformio/managed_components/espressif__mqtt/lib/mqtt_outbox.c:207-216 | The end of the client takes all items and logs them in order. |
| `QosRuns.RemoveAllLeads` | firmware/platformio/managed_components/espressif__mqtt/lib/mqtt_outbox.c:165-200 | Expiry as repeated removal keeps the invariant and leaves the items of the one pass. |
| `Client.EspMqttClient.Publish` | firmware/platformio/managed_components/espressif__mqtt/mqtt_client.c:2160-2274 | The call is a publish step, from every connection state and with every outcome, and writes exactly the packet if and only if the leftover fields spare it. |
| `Client.EspMqttClient.Enqueue` | firmware/platformio/managed_components/espressif__mqtt/mqtt_client.c:2276-2316 | The call stores one item, or nothing for a QoS 0 message that is not to be stored. |
| `Client.EspMqttClient.Subscribe` | firmware/platformio/managed_components/espressif__mqtt/mqtt_client.c:1976-2102 | Subscribing and unsubscribing store an item, count it as transmitted, and write it, unless disconnected, or, subscribing, over the outbox limit. |
| `Client.EspMqttClient.ReceiveAck` | firmware/platformio/managed_components/espressif__mqtt/mqtt_client.c:1214-1226 | PUBACK, PUBCOMP, SUBACK and UNSUBACK remove the oldest message with the identifier and the type they answer; found says whether there was one. |
| `Client.EspMqttClient.ReceivePubrec` | firmware/platformio/managed_components/espressif__mqtt/mqtt_client.c:1478-1495 | A PUBREC is the acknowledging step unless its answer cannot be built, and what is written is the PUBREL built for it, the bytes 0x62, 2 and the identifier when no total is left over. |
| `Client.EspMqttClient.ResendItem` | firmware/platformio/managed_components/espressif__mqtt/mqtt_client.c:1557-1576 | DUP is set in the stored packet exactly for a publish sent before, and that packet is what goes out. |
| `Client.EspMqttClient.ResendOldestQueued` | firmware/platformio/managed_components/espressif__mqtt/mqtt_client.c:1748-1765 | The oldest unsent item is written and settled. |
| `Client.EspMqttClient.SettleResent` | firmware/platformio/managed_components/espressif__mqtt/mqtt_client.c:1751-1764 | A QoS 0 publish is removed; anything else with QoS > 0 counts as transmitted. |
| `Client.EspMqttClient.RetransmitOldest` | firmware/platformio/managed_components/espressif__mqtt/mqtt_client.c:1767-1779 | The oldest transmitted item goes out again when it has waited long enough. |
| `Client.EspMqttClient.RetransmitOldestPubrel` | firmware/platformio/managed_components/espressif__mqtt/mqtt_client.c:1780-1790 | For the oldest acknowledged item PUBREL goes out again, never the publish. |
| `Client.EspMqttClient.WritePubrel` | firmware/platformio/managed_components/espressif__mqtt/mqtt_client.c:1578-1602 | The bytes written are those of the PUBREL built for this identifier, 0x62, 2 and the identifier, unless there is a leftover fragmented total. |
| `Client.EspMqttClient.ServiceOutbox` | firmware/platformio/managed_components/espressif__mqtt/mqtt_client.c:1743-1790 | One pass of the connected loop is one resend step, or the two retransmission steps, or nothing, by the stated times. |
| `Client.EspMqttClient.DeleteExpired` | firmware/platformio/managed_components/espressif__mqtt/mqtt_client.c:1604-1620 | The expiry step; left are exactly the items with a tick at most the timeout ago, in order. |
| `Client.EspMqttClient.AbortConnection` | firmware/platformio/managed_components/espressif__mqtt/mqtt_client.c:849-861 | Losing the connection leaves the outbox as it is. |
| `Client.EspMqttClient.Stop` | firmware/platformio/managed_components/espressif__mqtt/mqtt_client.c:1837-1839 | The end of the client loop empties the outbox. |
| `PacketIds.Allocator.Allocate` | firmware/platformio/managed_components/espressif__mqtt/lib/mqtt_msg.c:63-73 | The skip-zero loop terminates and returns the next identifier, 1 after 65535. |
| `PacketIds.ConsecutiveDistinct` | firmware/platformio/managed_components/espressif__mqtt/lib/mqtt_msg.c:63-73 | Any 65535 consecutive allocations, from any counter state, are non-zero and pairwise distinct. |
| `PacketIds.RepeatsAfterCycle` | firmware/platformio/managed_components/espressif__mqtt/lib/mqtt_msg.c:63-73 | One more allocation repeats an identifier. |
| `PacketIds.NextIsFresh` | firmware/platformio/managed_components/espressif__mqtt/lib/mqtt_msg.c:63-73 | While every stored item was allocated fewer than 65535 allocations ago the next identifier is not in use, which is what the client runs assume. |
| `StateManager.StateManager.Save` | firmware/platformio/src/state_manager.cpp:123-156 | The flash takes the current configuration, or keeps what it had when the write fails. |
| `StateManager.StateManager.Load` | firmware/platformio/src/state_manager.cpp:158-203 | A blob of another size, magic, version or with too many rules is refused and changes nothing. |
| `StateManager.StateManager.SetKernelValues` | firmware/platformio/src/state_manager.cpp:315-322 | The kernel is replaced, its number goes up by one modulo 2^32, the rules stay, and all is saved. |
| `StateManager.StateManager.SetActivationRules` | firmware/platformio/src/state_manager.cpp:324-338 | More than eight rules are refused and change nothing; otherwise the table holds the given rules, then zeros, its number goes up by one modulo 2^32, the kernel stays, and all is saved. |
| `StateManager.StateManager.LoadPreset` | firmware/platformio/src/state_manager.cpp:340-363 | An unknown name changes nothing; the five known ones replace both parts under the next numbers. |
| `StateManager.StateManager.AdoptNeighborRules` | firmware/platformio/src/state_manager.cpp:387-420 | Kernel and rules are taken over separately, each when strictly newer, at most eight rules counted, and saved exactly when something changed. |
| `StateManager.StateManager.InitState` | firmware/platformio/src/state_manager.cpp:464-484 | After a reboot the node has what its flash holds, or a random kernel under number 0. |
| `StateManager.SaveThenBoot` | firmware/platformio/src/state_manager.cpp:123-203 | A saved configuration is what the next boot starts with. |
| `StateManager.UpdateLostOnOverflow` | firmware/platformio/src/state_manager.cpp:315-322 | After the last sequence number an update is taken for an old one. |
| `Gossip.AdoptIsJoin` | firmware/platformio/src/state_manager.cpp:387-412 | Adopting is idempotent and the order of snapshots makes no difference. |
| `Gossip.StepKeeps` | firmware/platformio/src/state_manager.cpp:315-412 | Every issue, message, adoption and reboot keeps: no number beyond the root's, one content under one number, in nodes, flashes and messages. |
| `Gossip.RunKeeps` | firmware/platformio/src/state_manager.cpp:315-484 | The same over every run with loss, repetition, reordering and reboots, even when saves of other nodes fail. |
| `Gossip.AgreeEverywhere` | firmware/platformio/src/state_manager.cpp:387-412 | Any two configurations in the mesh with the same number above 0 have the same kernel, or rules and count, and none is newer than the root's. |
| `Gossip.NumbersNeverDecrease` | firmware/platformio/src/state_manager.cpp:387-484 | With successful saves no node's numbers ever decrease, reboots included. |
| `Gossip.Converges` | firmware/platformio/src/state_manager.cpp:387-412 | Once nothing more is issued and every node has been handed a snapshot as new as the root, every node holds the root's kernel and rules. |
| `Gossip.FirstBootHolds` | firmware/platformio/src/state_manager.cpp:464-484 | A mesh of freshly booted nodes satisfies what the runs start from. |
| `Gossip.UnsavedGoesBack` | firmware/platformio/src/state_manager.cpp:387-412 | A node whose save failed falls behind its own past at the next reboot. |
| `Neighbors.NeighborTable.Find` | firmware/platformio/src/mesh_node.cpp:211-218 | The first active slot with the address. |
| `Neighbors.NeighborTable.FindWeakest` | firmware/platformio/src/mesh_node.cpp:295-304 | The first slot with the least strength. |
| `Neighbors.NeighborTable.Update` | firmware/platformio/src/mesh_node.cpp:253-317 | Slot by slot: the entry of the address is refreshed, its time always and its strength from -80 on; another slot changes only if it was free, or the weakest of a full table and weaker, and then holds the new address; a strong address is in the table afterwards unless all entries are at least as strong; the table invariant holds on. |
| `Neighbors.NeighborTable.Cleanup` | firmware/platformio/src/mesh_node.cpp:322-343 | Exactly the neighbors not seen for more than 5000 ms, in 32-bit time, become inactive, all other slots stay. |
| `Neighbors.NeighborTable.FillValues` | firmware/platformio/src/mesh_node.cpp:233-246 | The values are those of the last valid statuses of the present neighbors: the value of a slot with state stands behind those of the slots with state in front of it, cut off or filled up with zeros. |
| `Neighbors.UpdateKeeps` | firmware/platformio/src/mesh_node.cpp:253-317 | Active addresses stay distinct, never the node's own, above the threshold, and no state is inherited from a previous occupant. |
| `Neighbors.CleanupKeeps` | firmware/platformio/src/mesh_node.cpp:322-343 | Expiry keeps the table invariant and the provenance of the states. |
| `Neighbors.UpdateTopK` | firmware/platformio/src/mesh_node.cpp:253-317 | One observation keeps the table a selection of the strongest. |
| `Neighbors.OnlineTopK` | firmware/platformio/src/mesh_node.cpp:253-317 | For every stream of observations of fixed strengths, an address that was strong enough and is absent faces a full table of entries at least as strong. |
| `NeighborRuns.ListedWasHeard` | firmware/platformio/src/mesh_node.cpp:253-343 | Over every run of observations, status receptions and cleanups from an empty table, an address in the table was heard. |
| `NeighborRuns.ExpiresExactly` | firmware/platformio/src/mesh_node.cpp:253-343 | Over every such run, in true time: a cleanup less than 2^32 ms after an address of the table was last heard, by observation or status, removes it if and only if that is more than 5000 ms ago. |
| `Neighbors.ValuesAreLastStatuses` | firmware/platformio/src/mesh_node.cpp:233-246 | The values in the slots are those of the last valid statuses. |
| `LocalStatus.CalculateChecksum` | firmware/platformio/src/mesh_node.cpp:621-631 | The running 16-bit sum is the sum modulo 65536. |
| `LocalStatus.ChecksumCatchesOneByte` | firmware/platformio/src/mesh_node.cpp:414-443 | A change of any single byte changes the checksum. |
| `LocalStatus.ReceiveStatus` | firmware/platformio/src/mesh_node.cpp:637-677 | By bytes: a message of another length, version or type, with a wrong sum, or of this node changes nothing; any other is the last status of its sender, whose entry, if it has one, shows its fields and is heard now, and no other entry changes but one replaced by it. |
| `LocalStatus.SentIsAccepted` | firmware/platformio/src/mesh_node.cpp:725-738 | What one node sends every other node accepts with the same address and fields, padding zero. |
| `Ranking.CountActive` | firmware/platformio/src/mesh_node.cpp:223-231 | The number of active slots. |
| `Ranking.BestRemaining` | firmware/platformio/src/mesh_node.cpp:470-489 | The strongest active slot whose address is not listed yet. |
| `Ranking.SomeLeft` | firmware/platformio/src/mesh_node.cpp:469-489 | While fewer entries are listed than there are active neighbors, one is left. |
| `Ranking.PickNext` | firmware/platformio/src/mesh_node.cpp:491-498 | The next entry extends the ranking; the branch for none left is never taken. |
| `Ranking.RankNeighbors` | firmware/platformio/src/mesh_node.cpp:464-505 | The entries are distinct active neighbors, strongest first, none left out is stronger, the rest is empty, and with at most eight all are listed. |
| `LedStrip.MaskAcceptsPermutations` | firmware/platformio/managed_components/espressif__led_strip/src/led_strip_spi_dev.c:152-163 | The bit mask accepts exactly the component orders that are permutations. |
| `LedStrip.ExpandIsWaveform` | firmware/platformio/managed_components/espressif__led_strip/src/led_strip_spi_dev.c:35-49 | Bit by bit, most significant first, a colour byte goes out as 110 or 100. |
| `LedStrip.BitsMakeByte` | firmware/platformio/managed_components/espressif__led_strip/src/led_strip_spi_dev.c:35-49 | The bits sent are those of the binary numeral of the byte, the highest first. |
| `LedStrip.ExpandInjective` | firmware/platformio/managed_components/espressif__led_strip/src/led_strip_spi_dev.c:35-49 | No two colour bytes have the same waveform. |
| `LedStrip.SpiRefinesRmt` | firmware/platformio/managed_components/espressif__led_strip/src/led_strip_spi_dev.c:51-123 | After a clear and any common sequence of operations, for any strip length and legal format, every SPI triple is the expansion of the matching RMT byte. |
| `LedStrip.OnlyThisPixel` | firmware/platformio/managed_components/espressif__led_strip/src/led_strip_rmt_dev.c:37-78 | A pixel write shows its colours in the right places and disturbs no other pixel. |
| `LedStrip.PixelBytesShow` | firmware/platformio/managed_components/espressif__led_strip/src/led_strip_rmt_dev.c:47-55 | For every legal format, the bytes of a pixel at the place of a component, read as a big-endian number, are the colour modulo 256 to their number. |
| `LedStrip.FromBytes` | firmware/platformio/managed_components/espressif__led_strip/src/led_strip_rmt_dev.c:47-55 | The lowest bytes of a colour make up the colour modulo 256 to their number. |
| `LedDrivers.RmtStrip.NewDevice` | firmware/platformio/managed_components/espressif__led_strip/src/led_strip_rmt_dev.c:117-144 | A strip is made exactly for component orders that are permutations: GRB by default, two bytes a colour for WS2816, else as many as given, or one. |
| `LedDrivers.RmtStrip.SetPixel` | firmware/platformio/managed_components/espressif__led_strip/src/led_strip_rmt_dev.c:37-57 | Unless past the end, the bytes of each component, read as a big-endian number, are its colour modulo 256 to their number, white is 0, and all bytes outside the pixel are as before. |
| `LedDrivers.RmtStrip.SetPixelRgbw` | firmware/platformio/managed_components/espressif__led_strip/src/led_strip_rmt_dev.c:59-78 | The same with white, refused without a fourth component. |
| `LedDrivers.RmtStrip.Clear` | firmware/platformio/managed_components/espressif__led_strip/src/led_strip_rmt_dev.c:95-101 | All bytes zero. |
| `LedDrivers.SpiStrip.NewDevice` | firmware/platformio/managed_components/espressif__led_strip/src/led_strip_spi_dev.c:141-167 | A strip is made exactly for component orders that are permutations: GRB by default, two bytes a colour for WS2816, else as many as given, or one. |
| `LedDrivers.SpiStrip.SpiBit` | firmware/platformio/managed_components/espressif__led_strip/src/led_strip_spi_dev.c:35-49 | ORs the waveform into one triple and touches no other. |
| `LedDrivers.SpiStrip.SetPixel` | firmware/platformio/managed_components/espressif__led_strip/src/led_strip_spi_dev.c:51-72 | Unless past the end, the triples of the pixel are the waveforms of bytes that hold its colours, built by ORing into zeroed bytes, and all bytes outside the pixel are as before. |
| `LedDrivers.SpiStrip.SetPixelRgbw` | firmware/platformio/managed_components/espressif__led_strip/src/led_strip_spi_dev.c:74-95 | The same with white, refused without a fourth component. |
| `LedDrivers.SpiStrip.Clear` | firmware/platformio/managed_components/espressif__led_strip/src/led_strip_spi_dev.c:111-123 | Every triple becomes 0x92 0x49 0x24, the waveform of a zero byte. |
| `LedDrivers.WritesFit` | firmware/platformio/managed_components/espressif__led_strip/src/led_strip_rmt_dev.c:47-55 | The places one turn of the byte loop writes are distinct places of the pixel. |
| `Watchdog.MeshWatchdog.CheckMeshHealth` | firmware/platformio/src/main.cpp:432-512 | When a check is due (10000 ms after the last), and what it does: an attempt to initialize; noting the time; or, detached, a connect request if and only if attach time and last attempt are both at least 15000 ms ago, and a restart if and only if the attach time is 60000 ms ago; and all timestamps afterwards. |
| `Watchdog.MeshWatchdog.OnAttached` | firmware/platformio/src/main.cpp:109-113 | Attaching records the time and clears the attempt. |
| `Watchdog.ElapsedIsTrue` | firmware/platformio/src/main.cpp:433-498 | Differences of wrapped timestamps never exceed the true time, and are exact within one wrap. |
| `Watchdog.RemediesSpaced` | firmware/platformio/src/main.cpp:485-511 | Over every run from boot, the mesh initialized or not, in true time and across wraps: connect requests at least 15 s apart, restarts at least 60 s apart. |
| `Watchdog.RestartsAtLatest` | firmware/platformio/src/main.cpp:432-512 | A detached, initialized node checked at most g ms apart restarts within 70 s plus g of its attach time, before the first wrap. |
| `Watchdog.RemediesAtLatest` | firmware/platformio/src/main.cpp:432-512 | A detached, initialized node checked at most g ms apart asks for a connection less than 25 s plus g after its attach time, and takes the next remedy within as much of the last one; a remedy without a request is a restart less than 15 s after the last, before the first wrap. |
| `Beacon.ExtractBeaconInfo` | firmware/platformio/src/beacon_monitor.cpp:178-213 | A frame is taken exactly with 36 bytes or more, the types of beacons and probe responses, and a valid sender, which is its address; the walk never looks past the end. |
| `Beacon.ElementsInvertSerialize` | firmware/platformio/src/beacon_monitor.cpp:194-210 | Walking the elements inverts their serialization; a truncated last element is ignored. |
| `Beacon.SsidOfFrame` | firmware/platformio/src/beacon_monitor.cpp:178-213 | A frame of elements yields the sender and the SSID of its elements. |
| `Beacon.SsidIsFirst` | firmware/platformio/src/beacon_monitor.cpp:194-210 | The SSID is the body of the first element with identifier 0, cut off behind 32 bytes, or empty. |
| `Beacon.SsidInBytes` | firmware/platformio/src/beacon_monitor.cpp:194-210 | The same in bytes of the frame: identifier, length and body from byte 36 on, any other element passed over, an incomplete one ignored. |
| `Beacon.FrameContainsMeshId` | firmware/platformio/src/beacon_monitor.cpp:51-61 | True exactly when the pattern occurs. |
| `Beacon.IsValidMac` | firmware/platformio/src/beacon_monitor.cpp:225-236 | Neither all zero, all ones, nor multicast. |
| `Beacon.NormalizeBssid` | firmware/platformio/src/beacon_monitor.cpp:63-73 | The borrow loop is the decrement, for any number of bytes. |
| `Beacon.DecrementIsMinusOne` | firmware/platformio/src/beacon_monitor.cpp:63-73 | As a big-endian number the address becomes one less, modulo 256 to the number of bytes. |
| `Beacon.DecrementIncrement` | firmware/platformio/src/beacon_monitor.cpp:63-73 | The conversion is a bijection. |
| `Beacon.ConversionsAgree` | firmware/platformio/src/main.cpp:138-143 | It agrees with the conversion of the root address exactly when the last byte is not zero. |
| `Beacon.ProcessBeaconFrame` | firmware/platformio/src/beacon_monitor.cpp:145-167 | A frame updates the neighbor table under its address minus one exactly when its sender is valid, it is not the router, it shows the mesh identifier or comes from a known maker, and the address minus one is valid; otherwise nothing changes. |

## Left out

- Payloads, strings and tables are values of the right lengths; allocation failures, logging, event dispatch to the application and locking are not modelled. API calls are atomic, as under the client's lock.
- Transports, sockets, TLS, tasks, WiFi mesh, ESP-NOW and flash are steps of the environment: a read or write takes any part or fails, a save succeeds or not.
- CONNECT, CONNACK, SUBSCRIBE packets and keep-alive are not modelled; Client.EspMqttClient.Subscribe takes the built packet as a parameter.
- The MQTT 5 response topic joined with broker response information, the in-flight counter and receive maximum, and properties of packets other than PUBLISH are left out.
- Connection.Connection.FiniMessage: models lengths of 2^28 and more as the refusal they are meant to be, not the write past a four-byte scratch array that precedes the check.
- Readers5.GetPublishPropertyPayload: reads outside the received bytes, property offsets beyond 16 bits and a sixth length byte end in an error outcome instead of undefined behaviour.
- Publish5.AppendProperty: the variable-width form, used by subscriptions only, is not modelled.
- PublishCall.Publish: copies from outside the payload end in an outcome of their own, about which nothing further is said; wrap-around is modelled for the fragment fields, not for lengths of 2 GB and more.
- Client.EspMqttClient.Publish: builds MQTT 3.1.1 packets; PublishCall5 has no client around it.
- PublishCall5.Publish: leaves out the outbox limit, and a null payload given with a negative length.
- Connection.Connection.AppendMessageId: takes the allocated identifier as a parameter, because the firmware's configuration draws it at random; PacketIds treats the incremental counter.
- Receive.Receiver.MessageReceive: input buffers of fewer than 10 bytes are excluded, and the rule that two calls in a row without progress abort the connection is left out.
- Deliver5.DeliverPublish: the alias table is a map; running out of memory for it is left out.
- QosRuns.SilentOnceAcknowledged: speaks of non-zero identifiers, because all stored QoS 0 messages share identifier 0, and assumes that a new identifier is not in use.
- Receiving a PUBLISH with QoS 2 has no duplicate detection in the source; only the sending side is a state machine here.
- StateManager.StateManager.AdoptNeighborRules: kernel and rule values are copied bit patterns; evaluating them, the LED colour and the value hold are left out.
- Gossip.Converges: assumes that sequence numbers do not overflow and that saves succeed, and says nothing about kernels under number 0, which are random.
- The neighbor list inside mesh messages and the visualization server's format are left out: the first scans only part of the table, the second disagrees with its parser about the packet size.
- LedDrivers.SpiStrip.Clear: buffer contents only; transmission, timing and device creation failures are left out. Strip lengths are unbounded.
- Watchdog.MeshWatchdog.CheckMeshHealth: is atomic and takes no time; the DHCP and MQTT recovery of the root is left out.
- The WiFi scan path of discovery and the JSON, MQTT bridge and UDP code are left out.
