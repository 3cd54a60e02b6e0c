/** PUBLISH of MQTT 3.1.1: the builder, the readers of a received packet, and their agreement. */
module Publish311 {
  import opened Bytes
  import opened Connection
  import VarLen

  /** Topic, packet identifier when the QoS asks for one, payload (section 3.3 of MQTT 3.1.1). */
  function PublishBody(topic: seq<byte>, qos: nat, id: uint16, payload: seq<byte>): (body: seq<byte>)
    ensures |body| == PayloadStart(topic, qos) - MAX_FIXED_HEADER_SIZE + |payload|
  {
    Be16(|topic|) + topic + (if qos > 0 then Be16(id) else []) + payload
  }

  function PublishPacket(topic: seq<byte>, dup: nat, qos: nat, retain: nat, id: uint16, payload: seq<byte>): (p: seq<byte>)
    ensures |p| == HeaderLength(topic, qos, |payload|) + |payload|
  {
    Packet(FirstByte(TYPE_PUBLISH, dup, qos, retain), PublishBody(topic, qos, id, payload))
  }

  /** Fixed and variable header together. */
  function HeaderLength(topic: seq<byte>, qos: nat, payloadLength: nat): nat {
    var variableHeader := PayloadStart(topic, qos) - MAX_FIXED_HEADER_SIZE;
    1 + |VarLen.Encode(variableHeader + payloadLength)| + variableHeader
  }

  /** Where the payload starts in the connection buffer. */
  function PayloadStart(topic: seq<byte>, qos: nat): nat {
    MAX_FIXED_HEADER_SIZE + 2 + |topic| + (if qos > 0 then 2 else 0)
  }

  function Payload(data: Option<seq<byte>>): seq<byte> {
    if data.Some? then data.value else []
  }

  /** The whole packet does not fit the buffer and goes out in fragments. */
  predicate Split(bufferLength: nat, topic: seq<byte>, data: Option<seq<byte>>, qos: nat) {
    PayloadStart(topic, qos) + |Payload(data)| > bufferLength
  }

  /** fragmented_msg_total_length after staging; without payload a leftover total stays. */
  function FragTotalAfter(bufferLength: nat, topic: seq<byte>, data: Option<seq<byte>>, qos: nat, fragTotal: uint32): nat {
    if data.None? then fragTotal
    else if Split(bufferLength, topic, data, qos) then PayloadStart(topic, qos) + |data.value|
    else 0
  }

  /** fragmented_msg_data_offset before the header is moved up against the body. */
  function FragStartAfter(bufferLength: nat, topic: seq<byte>, data: Option<seq<byte>>, qos: nat, fragOffset: uint32): nat {
    if Split(bufferLength, topic, data, qos) then PayloadStart(topic, qos) else fragOffset
  }

  /** What fragmented_msg_data_offset is then, counted from the start of the message. */
  function OffsetAfter(bufferLength: nat, topic: seq<byte>, data: Option<seq<byte>>, qos: nat, fragTotal: uint32, fragOffset: uint32): uint32 {
    (FragStartAfter(bufferLength, topic, data, qos, fragOffset) - MAX_FIXED_HEADER_SIZE + 1 + |VarLen.Encode(Announced(topic, data, qos, fragTotal))|)
    % 0x1_0000_0000
  }

  /** The body length the header announces: without payload, a leftover total stands in for it. */
  function Announced(topic: seq<byte>, data: Option<seq<byte>>, qos: nat, fragTotal: uint32): nat {
    if data.None? && fragTotal > MAX_FIXED_HEADER_SIZE then fragTotal - MAX_FIXED_HEADER_SIZE
    else PayloadStart(topic, qos) - MAX_FIXED_HEADER_SIZE + |Payload(data)|
  }

  lemma OffsetWraps(bufferLength: nat, topic: seq<byte>, data: Option<seq<byte>>, qos: nat, fragTotal: uint32, fragOffset: uint32)
    requires FragStartAfter(bufferLength, topic, data, qos, fragOffset) < 0x1_0000_0000 && |VarLen.Encode(Announced(topic, data, qos, fragTotal))| <= 4
    ensures OffsetAfter(bufferLength, topic, data, qos, fragTotal, fragOffset) ==
            Wrap32(FragStartAfter(bufferLength, topic, data, qos, fragOffset)
                   - (MAX_FIXED_HEADER_SIZE - 1 - |VarLen.Encode(Announced(topic, data, qos, fragTotal))|))
  {
    hide FragStartAfter, Announced, VarLen.Encode;
  }

  /** The packet as it is built, were the buffer unbounded. */
  function Built(topic: seq<byte>, data: Option<seq<byte>>, qos: nat, retain: nat, id: uint16, fragTotal: uint32): seq<byte> {
    PacketPrefix(FirstByte(TYPE_PUBLISH, 0, qos, retain), Announced(topic, data, qos, fragTotal), PublishBody(topic, qos, id, Payload(data)))
  }

  /** Built as it should be, unless a null message meets a leftover total other than its own. */
  predicate BuiltRight(topic: seq<byte>, data: Option<seq<byte>>, qos: nat, fragTotal: uint32) {
    data.Some? || fragTotal == 0 || fragTotal == PayloadStart(topic, qos)
  }

  lemma BuiltIsPacket(topic: seq<byte>, data: Option<seq<byte>>, qos: nat, retain: nat, id: uint16, fragTotal: uint32)
    requires fragTotal == 0 || fragTotal > MAX_FIXED_HEADER_SIZE
    ensures Built(topic, data, qos, retain, id, fragTotal) == PublishPacket(topic, 0, qos, retain, id, Payload(data))
            <==> BuiltRight(topic, data, qos, fragTotal)
  {
    PrefixIsPacket(FirstByte(TYPE_PUBLISH, 0, qos, retain), Announced(topic, data, qos, fragTotal), PublishBody(topic, qos, id, Payload(data)));
    hide PublishBody, VarLen.Encode;
  }

  /** The arguments are refused, or topic and identifier do not fit: nothing is staged. */
  predicate Unstaged(bufferLength: nat, topic: seq<byte>, data: Option<seq<byte>>, dataLength: int, qos: nat) {
    topic == [] || PayloadStart(topic, qos) > bufferLength || (data.None? && dataLength > 0)
  }

  predicate CannotBuild(bufferLength: nat, topic: seq<byte>, data: Option<seq<byte>>, dataLength: int, qos: nat, fragTotal: uint32) {
    Unstaged(bufferLength, topic, data, dataLength, qos) || Announced(topic, data, qos, fragTotal) >= 0x1000_0000
  }

  /** A message with payload is refused only without a topic, or when its header does not fit the buffer, or for 2^28 bytes and more. */
  lemma RefusedOnlyFor(bufferLength: nat, topic: seq<byte>, payload: seq<byte>, qos: nat, fragTotal: uint32)
    ensures CannotBuild(bufferLength, topic, Some(payload), |payload|, qos, fragTotal) <==>
              var head := 2 + |topic| + if qos == 0 then 0 else 2;
              topic == [] || 5 + head > bufferLength || head + |payload| >= 0x1000_0000
  {
  }

  /**
   Builds a PUBLISH in the connection buffer. A payload too large for the buffer is staged as far as it
   goes, under the header of the whole packet. An empty topic stands for a null one.
   */
  method MsgPublish(c: Connection, topic: seq<byte>, data: Option<seq<byte>>, dataLength: int, qos: nat, retain: nat,
                    freshId: uint16) returns (id: uint16)
    requires c.Valid() && freshId != 0
    requires data.Some? ==> dataLength == |data.value| < 0x8000_0000
    modifies c, c.buffer
    ensures c.Valid() && c.dataOffset + c.length <= c.buffer.Length
    ensures c.length == 0 <==> CannotBuild(c.buffer.Length, topic, data, dataLength, qos, old(c.fragTotal))
    ensures c.length != 0 ==>
              && id == (if qos > 0 then freshId else 0)
              && c.dataOffset == MAX_FIXED_HEADER_SIZE - 1 - |VarLen.Encode(Announced(topic, data, qos, old(c.fragTotal)))|
              && c.dataOffset + c.length == (if Split(c.buffer.Length, topic, data, qos) then c.buffer.Length
                                             else PayloadStart(topic, qos) + |Payload(data)|)
              && c.Message() == PacketPrefix(FirstByte(TYPE_PUBLISH, 0, qos, retain), Announced(topic, data, qos, old(c.fragTotal)),
                                             PublishBody(topic, qos, id, Payload(data))[..c.dataOffset + c.length - MAX_FIXED_HEADER_SIZE])
    ensures c.fragTotal == if Unstaged(c.buffer.Length, topic, data, dataLength, qos) then old(c.fragTotal)
                           else FragTotalAfter(c.buffer.Length, topic, data, qos, old(c.fragTotal))
    ensures c.length == 0 ==>
              c.fragOffset == if Unstaged(c.buffer.Length, topic, data, dataLength, qos) then old(c.fragOffset)
                              else FragStartAfter(c.buffer.Length, topic, data, qos, old(c.fragOffset))
    ensures c.length != 0 ==>
              c.fragOffset == OffsetAfter(c.buffer.Length, topic, data, qos, old(c.fragTotal), old(c.fragOffset))
  {
    var ok;
    ok, id := StageBody(c, topic, data, dataLength, qos, freshId);
    if !ok {
      c.FailMessage();
      return;
    }
    hide FragStartAfter, FragTotalAfter, PublishBody, Announced, VarLen.Encode, OffsetAfter, Unstaged, Split;
    assert c.fragOffset == FragStartAfter(c.buffer.Length, topic, data, qos, old(c.fragOffset));
    c.FiniMessage(TYPE_PUBLISH, 0, qos, retain);
    if c.length != 0 {
      OffsetWraps(c.buffer.Length, topic, data, qos, old(c.fragTotal), old(c.fragOffset));
    }
  }

  /** The body, as far as the buffer takes it. */
  method StageBody(c: Connection, topic: seq<byte>, data: Option<seq<byte>>, dataLength: int, qos: nat, freshId: uint16)
    returns (ok: bool, id: uint16)
    requires c.Valid() && freshId != 0
    requires data.Some? ==> dataLength == |data.value| < 0x8000_0000
    modifies c`length, c`fragOffset, c`fragTotal, c.buffer
    ensures c.Valid()
    ensures ok <==> !Unstaged(c.buffer.Length, topic, data, dataLength, qos)
    ensures !ok ==> c.fragTotal == old(c.fragTotal) && c.fragOffset == old(c.fragOffset)
    ensures ok ==>
              && id == (if qos > 0 then freshId else 0)
              && c.length == (if Split(c.buffer.Length, topic, data, qos) then c.buffer.Length
                              else PayloadStart(topic, qos) + |Payload(data)|)
              && c.Body() == PublishBody(topic, qos, id, Payload(data))[..c.length - MAX_FIXED_HEADER_SIZE]
              && c.fragTotal == FragTotalAfter(c.buffer.Length, topic, data, qos, old(c.fragTotal))
              && c.fragOffset == FragStartAfter(c.buffer.Length, topic, data, qos, old(c.fragOffset))
              && c.AnnouncedLength() == Announced(topic, data, qos, old(c.fragTotal))
  {
    ok, id := AppendHead(c, topic, data.None? && dataLength > 0, qos, freshId);
    if !ok {
      return;
    }
    assert PublishBody(topic, qos, id, Payload(data)) == c.Body() + Payload(data);
    if data.Some? {
      StagePayload(c, c.Body(), data.value);
    } else {
      assert c.Body() == PublishBody(topic, qos, id, Payload(data))[..c.length - MAX_FIXED_HEADER_SIZE];
    }
  }

  /** Topic and packet identifier. */
  method AppendHead(c: Connection, topic: seq<byte>, payloadMissing: bool, qos: nat, freshId: uint16)
    returns (ok: bool, id: uint16)
    requires c.Valid() && freshId != 0
    modifies c`length, c.buffer
    ensures c.Valid()
    ensures ok <==> topic != [] && !payloadMissing && PayloadStart(topic, qos) <= c.buffer.Length
    ensures ok ==>
              && id == (if qos > 0 then freshId else 0)
              && c.length == PayloadStart(topic, qos)
              && c.Body() == PublishBody(topic, qos, id, [])
  {
    ok, id := false, 0;
    c.SetHeaderSize();
    if topic == [] {
      return;
    }
    var appended := c.AppendString(topic);
    if appended < 0 || payloadMissing {
      return;
    }
    if qos > 0 {
      id := c.AppendMessageId(0, freshId);
      if id == 0 {
        return;
      }
    }
    assert c.Body() == PublishBody(topic, qos, id, []);
    ok := true;
  }

  /** The payload, or as much of it as the buffer takes, behind the variable header. */
  method StagePayload(c: Connection, ghost head: seq<byte>, payload: seq<byte>)
    requires c.Valid() && |payload| < 0x8000_0000
    requires MAX_FIXED_HEADER_SIZE < c.length <= c.buffer.Length && c.Body() == head
    modifies c`length, c`fragOffset, c`fragTotal, c.buffer
    ensures c.Valid() && MAX_FIXED_HEADER_SIZE < c.length <= c.buffer.Length
    ensures var split := old(c.length) + |payload| > c.buffer.Length;
            && c.length == (if split then c.buffer.Length else old(c.length) + |payload|)
            && c.fragTotal == (if split then old(c.length) + |payload| else 0)
            && c.fragOffset == (if split then old(c.length) else old(c.fragOffset))
    ensures c.Body() == (head + payload)[..c.length - MAX_FIXED_HEADER_SIZE]
  {
    if c.length + |payload| > c.buffer.Length {
      // not enough room in the buffer: the rest follows in further fragments
      c.fragOffset := c.length;
      c.fragTotal := |payload| + c.fragOffset;
      c.Append(payload[..c.buffer.Length - c.length]);
    } else {
      c.Append(payload);
      c.fragTotal := 0;
    }
  }
}
