/** PUBACK, PUBREC, PUBREL and PUBCOMP: packets that carry nothing but a packet identifier. */
module Acks311 {
  import opened Bytes
  import opened Connection
  import R311 = Readers311
  import VarLen

  function AckPacket(messageType: nat, qos: nat, id: uint16): seq<byte> {
    Packet(FirstByte(messageType, 0, qos, 0), Be16(id))
  }

  /** The packet as it is built: a leftover fragmented total stands in for its length. */
  function BuiltAck(messageType: nat, qos: nat, id: uint16, fragTotal: uint32): (p: seq<byte>)
    ensures fragTotal == 0 ==> p == AckPacket(messageType, qos, id)
  {
    PacketPrefix(FirstByte(messageType, 0, qos, 0), if fragTotal > MAX_FIXED_HEADER_SIZE then fragTotal - MAX_FIXED_HEADER_SIZE else 2, Be16(id))
  }

  lemma AckBytesOf(messageType: nat, qos: nat, id: uint16, first: byte)
    requires FirstByte(messageType, 0, qos, 0) == first
    ensures AckPacket(messageType, qos, id) == [first, 2, id / 0x100, id % 0x100]
  {
    Be16Bytes(id);
    hide Be16;
    assert VarLen.Encode(2) == [2];
    hide VarLen.Encode;
  }

  /** PUBACK, PUBREC, PUBREL with its QoS 1 flags, and PUBCOMP. */
  lemma AckBytes(id: uint16)
    ensures AckPacket(4, 0, id) == [0x40, 2, id / 0x100, id % 0x100]
    ensures AckPacket(5, 0, id) == [0x50, 2, id / 0x100, id % 0x100]
    ensures AckPacket(6, 1, id) == [0x62, 2, id / 0x100, id % 0x100]
    ensures AckPacket(7, 0, id) == [0x70, 2, id / 0x100, id % 0x100]
  {
    assert FirstByte(4, 0, 0, 0) == 0x40 && FirstByte(5, 0, 0, 0) == 0x50 && FirstByte(6, 0, 1, 0) == 0x62 && FirstByte(7, 0, 0, 0) == 0x70;
    hide FirstByte, AckPacket;
    AckBytesOf(4, 0, id, 0x40);
    AckBytesOf(5, 0, id, 0x50);
    AckBytesOf(6, 1, id, 0x62);
    AckBytesOf(7, 0, id, 0x70);
  }

  /** mqtt_msg_puback and its siblings; PUBREL has QoS 1 in its flags, the others 0. An identifier 0 is replaced by a fresh one. */
  method MsgAck(c: Connection, messageType: nat, qos: nat, messageId: uint16, freshId: uint16)
    requires c.Valid() && freshId != 0
    modifies c, c.buffer
    ensures c.Valid() && c.dataOffset + c.length <= c.buffer.Length && c.fragTotal == old(c.fragTotal)
    ensures c.length == 0 <==> c.buffer.Length < 7 || c.fragTotal >= 0x1000_0005
    ensures c.length != 0 ==> c.Message() == BuiltAck(messageType, qos, if messageId == 0 then freshId else messageId, c.fragTotal)
    ensures c.length != 0 ==>
              (c.Message() == AckPacket(messageType, qos, if messageId == 0 then freshId else messageId)
              <==> c.fragTotal == 0 || c.fragTotal == 7)
  {
    c.SetHeaderSize();
    var id := c.AppendMessageId(messageId, freshId);
    if id == 0 {
      c.FailMessage();
      return;
    }
    ghost var n := c.AnnouncedLength();
    assert c.Body() == Be16(id);
    c.FiniMessage(messageType, 0, qos, 0);
    PrefixIsPacket(FirstByte(messageType, 0, qos, 0), n, Be16(id));
  }

  /** The reader finds type and identifier of such a packet. */
  lemma IdOfAck(messageType: nat, qos: nat, id: uint16)
    requires TYPE_PUBACK <= messageType <= TYPE_PUBCOMP && qos < 4
    ensures var p := AckPacket(messageType, qos, id);
            |p| == 4 && MessageType(p[0]) == messageType && R311.MessageId(p) == id
            && R311.TotalLength(p) == 4
  {
  }
}
