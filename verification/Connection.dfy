/**
 The outbound message under construction: a fixed buffer whose first five bytes are kept free, a body
 appended behind them, and a fixed header written back to front once the body length is known.
 Both protocol versions finish a message with the same code.
 */
module Connection {
  import opened Bytes
  import VarLen

  const MAX_FIXED_HEADER_SIZE := 5

  const TYPE_PUBLISH := 3
  const TYPE_PUBACK := 4
  const TYPE_PUBREC := 5
  const TYPE_PUBREL := 6
  const TYPE_PUBCOMP := 7
  const TYPE_SUBSCRIBE := 8
  const TYPE_SUBACK := 9
  const TYPE_UNSUBSCRIBE := 10
  const TYPE_UNSUBACK := 11

  /** Type, DUP, QoS and RETAIN packed in the first byte of a packet. */
  function FirstByte(messageType: nat, dup: nat, qos: nat, retain: nat): byte {
    messageType % 16 * 16 + dup % 2 * 8 + qos % 4 * 2 + retain % 2
  }

  function MessageType(b: byte): nat { b / 16 }
  function Dup(b: byte): nat { b / 8 % 2 }
  function Qos(b: byte): nat { b / 2 % 4 }
  function Retain(b: byte): nat { b % 2 }

  /** mqtt_set_dup on the first byte of a stored packet. */
  function SetDup(b: byte): byte {
    if Dup(b) == 1 then b else b + 8
  }

  lemma PackedFields(b: byte, messageType: nat, dup: nat, qos: nat, retain: nat)
    requires messageType < 16 && dup < 2 && qos < 4 && retain < 2
    requires b == messageType * 16 + dup * 8 + qos * 2 + retain
    ensures MessageType(b) == messageType && Dup(b) == dup && Qos(b) == qos && Retain(b) == retain
  {
    assert b == 16 * messageType + (8 * dup + 2 * qos + retain) && 8 * dup + 2 * qos + retain < 16;
    assert b / 8 == 2 * messageType + dup;
    assert b / 2 == 4 * (2 * messageType + dup) + qos;
  }

  /** The fields of a first byte, whatever numbers it is made from. */
  lemma FirstByteType(messageType: nat, dup: nat, qos: nat, retain: nat)
    ensures var b := FirstByte(messageType, dup, qos, retain);
            MessageType(b) == messageType % 16 && Dup(b) == dup % 2 && Qos(b) == qos % 4 && Retain(b) == retain % 2
  {
    var b := FirstByte(messageType, dup, qos, retain);
    hide MessageType, Dup, Qos, Retain;
    PackedFields(b, messageType % 16, dup % 2, qos % 4, retain % 2);
  }

  lemma FirstByteFields(messageType: nat, dup: nat, qos: nat, retain: nat)
    requires messageType < 16 && dup < 2 && qos < 4 && retain < 2
    ensures var b := FirstByte(messageType, dup, qos, retain);
            MessageType(b) == messageType && Dup(b) == dup && Qos(b) == qos && Retain(b) == retain
    ensures SetDup(FirstByte(messageType, dup, qos, retain)) == FirstByte(messageType, 1, qos, retain)
  {
    FirstByteType(messageType, dup, qos, retain);
    hide MessageType, Dup, Qos, Retain;
  }

  /** The first byte of a PUBLISH: type 3, then DUP, QoS and RETAIN (section 3.3.1 of MQTT 3.1.1). */
  lemma PublishFlags(dup: nat, qos: nat, retain: nat)
    requires dup < 2 && qos < 4 && retain < 2
    ensures var b := FirstByte(TYPE_PUBLISH, dup, qos, retain);
            b == 0x30 + 8 * dup + 2 * qos + retain && b / 16 == 3 && b % 16 / 2 % 4 == qos && (b % 16 < 8 <==> dup == 0)
  {
  }

  /** A whole control packet: first byte, remaining length, body. */
  function Packet(first: byte, body: seq<byte>): (p: seq<byte>)
    ensures |p| == 1 + |VarLen.Encode(|body|)| + |body|
  {
    [first] + VarLen.Encode(|body|) + body
  }

  /** The same packet cut after `staged` bytes of its body, the header still announcing the whole of it. */
  function PacketPrefix(first: byte, bodyLength: nat, staged: seq<byte>): seq<byte> {
    [first] + VarLen.Encode(bodyLength) + staged
  }

  /** A header that announces another length than its body has is not the packet of that body. */
  lemma PrefixIsPacket(first: byte, n: nat, body: seq<byte>)
    ensures PacketPrefix(first, n, body) == Packet(first, body) <==> n == |body|
  {
    if PacketPrefix(first, n, body) == Packet(first, body) {
      var s := PacketPrefix(first, n, body)[1..];
      assert s == VarLen.Encode(n) + body;
      assert s == VarLen.Encode(|body|) + body;
      VarLen.DecodeEncode(n, body);
      VarLen.DecodeEncode(|body|, body);
    }
  }

  /** A message cut k bytes into its body, and the rest of the body. */
  lemma CutJoins(first: byte, n: nat, body: seq<byte>, k: nat)
    requires k <= |body|
    ensures PacketPrefix(first, n, body[..k]) + body[k..] == PacketPrefix(first, n, body)
    ensures k == |body| ==> body[..k] == body && body[k..] == []
    ensures PacketPrefix(first, |body|, body) == Packet(first, body)
  {
    assert body == body[..k] + body[k..];
  }

  lemma TailOfConcat(a: seq<byte>, b: seq<byte>, k: nat)
    requires |a| <= k <= |a| + |b|
    ensures (a + b)[k..] == b[k - |a|..]
  {
  }

  class Connection {
    const buffer: array<byte>
    var dataOffset: nat      // outbound_message.data - buffer
    var length: nat          // outbound_message.length
    var fragTotal: uint32    // fragmented_msg_total_length
    var fragOffset: uint32   // fragmented_msg_data_offset

    ghost predicate Valid()
      reads this
    {
      && MAX_FIXED_HEADER_SIZE <= buffer.Length < 0x8000_0000
      && (fragTotal == 0 || fragTotal > MAX_FIXED_HEADER_SIZE)
    }

    /** The bytes appended so far, behind the room kept for the fixed header. */
    ghost function Body(): seq<byte>
      requires MAX_FIXED_HEADER_SIZE <= length <= buffer.Length
      reads this, buffer
    {
      buffer[..][MAX_FIXED_HEADER_SIZE..length]
    }

    /** The packet bytes the message points at. */
    ghost function Message(): seq<byte>
      requires dataOffset + length <= buffer.Length
      reads this`dataOffset, this`length, buffer
    {
      buffer[..][dataOffset..dataOffset + length]
    }

    constructor (bufferSize: nat)
      requires MAX_FIXED_HEADER_SIZE <= bufferSize < 0x8000_0000
      ensures Valid() && fresh(buffer) && buffer.Length == bufferSize
      ensures dataOffset == length == 0 && fragTotal == fragOffset == 0
    {
      buffer := new byte[bufferSize](_ => 0);
      dataOffset, length, fragTotal, fragOffset := 0, 0, 0, 0;
    }

    method SetHeaderSize()
      requires Valid()
      modifies this`length
      ensures length == MAX_FIXED_HEADER_SIZE && Body() == []
    {
      length := MAX_FIXED_HEADER_SIZE;
    }

    method FailMessage()
      modifies this`length, this`dataOffset
      ensures dataOffset == length == 0
    {
      dataOffset := 0;
      length := 0;
    }

    /** Bytes that are known to fit, copied behind the body. */
    method Append(s: seq<byte>)
      requires MAX_FIXED_HEADER_SIZE <= length && length + |s| <= buffer.Length
      modifies this`length, buffer
      ensures length == old(length) + |s| && Body() == old(Body()) + s
    {
      ghost var b := buffer[..];
      Copy(buffer, length, s);
      SpliceBehind(b, MAX_FIXED_HEADER_SIZE, length, s);
      length := length + |s|;
    }

    /** A two-byte length and the string, or nothing at all when they do not fit. */
    method AppendString(s: seq<byte>) returns (appended: int)
      requires MAX_FIXED_HEADER_SIZE <= length <= buffer.Length
      modifies this`length, buffer
      ensures MAX_FIXED_HEADER_SIZE <= length <= buffer.Length
      ensures appended == if old(length) + 2 + |s| > buffer.Length then -1 else 2 + |s|
      ensures length == old(length) + (if appended == -1 then 0 else 2 + |s|)
      ensures Body() == old(Body()) + (if appended == -1 then [] else Be16(|s|) + s)
    {
      if length + |s| + 2 > buffer.Length {
        return -1;
      }
      Append(Be16(|s|) + s);
      return |s| + 2;
    }

    /**
     The packet identifier. `freshId` is what the allocation loop assigns when the caller brings no
     identifier of its own: the next counter value that is not zero, or the first random one.
     */
    method AppendMessageId(messageId: uint16, freshId: uint16) returns (id: uint16)
      requires MAX_FIXED_HEADER_SIZE <= length <= buffer.Length && freshId != 0
      modifies this`length, buffer
      ensures MAX_FIXED_HEADER_SIZE <= length <= buffer.Length
      ensures id == if old(length) + 2 > buffer.Length then 0 else if messageId == 0 then freshId else messageId
      ensures length == old(length) + (if id == 0 then 0 else 2)
      ensures Body() == old(Body()) + (if id == 0 then [] else Be16(id))
    {
      id := messageId;
      if id == 0 {
        id := freshId;
      }
      if length + 2 > buffer.Length {
        return 0;
      }
      Append(Be16(id));
    }

    /** The remaining length FiniMessage announces. */
    ghost function AnnouncedLength(): nat
      requires Valid() && MAX_FIXED_HEADER_SIZE <= length
      reads this
    {
      (if fragTotal != 0 then fragTotal else length) - MAX_FIXED_HEADER_SIZE
    }

    /** Writes the fixed header just in front of the body and points the message at it. */
    method FiniMessage(messageType: nat, dup: nat, qos: nat, retain: nat)
      requires Valid() && MAX_FIXED_HEADER_SIZE <= length <= buffer.Length
      modifies this`dataOffset, this`length, this`fragOffset, buffer
      ensures dataOffset + length <= buffer.Length
      ensures length == 0 <==> old(AnnouncedLength()) >= 0x1000_0000
      ensures length == 0 ==> dataOffset == 0 && fragOffset == old(fragOffset)
      ensures length != 0 ==>
                && dataOffset + length == old(length)
                && dataOffset == MAX_FIXED_HEADER_SIZE - 1 - |VarLen.Encode(old(AnnouncedLength()))|
                && fragOffset == Wrap32(old(fragOffset) - dataOffset)
                && Message() == PacketPrefix(FirstByte(messageType, dup, qos, retain), old(AnnouncedLength()), old(Body()))
    {
      var messageLength := length - MAX_FIXED_HEADER_SIZE;
      var totalLength := messageLength;
      if fragTotal != 0 {
        totalLength := fragTotal - MAX_FIXED_HEADER_SIZE;
      }
      var encodedLens := VarLen.Generate(totalLength);
      VarLen.FitsFourBytes(totalLength);
      if |encodedLens| + 1 > MAX_FIXED_HEADER_SIZE {
        FailMessage();
        return;
      }
      var header := [FirstByte(messageType, dup, qos, retain)] + encodedLens;
      ghost var b := buffer[..];
      length := messageLength + |encodedLens| + 1;
      dataOffset := MAX_FIXED_HEADER_SIZE - 1 - |encodedLens|;
      fragOffset := Wrap32(fragOffset - dataOffset);
      Copy(buffer, dataOffset, header);
      SpliceInFront(b, dataOffset, header, dataOffset + length);
    }
  }

  lemma SpliceBehind(b: seq<byte>, from: nat, at: nat, s: seq<byte>)
    requires from <= at && at + |s| <= |b|
    ensures Splice(b, at, s)[from..at + |s|] == b[from..at] + s
  {
  }

  lemma SpliceInFront(b: seq<byte>, at: nat, s: seq<byte>, end: nat)
    requires at + |s| <= end <= |b|
    ensures Splice(b, at, s)[at..end] == s + b[at + |s|..end]
  {
  }
}
