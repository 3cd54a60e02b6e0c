/**
 The readers of a received MQTT 3.1.1 packet. Each method is the loop over the bytes received so far;
 each function below says what it finds there.
 */
module Readers311 {
  import opened Bytes
  import opened Connection
  import opened Publish311
  import VarLen

  datatype Span = Span(start: nat, length: nat)

  /** Length of the fixed header, or of everything present when the length field is still incomplete. */
  function HeaderEnd(s: seq<byte>): (i: nat)
    ensures s != [] ==> 1 <= i <= |s|
  {
    if s == [] then 1 else 1 + VarLen.Decode(s[1..]).used
  }

  function TotalLength(s: seq<byte>): nat {
    if s == [] then 1 else 1 + VarLen.Decode(s[1..]).used + VarLen.Decode(s[1..]).value
  }

  /** What mqtt_get_total_length makes of it in a size_t. */
  function Total32(s: seq<byte>): uint32 { TotalLength(s) % 0x1_0000_0000 }

  /** The length field has at most five bytes, as far as it is there: the reader's shifts are defined. */
  predicate Defined(s: seq<byte>) { HeaderEnd(s) <= 6 }

  function PublishTopic(s: seq<byte>): Option<Span> {
    var i := HeaderEnd(s);
    if i + 2 >= |s| then None
    else if i + 2 + ReadBe16(s, i) > |s| then None
    else Some(Span(i + 2, ReadBe16(s, i)))
  }

  /** Start and length of the payload bytes present; no start when there are none. */
  function PublishData(s: seq<byte>): (Option<nat>, nat) {
    var i := HeaderEnd(s);
    if i + 2 >= |s| then (None, 0)
    else
      var j := i + 2 + ReadBe16(s, i);
      var k := if Qos(s[0]) > 0 then j + 2 else j;
      if j >= |s| || k >= |s| then (None, 0)
      else if Total32(s) < k then (None, 0)
      else (Some(k), (if Total32(s) <= |s| then Total32(s) else |s|) - k)
  }

  function MessageId(s: seq<byte>): uint16 {
    if s == [] then 0
    else
      var t := MessageType(s[0]);
      if t == TYPE_PUBLISH then
        var i := HeaderEnd(s);
        if i + 2 >= |s| then 0
        else
          var j := i + 2 + ReadBe16(s, i);
          if Qos(s[0]) == 0 || j + 2 > |s| then 0 else ReadBe16(s, j)
      else if TYPE_PUBACK <= t <= TYPE_UNSUBACK && |s| >= 4 && s[1] < 128 then ReadBe16(s, 2)
      else 0
  }

  /** mqtt_get_total_length. */
  method GetTotalLength(a: array<byte>, length: nat) returns (total: uint32, fixedLength: nat, defined: bool)
    requires length <= a.Length
    ensures fixedLength == HeaderEnd(a[..length]) && defined == Defined(a[..length])
    ensures defined ==> total == Total32(a[..length])
  {
    if length == 0 {
      return 1, 1, true;
    }
    var value, used;
    value, used, defined := VarLen.Read(a, 1, length);
    assert a[..length][1..] == a[1..length];
    if defined {
      VarLen.AddedModulo(VarLen.Decode(a[1..length]).value, used + 1);
    }
    return (value + used + 1) % 0x1_0000_0000, used + 1, defined;
  }

  /** The loop at the head of every reader: skips the length field. */
  method SkipFixedHeader(a: array<byte>, length: nat) returns (i: nat)
    requires length <= a.Length
    ensures i == HeaderEnd(a[..length])
  {
    ghost var s := a[..length];
    i := 1;
    while i < length
      invariant 1 <= i && (if s == [] then i == 1 else i <= |s|)
      invariant s != [] ==> HeaderEnd(s) == i + VarLen.Decode(s[i..]).used
    {
      assert s[i..][1..] == s[i + 1..] && s[i..][0] == a[i];
      if a[i] < 128 {
        return i + 1;
      }
      i := i + 1;
    }
    if s != [] {
      assert i == |s|;
      assert s[i..] == [];
      assert VarLen.Decode(s[i..]).used == 0;
    }
  }

  method GetPublishTopic(a: array<byte>, length: nat) returns (topic: Option<Span>)
    requires length <= a.Length
    ensures topic == PublishTopic(a[..length])
  {
    var i := SkipFixedHeader(a, length);
    if i + 2 >= length {
      return None;
    }
    var topicLength := a[i] as int * 0x100 + a[i + 1];
    i := i + 2;
    if i + topicLength > length {
      return None;
    }
    return Some(Span(i, topicLength));
  }

  method GetPublishData(a: array<byte>, length: nat) returns (start: Option<nat>, dataLength: nat, defined: bool)
    requires length <= a.Length
    ensures defined == Defined(a[..length])
    ensures defined ==> (start, dataLength) == PublishData(a[..length])
  {
    var total, i;
    total, i, defined := GetTotalLength(a, length);
    hide HeaderEnd, Total32;
    if i + 2 >= length {
      return None, 0, defined;
    }
    var topicLength := a[i] as int * 0x100 + a[i + 1];
    i := i + 2;
    if i + topicLength >= length {
      return None, 0, defined;
    }
    i := i + topicLength;
    if Qos(a[0]) > 0 {
      if i + 2 >= length {
        return None, 0, defined;
      }
      i := i + 2;
    }
    if total < i {
      return None, 0, defined;
    }
    if total <= length {
      return Some(i), total - i, defined;
    } else {
      return Some(i), length - i, defined;
    }
  }

  method GetId(a: array<byte>, length: nat) returns (id: uint16)
    requires length <= a.Length
    ensures id == MessageId(a[..length])
  {
    if length < 1 {
      return 0;
    }
    var messageType := MessageType(a[0]);
    if messageType == TYPE_PUBLISH {
      var i := SkipFixedHeader(a, length);
      if i + 2 >= length {
        return 0;
      }
      var topicLength := a[i] as int * 0x100 + a[i + 1];
      i := i + 2 + topicLength;
      if i > length || Qos(a[0]) == 0 || i + 2 > length {
        return 0;
      }
      return ReadBe16(a[..length], i);
    } else if TYPE_PUBACK <= messageType <= TYPE_UNSUBACK {
      // the remaining length has to be encoded in one byte
      if length >= 4 && a[1] < 128 {
        return ReadBe16(a[..length], 2);
      }
    }
    return 0;
  }

  /** The length field of any bytes that start like a packet with n body bytes. */
  lemma HeaderOfBytes(s: seq<byte>, n: nat)
    requires 1 + |VarLen.Encode(n)| <= |s| && s[1..1 + |VarLen.Encode(n)|] == VarLen.Encode(n)
    ensures HeaderEnd(s) == 1 + |VarLen.Encode(n)|
    ensures TotalLength(s) == 1 + |VarLen.Encode(n)| + n
  {
    var e := VarLen.Encode(n);
    VarLen.DecodeEncode(n, s[1 + |e|..]);
    assert s[1..] == e + s[1 + |e|..];
  }

  /** The length field of a packet, read back from any part of the packet that contains it. */
  lemma HeaderOfPacket(first: byte, body: seq<byte>, k: nat)
    requires 1 + |VarLen.Encode(|body|)| <= k <= |Packet(first, body)|
    ensures HeaderEnd(Packet(first, body)[..k]) == 1 + |VarLen.Encode(|body|)|
    ensures TotalLength(Packet(first, body)[..k]) == |Packet(first, body)|
  {
    var e := VarLen.Encode(|body|);
    assert Packet(first, body)[..k] == [first] + e + body[..k - 1 - |e|];
    HeaderOfBytes(Packet(first, body)[..k], |body|);
  }

  lemma BodyFields(topic: seq<byte>, qos: nat, id: uint16, rest: seq<byte>)
    requires |topic| < 0x1_0000
    ensures var b, j := PublishBody(topic, qos, id, rest), 2 + |topic|;
            && ReadBe16(b, 0) == |topic| && b[2..j] == topic
            && (qos > 0 ==> ReadBe16(b, j) == id)
            && b[PayloadStart(topic, qos) - MAX_FIXED_HEADER_SIZE..] == rest
  {
  }

  /** Topic, identifier and payload of any bytes whose length field is followed by a PUBLISH body. */
  lemma ReadersOnBody(s: seq<byte>, topic: seq<byte>, id: uint16, rest: seq<byte>)
    requires topic != [] && |topic| < 0x1_0000
    requires s != [] && MessageType(s[0]) == TYPE_PUBLISH && |s| <= TotalLength(s) < 0x1_0000_0000
    requires s[HeaderEnd(s)..] == PublishBody(topic, Qos(s[0]), id, rest)
    ensures PublishTopic(s) == Some(Span(HeaderEnd(s) + 2, |topic|))
    ensures s[HeaderEnd(s) + 2..HeaderEnd(s) + 2 + |topic|] == topic
    ensures MessageId(s) == (if Qos(s[0]) > 0 then id else 0)
    ensures PublishData(s) == (if rest == [] then None else Some(|s| - |rest|), |rest|)
    ensures s[|s| - |rest|..] == rest
  {
    BodyInPacket(s, HeaderEnd(s), topic, id, rest);
  }

  lemma BodyInPacket(s: seq<byte>, i: nat, topic: seq<byte>, id: uint16, rest: seq<byte>)
    requires |topic| < 0x1_0000
    requires 0 < i <= |s| && s[i..] == PublishBody(topic, Qos(s[0]), id, rest)
    ensures ReadBe16(s, i) == |topic| && s[i + 2..i + 2 + |topic|] == topic
    ensures Qos(s[0]) > 0 ==> ReadBe16(s, i + 2 + |topic|) == id
    ensures s[|s| - |rest|..] == rest
  {
  }

  /** What has been received of a PUBLISH: the header and m payload bytes. */
  function Received(topic: seq<byte>, dup: nat, qos: nat, retain: nat, id: uint16, payload: seq<byte>, m: nat): seq<byte>
    requires m <= |payload|
  {
    PublishPacket(topic, dup, qos, retain, id, payload)[..HeaderLength(topic, qos, |payload|) + m]
  }

  lemma ReceivedBody(topic: seq<byte>, dup: nat, qos: nat, retain: nat, id: uint16, payload: seq<byte>, m: nat)
    requires m <= |payload|
    ensures var s := Received(topic, dup, qos, retain, id, payload, m);
            && |s| == HeaderLength(topic, qos, |payload|) + m
            && s[0] == FirstByte(TYPE_PUBLISH, dup, qos, retain)
            && TotalLength(s) == |PublishPacket(topic, dup, qos, retain, id, payload)|
            && HeaderEnd(s) == 1 + |VarLen.Encode(|PublishBody(topic, qos, id, payload)|)|
            && s[HeaderEnd(s)..] == PublishBody(topic, qos, id, payload[..m])
  {
    var body := PublishBody(topic, qos, id, payload);
    var s, i := Received(topic, dup, qos, retain, id, payload, m), 1 + |VarLen.Encode(|body|)|;
    HeaderOfPacket(FirstByte(TYPE_PUBLISH, dup, qos, retain), body, |s|);
    assert s[i..] == body[..|s| - i];
    assert body[..|s| - i] == PublishBody(topic, qos, id, payload[..m]);
  }

  /**
   Round trip of a PUBLISH, also when only a part that covers the whole header has been received:
   the readers find the topic, the identifier and the payload bytes received so far.
   */
  lemma ReadersInvertPublish(topic: seq<byte>, dup: nat, qos: nat, retain: nat, id: uint16, payload: seq<byte>, m: nat)
    requires 1 <= |topic| < 0x1_0000 && dup < 2 && qos < 4 && retain < 2 && m <= |payload|
    requires |PublishBody(topic, qos, id, payload)| < 0x1000_0000
    ensures var s := Received(topic, dup, qos, retain, id, payload, m);
            && Defined(s) && Total32(s) == TotalLength(s)
            && MessageType(s[0]) == TYPE_PUBLISH && Dup(s[0]) == dup && Qos(s[0]) == qos && Retain(s[0]) == retain
            && TotalLength(s) == |PublishPacket(topic, dup, qos, retain, id, payload)|
            && PublishTopic(s).Some? && PublishTopic(s).value.start + PublishTopic(s).value.length <= |s|
            && s[PublishTopic(s).value.start..PublishTopic(s).value.start + PublishTopic(s).value.length] == topic
            && MessageId(s) == (if qos > 0 then id else 0)
            && PublishData(s) == (if m > 0 then Some(|s| - m) else None, m)
            && s[|s| - m..] == payload[..m]
  {
    hide PublishTopic, PublishData, MessageId, TotalLength, PublishBody, FirstByte, VarLen.Encode;
    VarLen.FitsFourBytes(|PublishBody(topic, qos, id, payload)|);
    FirstByteFields(TYPE_PUBLISH, dup, qos, retain);
    ReceivedBody(topic, dup, qos, retain, id, payload, m);
    ReadersOnBody(Received(topic, dup, qos, retain, id, payload, m), topic, id, payload[..m]);
  }
}
