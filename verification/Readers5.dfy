/** Reading a received MQTT 5.0 PUBLISH, and the round trip with the builder. */
module Readers5 {
  import opened Bytes
  import opened Connection
  import opened Properties5
  import opened Publish5
  import R311 = Readers311
  import VarLen

  datatype Parsed =
    | Null           // the reader returns no payload pointer
    | Overrun        // the reader would look past the received bytes, or shift a sixth length byte
      /** A negative payload length stands for the size_t wrap-around of a malformed packet. */
    | Parsed(topic: Span, found: Found, propertyStart: nat, propertyLength: uint16, payloadStart: nat, payloadLength: int)

  /** The property block and the payload behind it, from offset q. */
  function ParseProperties(s: seq<byte>, q: nat, topic: Span, total: nat): Parsed
    requires q <= |s|
  {
    var d := VarLen.Decode(s[q..]);
    var start, length := q + d.used, d.value % 0x1_0000;
    if d.used > 5 then Overrun
    else
    match ReadFrom(s[start..], 0, length, NOTHING)
    case UnknownProperty => Null
    case OutOfBounds => Overrun
    case Read(found, offset) =>
      Parsed(topic, found, start, length, start + offset, (if total <= |s| then total else |s|) - (start + offset))
  }

  function ParsePublish(s: seq<byte>): Parsed {
    var h := R311.HeaderEnd(s);
    if !R311.Defined(s) || h + 2 > |s| then Overrun
    else
      var topic := SpanAt(s, h);
      var o := EndAt(s, h);
      var q := if Qos(s[0]) > 0 then o + 2 else o;
      if o >= |s| || q >= |s| then Null
      else ParseProperties(s, q, topic, R311.Total32(s))
  }

  function MessageId(s: seq<byte>): uint16 {
    var h := R311.HeaderEnd(s);
    if h + 2 > |s| then 0
    else
      var t := MessageType(s[0]);
      if t == TYPE_PUBLISH then
        var o := EndAt(s, h);
        if o + 2 > |s| || Qos(s[0]) == 0 then 0 else ReadBe16(s, o)
      else if TYPE_PUBACK <= t <= TYPE_UNSUBACK then ReadBe16(s, h)
      else 0
  }

  /** mqtt5_get_publish_property_payload. */
  method GetPublishPropertyPayload(a: array<byte>, length: nat) returns (r: Parsed)
    requires length <= a.Length
    ensures r == ParsePublish(a[..length])
  {
    hide ParseProperties, R311.HeaderEnd, R311.Total32;
    ghost var s := a[..length];
    var total, h, defined := R311.GetTotalLength(a, length);
    if !defined || h + 2 > length {
      return Overrun;
    }
    var topicLength := a[h] as int * 0x100 + a[h + 1];
    var topic := Span(h + 2, topicLength);
    var offset := h + 2 + topicLength;
    if offset >= length {
      return Null;
    }
    if Qos(a[0]) > 0 {
      if offset + 2 >= length {
        return Null;
      }
      offset := offset + 2;
    }
    r := ReadProperties(a, length, offset, topic, total);
  }

  method ReadProperties(a: array<byte>, length: nat, q: nat, topic: Span, total: nat) returns (r: Parsed)
    requires q <= length <= a.Length
    ensures r == ParseProperties(a[..length], q, topic, total)
  {
    hide ReadOne, VarLen.Decode;
    ghost var s := a[..length];
    assert s[q..] == a[q..length];
    var value, used, defined := VarLen.Read(a, q, length);
    if !defined {
      return Overrun;
    }
    assert value % 0x1_0000 == VarLen.Decode(s[q..]).value % 0x1_0000;
    var start, propertyLength := q + used, value % 0x1_0000;
    var property := a[start..length];
    assert property == s[start..];
    var i, found := 0, NOTHING;
    while i < propertyLength
      invariant ReadFrom(property, 0, propertyLength, NOTHING) == ReadFrom(property, i, propertyLength, found)
      decreases propertyLength - i
    {
      if i >= |property| {
        return Overrun;
      }
      var one := ReadOne(property, i, found);
      match one
      case UnknownProperty => return Null;
      case OutOfBounds => return Overrun;
      case Read(f, next) => i, found := next, f;
    }
    return Parsed(topic, found, start, propertyLength, start + i, (if total <= length then total else length) - (start + i));
  }

  method GetId(a: array<byte>, length: nat) returns (id: uint16)
    requires length <= a.Length
    ensures R311.Defined(a[..length]) ==> id == MessageId(a[..length])
  {
    var total, offset, defined := R311.GetTotalLength(a, length);
    if offset + 2 > length {
      return 0;
    }
    var messageType := MessageType(a[0]);
    if messageType == TYPE_PUBLISH {
      offset := offset + 2 + (a[offset] as int * 0x100 + a[offset + 1]);
      if offset + 2 > length || Qos(a[0]) == 0 {
        return 0;
      }
      return ReadBe16(a[..length], offset);
    } else if TYPE_PUBACK <= messageType <= TYPE_UNSUBACK {
      return ReadBe16(a[..length], offset);
    }
    return 0;
  }

  /** In a block under 65536 bytes every string fits its two-byte length. */
  lemma ShortBlockWellFormed(ps: seq<Property>)
    requires |EncodeAll(ps)| < 0x1_0000 && forall x :: x in ps ==> !x.SubscribeId?
    ensures forall k :: 0 <= k < |ps| ==> WellFormed(ps[k])
  {
  }

  /** Fixed header, topic, identifier and properties of the packet with this payload. */
  function HeaderLength(topic: seq<byte>, qos: nat, p: Config, payloadLength: nat): nat {
    var n := BodyStart(topic, qos, p) - MAX_FIXED_HEADER_SIZE;
    1 + |VarLen.Encode(n + payloadLength)| + n
  }

  /** What has been received of a PUBLISH: the whole header and m payload bytes. */
  function Received(topic: seq<byte>, dup: nat, qos: nat, retain: nat, id: uint16, p: Config, payload: seq<byte>, m: nat): seq<byte>
    requires m <= |payload|
  {
    PublishPacket(topic, dup, qos, retain, id, p, payload)[..HeaderLength(topic, qos, p, |payload|) + m]
  }

  lemma ReceivedBody(topic: seq<byte>, dup: nat, qos: nat, retain: nat, id: uint16, p: Config, payload: seq<byte>, m: nat)
    requires m <= |payload|
    ensures var s := Received(topic, dup, qos, retain, id, p, payload, m);
            && |s| == HeaderLength(topic, qos, p, |payload|) + m
            && s[0] == FirstByte(TYPE_PUBLISH, dup, qos, retain)
            && R311.TotalLength(s) == |PublishPacket(topic, dup, qos, retain, id, p, payload)|
            && R311.HeaderEnd(s) == 1 + |VarLen.Encode(|PublishBody(topic, qos, id, p, payload)|)|
            && s[R311.HeaderEnd(s)..] == PublishBody(topic, qos, id, p, payload[..m])
  {
    hide PublishBody, BodyStart, FirstByte, R311.TotalLength, R311.HeaderEnd, VarLen.Encode;
    var body := PublishBody(topic, qos, id, p, payload);
    var s, i := Received(topic, dup, qos, retain, id, p, payload, m), 1 + |VarLen.Encode(|body|)|;
    R311.HeaderOfPacket(FirstByte(TYPE_PUBLISH, dup, qos, retain), body, |s|);
    assert s[i..] == body[..|s| - i];
    BodyPrefix(topic, qos, id, p, payload, m);
  }

  lemma BodyPrefix(topic: seq<byte>, qos: nat, id: uint16, p: Config, payload: seq<byte>, m: nat)
    requires m <= |payload|
    ensures PublishBody(topic, qos, id, p, payload)[..BodyStart(topic, qos, p) - MAX_FIXED_HEADER_SIZE + m] == PublishBody(topic, qos, id, p, payload[..m])
  {
  }

  /** Topic and identifier in a body at offset h of s, and where the properties start. */
  lemma HeadAt(s: seq<byte>, h: nat, topic: seq<byte>, id: uint16, rest: seq<byte>)
    requires |topic| < 0x1_0000 && 0 < h <= |s|
    requires s[h..] == Head(topic, Qos(s[0]), id) + rest
    ensures EndAt(s, h) == h + 2 + |topic| && At(s, Some(SpanAt(s, h))) == Some(topic)
    ensures var o := EndAt(s, h); var q := if Qos(s[0]) > 0 then o + 2 else o;
            q <= |s| && s[q..] == rest && (Qos(s[0]) > 0 ==> ReadBe16(s, o) == id)
  {
    var head := Head(topic, Qos(s[0]), id);
    var o := h + |Str(topic)|;
    assert s[h..o] == s[h..][..|Str(topic)|] == Str(topic);
    ReadStr(s, h, topic);
    if Qos(s[0]) > 0 {
      assert s[o..o + 2] == s[h..][|Str(topic)|..|Str(topic)| + 2] == Be16(id);
      ReadBe16At(s, o, id);
    }
    assert s[h + |head|..] == s[h..][|head|..] == rest;
  }

  lemma BlockAt(s: seq<byte>, q: nat, block: seq<byte>, payload: seq<byte>)
    requires q <= |s| && s[q..] == VarLen.Encode(|block|) + block + payload
    ensures VarLen.Decode(s[q..]) == VarLen.Decoded(|block|, |VarLen.Encode(|block|)|, true)
    ensures var start := q + |VarLen.Encode(|block|)|;
            && start + |block| + |payload| == |s| && s[start..] == block + payload
            && s[start..][0..0 + |block|] == block && s[start + |block|..] == payload
  {
    var e := VarLen.Encode(|block|);
    VarLen.DecodeEncode(|block|, block + payload);
    assert s[q..] == e + (block + payload);
    hide VarLen.Encode, VarLen.Decode;
    var b := s[q + |e|..];
    assert b == s[q..][|e|..] == block + payload;
    assert s[q + |e| + |block|..] == b[|block|..];
  }

  /** A property block with its length, at offset q, is read back in full and the payload starts behind it. */
  lemma PropertiesAt(s: seq<byte>, q: nat, ps: seq<Property>, payload: seq<byte>, topic: Span, total: nat)
    requires q <= |s| && |EncodeAll(ps)| < 0x1_0000 && total >= |s| && forall x :: x in ps ==> !x.SubscribeId?
    requires s[q..] == VarLen.Encode(|EncodeAll(ps)|) + EncodeAll(ps) + payload
    ensures var r := ParseProperties(s, q, topic, total);
            && r.Parsed? && r.topic == topic && r.propertyStart <= |s|
            && Resolve(s[r.propertyStart..], r.found) == ApplyAll(NO_VALUES, ps)
            && r.payloadStart == |s| - |payload| && r.payloadLength == |payload| && s[r.payloadStart..] == payload
  {
    hide EncodeAll, ReadOne, ReadFrom, Apply, ApplyAll, WellFormed, VarLen.Encode, VarLen.Decode;
    BlockAt(s, q, EncodeAll(ps), payload);
    VarLen.FitsFourBytes(|EncodeAll(ps)|);
    ShortBlockWellFormed(ps);
    var b := s[q + |VarLen.Encode(|EncodeAll(ps)|)|..];
    ReadBlock(b, 0, ps, NOTHING);
    assert Resolve(b, NOTHING) == NO_VALUES;
  }

  /** Where the reader finds the properties of a PUBLISH. */
  lemma ParseHead(s: seq<byte>, topic: seq<byte>, id: uint16, rest: seq<byte>) returns (q: nat)
    requires s != [] && |topic| < 0x1_0000 && R311.Defined(s) && MessageType(s[0]) == TYPE_PUBLISH && rest != []
    requires s[R311.HeaderEnd(s)..] == Head(topic, Qos(s[0]), id) + rest
    ensures q <= |s| && s[q..] == rest && R311.HeaderEnd(s) + 2 <= |s|
    ensures ParsePublish(s) == ParseProperties(s, q, SpanAt(s, R311.HeaderEnd(s)), R311.Total32(s))
    ensures At(s, Some(SpanAt(s, R311.HeaderEnd(s)))) == Some(topic) && MessageId(s) == (if Qos(s[0]) > 0 then id else 0)
  {
    hide ParseProperties, R311.Total32, R311.HeaderEnd, R311.Defined, At, Head, Qos, MessageType;
    var h := R311.HeaderEnd(s);
    HeadAt(s, h, topic, id, rest);
    q := if Qos(s[0]) > 0 then EndAt(s, h) + 2 else EndAt(s, h);
  }

  /** The reader on any bytes whose length field is followed by a PUBLISH body with these properties. */
  lemma ParseBody(s: seq<byte>, topic: seq<byte>, id: uint16, ps: seq<Property>, payload: seq<byte>)
    requires s != [] && |topic| < 0x1_0000 && R311.Defined(s) && R311.Total32(s) >= |s| && MessageType(s[0]) == TYPE_PUBLISH
    requires |EncodeAll(ps)| < 0x1_0000 && forall x :: x in ps ==> !x.SubscribeId?
    requires s[R311.HeaderEnd(s)..] == Head(topic, Qos(s[0]), id) + (VarLen.Encode(|EncodeAll(ps)|) + EncodeAll(ps) + payload)
    ensures var r := ParsePublish(s);
            && r.Parsed? && At(s, Some(r.topic)) == Some(topic) && r.propertyStart <= |s|
            && Resolve(s[r.propertyStart..], r.found) == ApplyAll(NO_VALUES, ps)
            && r.payloadStart == |s| - |payload| && r.payloadLength == |payload| && s[r.payloadStart..] == payload
            && MessageId(s) == (if Qos(s[0]) > 0 then id else 0)
  {
    hide ParsePublish, MessageId, ParseProperties, R311.Total32, R311.HeaderEnd, EncodeAll, Resolve, At, Head, ApplyAll, VarLen.Encode;
    var rest := VarLen.Encode(|EncodeAll(ps)|) + EncodeAll(ps) + payload;
    assert |rest| > 0;
    var q := ParseHead(s, topic, id, rest);
    PropertiesAt(s, q, ps, payload, SpanAt(s, R311.HeaderEnd(s)), R311.Total32(s));
  }

  /**
   Round trip of a PUBLISH with properties, also while part of the payload is still to come: reading what the
   builder made returns the topic, the identifier, exactly the given properties with the user properties
   in order, and the payload bytes received.
   */
  lemma ParseInvertsBuild(topic: seq<byte>, dup: nat, qos: nat, retain: nat, id: uint16, p: Config, payload: seq<byte>, m: nat)
    requires |topic| < 0x1_0000 && dup < 2 && qos < 4 && retain < 2 && m <= |payload|
    requires |EncodeAll(PropertyList(p))| < 0x1_0000 && |PublishBody(topic, qos, id, p, payload)| < 0x1000_0000
    ensures var s := Received(topic, dup, qos, retain, id, p, payload, m); var r := ParsePublish(s);
            && R311.Defined(s) && R311.Total32(s) == |PublishPacket(topic, dup, qos, retain, id, p, payload)|
            && MessageType(s[0]) == TYPE_PUBLISH && Dup(s[0]) == dup && Qos(s[0]) == qos && Retain(s[0]) == retain
            && r.Parsed? && At(s, Some(r.topic)) == Some(topic) && r.propertyStart <= |s|
            && Resolve(s[r.propertyStart..], r.found) == Expected(p)
            && r.payloadStart == |s| - m && r.payloadLength == m && s[r.payloadStart..] == payload[..m]
            && MessageId(s) == (if qos > 0 then id else 0)
  {
    hide ParsePublish, R311.TotalLength, R311.HeaderEnd, EncodeAll, PropertyList, FirstByte, Expected, Resolve, At, Received, ApplyAll, Head;
    hide VarLen.Encode;
    var s := Received(topic, dup, qos, retain, id, p, payload, m);
    FirstByteFields(TYPE_PUBLISH, dup, qos, retain);
    VarLen.FitsFourBytes(|PublishBody(topic, qos, id, p, payload)|);
    ReceivedBody(topic, dup, qos, retain, id, p, payload, m);
    BodyParts(topic, qos, id, p, payload[..m]);
    hide PublishBody;
    NoSubscribeId(p);
    ParseBody(s, topic, id, PropertyList(p), payload[..m]);
    PropertyListMeansConfig(p);
  }

  lemma BodyParts(topic: seq<byte>, qos: nat, id: uint16, p: Config, payload: seq<byte>)
    ensures PublishBody(topic, qos, id, p, payload)
            == Head(topic, qos, id) + (VarLen.Encode(|EncodeAll(PropertyList(p))|) + EncodeAll(PropertyList(p)) + payload)
  {
    hide EncodeAll, PropertyList, Head, VarLen.Encode;
  }
}
