/** Handing a received PUBLISH to the application, one event for each part that passes through the input buffer. */
module Deliver {
  import opened Bytes
  import opened Connection
  import opened P311 = Publish311
  import opened Receive
  import R311 = Readers311
  import VarLen

  /** MQTT_EVENT_DATA. Only the first event of a message carries the topic. */
  datatype Event = Event(topic: Option<seq<byte>>, data: seq<byte>, offset: nat, total: int, id: uint16, qos: nat, retain: nat, dup: nat)

  datatype Delivery =
    | Finished
    | CutShort     // timeout between two parts; reported as success all the same
    | ReadFailed
    | Unreadable   // no topic in the part received
    | Undefined    // the reader shifts a sixth length byte

  /** The data of all parts, in order. */
  function DataOf(events: seq<Event>): seq<byte> {
    if events == [] then [] else DataOf(events[..|events| - 1]) + events[|events| - 1].data
  }

  /** Each part starts where the one before it ended, and all say the same about the message they belong to. */
  predicate PartsOf(events: seq<Event>, head: Event) {
    forall i {:trigger events[i]} :: 0 <= i < |events| ==>
      events[i] == head.(topic := if i == 0 then head.topic else None, data := events[i].data, offset := |DataOf(events[..i])|)
  }

  /** The first event of the message in s, of which the rest is still to come. */
  function HeadOf(s: seq<byte>, rest: int): Event
    requires s != []
  {
    Event(TopicOf(s), FirstData(s), 0, |FirstData(s)| + rest, R311.MessageId(s), Qos(s[0]), Retain(s[0]), Dup(s[0]))
  }

  function TopicOf(s: seq<byte>): Option<seq<byte>> {
    var t := R311.PublishTopic(s);
    if t.Some? && t.value.start + t.value.length <= |s| then Some(s[t.value.start..t.value.start + t.value.length]) else None
  }

  /** The payload bytes in the first part. */
  function FirstData(s: seq<byte>): seq<byte> {
    var d := R311.PublishData(s);
    if d.0.Some? && d.0.value + d.1 <= |s| then s[d.0.value..d.0.value + d.1] else []
  }

  /** The event for the next part. */
  function Part(head: Event, events: seq<Event>, data: seq<byte>): Event {
    head.(topic := if events == [] then head.topic else None, data := data, offset := |DataOf(events)|)
  }

  lemma Extend(events: seq<Event>, e: Event, head: Event)
    requires PartsOf(events, head)
    requires e == Part(head, events, e.data)
    ensures PartsOf(events + [e], head) && DataOf(events + [e]) == DataOf(events) + e.data
  {
    var all := events + [e];
    assert all[..|all| - 1] == events;
    forall i {:trigger all[i]} | 0 <= i < |all|
      ensures all[i] == head.(topic := if i == 0 then head.topic else None, data := all[i].data, offset := |DataOf(all[..i])|)
    {
      assert all[..i] == events[..i];
    }
  }

  lemma SpansInside(s: seq<byte>)
    requires s != []
    ensures R311.PublishTopic(s).Some? ==> R311.PublishTopic(s).value.start + R311.PublishTopic(s).value.length <= |s|
    ensures R311.PublishData(s).0.Some? ==> R311.PublishData(s).0.value + R311.PublishData(s).1 <= |s|
    ensures R311.PublishData(s).0.None? ==> R311.PublishData(s).1 == 0
  {
  }

  /** What is dispatched of a message of which s was collected, `rest` bytes were to come, and `more` came. */
  predicate Dispatched(s: seq<byte>, rest: int, d: Delivery, events: seq<Event>, more: seq<byte>) {
    && s != [] && (d == Unreadable <==> TopicOf(s) == None) && (d == Undefined <==> TopicOf(s) != None && !R311.Defined(s))
    && (d != Unreadable && d != Undefined ==> events != [] && PartsOf(events, HeadOf(s, rest)) && DataOf(events) == FirstData(s) + more)
  }

  /**
   deliver_publish on what the receiver has collected of a message. The parts dispatched are contiguous and
   add up to the first part and the stream bytes read since, up to the end of the message when it finishes.
   */
  method DeliverPublish(rc: Receiver) returns (r: Delivery, events: seq<Event>)
    requires rc.Valid() && 0 < rc.readLen <= rc.messageLength
    requires rc.base + rc.messageLength <= |rc.source.stream|
    modifies rc.buffer, rc.source
    ensures rc.base <= rc.source.pos <= |rc.source.stream|
    ensures rc.source.pos >= old(rc.source.pos)
    ensures Dispatched(old(rc.buffer[..rc.readLen]), rc.messageLength - rc.readLen, r, events, rc.source.stream[old(rc.source.pos)..rc.source.pos])
    ensures r == Finished ==> rc.source.pos == rc.base + rc.messageLength
    ensures r == CutShort || r == ReadFailed ==> rc.source.pos < rc.base + rc.messageLength
    ensures rc.source.short >= old(rc.source.short) + if r == CutShort || r == ReadFailed then 1 else 0
    ensures rc.source.errors == old(rc.source.errors) + if r == ReadFailed then 1 else 0
  {
    hide HeadOf, TopicOf, FirstData, PartsOf, DataOf, R311.HeaderEnd;
    ghost var s := rc.buffer[..rc.readLen];
    var head, defined := ReadHead(rc);
    if head.None? {
      return if defined then Unreadable else Undefined, [];
    }
    r, events := DispatchParts(rc, head.value);
  }

  /** The fields of the first event, from the bytes in the buffer. */
  method ReadHead(rc: Receiver) returns (head: Option<Event>, defined: bool)
    requires 0 < rc.readLen <= rc.buffer.Length
    ensures var s := rc.buffer[..rc.readLen];
            && (head.None? <==> TopicOf(s).None? || !R311.Defined(s))
            && (defined <==> TopicOf(s).None? || R311.Defined(s))
            && (head.Some? ==> head.value == HeadOf(s, rc.messageLength - rc.readLen) && head.value.offset == 0 && head.value.data == FirstData(s))
  {
    ghost var s := rc.buffer[..rc.readLen];
    SpansInside(s);
    hide R311.PublishTopic, R311.PublishData, R311.MessageId;
    var topic := R311.GetPublishTopic(rc.buffer, rc.readLen);
    if topic.None? {
      return None, true;
    }
    var start, dataLength;
    start, dataLength, defined := R311.GetPublishData(rc.buffer, rc.readLen);
    if !defined {
      return None, false;
    }
    var id := R311.GetId(rc.buffer, rc.readLen);
    var topicBytes := Pointed(rc, topic.value.start, topic.value.length);
    var data := [];
    if start.Some? {
      data := Pointed(rc, start.value, dataLength);
    }
    var first := rc.buffer[0];
    assert first == s[0];
    return Some(Event(Some(topicBytes), data, 0, dataLength + rc.messageLength - rc.readLen, id, Qos(first), Retain(first), Dup(first))), true;
  }

  /** The bytes a pointer into the received part of the buffer designates. */
  method Pointed(rc: Receiver, start: nat, length: nat) returns (bytes: seq<byte>)
    requires start + length <= rc.readLen <= rc.buffer.Length
    ensures bytes == rc.buffer[..rc.readLen][start..start + length]
  {
    bytes := rc.buffer[start..start + length];
  }

  /** The dispatch loop, entered with the first event ready. */
  method DispatchParts(rc: Receiver, head: Event) returns (r: Delivery, events: seq<Event>)
    requires rc.base + rc.readLen == rc.source.pos && rc.readLen <= rc.messageLength && head.offset == 0
    requires rc.base + rc.messageLength <= |rc.source.stream| && rc.buffer.Length > 0
    modifies rc.buffer, rc.source
    ensures r != Unreadable && r != Undefined
    ensures events != [] && PartsOf(events, head)
    ensures old(rc.source.pos) <= rc.source.pos <= |rc.source.stream|
    ensures DataOf(events) == UpTo(head.data, rc.source.stream, old(rc.source.pos), rc.source.pos)
    ensures r == Finished ==> rc.source.pos == rc.base + rc.messageLength
    ensures r == CutShort || r == ReadFailed ==> rc.source.pos < rc.base + rc.messageLength
    ensures rc.source.short >= old(rc.source.short) + if r == CutShort || r == ReadFailed then 1 else 0
    ensures rc.source.errors == old(rc.source.errors) + if r == ReadFailed then 1 else 0
  {
    ghost var stream, p0 := rc.source.stream, rc.source.pos;
    assert PartsOf([], head) && DataOf([]) + head.data == UpTo(head.data, stream, p0, p0);
    assert head == Part(head, [], head.data);
    hide PartsOf, DataOf, Part, UpTo;
    events := [];
    var e, readLen, total, sending := head, rc.readLen, rc.messageLength, true;
    ghost var end := rc.base + total;
    while sending
      invariant p0 <= rc.source.pos == rc.base + readLen <= end && old(rc.source.short) <= rc.source.short
      invariant rc.source.errors == old(rc.source.errors)
      invariant PartsOf(events, head)
      invariant sending ==> e == Part(head, events, e.data)
      invariant sending ==> DataOf(events) + e.data == UpTo(head.data, stream, p0, rc.source.pos)
      invariant !sending ==> events != [] && readLen == total && DataOf(events) == UpTo(head.data, stream, p0, rc.source.pos)
      decreases sending, total - readLen
    {
      Extend(events, e, head);
      ghost var before := events;
      events := events + [e];
      sending := false;
      if readLen < total {
        sending := true;
        var n := if total - readLen > rc.buffer.Length then rc.buffer.Length else total - readLen;
        ghost var p := rc.source.pos;
        var got := ReadPart(rc, n);
        if got <= 0 {
          return if ReadError(got, false) == Nothing then CutShort else ReadFailed, events;
        }
        Joined(head.data, stream, p0, p, got);
        NextPart(head, before, e, rc.buffer[..got]);
        e := e.(topic := None, data := rc.buffer[..got], offset := e.offset + |e.data|);
        readLen := readLen + got;
      }
    }
    return Finished, events;
  }

  function UpTo(data: seq<byte>, stream: seq<byte>, p0: nat, p: nat): seq<byte>
    requires p0 <= p <= |stream|
  {
    data + stream[p0..p]
  }

  lemma NextPart(head: Event, events: seq<Event>, e: Event, data: seq<byte>)
    requires e == Part(head, events, e.data) && DataOf(events + [e]) == DataOf(events) + e.data
    ensures e.(topic := None, data := data, offset := e.offset + |e.data|) == Part(head, events + [e], data)
  {
  }

  /** The next part, read over the start of the buffer. */
  method ReadPart(rc: Receiver, n: nat) returns (got: int)
    requires rc.source.pos <= |rc.source.stream| && 0 < n <= rc.buffer.Length
    modifies rc.buffer, rc.source
    ensures got <= n && rc.source.pos == old(rc.source.pos) + (if got > 0 then got else 0) <= |rc.source.stream|
    ensures rc.source.short >= old(rc.source.short) + if got > 0 then 0 else 1
    ensures rc.source.errors == old(rc.source.errors) + if got < 0 then 1 else 0
    ensures got > 0 ==> rc.buffer[..got] == rc.source.stream[old(rc.source.pos)..rc.source.pos]
  {
    var part;
    got, part := rc.source.Read(n);
    if got > 0 {
      Copy(rc.buffer, 0, part);
      assert rc.buffer[..got] == rc.buffer[..][..got];
    }
  }

  lemma Joined(data: seq<byte>, stream: seq<byte>, p0: nat, p: nat, got: nat)
    requires p0 <= p && p + got <= |stream|
    ensures UpTo(data, stream, p0, p + got) == UpTo(data, stream, p0, p) + stream[p..p + got]
  {
  }

  /** What the readers found, as the first event shows it. */
  lemma HeadFromReaders(s: seq<byte>, topic: seq<byte>, m: nat)
    requires s != [] && m <= |s|
    requires var t := R311.PublishTopic(s);
             t.Some? && t.value.start + t.value.length <= |s| && s[t.value.start..t.value.start + t.value.length] == topic
    requires R311.PublishData(s) == (if m > 0 then Some(|s| - m) else None, m)
    ensures TopicOf(s) == Some(topic) && FirstData(s) == s[|s| - m..]
  {
  }

  /** A PUBLISH: its fields, its packet, and the length of fixed and variable header. */
  datatype Message = Message(topic: seq<byte>, dup: nat, qos: nat, retain: nat, id: uint16, payload: seq<byte>)

  function BodyOf(m: Message): seq<byte> { PublishBody(m.topic, m.qos, m.id, m.payload) }

  function PacketOf(m: Message): (p: seq<byte>)
    ensures |p| == HeaderOf(m) + |m.payload|
  {
    PublishPacket(m.topic, m.dup, m.qos, m.retain, m.id, m.payload)
  }

  function HeaderOf(m: Message): (h: nat)
    ensures h >= 4
  {
    P311.HeaderLength(m.topic, m.qos, |m.payload|)
  }

  /** The packet cut k bytes in, behind its header. */
  lemma CutInPayload(m: Message, j: nat)
    requires j <= |m.payload|
    ensures var packet, k := PacketOf(m), HeaderOf(m) + j;
            && k <= |packet| && packet[..k] == R311.Received(m.topic, m.dup, m.qos, m.retain, m.id, m.payload, j)
            && packet[k..] == m.payload[j..]
  {
  }

  /** When the first k bytes hold the whole header, the first event and the rest of the packet carry topic and payload. */
  lemma HeaderInside(m: Message, k: nat)
    requires 1 <= |m.topic| < 0x1_0000 && m.dup < 2 && m.qos < 4 && m.retain < 2
    requires |BodyOf(m)| < 0x1000_0000
    requires HeaderOf(m) <= k <= |PacketOf(m)|
    ensures R311.Defined(PacketOf(m)[..k])
    ensures var packet := PacketOf(m);
            var head := HeadOf(packet[..k], |packet| - k);
            && head == Event(Some(m.topic), FirstData(packet[..k]), 0, |m.payload|, if m.qos > 0 then m.id else 0, m.qos, m.retain, m.dup)
            && FirstData(packet[..k]) + packet[k..] == m.payload
  {
    hide PacketOf, R311.Received, R311.PublishTopic, R311.PublishData, R311.MessageId, R311.TotalLength, R311.HeaderEnd, FirstData, TopicOf;
    hide PublishBody;
    hide HeaderOf, Qos, Dup, Retain, MessageType;
    var j := k - HeaderOf(m);
    CutInPayload(m, j);
    R311.ReadersInvertPublish(m.topic, m.dup, m.qos, m.retain, m.id, m.payload, j);
    HeadFromReaders(R311.Received(m.topic, m.dup, m.qos, m.retain, m.id, m.payload, j), m.topic, j);
  }

  lemma CutHeaderRead(s: seq<byte>, topic: seq<byte>, rest: int)
    requires topic != [] && s != []
    requires var h := R311.HeaderEnd(s);
             && h + |topic| <= |s| - (if Qos(s[0]) > 0 then 2 else 0) < h + 2 + |topic|
             && (h + 2 <= |s| ==> ReadBe16(s, h) == |topic|)
             && (Qos(s[0]) > 0 ==> s[h + 2..h + 2 + |topic|] == topic)
    ensures var head := HeadOf(s, rest);
            if Qos(s[0]) == 0 then head.topic == None else head.topic == Some(topic) && head.data == [] && head.total == rest
  {
  }

  /** What is left of the header fields when a packet is cut just before the end of its header. */
  lemma CutPacket(m: Message, k: nat)
    requires 1 <= |m.topic| < 0x1_0000 && m.dup < 2 && m.qos < 4 && m.retain < 2
    requires HeaderOf(m) - 2 <= k < HeaderOf(m)
    ensures var s, h := PacketOf(m)[..k], 1 + |VarLen.Encode(|BodyOf(m)|)|;
            && |s| == k > 0 && s[0] == FirstByte(TYPE_PUBLISH, m.dup, m.qos, m.retain) && R311.HeaderEnd(s) == h
            && (h + 2 <= |s| ==> ReadBe16(s, h) == |m.topic|)
            && (m.qos > 0 ==> s[h + 2..h + 2 + |m.topic|] == m.topic)
            && h + 2 + |m.topic| + (if m.qos > 0 then 2 else 0) == HeaderOf(m)
  {
    var packet, body := PacketOf(m), BodyOf(m);
    var h := 1 + |VarLen.Encode(|body|)|;
    R311.HeaderOfPacket(FirstByte(TYPE_PUBLISH, m.dup, m.qos, m.retain), body, k);
    R311.BodyFields(m.topic, m.qos, m.id, m.payload);
    hide FirstByte, R311.HeaderEnd, R311.TotalLength, PublishBody, VarLen.Encode;
    assert packet[h..] == body;
    hide PacketOf;
    assert forall x :: 0 <= x < k - h ==> packet[..k][h + x] == packet[h..][x];
    if m.qos > 0 {
      assert packet[..k][h + 2..h + 2 + |m.topic|] == packet[h..][2..2 + |m.topic|];
    }
  }

  /** When the header is cut within its last two bytes, the payload is announced too long, or the topic is not found. */
  lemma HeaderCut(m: Message, k: nat, rest: int)
    requires 1 <= |m.topic| < 0x1_0000 && m.dup < 2 && m.qos < 4 && m.retain < 2
    requires HeaderOf(m) - 2 <= k < HeaderOf(m)
    ensures var head := HeadOf(PacketOf(m)[..k], rest);
            if m.qos == 0 then head.topic == None else head.topic == Some(m.topic) && head.data == [] && head.total == rest
  {
    hide *;
    CutPacket(m, k);
    CutFlags(m);
    CutHeaderRead(PacketOf(m)[..k], m.topic, rest);
  }

  lemma CutFlags(m: Message)
    requires m.dup < 2 && m.qos < 4 && m.retain < 2
    ensures Qos(FirstByte(TYPE_PUBLISH, m.dup, m.qos, m.retain)) == m.qos
  {
    FirstByteFields(TYPE_PUBLISH, m.dup, m.qos, m.retain);
  }

  /** The next message in the stream is this PUBLISH. */
  predicate Arrives(ahead: seq<byte>, m: Message) {
    && 1 <= |m.topic| < 0x1_0000 && m.dup < 2 && m.qos < 4 && m.retain < 2
    && |BodyOf(m)| < 0x1000_0000
    && PacketOf(m) <= ahead
  }

  /** A PUBLISH is never lost by resuming: a short one has the length of its topic, with a clear top bit, last but one. */
  lemma ArrivingPublish(ahead: seq<byte>, m: Message)
    requires Arrives(ahead, m)
    ensures var n := |BodyOf(m)|;
            && StartsPacket(ahead, n) && HeaderOf(m) <= Receive.PacketLength(n)
            && Receive.PacketLength(n) == |PacketOf(m)|
            && forall k: nat :: k < Receive.PacketLength(n) ==> !Lost(ahead, n, k)
  {
    var packet, body := PacketOf(m), BodyOf(m);
    var h := Receive.HeaderLength(|body|);
    assert ahead[..|packet|] == packet && packet[1..h] == VarLen.Encode(|body|) && packet[h..] == body;
    assert ahead[1..h] == packet[1..h];
    R311.BodyFields(m.topic, m.qos, m.id, m.payload);
    if |packet| < 6 {
      assert ahead[h + 1] == packet[h + 1] == body[1] < 128;
    }
    hide PacketOf, PublishBody, VarLen.Encode;
    LosableIffAtRisk(ahead, |body|);
  }

  /** Its first byte passes the check exactly with legal flags. */
  lemma FirstArriving(ahead: seq<byte>, m: Message)
    requires Arrives(ahead, m)
    ensures ahead != [] && (ValidHeader(ahead[0]) <==> m.qos < 3 && (m.qos == 0 ==> m.dup == 0))
  {
    PublishFlags(m.dup, m.qos, m.retain);
    HeaderFlags(FirstByte(TYPE_PUBLISH, m.dup, m.qos, m.retain));
    assert ahead[0] == PacketOf(m)[0];
    hide FirstByte, ValidHeader, PublishBody;
  }

  /** A PUBLISH is refused for its size when its header, less two bytes, does not fit the buffer. */
  lemma RefusedPublish(rc: Receiver, m: Message)
    requires 10 <= rc.buffer.Length && rc.base <= |rc.source.stream| && Arrives(rc.Ahead(), m)
    requires StartsPacket(rc.Ahead(), |BodyOf(m)|)
    ensures rc.Refused(|BodyOf(m)|) <==> rc.buffer.Length < HeaderOf(m) - 2
  {
    var packet, body := PacketOf(m), BodyOf(m);
    var h, ahead := Receive.HeaderLength(|body|), rc.Ahead();
    FirstByteFields(TYPE_PUBLISH, m.dup, m.qos, m.retain);
    R311.BodyFields(m.topic, m.qos, m.id, m.payload);
    assert packet[0] == FirstByte(TYPE_PUBLISH, m.dup, m.qos, m.retain) && packet[h..] == body;
    assert ahead[0] == packet[0] && ahead[h] == packet[h..][0] && ahead[h + 1] == packet[h..][1];
    assert ReadBe16(ahead, h) == |m.topic|;
    hide FirstByte, MessageType, Qos, PublishBody, VarLen.Encode, PacketOf;
  }

  /** The events carry exactly this part of the payload, under the right head. */
  predicate Delivers(events: seq<Event>, m: Message, part: seq<byte>) {
    && events != [] && DataOf(events) == part
    && PartsOf(events, Event(Some(m.topic), [], 0, |m.payload|, if m.qos > 0 then m.id else 0, m.qos, m.retain, m.dup))
  }

  /** The topic is found when the whole header is in the first k bytes. */
  lemma Readable(ahead: seq<byte>, m: Message, k: nat)
    requires Arrives(ahead, m)
    requires HeaderOf(m) <= k <= |PacketOf(m)|
    ensures TopicOf(ahead[..k]).Some?
  {
    var packet := PacketOf(m);
    assert ahead[..k] == packet[..k];
    hide PacketOf, PublishBody, HeaderOf, TopicOf, FirstData;
    HeaderInside(m, k);
  }

  lemma SamePartHead(events: seq<Event>, head: Event, other: Event)
    requires PartsOf(events, head) && other == head.(data := other.data)
    ensures PartsOf(events, other)
  {
  }

  lemma SliceAhead(stream: seq<byte>, base: nat, from: nat, to: nat)
    requires from <= to && base + to <= |stream|
    ensures stream[base..][from..to] == stream[base + from..base + to]
  {
  }

  /** What is delivered when k bytes were collected first and `end` bytes of the packet have been received. */
  lemma DeliveredFrom(ahead: seq<byte>, m: Message, k: nat, end: nat, events: seq<Event>)
    requires Arrives(ahead, m) && HeaderOf(m) - 2 <= k <= end <= |PacketOf(m)|
    requires TopicOf(ahead[..k]).Some? && events != [] && PartsOf(events, HeadOf(ahead[..k], |PacketOf(m)| - k))
    requires DataOf(events) == FirstData(ahead[..k]) + ahead[k..end]
    ensures HeaderOf(m) <= k ==> Delivers(events, m, PacketOf(m)[HeaderOf(m)..end])
    ensures HeaderOf(m) > k ==> events[0].total > |m.payload|
  {
    var packet := PacketOf(m);
    assert ahead[..k] == packet[..k] && ahead[k..end] == packet[k..end];
    hide PacketOf, HeaderOf, HeadOf, TopicOf, FirstData, DataOf, PublishBody;
    if HeaderOf(m) <= k {
      HeaderInside(m, k);
      PartInPacket(m, FirstData(packet[..k]), k, end);
      SamePartHead(events, HeadOf(packet[..k], |packet| - k), Event(Some(m.topic), [], 0, |m.payload|, if m.qos > 0 then m.id else 0, m.qos, m.retain, m.dup));
    } else {
      HeaderCut(m, k, |packet| - k);
      TopicFromHead(packet[..k], |packet| - k);
    }
  }

  lemma TopicFromHead(s: seq<byte>, rest: int)
    requires s != []
    ensures HeadOf(s, rest).topic == TopicOf(s)
  {
    hide TopicOf, FirstData, R311.MessageId;
  }

  lemma PartInPacket(m: Message, first: seq<byte>, k: nat, end: nat)
    requires HeaderOf(m) <= k <= end <= |PacketOf(m)| && first + PacketOf(m)[k..] == m.payload
    ensures first + PacketOf(m)[k..end] == PacketOf(m)[HeaderOf(m)..end]
  {
    var packet, h := PacketOf(m), HeaderOf(m);
    assert packet[h..] == m.payload;
    assert |first| == k - h;
    assert first == m.payload[..k - h];
    hide PacketOf, HeaderOf;
    assert packet[h..end] == packet[h..][..k - h] + packet[k..end];
  }

  /** What the application gets of a message of which `end` bytes have been received; the rest of them begin the next message. */
  predicate Judged(m: Message, end: nat, bufferLength: nat, d: Delivery, events: seq<Event>) {
    && d != Undefined && (d == Unreadable ==> bufferLength < HeaderOf(m))
    && (d in {Finished, CutShort} ==>
          && end <= |PacketOf(m)| && (end == |PacketOf(m)| <==> d == Finished)
          && if HeaderOf(m) <= bufferLength then HeaderOf(m) <= end && Delivers(events, m, PacketOf(m)[HeaderOf(m)..end])
             else events != [] && events[0].total > |m.payload|)
  }

  /** Delivery of all the payload, or of a proper prefix of it, in terms of single events. */
  lemma EventsInOrder(events: seq<Event>, m: Message, part: seq<byte>)
    requires Delivers(events, m, part)
    ensures events[0].offset == 0 && events[|events| - 1].offset + |events[|events| - 1].data| == |part|
    ensures forall i {:trigger events[i]} :: 0 <= i < |events| ==>
              var e := events[i];
              && e.topic == (if i == 0 then Some(m.topic) else None) && e.total == |m.payload|
              && e.id == (if m.qos > 0 then m.id else 0) && e.qos == m.qos && e.retain == m.retain && e.dup == m.dup
              && (i > 0 ==> e.offset == events[i - 1].offset + |events[i - 1].data|)
              && e.offset + |e.data| <= |part| && e.data == part[e.offset..e.offset + |e.data|]
  {
    assert events[..|events|] == events;
    forall i {:trigger events[i]} | 0 <= i < |events|
      ensures events[i].offset + |events[i].data| <= |part| && events[i].data == part[events[i].offset..events[i].offset + |events[i].data|]
      ensures i > 0 ==> events[i].offset == events[i - 1].offset + |events[i - 1].data|
    {
      OneInOrder(events, i);
    }
    DataOfMore(events, |events| - 1);
    hide DataOf;
  }

  lemma OneInOrder(events: seq<Event>, i: nat)
    requires i < |events|
    ensures var o := |DataOf(events[..i])|;
            o + |events[i].data| <= |DataOf(events)| && events[i].data == DataOf(events)[o..o + |events[i].data|]
    ensures i > 0 ==> |DataOf(events[..i])| == |DataOf(events[..i - 1])| + |events[i - 1].data|
  {
    hide DataOf;
    DataGrows(events, i + 1);
    DataOfMore(events, i);
    SliceOfPrefix(DataOf(events[..i]), events[i].data, DataOf(events));
    if i > 0 {
      DataOfMore(events, i - 1);
    }
  }

  lemma SliceOfPrefix(a: seq<byte>, b: seq<byte>, whole: seq<byte>)
    requires a + b <= whole
    ensures |a| + |b| <= |whole| && b == whole[|a|..|a| + |b|]
  {
    assert whole[..|a| + |b|] == a + b;
  }

  lemma DataOfMore(events: seq<Event>, i: nat)
    requires i < |events|
    ensures DataOf(events[..i + 1]) == DataOf(events[..i]) + events[i].data
  {
    assert events[..i + 1][..i] == events[..i];
  }

  lemma {:induction false} DataGrows(events: seq<Event>, i: nat)
    requires i <= |events|
    ensures DataOf(events[..i]) <= DataOf(events)
    decreases |events| - i
  {
    if i < |events| {
      DataOfMore(events, i);
      DataGrows(events, i + 1);
    } else {
      assert events[..i] == events;
    }
  }

  /**
   The receiving half of mqtt_process_receive for a PUBLISH: collect, deliver, start on the next message. Over any
   splitting of the stream the application gets exactly the payload, if and only if the packet's header fits the buffer.
   When a read times out between two parts the message counts as received all the same: the application has the first
   part of the payload, and the next packet is looked for in the rest of it.
   */
  method ReceivePublish(rc: Receiver, ghost m: Message) returns (r: Outcome, d: Delivery, events: seq<Event>)
    requires rc.Valid() && Arrives(rc.Ahead(), m) && rc.readLen < rc.Goal(|BodyOf(m)|)
    modifies rc, rc.buffer, rc.source
    ensures r != OutOfBuffer && r != ShiftUndefined && (r == TooBig ==> rc.buffer.Length < HeaderOf(m) - 2)
    ensures r == InvalidHeader ==> old(rc.readLen) == 0 && (m.qos == 3 || (m.qos == 0 && m.dup == 1))
    ensures r == Complete && old(rc.readLen) == 0 ==> m.qos < 3 && (m.qos == 0 ==> m.dup == 0)
    ensures r in {Nothing, MidTimeout} ==>
              && rc.Valid() && rc.base == old(rc.base) && rc.readLen < rc.Goal(|BodyOf(m)|)
              && rc.source.short > old(rc.source.short)
    ensures r == Complete ==>
              old(rc.base) <= rc.source.pos && Judged(m, rc.source.pos - old(rc.base), rc.buffer.Length, d, events)
    ensures r == Complete && d in {Finished, CutShort} ==> rc.Valid() && rc.readLen == 0 && rc.base == rc.source.pos
    ensures r == Complete && (d == CutShort || d == ReadFailed) ==> rc.source.short > old(rc.source.short)
    ensures rc.source.errors == old(rc.source.errors) + if r == TransportError || (r == Complete && d == ReadFailed) then 1 else 0
  {
    hide PacketOf, HeaderOf, BodyOf, Arrives, Judged;
    d, events := Unreadable, [];
    r := Collect(rc, m);
    if r == Complete {
      d, events := DeliverCollected(rc, m);
    }
  }

  /** The first half: reception, up to the whole message or a full buffer. */
  method Collect(rc: Receiver, ghost m: Message) returns (r: Outcome)
    requires rc.Valid() && Arrives(rc.Ahead(), m) && rc.readLen < rc.Goal(|BodyOf(m)|)
    modifies rc, rc.buffer, rc.source
    ensures rc.base == old(rc.base) && r != OutOfBuffer && r != ShiftUndefined && (r == TooBig ==> rc.buffer.Length < HeaderOf(m) - 2)
    ensures r == InvalidHeader ==> old(rc.readLen) == 0 && (m.qos == 3 || (m.qos == 0 && m.dup == 1))
    ensures r == Complete && old(rc.readLen) == 0 ==> m.qos < 3 && (m.qos == 0 ==> m.dup == 0)
    ensures r != InvalidHeader ==> rc.Valid()
    ensures r in {Nothing, MidTimeout} ==> rc.readLen < rc.Goal(|BodyOf(m)|) && rc.source.short > old(rc.source.short)
    ensures rc.source.short >= old(rc.source.short)
    ensures rc.source.errors == old(rc.source.errors) + if r == TransportError then 1 else 0
    ensures r == Complete ==>
              && rc.messageLength == |PacketOf(m)| && HeaderOf(m) - 2 <= rc.readLen
              && rc.readLen == if rc.buffer.Length < rc.messageLength then rc.buffer.Length else rc.messageLength
  {
    FirstArriving(rc.Ahead(), m);
    hide PacketOf, HeaderOf, BodyOf, Arrives, StartsPacket, Lost, Receiver.Refused, ValidHeader;
    ghost var n, k := |BodyOf(m)|, 0;
    ArrivingPublish(rc.Ahead(), m);
    RefusedPublish(rc, m);
    r, k := rc.MessageReceive(n);
  }

  /** The second half, with the message collected. */
  method DeliverCollected(rc: Receiver, ghost m: Message) returns (d: Delivery, events: seq<Event>)
    requires rc.Valid() && Arrives(rc.Ahead(), m)
    requires rc.messageLength == |PacketOf(m)| && HeaderOf(m) - 2 <= rc.readLen
    requires rc.readLen == if rc.buffer.Length < rc.messageLength then rc.buffer.Length else rc.messageLength
    modifies rc, rc.buffer, rc.source
    ensures old(rc.base) <= rc.source.pos && Judged(m, rc.source.pos - old(rc.base), rc.buffer.Length, d, events)
    ensures d in {Finished, CutShort} ==> rc.Valid() && rc.readLen == 0 && rc.base == rc.source.pos
    ensures rc.source.short >= old(rc.source.short) + if d == CutShort || d == ReadFailed then 1 else 0
    ensures rc.source.errors == old(rc.source.errors) + if d == ReadFailed then 1 else 0
  {
    hide PacketOf, HeaderOf, Arrives, Judged;
    d, events := DispatchCollected(rc, m);
    if d in {Finished, CutShort} {
      rc.Reset();
    }
  }

  method DispatchCollected(rc: Receiver, ghost m: Message) returns (d: Delivery, events: seq<Event>)
    requires rc.Valid() && Arrives(rc.Ahead(), m)
    requires rc.messageLength == |PacketOf(m)| && HeaderOf(m) - 2 <= rc.readLen
    requires rc.readLen == if rc.buffer.Length < rc.messageLength then rc.buffer.Length else rc.messageLength
    modifies rc.buffer, rc.source
    ensures rc.base <= rc.source.pos <= |rc.source.stream| && Judged(m, rc.source.pos - rc.base, rc.buffer.Length, d, events)
    ensures rc.source.short >= old(rc.source.short) + if d == CutShort || d == ReadFailed then 1 else 0
    ensures rc.source.errors == old(rc.source.errors) + if d == ReadFailed then 1 else 0
  {
    hide PacketOf, HeaderOf, Arrives, Judged, Dispatched;
    WholePacketAhead(rc.Ahead(), m);
    ghost var k, ahead, base, stream := rc.readLen, rc.source.stream[rc.base..], rc.base, rc.source.stream;
    ghost var s := rc.buffer[..rc.readLen];
    assert s == ahead[..k] && rc.source.pos == base + k && base <= |stream|;
    d, events := DeliverPublish(rc);
    SliceAhead(stream, base, k, rc.source.pos - base);
    JudgedUpTo(ahead, m, k, rc.source.pos - base, rc.buffer.Length, d, events);
  }

  lemma WholePacketAhead(ahead: seq<byte>, m: Message)
    requires Arrives(ahead, m)
    ensures |PacketOf(m)| <= |ahead|
  {
  }

  /** What was dispatched, judged by how many bytes of the packet have been received. */
  lemma JudgedUpTo(ahead: seq<byte>, m: Message, k: nat, end: nat, bufferLength: nat, d: Delivery, events: seq<Event>)
    requires Arrives(ahead, m) && HeaderOf(m) - 2 <= k <= end <= |ahead|
    requires d in {Finished, CutShort} ==> end <= |PacketOf(m)| && (end == |PacketOf(m)| <==> d == Finished)
    requires k == if bufferLength < |PacketOf(m)| then bufferLength else |PacketOf(m)|
    requires Dispatched(ahead[..k], |PacketOf(m)| - k, d, events, ahead[k..end])
    ensures Judged(m, end, bufferLength, d, events)
  {
    CollectedDefined(ahead, m, k);
    hide PacketOf, HeaderOf, Arrives, HeadOf, PartsOf, DataOf, FirstData, TopicOf, Delivers, R311.HeaderEnd;
    if d in {Finished, CutShort} {
      DeliveredFrom(ahead, m, k, end, events);
    } else if d == Unreadable && HeaderOf(m) <= k {
      Readable(ahead, m, k);
    }
  }

  /** The length field of the packet has at most four bytes, and is among those collected. */
  lemma CollectedDefined(ahead: seq<byte>, m: Message, k: nat)
    requires Arrives(ahead, m)
    requires 0 < k <= |PacketOf(m)| && HeaderOf(m) - 2 <= k
    ensures R311.Defined(ahead[..k])
  {
    var body := BodyOf(m);
    assert ahead[..k] == PacketOf(m)[..k];
    VarLen.FitsFourBytes(|body|);
    R311.HeaderOfPacket(FirstByte(TYPE_PUBLISH, m.dup, m.qos, m.retain), body, k);
    hide R311.HeaderEnd, FirstByte, VarLen.Encode;
  }
}
