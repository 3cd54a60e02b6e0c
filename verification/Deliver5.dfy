/** Handing a received MQTT 5.0 PUBLISH to the application: another reader and the topic aliases in front of the same loop. */
module Deliver5 {
  import opened Bytes
  import opened Connection
  import opened Properties5
  import opened Receive
  import opened Deliver
  import P5 = Publish5
  import R5 = Readers5
  import R311 = Readers311
  import VarLen

  type Aliases = map<uint16, seq<byte>>

  /** What the reader finds in a message that is delivered: the topic as sent, the properties, and the payload bytes there. */
  datatype Reading = Reading(topic: seq<byte>, values: Values, data: seq<byte>)

  function ReadingOf(s: seq<byte>): Option<Reading> {
    match R5.ParsePublish(s)
    case Parsed(topic, found, propertyStart, _, payloadStart, payloadLength) =>
      if payloadLength >= 0 && propertyStart <= |s| && payloadStart + payloadLength <= |s| && At(s, Some(topic)).Some? then
        Some(Reading(At(s, Some(topic)).value, Resolve(s[propertyStart..], found), s[payloadStart..payloadStart + payloadLength]))
      else None
    case _ => None
  }

  /** The topic the event shows, unless the alias is too large, or stands for a topic that has not been sent. */
  function TopicShown(r: Reading, aliases: Aliases, maximum: uint16): Option<seq<byte>> {
    if r.values.alias > maximum then None
    else if r.values.alias == 0 || r.topic != [] then Some(r.topic)
    else if r.values.alias in aliases then Some(aliases[r.values.alias])
    else None
  }

  function AliasesAfter(r: Reading, aliases: Aliases): Aliases {
    if r.values.alias != 0 && r.topic != [] then aliases[r.values.alias := r.topic] else aliases
  }

  /** The aliases known after these messages of one connection. */
  function KnownAfter(rs: seq<Reading>, maximum: uint16): Aliases {
    if rs == [] then map[]
    else
      var known, r := KnownAfter(rs[..|rs| - 1], maximum), rs[|rs| - 1];
      if TopicShown(r, known, maximum).Some? then AliasesAfter(r, known) else known
  }

  /** The last of these messages sent with a topic and this alias, or their number. */
  predicate LastWithAlias(rs: seq<Reading>, alias: uint16, k: nat) {
    && k <= |rs| && (k < |rs| ==> rs[k].values.alias == alias && rs[k].topic != [])
    && forall j {:trigger rs[j]} :: 0 <= j < |rs| && (k == |rs| || k < j) ==> rs[j].values.alias != alias || rs[j].topic == []
  }

  lemma {:induction false} KnownIsLastSent(rs: seq<Reading>, alias: uint16, maximum: uint16, k: nat)
    requires 0 < alias <= maximum && LastWithAlias(rs, alias, k)
    ensures if k == |rs| then alias !in KnownAfter(rs, maximum)
            else alias in KnownAfter(rs, maximum) && KnownAfter(rs, maximum)[alias] == rs[k].topic
    decreases |rs|
  {
    if rs != [] {
      var n := |rs| - 1;
      var before := rs[..n];
      assert forall j {:trigger rs[j]} :: 0 <= j < n ==> before[j] == rs[j];
      if k != n {
        assert rs[n].values.alias != alias || rs[n].topic == [];
        KnownIsLastSent(before, alias, maximum, if k < n then k else n);
      }
    }
  }

  /**
   What a message is shown under, after any messages of the connection: its own topic when it has one and its alias is
   within the maximum; without a topic, the one last sent with its alias; and it is not shown when there was none.
   */
  lemma ShownUnder(rs: seq<Reading>, r: Reading, maximum: uint16, k: nat)
    requires LastWithAlias(rs, r.values.alias, k)
    ensures var shown := TopicShown(r, KnownAfter(rs, maximum), maximum);
            && (r.values.alias > maximum ==> shown == None)
            && (r.values.alias <= maximum && r.topic != [] ==> shown == Some(r.topic))
            && (r.values.alias == 0 && r.topic == [] ==> shown == Some([]))
            && (0 < r.values.alias <= maximum && r.topic == [] ==> shown == if k < |rs| then Some(rs[k].topic) else None)
  {
    if 0 < r.values.alias <= maximum {
      KnownIsLastSent(rs, r.values.alias, maximum, k);
    }
  }

  /** The first event of such a message, of which the rest is still to come. */
  function HeadOf5(s: seq<byte>, r: Reading, topic: seq<byte>, rest: int): Event
    requires s != []
  {
    Event(Some(topic), r.data, 0, |r.data| + rest, R5.MessageId(s), Qos(s[0]), Retain(s[0]), Dup(s[0]))
  }

  /** What is dispatched of a message of which s was collected, `rest` bytes were to come, and `more` came. */
  predicate Dispatched(s: seq<byte>, rest: int, aliases: Aliases, maximum: uint16, d: Delivery, events: seq<Event>, values: Values, known: Aliases,
                       more: seq<byte>)
  {
    var reading := ReadingOf(s);
    if s != [] && reading.Some? && TopicShown(reading.value, aliases, maximum).Some? then
      && d in {Finished, CutShort, ReadFailed} && values == reading.value.values && known == AliasesAfter(reading.value, aliases)
      && events != [] && PartsOf(events, HeadOf5(s, reading.value, TopicShown(reading.value, aliases, maximum).value, rest))
      && DataOf(events) == reading.value.data + more
    else d in {Unreadable, Undefined} && events == [] && known == aliases
  }

  /** deliver_publish over MQTT 5, on what the receiver has collected of a message. */
  method DeliverPublish(rc: Receiver, aliases: Aliases, maximum: uint16)
    returns (r: Delivery, events: seq<Event>, values: Values, known: Aliases)
    requires rc.Valid() && 0 < rc.readLen <= rc.messageLength
    requires rc.base + rc.messageLength <= |rc.source.stream|
    modifies rc.buffer, rc.source
    ensures rc.base <= rc.source.pos <= |rc.source.stream|
    ensures rc.source.pos >= old(rc.source.pos)
    ensures Dispatched(old(rc.buffer[..rc.readLen]), rc.messageLength - rc.readLen, aliases, maximum, r, events, values, known,
                       rc.source.stream[old(rc.source.pos)..rc.source.pos])
    ensures r == Finished ==> rc.source.pos == rc.base + rc.messageLength
    ensures r == CutShort || r == ReadFailed ==> rc.source.pos < rc.base + rc.messageLength
  {
    hide ReadingOf, TopicShown, AliasesAfter, PartsOf, DataOf, R5.MessageId;
    ghost var s := rc.buffer[..rc.readLen];
    values, known := NO_VALUES, aliases;
    var reading, defined := Read(rc);
    if reading.None? {
      return if defined then Unreadable else Undefined, [], values, known;
    }
    var topic := TopicShown(reading.value, aliases, maximum);
    if topic.None? {
      return Unreadable, [], values, known;
    }
    values, known := reading.value.values, AliasesAfter(reading.value, aliases);
    var id := R5.GetId(rc.buffer, rc.readLen);
    var first := rc.buffer[0];
    assert first == s[0];
    var data := reading.value.data;
    DefinedWhenRead(s);
    r, events := DispatchParts(rc, Event(topic, data, 0, |data| + rc.messageLength - rc.readLen, id, Qos(first), Retain(first), Dup(first)));
  }

  lemma DefinedWhenRead(s: seq<byte>)
    ensures ReadingOf(s).Some? ==> R311.Defined(s)
  {
  }

  method Read(rc: Receiver) returns (reading: Option<Reading>, defined: bool)
    requires 0 < rc.readLen <= rc.buffer.Length
    ensures reading == ReadingOf(rc.buffer[..rc.readLen])
  {
    hide R5.ParsePublish;
    var r := R5.GetPublishPropertyPayload(rc.buffer, rc.readLen);
    defined := !r.Overrun?;
    var s := rc.buffer[..rc.readLen];
    match r
    case Parsed(topic, found, propertyStart, propertyLength, payloadStart, payloadLength) =>
      if payloadLength >= 0 && propertyStart <= |s| && payloadStart + payloadLength <= |s| && At(s, Some(topic)).Some? {
        return Some(Reading(At(s, Some(topic)).value, Resolve(s[propertyStart..], found), s[payloadStart..payloadStart + payloadLength])), true;
      }
      return None, false;
    case _ => return None, defined;
  }

  datatype Message = Message(topic: seq<byte>, dup: nat, qos: nat, retain: nat, id: uint16, properties: Config, payload: seq<byte>)

  /** A message that the builder makes a packet of, with a property block that the reader takes. */
  predicate Buildable(m: Message) {
    && |m.topic| < 0x1_0000 && (m.topic != [] || m.properties.alias != 0) && m.dup < 2 && m.qos < 4 && m.retain < 2
    && |EncodeAll(PropertyList(m.properties))| < 0x1_0000 && BodyLength(m) < 0x1000_0000
  }

  function BodyLength(m: Message): nat {
    |P5.PublishBody(m.topic, m.qos, m.id, m.properties, m.payload)|
  }

  function PacketOf(m: Message): seq<byte> {
    P5.PublishPacket(m.topic, m.dup, m.qos, m.retain, m.id, m.properties, m.payload)
  }

  /** Fixed header, topic, identifier and properties. */
  function HeaderOf(m: Message): nat {
    R5.HeaderLength(m.topic, m.qos, m.properties, |m.payload|)
  }

  lemma PacketShape(m: Message)
    ensures |PacketOf(m)| == HeaderOf(m) + |m.payload| == Receive.PacketLength(BodyLength(m)) && PacketOf(m)[HeaderOf(m)..] == m.payload
    ensures HeaderOf(m) > 0 && PacketOf(m)[0] == FirstByte(TYPE_PUBLISH, m.dup, m.qos, m.retain)
    ensures PacketOf(m)[1..Receive.HeaderLength(BodyLength(m))] == VarLen.Encode(BodyLength(m))
  {
    var body := P5.PublishBody(m.topic, m.qos, m.id, m.properties, m.payload);
    var n := |body| - |m.payload|;
    hide P5.PublishBody, VarLen.Encode, FirstByte;
    P5.BodyAndPayload(m.topic, m.qos, m.id, m.properties, m.payload, n);
    TailOfPacket(FirstByte(TYPE_PUBLISH, m.dup, m.qos, m.retain), body, n);
    hide Packet;
  }

  lemma TailOfPacket(first: byte, body: seq<byte>, k: nat)
    requires k <= |body|
    ensures var h := 1 + |VarLen.Encode(|body|)|;
            && Packet(first, body)[0] == first && Packet(first, body)[1..h] == VarLen.Encode(|body|)
            && Packet(first, body)[h..] == body && Packet(first, body)[h + k..] == body[k..]
  {
    hide VarLen.Encode;
    var h := 1 + |VarLen.Encode(|body|)|;
    assert Packet(first, body)[h..] == body;
  }

  /** When the first k bytes hold the whole header, the reader finds topic, properties and the first part of the payload. */
  lemma ReadingInside(m: Message, k: nat)
    requires Buildable(m) && HeaderOf(m) <= k <= |PacketOf(m)|
    ensures var n := k - HeaderOf(m);
            && n <= |m.payload| && ReadingOf(PacketOf(m)[..k]) == Some(Reading(m.topic, Expected(m.properties), m.payload[..n]))
            && PacketOf(m)[k..] == m.payload[n..]
            && R5.MessageId(PacketOf(m)[..k]) == if m.qos > 0 then m.id else 0
  {
    hide *;
    PacketShape(m);
    var n := k - HeaderOf(m);
    CutInPayload(m, n);
    ParsedInside(m, n);
    ReadingFrom(PacketOf(m)[..k], m.topic, Expected(m.properties), m.payload[..n]);
  }

  lemma CutInPayload(m: Message, n: nat)
    requires n <= |m.payload|
    ensures var k := HeaderOf(m) + n;
            && k <= |PacketOf(m)| && PacketOf(m)[k..] == m.payload[n..]
            && PacketOf(m)[..k] == R5.Received(m.topic, m.dup, m.qos, m.retain, m.id, m.properties, m.payload, n)
  {
    PacketShape(m);
    hide P5.PublishPacket, R5.HeaderLength;
    assert PacketOf(m)[HeaderOf(m) + n..] == PacketOf(m)[HeaderOf(m)..][n..];
  }

  lemma ParsedInside(m: Message, n: nat)
    requires Buildable(m) && n <= |m.payload|
    ensures var s := R5.Received(m.topic, m.dup, m.qos, m.retain, m.id, m.properties, m.payload, n); var r := R5.ParsePublish(s);
            && r.Parsed? && At(s, Some(r.topic)) == Some(m.topic) && r.propertyStart <= |s|
            && Resolve(s[r.propertyStart..], r.found) == Expected(m.properties)
            && r.payloadStart == |s| - n && r.payloadLength == n && s[r.payloadStart..] == m.payload[..n]
            && R5.MessageId(s) == (if m.qos > 0 then m.id else 0)
  {
    assert Buildable(m);
    hide EncodeAll, PropertyList, P5.PublishBody, R5.Received, R5.ParsePublish, R5.MessageId, Resolve, At, Expected, R311.HeaderEnd, R311.Total32;
    R5.ParseInvertsBuild(m.topic, m.dup, m.qos, m.retain, m.id, m.properties, m.payload, n);
  }

  lemma ReadingFrom(s: seq<byte>, topic: seq<byte>, values: Values, part: seq<byte>)
    requires var r := R5.ParsePublish(s);
             && r.Parsed? && At(s, Some(r.topic)) == Some(topic) && r.propertyStart <= |s| && Resolve(s[r.propertyStart..], r.found) == values
             && r.payloadStart == |s| - |part| && r.payloadLength == |part| && s[r.payloadStart..] == part
    ensures ReadingOf(s) == Some(Reading(topic, values, part))
  {
    hide R5.ParsePublish, At, Resolve;
    assert s[|s| - |part|..|s| - |part| + |part|] == s[|s| - |part|..];
  }

  /** A header that is cut makes the payload look too long, if anything can be read at all. */
  lemma HeaderCut(m: Message, k: nat)
    requires BodyLength(m) < 0x1000_0000 && 5 <= k < HeaderOf(m) && k <= |PacketOf(m)|
    ensures ReadingOf(PacketOf(m)[..k]).Some? ==> |ReadingOf(PacketOf(m)[..k]).value.data| + |PacketOf(m)| - k > |m.payload|
  {
    PacketShape(m);
    FieldRead(m, k);
    hide PacketOf, HeaderOf, R311.Total32, R5.ParsePublish;
    TotalOfReading(PacketOf(m)[..k]);
  }

  lemma FieldRead(m: Message, k: nat)
    requires BodyLength(m) < 0x1000_0000 && 5 <= k <= |PacketOf(m)|
    ensures R311.Total32(PacketOf(m)[..k]) == |PacketOf(m)|
  {
    var body := P5.PublishBody(m.topic, m.qos, m.id, m.properties, m.payload);
    VarLen.FitsFourBytes(|body|);
    hide P5.PublishBody, R311.HeaderEnd, R311.TotalLength, FirstByte, VarLen.Encode;
    R311.HeaderOfPacket(FirstByte(TYPE_PUBLISH, m.dup, m.qos, m.retain), body, k);
  }

  lemma TotalOfReading(s: seq<byte>)
    requires R311.Total32(s) >= |s|
    ensures ReadingOf(s).Some? ==> R5.ParsePublish(s).Parsed? && |ReadingOf(s).value.data| == |s| - R5.ParsePublish(s).payloadStart
  {
    hide ReadFrom, R311.HeaderEnd, R311.Total32, VarLen.Decode, Resolve, At;
  }

  /** The topic shown for this message. */
  function Shown(m: Message, aliases: Aliases, maximum: uint16): Option<seq<byte>> {
    TopicShown(Reading(m.topic, Expected(m.properties), []), aliases, maximum)
  }

  /** The events carry exactly this part of the payload, under the right head. */
  predicate Delivers5(events: seq<Event>, shown: seq<byte>, m: Message, part: seq<byte>) {
    && events != [] && DataOf(events) == part
    && PartsOf(events, Event(Some(shown), [], 0, |m.payload|, if m.qos > 0 then m.id else 0, m.qos, m.retain, m.dup))
  }

  /** What is delivered when k bytes were collected first and `end` bytes of the packet have been received. */
  lemma DeliveredAhead(ahead: seq<byte>, m: Message, shown: seq<byte>, k: nat, end: nat, events: seq<Event>)
    requires Buildable(m) && PacketOf(m) <= ahead && 5 <= k <= end <= |PacketOf(m)| && ReadingOf(ahead[..k]).Some?
    requires events != [] && PartsOf(events, HeadOf5(ahead[..k], ReadingOf(ahead[..k]).value, shown, |PacketOf(m)| - k))
    requires DataOf(events) == ReadingOf(ahead[..k]).value.data + ahead[k..end]
    ensures HeaderOf(m) <= k ==> Delivers5(events, shown, m, PacketOf(m)[HeaderOf(m)..end])
    ensures HeaderOf(m) > k ==> events[0].total > |m.payload|
  {
    var packet := PacketOf(m);
    hide PacketOf, HeaderOf, Buildable, ReadingOf, DataOf, PartsOf, HeadOf5, Delivers5;
    assert ahead[..k] == packet[..k] && ahead[k..end] == packet[k..end];
    if HeaderOf(m) <= k {
      DeliveredInside(m, shown, k, end, events);
    } else {
      CutDelivered(m, shown, k, events);
    }
  }

  lemma DeliveredInside(m: Message, shown: seq<byte>, k: nat, end: nat, events: seq<Event>)
    requires Buildable(m) && HeaderOf(m) <= k <= end <= |PacketOf(m)| && k > 0
    requires ReadingOf(PacketOf(m)[..k]).Some? && events != []
    requires PartsOf(events, HeadOf5(PacketOf(m)[..k], ReadingOf(PacketOf(m)[..k]).value, shown, |PacketOf(m)| - k))
    requires DataOf(events) == ReadingOf(PacketOf(m)[..k]).value.data + PacketOf(m)[k..end]
    ensures Delivers5(events, shown, m, PacketOf(m)[HeaderOf(m)..end])
  {
    PacketShape(m);
    ReadingInside(m, k);
    PartInPacket(m, k, end);
    assert m.dup < 2 && m.qos < 4 && m.retain < 2;
    FirstByteFields(TYPE_PUBLISH, m.dup, m.qos, m.retain);
    assert PacketOf(m)[..k][0] == PacketOf(m)[0];
    hide PacketOf, HeaderOf, Buildable, ReadingOf, DataOf, PartsOf, FirstByte, R5.MessageId, Expected, Qos, Dup, Retain, MessageType;
    var head := HeadOf5(PacketOf(m)[..k], ReadingOf(PacketOf(m)[..k]).value, shown, |PacketOf(m)| - k);
    SamePartHead(events, head, Event(Some(shown), [], 0, |m.payload|, if m.qos > 0 then m.id else 0, m.qos, m.retain, m.dup));
  }

  lemma CutDelivered(m: Message, shown: seq<byte>, k: nat, events: seq<Event>)
    requires Buildable(m) && 5 <= k < HeaderOf(m) && k <= |PacketOf(m)|
    requires ReadingOf(PacketOf(m)[..k]).Some? && events != []
    requires PartsOf(events, HeadOf5(PacketOf(m)[..k], ReadingOf(PacketOf(m)[..k]).value, shown, |PacketOf(m)| - k))
    ensures events[0].total > |m.payload|
  {
    assert BodyLength(m) < 0x1000_0000;
    hide PacketOf, HeaderOf, Buildable, ReadingOf, BodyLength, R5.MessageId, Qos, Dup, Retain;
    HeaderCut(m, k);
  }

  lemma PartInPacket(m: Message, k: nat, end: nat)
    requires HeaderOf(m) <= k <= end <= |PacketOf(m)| && PacketOf(m)[HeaderOf(m)..] == m.payload
    ensures m.payload[..k - HeaderOf(m)] + PacketOf(m)[k..end] == PacketOf(m)[HeaderOf(m)..end]
  {
    var packet, h := PacketOf(m), HeaderOf(m);
    hide PacketOf, HeaderOf;
    assert packet[h..end] == packet[h..k] + packet[k..end] && packet[h..k] == packet[h..][..k - h];
  }

  /** A PUBLISH is never lost by resuming: it takes six bytes or more. */
  lemma Arriving(ahead: seq<byte>, m: Message)
    requires Buildable(m) && PacketOf(m) <= ahead
    ensures StartsPacket(ahead, BodyLength(m)) && |PacketOf(m)| == Receive.PacketLength(BodyLength(m)) >= 6
    ensures forall k: nat :: !Lost(ahead, BodyLength(m), k)
  {
    PacketShape(m);
    SomeProperty(m.properties);
    AtLeastFour(m);
    hide PacketOf, Buildable, BodyLength, VarLen.Encode;
    var h := Receive.HeaderLength(BodyLength(m));
    assert ahead[1..h] == PacketOf(m)[1..h];
  }

  /** Its first byte passes the check exactly with legal flags. */
  lemma FirstArriving(ahead: seq<byte>, m: Message)
    requires Buildable(m) && PacketOf(m) <= ahead
    ensures ahead != [] && (ValidHeader(ahead[0]) <==> m.qos < 3 && (m.qos == 0 ==> m.dup == 0))
  {
    PacketShape(m);
    assert m.dup < 2 && m.qos < 4 && m.retain < 2;
    hide PacketOf, Buildable, HeaderOf, BodyLength, FirstByte, ValidHeader;
    PublishFlags(m.dup, m.qos, m.retain);
    HeaderFlags(FirstByte(TYPE_PUBLISH, m.dup, m.qos, m.retain));
    assert ahead[0] == PacketOf(m)[0];
  }

  lemma SomeProperty(p: Config)
    ensures p.alias != 0 ==> EncodeAll(PropertyList(p)) != []
  {
    PropertyListMeansConfig(p);
    var ps := PropertyList(p);
    hide PropertyList;
    if ps != [] {
      assert EncodeAll(ps) == Encode(ps[0]) + EncodeAll(ps[1..]);
    }
  }

  lemma AtLeastFour(m: Message)
    requires m.topic != [] || EncodeAll(PropertyList(m.properties)) != []
    ensures BodyLength(m) >= 4
  {
    hide EncodeAll, PropertyList;
  }

  /** With its header inside the buffer the packet is not refused for its size. */
  lemma NotRefused(rc: Receiver, m: Message)
    requires 10 <= rc.buffer.Length && rc.base <= |rc.source.stream| && Buildable(m) && PacketOf(m) <= rc.Ahead()
    requires StartsPacket(rc.Ahead(), BodyLength(m)) && HeaderOf(m) <= rc.buffer.Length
    ensures !rc.Refused(BodyLength(m))
  {
    var ahead, h := rc.Ahead(), Receive.HeaderLength(BodyLength(m));
    PacketShape(m);
    TopicLengthAt(m);
    FirstByteFields(TYPE_PUBLISH, m.dup, m.qos, m.retain);
    hide PacketOf, StartsPacket, FirstByte, MessageType, Qos, Dup, Retain;
    assert ahead[0] == PacketOf(m)[0];
    assert HeaderOf(m) < |PacketOf(m)| ==> ReadBe16(ahead, h) == |m.topic|;
  }

  lemma TopicLengthAt(m: Message)
    requires |m.topic| < 0x1_0000
    ensures var h := Receive.HeaderLength(BodyLength(m));
            && h + 2 + |m.topic| + (if m.qos > 0 then 2 else 0) < HeaderOf(m) <= |PacketOf(m)|
            && ReadBe16(PacketOf(m), h) == |m.topic|
  {
    var body := P5.PublishBody(m.topic, m.qos, m.id, m.properties, m.payload);
    TopicLengthInBody(m, body);
    TailOfPacket(FirstByte(TYPE_PUBLISH, m.dup, m.qos, m.retain), body, 0);
    hide EncodeAll, PropertyList, VarLen.Encode, FirstByte, P5.PublishBody, Packet;
    var h := Receive.HeaderLength(BodyLength(m));
    ReadInTail(PacketOf(m), h);
  }

  lemma TopicLengthInBody(m: Message, body: seq<byte>)
    requires |m.topic| < 0x1_0000 && body == P5.PublishBody(m.topic, m.qos, m.id, m.properties, m.payload)
    ensures |body| >= 2 && ReadBe16(body, 0) == |m.topic|
  {
    hide EncodeAll, PropertyList, VarLen.Encode;
    assert body[0] == Be16(|m.topic|)[0] && body[1] == Be16(|m.topic|)[1];
  }

  lemma ReadInTail(s: seq<byte>, h: nat)
    requires h + 2 <= |s|
    ensures ReadBe16(s, h) == ReadBe16(s[h..], 0)
  {
  }

  /** The events of a message of which `end` bytes have been received. */
  predicate ReceivedUpTo(end: nat, bufferLength: nat, m: Message, shown: Option<seq<byte>>, events: seq<Event>) {
    && end <= |PacketOf(m)|
    && if HeaderOf(m) <= bufferLength then
         shown.Some? && HeaderOf(m) <= end && Delivers5(events, shown.value, m, PacketOf(m)[HeaderOf(m)..end])
       else events != [] && events[0].total > |m.payload|
  }

  /** What the application gets of a message of which `end` bytes have been received. */
  predicate Judged(m: Message, end: nat, bufferLength: nat, aliases: Aliases, maximum: uint16, d: Delivery, events: seq<Event>, values: Values,
                   known: Aliases)
  {
    var shown := Shown(m, aliases, maximum);
    && (d in {Finished, CutShort} ==> ReceivedUpTo(end, bufferLength, m, shown, events))
    && (HeaderOf(m) <= bufferLength ==>
          if shown.Some? then
            && d in {Finished, CutShort, ReadFailed} && values == Expected(m.properties)
            && known == AliasesAfter(Reading(m.topic, Expected(m.properties), []), aliases)
          else d in {Unreadable, Undefined} && events == [] && known == aliases)
  }

  /**
   The receiving half of mqtt_process_receive for an MQTT 5 PUBLISH. Over any splitting of the stream the application gets
   exactly the topic, the properties and the payload if and only if header and properties fit the buffer; when a read
   times out between two parts it has the part up to where the next packet is looked for.
   */
  method ReceivePublish(rc: Receiver, aliases: Aliases, maximum: uint16, ghost m: Message)
    returns (r: Outcome, d: Delivery, events: seq<Event>, values: Values, known: Aliases)
    requires rc.Valid() && Buildable(m) && PacketOf(m) <= rc.Ahead() && rc.readLen < rc.Goal(BodyLength(m))
    modifies rc, rc.buffer, rc.source
    ensures r != OutOfBuffer && r != ShiftUndefined && (r == TooBig ==> rc.buffer.Length < HeaderOf(m))
    ensures r == InvalidHeader ==> old(rc.readLen) == 0 && (m.qos == 3 || (m.qos == 0 && m.dup == 1))
    ensures r == Complete && old(rc.readLen) == 0 ==> m.qos < 3 && (m.qos == 0 ==> m.dup == 0)
    ensures r in {Nothing, MidTimeout} ==> rc.Valid() && rc.base == old(rc.base) && rc.readLen < rc.Goal(BodyLength(m))
    ensures r == Complete ==>
              && old(rc.base) <= rc.source.pos
              && Judged(m, rc.source.pos - old(rc.base), rc.buffer.Length, aliases, maximum, d, events, values, known)
    ensures r == Complete && d in {Finished, CutShort} ==> rc.Valid() && rc.readLen == 0 && rc.base == rc.source.pos
    ensures r == Complete && d == Finished ==> rc.base == old(rc.base) + |PacketOf(m)|
    ensures r == Complete && d == CutShort ==> rc.base < old(rc.base) + |PacketOf(m)|
  {
    hide PacketOf, HeaderOf, Buildable, Judged, BodyLength;
    d, events, values, known := Unreadable, [], NO_VALUES, aliases;
    r := Collect(rc, m);
    if r == Complete {
      d, events, values, known := DeliverCollected(rc, aliases, maximum, m);
    }
  }

  /** The first half: reception, up to the whole message or a full buffer. */
  method Collect(rc: Receiver, ghost m: Message) returns (r: Outcome)
    requires rc.Valid() && Buildable(m) && PacketOf(m) <= rc.Ahead() && rc.readLen < rc.Goal(BodyLength(m))
    modifies rc, rc.buffer, rc.source
    ensures rc.base == old(rc.base) && r != OutOfBuffer && r != ShiftUndefined && (r == TooBig ==> rc.buffer.Length < HeaderOf(m))
    ensures r == InvalidHeader ==> old(rc.readLen) == 0 && (m.qos == 3 || (m.qos == 0 && m.dup == 1))
    ensures r == Complete && old(rc.readLen) == 0 ==> m.qos < 3 && (m.qos == 0 ==> m.dup == 0)
    ensures r != InvalidHeader ==> rc.Valid()
    ensures r in {Nothing, MidTimeout} ==> rc.readLen < rc.Goal(BodyLength(m))
    ensures r == Complete ==>
              && rc.messageLength == |PacketOf(m)| >= 6
              && rc.readLen == if rc.buffer.Length < rc.messageLength then rc.buffer.Length else rc.messageLength
  {
    FirstArriving(rc.Ahead(), m);
    hide PacketOf, HeaderOf, Buildable, StartsPacket, Lost, Receiver.Refused, BodyLength, ValidHeader;
    ghost var n, k := BodyLength(m), 0;
    Arriving(rc.Ahead(), m);
    if HeaderOf(m) <= rc.buffer.Length {
      NotRefused(rc, m);
    }
    r, k := rc.MessageReceive(n);
  }

  /** The second half, with the message collected. */
  method DeliverCollected(rc: Receiver, aliases: Aliases, maximum: uint16, ghost m: Message)
    returns (d: Delivery, events: seq<Event>, values: Values, known: Aliases)
    requires rc.Valid() && Buildable(m) && PacketOf(m) <= rc.Ahead()
    requires rc.messageLength == |PacketOf(m)| >= 6
    requires rc.readLen == if rc.buffer.Length < rc.messageLength then rc.buffer.Length else rc.messageLength
    modifies rc, rc.buffer, rc.source
    ensures old(rc.base) <= rc.source.pos
    ensures Judged(m, rc.source.pos - old(rc.base), rc.buffer.Length, aliases, maximum, d, events, values, known)
    ensures d in {Finished, CutShort} ==> rc.Valid() && rc.readLen == 0 && rc.base == rc.source.pos
    ensures d == Finished ==> rc.base == old(rc.base) + |PacketOf(m)|
    ensures d == CutShort ==> rc.base < old(rc.base) + |PacketOf(m)|
  {
    hide PacketOf, HeaderOf, Buildable, Judged, Dispatched;
    ghost var k, ahead, base, stream := rc.readLen, rc.source.stream[rc.base..], rc.base, rc.source.stream;
    ghost var s := rc.buffer[..rc.readLen];
    assert s == ahead[..k] && k <= |PacketOf(m)|;
    d, events, values, known := DeliverPublish(rc, aliases, maximum);
    SliceAhead(stream, base, k, rc.source.pos - base);
    JudgedUpTo(ahead, m, aliases, maximum, k, rc.source.pos - base, rc.buffer.Length, d, events, values, known);
    if d in {Finished, CutShort} {
      rc.Reset();
    }
  }

  lemma HeaderInPacket(m: Message)
    ensures HeaderOf(m) <= |PacketOf(m)|
  {
    PacketShape(m);
  }

  lemma JudgedUpTo(ahead: seq<byte>, m: Message, aliases: Aliases, maximum: uint16, k: nat, end: nat, bufferLength: nat, d: Delivery,
                   events: seq<Event>, values: Values, known: Aliases)
    requires Buildable(m) && PacketOf(m) <= ahead && 5 <= k <= end <= |ahead|
    requires d in {Finished, CutShort} ==> end <= |PacketOf(m)|
    requires k == if bufferLength < |PacketOf(m)| then bufferLength else |PacketOf(m)|
    requires Dispatched(ahead[..k], |PacketOf(m)| - k, aliases, maximum, d, events, values, known, ahead[k..end])
    ensures Judged(m, end, bufferLength, aliases, maximum, d, events, values, known)
  {
    CollectedReading(ahead, m, k, aliases, maximum);
    HeaderInPacket(m);
    hide PacketOf, HeaderOf, Buildable, ReadingOf, PartsOf, DataOf, HeadOf5, TopicShown, Shown, Expected, Delivers5, AliasesAfter;
    if d in {Finished, CutShort} {
      DeliveredAhead(ahead, m, TopicShown(ReadingOf(ahead[..k]).value, aliases, maximum).value, k, end, events);
    }
  }

  /** What the bytes collected say when the header is among them. */
  lemma CollectedReading(ahead: seq<byte>, m: Message, k: nat, aliases: Aliases, maximum: uint16)
    requires Buildable(m) && PacketOf(m) <= ahead && k <= |PacketOf(m)|
    ensures HeaderOf(m) <= k ==>
              && ReadingOf(ahead[..k]).Some? && var r := ReadingOf(ahead[..k]).value;
              && r.values == Expected(m.properties) && TopicShown(r, aliases, maximum) == Shown(m, aliases, maximum)
              && AliasesAfter(r, aliases) == AliasesAfter(Reading(m.topic, Expected(m.properties), []), aliases)
  {
    hide PacketOf, HeaderOf, Buildable, ReadingOf, Expected;
    if HeaderOf(m) <= k {
      assert ahead[..k] == PacketOf(m)[..k];
      ReadingInside(m, k);
    }
  }
}
