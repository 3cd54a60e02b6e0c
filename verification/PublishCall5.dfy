/** The publish call over MQTT 5.0: the same storing and sending, of the packet that the other builder stages. */
module PublishCall5 {
  import opened Bytes
  import opened Connection
  import opened P5 = Publish5
  import opened PublishSend
  import opened ItemList
  import opened Outbox
  import opened PublishCall
  import P311 = Publish311
  import Properties5
  import VarLen

  /** A packet that goes out exactly as it should: in fragments, or past a harmless leftover offset. */
  predicate Spared(bufferLength: nat, topic: seq<byte>, data: Option<seq<byte>>, len: int, qos: nat, p: Properties5.Config, fragOffset: uint32) {
    P5.Split(bufferLength, topic, data, qos, p) || LeftoverHarmless(BodyStart(topic, qos, p), data, len, fragOffset)
  }

  /** mqtt_client_enqueue_publish over MQTT 5: a leftover total is cleared by every message that fits, null messages included. */
  method EnqueuePublish(c: Connection, outbox: Outbox, topic: seq<byte>, data: Option<seq<byte>>, len: int, qos: nat, retain: nat,
                        p: Properties5.Config, store: bool, freshId: uint16, now: int) returns (r: Staged)
    requires c.Valid() && outbox.Valid() && freshId != 0 && Proper(data, len) && len >= 0
    modifies c, c.buffer, outbox, outbox.Repr
    ensures c.Valid() && outbox.Valid() && fresh(outbox.Repr - old(outbox.Repr)) && c.dataOffset + c.length <= c.buffer.Length
    ensures !r.StrayStore?
    ensures r.NotBuilt? <==> P5.CannotBuild(c.buffer.Length, topic, data, len, qos, p)
    ensures r.NotBuilt? ==> outbox.items == old(outbox.items)
    ensures r.Ready? ==>
              && r.id == (if qos > 0 then freshId else 0)
              && StagedFor(c, P5.PublishPacket(topic, 0, qos, retain, r.id, p, P311.Payload(data)), BodyStart(topic, qos, p), data, len, old(c.fragOffset))
              && outbox.items == old(outbox.items) + (if qos > 0 || store then [Item(r.id, 3, qos, now, QUEUED, P5.PublishPacket(topic, 0, qos, retain, r.id, p, P311.Payload(data)))]
                                                        else [])
              && c.fragTotal == if qos > 0 || store then 0 else P5.FragTotalAfter(c.buffer.Length, topic, data, qos, p)
  {
    hide StagedFor, P5.PublishPacket, P5.PublishBody, CountedAsSent, BodyStart;
    var id := P5.MsgPublish(c, topic, data, len, qos, retain, p, freshId);
    if c.length == 0 {
      return NotBuilt;
    }
    StagedParts(c, topic, data, len, qos, retain, id, p, old(c.fragOffset));
    hide P5.CannotBuild, P5.Unstaged;
    if qos > 0 || store {
      var rest := [];
      if c.fragTotal != 0 {
        var firstFragment := CountedAsSent(c.length, c.fragOffset);
        rest := data.value[firstFragment..];
      }
      StoreStaged(c, outbox, rest, qos, id, now);
    }
    return Ready(id);
  }

  lemma PrefixJoins(topic: seq<byte>, data: Option<seq<byte>>, qos: nat, retain: nat, id: uint16, p: Properties5.Config, staged: nat, message: seq<byte>)
    requires BodyStart(topic, qos, p) <= staged <= BodyStart(topic, qos, p) + |P311.Payload(data)|
    requires message == PacketPrefix(FirstByte(TYPE_PUBLISH, 0, qos, retain), |P5.PublishBody(topic, qos, id, p, P311.Payload(data))|,
                                     P5.PublishBody(topic, qos, id, p, P311.Payload(data))[..staged - MAX_FIXED_HEADER_SIZE])
    ensures message + P311.Payload(data)[staged - BodyStart(topic, qos, p)..] == P5.PublishPacket(topic, 0, qos, retain, id, p, P311.Payload(data))
    ensures staged == BodyStart(topic, qos, p) + |P311.Payload(data)| ==> message == P5.PublishPacket(topic, 0, qos, retain, id, p, P311.Payload(data))
  {
    hide P5.PublishBody, VarLen.Encode, FirstByte, BodyStart, PacketPrefix, Packet;
    var body, n := P5.PublishBody(topic, qos, id, p, P311.Payload(data)), staged - MAX_FIXED_HEADER_SIZE;
    P5.BodyAndPayload(topic, qos, id, p, P311.Payload(data), n);
    CutJoins(FirstByte(TYPE_PUBLISH, 0, qos, retain), |body|, body, n);
  }

  /** What the MQTT 5 builder stages, read as the send loop will read it. */
  lemma StagedParts(c: Connection, topic: seq<byte>, data: Option<seq<byte>>, len: int, qos: nat, retain: nat, id: uint16, p: Properties5.Config,
                    leftover: uint32)
    requires c.dataOffset + c.length <= c.buffer.Length < 0x8000_0000 && c.length > 0 && Proper(data, len)
    requires BodyStart(topic, qos, p) <= c.buffer.Length && (data.None? ==> len <= 0)
    requires var body := P5.PublishBody(topic, qos, id, p, P311.Payload(data));
             && c.dataOffset == MAX_FIXED_HEADER_SIZE - 1 - |VarLen.Encode(|body|)|
             && c.dataOffset + c.length == (if P5.Split(c.buffer.Length, topic, data, qos, p) then c.buffer.Length else MAX_FIXED_HEADER_SIZE + |body|)
             && c.Message() == PacketPrefix(FirstByte(TYPE_PUBLISH, 0, qos, retain), |body|, body[..c.dataOffset + c.length - MAX_FIXED_HEADER_SIZE])
    requires P5.FragStartAfter(c.buffer.Length, topic, data, qos, p, leftover) < 0x1_0000_0000
    requires c.fragOffset == Wrap32(P5.FragStartAfter(c.buffer.Length, topic, data, qos, p, leftover) - c.dataOffset)
    ensures StagedFor(c, P5.PublishPacket(topic, 0, qos, retain, id, p, P311.Payload(data)), BodyStart(topic, qos, p), data, len, leftover)
    ensures c.Message() + RestToStore(c, BodyStart(topic, qos, p), data) == P5.PublishPacket(topic, 0, qos, retain, id, p, P311.Payload(data))
    ensures P5.Split(c.buffer.Length, topic, data, qos, p) ==> data.Some? && 0 <= CountedAsSent(c.length, c.fragOffset) <= |data.value|
  {
    hide P5.PublishPacket, VarLen.Encode, P5.PublishBody, PacketPrefix, CountedAsSent, P5.Unstaged, BodyStart, FirstByte, Staging, Connection.Message;
    hide LeftAfter;
    PrefixJoins(topic, data, qos, retain, id, p, c.dataOffset + c.length, c.Message());
    StagedAs(c.buffer.Length, c.Message(), c.dataOffset, c.length, c.fragOffset, P5.PublishPacket(topic, 0, qos, retain, id, p, P311.Payload(data)),
             BodyStart(topic, qos, p), data, len, leftover);
  }

  /** The connected publish call over MQTT 5, the outbox limit aside: what is stored, and what is on the wire after every outcome. */
  method Publish(c: Connection, t: Transport, outbox: Outbox, topic: seq<byte>, data: Option<seq<byte>>, len: int, qos: nat, retain: nat,
                 p: Properties5.Config, freshId: uint16, now: int, sentAt: int) returns (r: Result)
    requires c.Valid() && outbox.Valid() && freshId != 0 && Proper(data, len) && len >= 0
    requires qos > 0 ==> First(outbox.items, WithId(freshId)) == |outbox.items|
    modifies c, c.buffer, t, outbox, outbox.Repr
    ensures c.Valid() && outbox.Valid()
    ensures r.Unbuilt? <==> P5.CannotBuild(c.buffer.Length, topic, data, len, qos, p)
    ensures r.Unbuilt? ==> t.wire == old(t.wire)
    ensures !r.OverLimit? && !r.NotConnected? && t.failures == old(t.failures) + if r.Unwritten? then 1 else 0
    ensures r.Published? ==>
              && r.id == (if qos > 0 then freshId else 0) && c.fragTotal == c.fragOffset == 0
              && (t.wire == old(t.wire) + P5.PublishPacket(topic, 0, qos, retain, r.id, p, P311.Payload(data))
                  <==> Spared(c.buffer.Length, topic, data, len, qos, p, old(c.fragOffset)))
    ensures !r.Unbuilt? ==>
              var written := WrittenOf(c.buffer.Length, P5.PublishPacket(topic, 0, qos, retain, if qos > 0 then freshId else 0, p, P311.Payload(data)),
                                       BodyStart(topic, qos, p), data, len, old(c.fragOffset));
              && (r.OutOfPayload? ==> written.None?)
              && (r.Published? ==> written.Some? && t.wire == old(t.wire) + written.value)
              && (r.Unwritten? ==> old(t.wire) <= t.wire && (written.Some? ==> t.wire <= old(t.wire) + written.value))
    ensures outbox.items == if r.Unbuilt? || qos == 0 then old(outbox.items)
                            else old(outbox.items) + [Item(freshId, 3, qos, if r.Published? then sentAt else now, if r.Published? then TRANSMITTED else QUEUED,
                                                           P5.PublishPacket(topic, 0, qos, retain, freshId, p, P311.Payload(data)))]
  {
    hide StagedFor, WrittenOf, P5.PublishPacket, P5.CannotBuild, Outbox.Chained, First, BodyStart, P5.FragTotalAfter;
    var staged := EnqueuePublish(c, outbox, topic, data, len, qos, retain, p, false, freshId, now);
    match staged
    case NotBuilt => return Unbuilt;
    case Ready(id) =>
      ghost var packet := P5.PublishPacket(topic, 0, qos, retain, id, p, P311.Payload(data));
      WritesTheBuilt(c.buffer.Length, packet, BodyStart(topic, qos, p), data, len, old(c.fragOffset));
      r := SendStaged(c, t, outbox, old(outbox.items), packet, BodyStart(topic, qos, p), data, len, qos, id, old(c.fragOffset), sentAt);
      if r == Published(id) {
        SameAfter(old(t.wire), WrittenOf(c.buffer.Length, packet, BodyStart(topic, qos, p), data, len, old(c.fragOffset)).value, packet);
      }
  }
}
