/**
 What an enqueued message too large for the buffer leaves behind for the next message: two calls in a row, for
 all messages, and an example that the failing cases do occur.
 */
module Leftovers {
  import opened Bytes
  import opened Connection
  import opened P311 = Publish311
  import opened PublishSend
  import opened PublishCall
  import opened ItemList
  import opened Outbox
  import Acks311
  import VarLen

  datatype Message = Message(topic: seq<byte>, payload: seq<byte>, qos: nat, retain: nat)

  /** Too large for the buffer, and of a length that an `int` holds. */
  predicate Large(bufferLength: nat, m: Message) {
    |m.payload| < 0x8000_0000 && Split(bufferLength, m.topic, Some(m.payload), m.qos)
  }

  /** Where the payload starts, counted from the first byte of the packet. */
  function LeftBehind(m: Message): int {
    PayloadStart(m.topic, m.qos) - MAX_FIXED_HEADER_SIZE + 1 + |VarLen.Encode(|PublishBody(m.topic, m.qos, 0, m.payload)|)|
  }

  /** The fragment fields after such a message has been staged, and stored or not. */
  lemma LeftByLarge(bufferLength: nat, m: Message, fragTotal: uint32, fragOffset: uint32)
    requires Large(bufferLength, m) && !CannotBuild(bufferLength, m.topic, Some(m.payload), |m.payload|, m.qos, fragTotal)
    requires bufferLength < 0x8000_0000
    ensures OffsetAfter(bufferLength, m.topic, Some(m.payload), m.qos, fragTotal, fragOffset) == LeftBehind(m) <= bufferLength
    ensures bufferLength < FragTotalAfter(bufferLength, m.topic, Some(m.payload), m.qos, fragTotal) < 0x1000_0005
  {
    var n := |PublishBody(m.topic, m.qos, 0, m.payload)|;
    VarLen.FitsFourBytes(n);
    hide VarLen.Encode, PublishBody;
  }

  /** The call that leaves the fields behind, the state of the connection before it being arbitrary. */
  method EnqueueLarge(c: Connection, outbox: Outbox, large: Message, store: bool, freshId: uint16, now: int) returns (staged: Staged)
    requires c.Valid() && outbox.Valid() && freshId != 0 && Large(c.buffer.Length, large)
    modifies c, c.buffer, outbox, outbox.Repr
    ensures c.Valid() && outbox.Valid() && fresh(outbox.Repr - old(outbox.Repr)) && !staged.StrayStore?
    ensures c.dataOffset + c.length <= c.buffer.Length
    ensures staged.NotBuilt? <==> CannotBuild(c.buffer.Length, large.topic, Some(large.payload), |large.payload|, large.qos, 0)
    ensures staged.Ready? ==>
              && c.fragOffset == LeftBehind(large) <= c.buffer.Length
              && (if large.qos > 0 || store then c.fragTotal == 0 else c.buffer.Length < c.fragTotal < 0x1000_0005)
              && c.buffer.Length >= 8
              && staged.id == (if large.qos > 0 then freshId else 0)
              && outbox.items == old(outbox.items) + if large.qos > 0 || store then [ItemOf(large, staged.id, now)] else []
  {
    hide StagedFor, Built, OffsetAfter, LeftBehind;
    ghost var fragTotal, fragOffset := c.fragTotal, c.fragOffset;
    assert Announced(large.topic, Some(large.payload), large.qos, fragTotal) == Announced(large.topic, Some(large.payload), large.qos, 0);
    staged := EnqueuePublish(c, outbox, large.topic, Some(large.payload), |large.payload|, large.qos, large.retain, store, freshId, now);
    if staged.Ready? {
      LeftByLarge(c.buffer.Length, large, fragTotal, fragOffset);
      SameStored(large, staged.id, fragTotal, now);
    }
  }

  function ItemOf(m: Message, id: uint16, now: int): Item {
    StoredItem(m.topic, Some(m.payload), m.qos, m.retain, id, 0, now)
  }

  lemma SameStored(m: Message, id: uint16, fragTotal: uint32, now: int)
    ensures StoredItem(m.topic, Some(m.payload), m.qos, m.retain, id, fragTotal, now) == ItemOf(m, id, now)
  {
    assert Announced(m.topic, Some(m.payload), m.qos, fragTotal) == Announced(m.topic, Some(m.payload), m.qos, 0);
    hide Announced, PublishBody, PacketPrefix, FirstByte;
  }

  /** The identifier is still not in use once one other item has been stored. */
  lemma StillFresh(items: seq<Item>, x: Item, id: int)
    requires First(items, WithId(id)) == |items| && x.id != id
    ensures First(items + [x], WithId(id)) == |items| + 1
  {
    FirstIsOldest(items, WithId(id));
    FirstAt(items + [x], WithId(id), |items| + 1);
  }

  /** What such fields do to the next message. */
  lemma NextAfterLarge(bufferLength: nat, topic: seq<byte>, qos: nat, retain: nat, id: uint16, data: Option<seq<byte>>, len: int,
                       fragTotal: uint32, fragOffset: uint32)
    requires Proper(data, len) && bufferLength < 0x8000_0000 && fragOffset <= bufferLength
    requires fragTotal == 0 || fragTotal > bufferLength >= 8
    requires !CannotBuild(bufferLength, topic, data, len, qos, fragTotal)
    ensures Spared(bufferLength, topic, qos, data, len, fragTotal, fragOffset) <==>
              Split(bufferLength, topic, data, qos)
              || ((data.Some? || fragTotal == 0) && fragOffset <= PacketEnd(topic, qos, Payload(data)) - len)
    ensures data.Some? && !Split(bufferLength, topic, data, qos) && fragOffset > PayloadStart(topic, qos) ==>
              Written(bufferLength, topic, qos, retain, id, data, len, fragTotal, fragOffset) ==
              if fragOffset > PacketEnd(topic, qos, data.value) then None
              else Some(PublishPacket(topic, 0, qos, retain, id, data.value) + data.value[PacketEnd(topic, qos, data.value) - fragOffset..])
    ensures data.Some? && fragOffset <= PacketEnd(topic, qos, data.value) ==>
              Written(bufferLength, topic, qos, retain, id, data, len, fragTotal, fragOffset).Some?
  {
    BuiltIsPacket(topic, data, qos, retain, id, fragTotal);
    hide Built, PublishPacket;
  }

  /**
   A large message is enqueued, and then any message is published. It goes out exactly as it should if and only if it
   is fragmented itself, or a null message finds no total and the payload of the large one started no later in its
   packet than this one's in the buffer. Otherwise the end of the payload is sent twice, or the loop strays.
   */
  method PublishAfterEnqueue(c: Connection, t: Transport, outbox: Outbox, large: Message, store: bool, largeId: uint16,
                             topic: seq<byte>, data: Option<seq<byte>>, len: int, qos: nat, retain: nat, id: uint16, now: int, sentAt: int)
    returns (staged: Staged, r: Result)
    requires c.Valid() && outbox.Valid() && Large(c.buffer.Length, large) && Proper(data, len)
    requires largeId != 0 && id != 0 && id != largeId && First(outbox.items, WithId(id)) == |outbox.items|
    modifies c, c.buffer, t, outbox, outbox.Repr
    ensures staged.NotBuilt? <==> CannotBuild(c.buffer.Length, large.topic, Some(large.payload), |large.payload|, large.qos, 0)
    ensures staged.Ready? && r.Published? ==>
              (t.wire == old(t.wire) + PublishPacket(topic, 0, qos, retain, r.id, Payload(data))
               <==> Split(c.buffer.Length, topic, data, qos)
                    || ((data.Some? || large.qos > 0 || store) && LeftBehind(large) <= PacketEnd(topic, qos, Payload(data)) - len))
    ensures staged.Ready? && r.Published? && data.Some? && !Split(c.buffer.Length, topic, data, qos) && LeftBehind(large) > PayloadStart(topic, qos) ==>
              && LeftBehind(large) <= PacketEnd(topic, qos, data.value)
              && t.wire == old(t.wire) + (PublishPacket(topic, 0, qos, retain, r.id, data.value)
                                          + data.value[PacketEnd(topic, qos, data.value) - LeftBehind(large)..])
    ensures staged.Ready? && r.OutOfPayload? && data.Some? ==> LeftBehind(large) > PacketEnd(topic, qos, data.value)
    ensures staged.Ready? && data.Some? && r.Unbuilt? ==> CannotBuild(c.buffer.Length, topic, data, len, qos, 0)
    ensures !staged.StrayStore? && (staged.Ready? ==> !r.OverLimit? && !r.NotConnected?)
    ensures r.Published? ==> staged.Ready? && r.id == if qos > 0 then id else 0
  {
    hide First, Built, PublishPacket, Outbox.Chained;
    staged := EnqueueLarge(c, outbox, large, store, largeId, now);
    r := Unbuilt;
    if staged.Ready? {
      if large.qos > 0 || store {
        StillFresh(old(outbox.items), ItemOf(large, staged.id, now), id);
      } else {
        assert old(outbox.items) + [] == old(outbox.items);
      }
      ghost var total, offset, n := c.fragTotal, c.fragOffset, if qos > 0 then id else 0;
      if !CannotBuild(c.buffer.Length, topic, data, len, qos, total) {
        NextAfterLarge(c.buffer.Length, topic, qos, retain, n, data, len, total, offset);
      }
      assert data.Some? ==> Announced(topic, data, qos, total) == Announced(topic, data, qos, 0);
      hide LeftBehind, StoredItem, Split, Written, Spared, Announced, Unstaged, FragTotalAfter, StoresAstray;
      r := PublishCall.Publish(c, t, outbox, topic, data, len, qos, retain, true, 0, id, now, sentAt);
    }
  }

  /** For one: a buffer of 64 bytes, and two QoS 0 messages of these lengths. The last 12 payload bytes of the second go out twice. */
  method RepeatsTwelveBytes(c: Connection, t: Transport, outbox: Outbox, large: Message, small: Message) returns (r: Result)
    requires c.Valid() && outbox.Valid() && c.buffer.Length == 64 && First(outbox.items, WithId(2)) == |outbox.items|
    requires large.qos == small.qos == 0 && |large.topic| == 20 && |large.payload| == 100 && |small.topic| == 5 && |small.payload| == 20
    modifies c, c.buffer, t, outbox, outbox.Repr
    ensures r.Published? || r.Unwritten?
    ensures r.Published? ==>
              t.wire == old(t.wire) + (PublishPacket(small.topic, 0, 0, small.retain, 0, small.payload) + small.payload[8..])
  {
    hide First, PublishPacket, Outbox.Chained;
    var staged;
    assert LeftBehind(large) == 24;
    assert !CannotBuild(64, large.topic, Some(large.payload), 100, 0, 0) && !CannotBuild(64, small.topic, Some(small.payload), 20, 0, 0);
    hide LeftBehind, CannotBuild;
    staged, r := PublishAfterEnqueue(c, t, outbox, large, false, 1, small.topic, Some(small.payload), 20, 0, small.retain, 2, 0, 0);
  }

  /**
   An acknowledgement after a large message has been enqueued is well formed if and only if that message was stored: an
   unstored QoS 0 message leaves its total for the header of the acknowledgement.
   */
  method AckAfterEnqueue(c: Connection, outbox: Outbox, large: Message, store: bool, largeId: uint16, messageType: nat, qos: nat,
                         id: uint16, freshId: uint16, now: int) returns (staged: Staged)
    requires c.Valid() && outbox.Valid() && Large(c.buffer.Length, large) && largeId != 0 && freshId != 0
    modifies c, c.buffer, outbox, outbox.Repr
    ensures c.Valid() && outbox.Valid() && c.dataOffset + c.length <= c.buffer.Length
    ensures staged.NotBuilt? <==> CannotBuild(c.buffer.Length, large.topic, Some(large.payload), |large.payload|, large.qos, 0)
    ensures !staged.StrayStore?
    ensures staged.Ready? ==>
              && c.length != 0
              && (c.Message() == Acks311.AckPacket(messageType, qos, if id == 0 then freshId else id) <==> large.qos > 0 || store)
  {
    hide Acks311.AckPacket, Acks311.BuiltAck, CannotBuild, LeftBehind, Outbox.Chained;
    staged := EnqueueLarge(c, outbox, large, store, largeId, now);
    if staged.Ready? {
      Acks311.MsgAck(c, messageType, qos, id, freshId);
    }
  }
}
