/**
 esp_mqtt_client_publish: stage a PUBLISH, store it when its QoS asks for that, and write it to the
 transport, in fragments when the payload does not fit the buffer.
 */
module PublishCall {
  import opened Bytes
  import opened Connection
  import opened P311 = Publish311
  import opened PublishSend
  import opened ItemList
  import opened Outbox
  import VarLen

  /** End of the packet in the connection buffer, were the buffer unbounded. */
  function PacketEnd(topic: seq<byte>, qos: nat, payload: seq<byte>): nat {
    PayloadStart(topic, qos) + |payload|
  }

  /** The data offset left behind by earlier messages, when the new one fits, makes the send loop stop in time. */
  predicate LeftoverHarmless(start: nat, data: Option<seq<byte>>, len: int, fragOffset: uint32) {
    var end := start + |Payload(data)|;
    fragOffset <= end - len || fragOffset > end + 0x8000_0000
  }

  /**
   What is put on the wire, when no write fails, of a packet whose payload starts at `start` in the buffer; None when the
   send loop strays outside the payload.
   */
  function WrittenOf(bufferLength: nat, built: seq<byte>, start: nat, data: Option<seq<byte>>, len: int, fragOffset: uint32): Option<seq<byte>> {
    var end := start + |Payload(data)|;
    if end > bufferLength || LeftoverHarmless(start, data, len, fragOffset) then Some(built)
    else if data.Some? && len == |data.value| && fragOffset <= end then Some(built + data.value[end - fragOffset..])
    else None
  }

  /** The same for one publish call. */
  function Written(bufferLength: nat, topic: seq<byte>, qos: nat, retain: nat, id: uint16, data: Option<seq<byte>>, len: int,
                   fragTotal: uint32, fragOffset: uint32): Option<seq<byte>>
  {
    WrittenOf(bufferLength, Built(topic, data, qos, retain, id, fragTotal), PayloadStart(topic, qos), data, len, fragOffset)
  }

  lemma WritesTheBuilt(bufferLength: nat, built: seq<byte>, start: nat, data: Option<seq<byte>>, len: int, fragOffset: uint32)
    requires data.Some? ==> len == |data.value|
    ensures var written := WrittenOf(bufferLength, built, start, data, len, fragOffset);
            && (written == Some(built) <==> start + |Payload(data)| > bufferLength || LeftoverHarmless(start, data, len, fragOffset))
            && (written.Some? && written != Some(built) ==> |written.value| > |built|)
  {
  }

  /** Both leftover fragment fields of earlier messages spare this one. */
  predicate Spared(bufferLength: nat, topic: seq<byte>, qos: nat, data: Option<seq<byte>>, len: int, fragTotal: uint32, fragOffset: uint32) {
    && BuiltRight(topic, data, qos, fragTotal)
    && (Split(bufferLength, topic, data, qos) || LeftoverHarmless(PayloadStart(topic, qos), data, len, fragOffset))
  }

  /**
   One publish call writes exactly the packet an unbounded buffer would hold if and only if a null message finds no
   leftover total but its own, and the packet is fragmented or the leftover data offset is harmless.
   */
  lemma WritesExactlyThePacket(bufferLength: nat, topic: seq<byte>, qos: nat, retain: nat, id: uint16, data: Option<seq<byte>>, len: int,
                               fragTotal: uint32, fragOffset: uint32)
    requires data.Some? ==> len == |data.value|
    requires fragTotal == 0 || fragTotal > MAX_FIXED_HEADER_SIZE
    ensures Written(bufferLength, topic, qos, retain, id, data, len, fragTotal, fragOffset)
            == Some(PublishPacket(topic, 0, qos, retain, id, Payload(data)))
            <==> Spared(bufferLength, topic, qos, data, len, fragTotal, fragOffset)
  {
    BuiltIsPacket(topic, data, qos, retain, id, fragTotal);
    WritesTheBuilt(bufferLength, Built(topic, data, qos, retain, id, fragTotal), PayloadStart(topic, qos), data, len, fragOffset);
    hide Built, PublishPacket, BuiltRight, WrittenOf;
  }

  /** What the loop counts as sent after a first message that is the whole packet. */
  lemma CountedWhenWhole(end: nat, dataOffset: nat, len: int, fragOffset: uint32)
    requires dataOffset <= 4 < end < 0x8000_0000 && -0x8000_0000 <= len < end
    ensures var counted := CountedAsSent(end - dataOffset, Wrap32(fragOffset - dataOffset));
            && (counted >= len <==> fragOffset <= end - len || fragOffset > end + 0x8000_0000)
            && (counted == len <==> fragOffset == (end - len) % 0x1_0000_0000)
            && (fragOffset <= end ==> counted == end - fragOffset)
            && (end < fragOffset <= end + 0x8000_0000 ==> counted < 0)
  {
  }

  /** A message cut where the buffer ends, and the payload from there on, make the message that was to be built. */
  lemma MessageJoins(topic: seq<byte>, data: Option<seq<byte>>, qos: nat, retain: nat, id: uint16, fragTotal: uint32, staged: nat, message: seq<byte>)
    requires PayloadStart(topic, qos) <= staged <= PacketEnd(topic, qos, Payload(data))
    requires message == PacketPrefix(FirstByte(TYPE_PUBLISH, 0, qos, retain), Announced(topic, data, qos, fragTotal),
                                     PublishBody(topic, qos, id, Payload(data))[..staged - MAX_FIXED_HEADER_SIZE])
    ensures message + Payload(data)[staged - PayloadStart(topic, qos)..] == Built(topic, data, qos, retain, id, fragTotal)
    ensures staged == PacketEnd(topic, qos, Payload(data)) ==> message == Built(topic, data, qos, retain, id, fragTotal)
  {
    var payload, n := Payload(data), staged - MAX_FIXED_HEADER_SIZE;
    var head := PublishBody(topic, qos, id, []);
    assert PublishBody(topic, qos, id, payload) == head + payload;
    CutJoins(FirstByte(TYPE_PUBLISH, 0, qos, retain), Announced(topic, data, qos, fragTotal), head + payload, n);
    TailOfConcat(head, payload, n);
    hide PublishBody, VarLen.Encode, Announced, FirstByte, PacketPrefix;
  }

  /** The item of this publish, as it is stored before anything is written. */
  function StoredItem(topic: seq<byte>, data: Option<seq<byte>>, qos: nat, retain: nat, id: uint16, fragTotal: uint32, now: int): Item {
    Item(id, TYPE_PUBLISH, qos, now, QUEUED, Built(topic, data, qos, retain, id, fragTotal))
  }

  /** Its fields; its data is the whole packet exactly when the leftover total spares it. */
  lemma StoredIsPacket(topic: seq<byte>, data: Option<seq<byte>>, qos: nat, retain: nat, id: uint16, fragTotal: uint32, now: int)
    requires fragTotal == 0 || fragTotal > 5
    ensures var x := StoredItem(topic, data, qos, retain, id, fragTotal, now);
            && x.id == id as int && x.msgType == 3 && x.qos == qos && x.tick == now && x.pending == QUEUED
            && (x.data == PublishPacket(topic, 0, qos, retain, id, Payload(data)) <==>
                  data.Some? || fragTotal == 0 || fragTotal as int == 7 + |topic| + if qos > 0 then 2 else 0)
  {
    BuiltIsPacket(topic, data, qos, retain, id, fragTotal);
    hide Built, PublishPacket;
  }

  datatype Staged =
    | NotBuilt
    | StrayStore      // the copy into the outbox would read outside the payload
    | Ready(id: uint16)

  /** The arguments of a publish: a length given without data is an `int` of its own. */
  predicate Proper(data: Option<seq<byte>>, len: int) {
    -0x8000_0000 <= len < 0x8000_0000 && (data.Some? ==> len == |data.value|)
  }

  /** Storing a null message copies from outside the payload: a total is left over, and an offset that is not that of its end. */
  predicate StoresAstray(topic: seq<byte>, data: Option<seq<byte>>, len: int, qos: nat, fragTotal: uint32, fragOffset: uint32) {
    data.None? && fragTotal != 0 && fragOffset != (PayloadStart(topic, qos) - len) % 0x1_0000_0000
  }

  /**
   mqtt_client_enqueue_publish: stages the packet and, when its QoS or the caller asks for it, stores all of it.
   The total of a fragmented message is left over exactly when the message was not stored, its offset always.
   */
  method EnqueuePublish(c: Connection, outbox: Outbox, topic: seq<byte>, data: Option<seq<byte>>, len: int, qos: nat, retain: nat,
                        store: bool, freshId: uint16, now: int) returns (r: Staged)
    requires c.Valid() && outbox.Valid() && freshId != 0 && Proper(data, len)
    modifies c, c.buffer, outbox, outbox.Repr
    ensures c.Valid() && outbox.Valid() && fresh(outbox.Repr - old(outbox.Repr)) && c.dataOffset + c.length <= c.buffer.Length
    ensures r.NotBuilt? <==> CannotBuild(c.buffer.Length, topic, data, len, qos, old(c.fragTotal))
    ensures r.StrayStore? <==> !r.NotBuilt? && (qos > 0 || store) && StoresAstray(topic, data, len, qos, old(c.fragTotal), old(c.fragOffset))
    ensures !r.Ready? ==> outbox.items == old(outbox.items)
    ensures r.Ready? ==>
              && r.id == (if qos > 0 then freshId else 0)
              && StagedFor(c, Built(topic, data, qos, retain, r.id, old(c.fragTotal)), PayloadStart(topic, qos), data, len, old(c.fragOffset))
              && outbox.items == old(outbox.items) +
                   if qos > 0 || store then [StoredItem(topic, data, qos, retain, r.id, old(c.fragTotal), now)] else []
    ensures r.Ready? ==>
              && c.fragTotal == (if qos > 0 || store then 0 else FragTotalAfter(c.buffer.Length, topic, data, qos, old(c.fragTotal)))
              && c.fragOffset == OffsetAfter(c.buffer.Length, topic, data, qos, old(c.fragTotal), old(c.fragOffset))
  {
    hide StagedFor, PublishPacket, PublishBody, CountedAsSent, OffsetAfter, Built, StoresAstray, Unstaged, Announced;
    var id := MsgPublish(c, topic, data, len, qos, retain, freshId);
    if c.length == 0 {
      return NotBuilt;
    }
    StagedParts(c, topic, data, len, qos, retain, id, old(c.fragTotal), old(c.fragOffset));
    NullStored(c, topic, data, len, qos, old(c.fragTotal), old(c.fragOffset));
    hide CannotBuild;
    if qos > 0 || store {
      var rest := [];
      if c.fragTotal != 0 {
        var firstFragment := CountedAsSent(c.length, c.fragOffset);
        if data.Some? {
          rest := data.value[firstFragment..];
        } else if firstFragment != len {
          return StrayStore;
        }
      }
      StoreStaged(c, outbox, rest, qos, id, now);
    }
    return Ready(id);
  }

  /** The outbox copy: the staged message and the payload bytes that did not fit with it. */
  method StoreStaged(c: Connection, outbox: Outbox, rest: seq<byte>, qos: nat, id: uint16, now: int)
    requires outbox.Valid() && c.dataOffset + c.length <= c.buffer.Length
    modifies c`fragTotal, outbox, outbox.Repr
    ensures c.fragTotal == 0 && outbox.Valid() && fresh(outbox.Repr - old(outbox.Repr))
    ensures outbox.items == old(outbox.items) + [Item(id, TYPE_PUBLISH, qos, now, QUEUED, c.Message() + rest)]
  {
    var message := c.buffer[..][c.dataOffset..c.dataOffset + c.length];
    var node := outbox.Enqueue(id, TYPE_PUBLISH, qos, message, rest, now);
    c.fragTotal := 0;
  }

  /** What MsgPublish stages, read as the send loop will read it. */
  lemma StagedParts(c: Connection, topic: seq<byte>, data: Option<seq<byte>>, len: int, qos: nat, retain: nat, id: uint16,
                    fragTotal: uint32, leftover: uint32)
    requires c.dataOffset + c.length <= c.buffer.Length < 0x8000_0000 && c.length > 0 && Proper(data, len)
    requires !CannotBuild(c.buffer.Length, topic, data, len, qos, fragTotal)
    requires c.dataOffset == MAX_FIXED_HEADER_SIZE - 1 - |VarLen.Encode(Announced(topic, data, qos, fragTotal))|
    requires c.dataOffset + c.length == (if Split(c.buffer.Length, topic, data, qos) then c.buffer.Length else PacketEnd(topic, qos, Payload(data)))
    requires c.Message() == PacketPrefix(FirstByte(TYPE_PUBLISH, 0, qos, retain), Announced(topic, data, qos, fragTotal),
                                         PublishBody(topic, qos, id, Payload(data))[..c.dataOffset + c.length - MAX_FIXED_HEADER_SIZE])
    requires c.fragOffset == OffsetAfter(c.buffer.Length, topic, data, qos, fragTotal, leftover)
    ensures StagedFor(c, Built(topic, data, qos, retain, id, fragTotal), PayloadStart(topic, qos), data, len, leftover)
    ensures c.Message() + RestToStore(c, PayloadStart(topic, qos), data) == Built(topic, data, qos, retain, id, fragTotal)
    ensures Split(c.buffer.Length, topic, data, qos) ==> data.Some? && 0 <= CountedAsSent(c.length, c.fragOffset) <= |data.value|
  {
    hide LeftAfter, OffsetAfter, Built, VarLen.Encode, PublishBody, PacketPrefix, FirstByte, CountedAsSent, Announced, Staging, Connection.Message;
    hide Wrap32, LeftoverHarmless;
    assert PayloadStart(topic, qos) <= c.buffer.Length && (data.None? ==> len <= 0);
    hide CannotBuild;
    OffsetWraps(c.buffer.Length, topic, data, qos, fragTotal, leftover);
    MessageJoins(topic, data, qos, retain, id, fragTotal, c.dataOffset + c.length, c.Message());
    StagedAs(c.buffer.Length, c.Message(), c.dataOffset, c.length, c.fragOffset, Built(topic, data, qos, retain, id, fragTotal), PayloadStart(topic, qos),
             data, len, leftover);
  }

  /** What the stored copy counts of a null message, staged whole. */
  lemma NullStored(c: Connection, topic: seq<byte>, data: Option<seq<byte>>, len: int, qos: nat, fragTotal: uint32, leftover: uint32)
    requires c.dataOffset + c.length <= c.buffer.Length < 0x8000_0000 && Proper(data, len)
    requires !CannotBuild(c.buffer.Length, topic, data, len, qos, fragTotal)
    requires data.None? ==> c.dataOffset + c.length == PayloadStart(topic, qos)
    requires c.dataOffset == MAX_FIXED_HEADER_SIZE - 1 - |VarLen.Encode(Announced(topic, data, qos, fragTotal))|
    requires c.fragOffset == OffsetAfter(c.buffer.Length, topic, data, qos, fragTotal, leftover)
    ensures StoresAstray(topic, data, len, qos, fragTotal, leftover) <==>
              data.None? && fragTotal != 0 && CountedAsSent(c.length, c.fragOffset) != len
  {
    if data.None? {
      OffsetWraps(c.buffer.Length, topic, data, qos, fragTotal, leftover);
      hide OffsetAfter, Announced, VarLen.Encode;
      CountedWhenWhole(PayloadStart(topic, qos), c.dataOffset, len, leftover);
      hide CountedAsSent;
    }
  }

  /** The part of the payload that is stored behind the staged message. */
  ghost function RestToStore(c: Connection, start: nat, data: Option<seq<byte>>): seq<byte>
    requires c.dataOffset + c.length <= c.buffer.Length < 0x8000_0000
    reads c`dataOffset, c`length, c`fragOffset
  {
    Rest(c.buffer.Length, CountedAsSent(c.length, c.fragOffset), start, data)
  }

  function Rest(bufferLength: nat, counted: int, start: nat, data: Option<seq<byte>>): seq<byte> {
    if start + |Payload(data)| > bufferLength then LeftAfter(data, counted) else []
  }

  /** The connection holds the first message of this packet, whose payload starts at `start`. */
  ghost predicate StagedFor(c: Connection, built: seq<byte>, start: nat, data: Option<seq<byte>>, len: int, leftover: uint32)
    requires c.dataOffset + c.length <= c.buffer.Length < 0x8000_0000
    reads c`dataOffset, c`length, c`fragOffset, c.buffer
  {
    Staging(c.buffer.Length, c.Message(), CountedAsSent(c.length, c.fragOffset), built, start, data, len, leftover)
  }

  predicate Staging(bufferLength: nat, message: seq<byte>, counted: int, built: seq<byte>, start: nat, data: Option<seq<byte>>, len: int,
                    leftover: uint32)
  {
    var end := start + |Payload(data)|;
    if end > bufferLength then
      data.Some? && 0 <= counted <= |data.value| && message + data.value[counted..] == built
    else
      && message == built
      && (counted >= len <==> LeftoverHarmless(start, data, len, leftover))
      && (leftover <= end ==> counted == end - leftover)
      && (!LeftoverHarmless(start, data, len, leftover) && leftover > end ==> counted < 0)
  }

  /** A message whose end is where the buffer or the payload ends, read as the send loop will read it. */
  lemma StagedAs(bufferLength: nat, message: seq<byte>, dataOffset: nat, length: nat, fragOffset: uint32, built: seq<byte>, start: nat,
                 data: Option<seq<byte>>, len: int, leftover: uint32)
    requires dataOffset + length <= bufferLength < 0x8000_0000 && length > 0 && Proper(data, len) && (data.None? ==> len <= 0)
    requires MAX_FIXED_HEADER_SIZE <= start <= bufferLength && dataOffset <= 4
    requires var end := start + |Payload(data)|;
             && dataOffset + length == (if end > bufferLength then bufferLength else end)
             && fragOffset == Wrap32((if end > bufferLength then start else leftover) - dataOffset)
             && message + Payload(data)[dataOffset + length - start..] == built
             && (dataOffset + length == end ==> message == built)
    ensures var counted, end := CountedAsSent(length, fragOffset), start + |Payload(data)|;
            && Staging(bufferLength, message, counted, built, start, data, len, leftover)
            && message + Rest(bufferLength, counted, start, data) == built
            && (end > bufferLength ==> data.Some? && 0 <= counted <= |data.value|)
  {
    var end := start + |Payload(data)|;
    if end <= bufferLength {
      CountedWhenWhole(end, dataOffset, len, leftover);
      hide CountedAsSent, Wrap32, LeftAfter;
      assert message + [] == message;
    } else {
      CountedWhenCut(start, dataOffset, length);
      hide CountedAsSent, Wrap32, LeftoverHarmless;
    }
  }

  /** What the loop counts as sent of a first message that is cut. */
  lemma CountedWhenCut(start: nat, dataOffset: nat, length: nat)
    requires dataOffset <= start <= dataOffset + length < 0x8000_0000
    ensures CountedAsSent(length, Wrap32(start - dataOffset)) == dataOffset + length - start
  {
  }

  datatype Result =
    | Published(id: uint16)
    | OverLimit
    | Unbuilt
    | NotConnected
    | Unwritten
    | OutOfPayload   // a copy from outside the payload

  /** The limit of the outbox is passed; a negative length counts as a huge one. */
  predicate Passes(limit: nat, size: nat, len: int) {
    limit > 0 && (len + size > limit || len + size < 0)
  }

  /** esp_mqtt_client_publish. A payload given without length counts with its string length. */
  method Publish(c: Connection, t: Transport, outbox: Outbox, topic: seq<byte>, data: Option<seq<byte>>, len: int, qos: nat, retain: nat,
                 connected: bool, limit: nat, freshId: uint16, now: int, sentAt: int) returns (r: Result)
    requires c.Valid() && outbox.Valid() && freshId != 0 && Proper(data, len)
    requires qos > 0 ==> First(outbox.items, WithId(freshId)) == |outbox.items|
    modifies c, c.buffer, t, outbox, outbox.Repr
    ensures c.Valid() && outbox.Valid()
    // refused exactly when the outbox would pass its limit, or what cannot be built
    ensures r.OverLimit? <==> qos > 0 && limit > 0 && !(0 <= len + old(outbox.size) <= limit)
    ensures r.Unbuilt? <==> !r.OverLimit? && CannotBuild(c.buffer.Length, topic, data, len, qos, old(c.fragTotal))
    ensures data.Some? && !r.OverLimit? ==>
              var head := 2 + |topic| + if qos == 0 then 0 else 2;
              (r.Unbuilt? <==> topic == [] || 5 + head > c.buffer.Length || head + |data.value| >= 0x1000_0000)
    ensures r.NotConnected? ==> !connected
    ensures r.Published? || r.Unwritten? ==> connected
    ensures t.failures == old(t.failures) + if r.Unwritten? then 1 else 0
    ensures r.Published? ==>
              var written := Written(c.buffer.Length, topic, qos, retain, if qos > 0 then freshId else 0, data, len, old(c.fragTotal), old(c.fragOffset));
              && r.id == (if qos > 0 then freshId else 0)
              && written.Some? && t.wire == old(t.wire) + written.value
              && c.fragTotal == c.fragOffset == 0
    ensures r.Published? ==>
              (t.wire == old(t.wire) + PublishPacket(topic, 0, qos, retain, r.id, Payload(data))
              <==> Spared(c.buffer.Length, topic, qos, data, len, old(c.fragTotal), old(c.fragOffset)))
    ensures r.Unwritten? ==>
              var written := Written(c.buffer.Length, topic, qos, retain, if qos > 0 then freshId else 0, data, len, old(c.fragTotal), old(c.fragOffset));
              old(t.wire) <= t.wire && (written.Some? ==> t.wire <= old(t.wire) + written.value)
    ensures r.NotConnected? || r.Unwritten? ==> c.fragTotal == 0
    ensures r.OverLimit? || r.Unbuilt? || r.NotConnected? ==> t.wire == old(t.wire)
    ensures r.OutOfPayload? ==>
              || (qos > 0 && StoresAstray(topic, data, len, qos, old(c.fragTotal), old(c.fragOffset)))
              || Written(c.buffer.Length, topic, qos, retain, if qos > 0 then freshId else 0, data, len, old(c.fragTotal), old(c.fragOffset)).None?
    ensures !r.OverLimit? && !r.Unbuilt? && qos > 0 && !StoresAstray(topic, data, len, qos, old(c.fragTotal), old(c.fragOffset)) ==>
              var x := StoredItem(topic, data, qos, retain, freshId, old(c.fragTotal), now);
              outbox.items == old(outbox.items) + [if r.Published? then x.(tick := sentAt, pending := TRANSMITTED) else x]
    ensures (r.Published? || r.NotConnected? || r.Unwritten?) && qos > 0 ==> !StoresAstray(topic, data, len, qos, old(c.fragTotal), old(c.fragOffset))
    ensures r.OverLimit? || r.Unbuilt? || qos == 0 ==> outbox.items == old(outbox.items)
  {
    hide StagedFor, WrittenOf, Built, PublishPacket, CannotBuild, Outbox.Chained, First, StoresAstray, Spared, FragTotalAfter, OffsetAfter;
    if qos > 0 && Passes(limit, outbox.size, len) {
      return OverLimit;
    }
    if data.Some? {
      RefusedOnlyFor(c.buffer.Length, topic, data.value, qos, c.fragTotal);
    }
    var staged := EnqueuePublish(c, outbox, topic, data, len, qos, retain, false, freshId, now);
    match staged
    case NotBuilt => return Unbuilt;
    case StrayStore => return OutOfPayload;
    case Ready(id) =>
      if !connected {
        c.fragTotal := 0;
        return NotConnected;
      }
      WritesExactlyThePacket(c.buffer.Length, topic, qos, retain, id, data, len, old(c.fragTotal), old(c.fragOffset));
      r := SendStaged(c, t, outbox, old(outbox.items), Built(topic, data, qos, retain, id, old(c.fragTotal)), PayloadStart(topic, qos), data, len,
                      qos, id, old(c.fragOffset), sentAt);
      if r == Published(id) {
        SameAfter(old(t.wire), Written(c.buffer.Length, topic, qos, retain, id, data, len, old(c.fragTotal), old(c.fragOffset)).value,
                  PublishPacket(topic, 0, qos, retain, id, Payload(data)));
      }
  }

  lemma SameAfter(before: seq<byte>, a: seq<byte>, b: seq<byte>)
    ensures before + a == before + b <==> a == b
  {
    assert (before + a)[|before|..] == a && (before + b)[|before|..] == b;
  }

  /** The connected half of the call, with the first message staged and the item stored. */
  method SendStaged(c: Connection, t: Transport, outbox: Outbox, ghost others: seq<Item>, ghost built: seq<byte>, ghost start: nat,
                    data: Option<seq<byte>>, len: int, qos: nat, id: uint16, ghost leftover: uint32, sentAt: int) returns (r: Result)
    requires c.Valid() && outbox.Valid() && c.dataOffset + c.length <= c.buffer.Length && Proper(data, len)
    requires StagedFor(c, built, start, data, len, leftover)
    requires qos > 0 ==>
               && |outbox.items| == |others| + 1 && outbox.items[..|others|] == others
               && First(others, WithId(id)) == |others| && outbox.items[|others|].id == id
    modifies c, c.buffer, t, outbox`items, outbox.Repr
    ensures c.Valid() && outbox.Valid()
    ensures r == Published(id) || r == Unwritten || r == OutOfPayload
    ensures t.failures == old(t.failures) + if r == Unwritten then 1 else 0
    ensures r != Unwritten ==>
              var written := WrittenOf(c.buffer.Length, built, start, data, len, leftover);
              && (r == OutOfPayload <==> written.None?)
              && (r == Published(id) ==> t.wire == old(t.wire) + written.value)
              && c.fragTotal == c.fragOffset == 0
    ensures r == Unwritten ==>
              var written := WrittenOf(c.buffer.Length, built, start, data, len, leftover);
              old(t.wire) <= t.wire && (written.Some? ==> t.wire <= old(t.wire) + written.value) && c.fragTotal == 0
    ensures outbox.items == if r == Published(id) && qos > 0
                            then others + [old(outbox.items)[|others|].(tick := sentAt, pending := TRANSMITTED)]
                            else old(outbox.items)
  {
    hide StagedFor, WrittenOf, Outbox.Chained, First;
    var sent := SendAll(c, t, built, start, data, len, leftover);
    if sent == WriteFailed {
      c.fragTotal := 0;
      return Unwritten;
    }
    if sent == Stray {
      return OutOfPayload;
    }
    if qos > 0 {
      MarkTransmitted(outbox, others, id, sentAt);
    }
    return Published(id);
  }

  /** The send loop on a staged publish. */
  method SendAll(c: Connection, t: Transport, ghost built: seq<byte>, ghost start: nat, data: Option<seq<byte>>, len: int, ghost leftover: uint32)
    returns (sent: Outcome)
    requires c.Valid() && c.dataOffset + c.length <= c.buffer.Length && Proper(data, len)
    requires StagedFor(c, built, start, data, len, leftover)
    modifies c, c.buffer, t
    ensures c.Valid() && sent != Unfinished && t.failures == old(t.failures) + if sent == WriteFailed then 1 else 0
    ensures var written := WrittenOf(c.buffer.Length, built, start, data, len, leftover);
            && (sent != WriteFailed ==> (sent == Stray <==> written.None?) && c.fragTotal == c.fragOffset == 0)
            && (sent == Sent ==> written.Some? && t.wire == old(t.wire) + written.value)
            && (sent == WriteFailed ==> old(t.wire) <= t.wire && (written.Some? ==> t.wire <= old(t.wire) + written.value))
  {
    SentIsWritten(c, built, start, data, len, leftover);
    hide StagedFor, WrittenOf, CountedAsSent, LeftAfter, RunsAstray;
    ghost var before, left := t.wire, LeftAfter(data, CountedAsSent(c.length, c.fragOffset));
    assert before + c.Message() + left == before + (c.Message() + left);
    sent := SendFragments(c, t, data, len);
  }

  /** The staged message, read by the send loop, gives what is written of the packet. */
  lemma SentIsWritten(c: Connection, built: seq<byte>, start: nat, data: Option<seq<byte>>, len: int, leftover: uint32)
    requires c.dataOffset + c.length <= c.buffer.Length < 0x8000_0000 && Proper(data, len)
    requires StagedFor(c, built, start, data, len, leftover)
    ensures var counted, written := CountedAsSent(c.length, c.fragOffset), WrittenOf(c.buffer.Length, built, start, data, len, leftover);
            && (written.None? <==> RunsAstray(data, len, counted))
            && (written.Some? ==> written.value == c.Message() + LeftAfter(data, counted))
  {
    hide CountedAsSent;
  }

  /** The newest item, just stored behind the others under a fresh identifier, gets its tick and its new state. */
  method MarkTransmitted(outbox: Outbox, ghost others: seq<Item>, id: uint16, sentAt: int)
    requires outbox.Valid() && |outbox.items| == |others| + 1 && outbox.items[..|others|] == others
    requires First(others, WithId(id)) == |others| && outbox.items[|others|].id == id
    modifies outbox`items, outbox.Repr
    ensures outbox.Valid()
    ensures outbox.items == others + [old(outbox.items)[|others|].(tick := sentAt, pending := TRANSMITTED)]
  {
    FirstIsOldest(others, WithId(id));
    assert forall j :: 0 <= j < |others| ==> outbox.items[j] == others[j];
    FirstAt(outbox.items, WithId(id), |others|);
    var ok := outbox.SetTick(id, sentAt);
    FirstAt(outbox.items, WithId(id), |others|);
    ok := outbox.SetPending(id, TRANSMITTED);
  }
}
