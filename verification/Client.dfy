/** The client object: the API calls and client-loop actions that touch the outbox, each one a step of the runs of QosRuns. */
module Client {
  import opened Bytes
  import opened Connection
  import opened ItemList
  import opened Outbox
  import opened PublishSend
  import opened QosRuns
  import Acks311
  import PublishCall

  class EspMqttClient {
    const c: Connection
    const t: Transport
    const outbox: Outbox
    const limit: nat              // outbox_limit
    const retransmitTimeout: int  // message_retransmit_timeout
    var connected: bool
    var lastRetransmit: int
    var pendingQos: int           // pending_publish_qos, as the last stored or resent message left it
    ghost var log: seq<Event>

    ghost function View(): State
      reads this`log, outbox
    {
      State(outbox.items, log)
    }

    ghost predicate Valid()
      reads this`log, c, outbox, outbox.Repr
    {
      c.Valid() && outbox.Valid() && Inv(View())
    }

    constructor (bufferSize: nat, limit: nat, retransmitTimeout: int)
      requires MAX_FIXED_HEADER_SIZE <= bufferSize < 0x8000_0000
      ensures Valid() && View() == START && !connected
    {
      c := new Connection(bufferSize);
      t := new Transport();
      outbox := new Outbox();
      this.limit, this.retransmitTimeout := limit, retransmitTimeout;
      connected, lastRetransmit, pendingQos, log := false, 0, 0, [];
    }

    /** esp_mqtt_abort_connection, and the reconnection later: the outbox is left as it is. */
    method AbortConnection()
      requires Valid()
      modifies this`connected
      ensures Valid() && !connected && View() == After(old(View()), Reconnect)
    {
      connected := false;
    }

    /** The step that a publish call with this outcome makes. */
    static function PublishStep(topic: seq<byte>, data: Option<seq<byte>>, qos: nat, retain: nat, id: uint16, fragTotal: uint32, now: int,
                                sentAt: int, r: PublishCall.Result): Step
    {
      if qos == 0 || r.OverLimit? || r.Unbuilt? then Reconnect
      else QosRuns.Publish(PublishCall.StoredItem(topic, data, qos, retain, id, fragTotal, now), r.Published? || r.Unwritten?, r.Published?, sentAt)
    }

    /** esp_mqtt_client_publish */
    method Publish(topic: seq<byte>, data: Option<seq<byte>>, len: int, qos: nat, retain: nat, freshId: uint16, now: int, sentAt: int)
      returns (r: PublishCall.Result)
      requires Valid() && freshId != 0 && (qos > 0 ==> Fresh(outbox.items, freshId)) && PublishCall.Proper(data, len)
      modifies this`connected, this`pendingQos, this`log, c, c.buffer, t, outbox, outbox.Repr
      ensures !r.OutOfPayload? ==>
                && Valid()
                && View() == After(old(View()), PublishStep(topic, data, qos, retain, freshId, old(c.fragTotal), now, sentAt, r))
      ensures WroteWhenPublished(r, topic, data, len, qos, retain, old(c.fragTotal), old(c.fragOffset), old(t.wire))
      ensures r.OverLimit? || r.Unbuilt? || r.NotConnected? ==> t.wire == old(t.wire)
      ensures connected == (old(connected) && !r.Unwritten?) && t.failures == old(t.failures) + if r.Unwritten? then 1 else 0
      ensures r.OverLimit? <==> qos > 0 && limit > 0 && !(0 <= len + old(outbox.size) <= limit)
      ensures pendingQos == if r.OverLimit? || r.Unbuilt? || qos == 0 then old(pendingQos) else qos
    {
      hide Inv, After, PublishStep, Fresh, WroteWhenPublished, Outbox.Chained, PublishCall.Proper;
      r := PublishLogged(topic, data, len, qos, retain, freshId, now, sentAt);
      if qos > 0 && !r.OverLimit? && !r.Unbuilt? {
        pendingQos := qos;
      }
      if r.Unwritten? {
        connected := false;
      }
    }

    /** The call and its part of the log. */
    method PublishLogged(topic: seq<byte>, data: Option<seq<byte>>, len: int, qos: nat, retain: nat, freshId: uint16, now: int, sentAt: int)
      returns (r: PublishCall.Result)
      requires Valid() && freshId != 0 && (qos > 0 ==> Fresh(outbox.items, freshId)) && PublishCall.Proper(data, len)
      modifies this`log, c, c.buffer, t, outbox, outbox.Repr
      ensures !r.OutOfPayload? ==>
                && Valid()
                && View() == After(old(View()), PublishStep(topic, data, qos, retain, freshId, old(c.fragTotal), now, sentAt, r))
      ensures WroteWhenPublished(r, topic, data, len, qos, retain, old(c.fragTotal), old(c.fragOffset), old(t.wire))
      ensures r.OverLimit? || r.Unbuilt? || r.NotConnected? ==> t.wire == old(t.wire)
      ensures (r.Unwritten? ==> connected) && t.failures == old(t.failures) + if r.Unwritten? then 1 else 0
      ensures r.OverLimit? <==> qos > 0 && limit > 0 && !(0 <= len + old(outbox.size) <= limit)
    {
      ghost var before, fragTotal := View(), c.fragTotal;
      hide Inv, After, PublishStep, Fresh, PublishCall.StoredItem, WroteWhenPublished, Outbox.Chained, PublishCall.Proper;
      r := PublishAndStore(topic, data, len, qos, retain, freshId, now, sentAt);
      if !r.OutOfPayload? {
        ghost var step := PublishStep(topic, data, qos, retain, freshId, fragTotal, now, sentAt, r);
        PublishIsStep(before, outbox.items, topic, data, qos, retain, freshId, fragTotal, now, sentAt, r);
        log := After(before, step).log;
      }
    }

    /** A published message is on the wire as PublishCall says, and exactly as it should be when the leftover fields spare it. */
    ghost predicate WroteWhenPublished(r: PublishCall.Result, topic: seq<byte>, data: Option<seq<byte>>, len: int, qos: nat, retain: nat,
                                       fragTotal: uint32, fragOffset: uint32, before: seq<byte>)
      reads t
    {
      r.Published? ==>
        var written := PublishCall.Written(c.buffer.Length, topic, qos, retain, r.id, data, len, fragTotal, fragOffset);
        && written.Some? && t.wire == before + written.value
        && (t.wire == before + PublishCall.P311.PublishPacket(topic, 0, qos, retain, r.id, PublishCall.P311.Payload(data))
            <==> PublishCall.Spared(c.buffer.Length, topic, qos, data, len, fragTotal, fragOffset))
    }

    /** The call without its bookkeeping, as far as the outbox is concerned. */
    method PublishAndStore(topic: seq<byte>, data: Option<seq<byte>>, len: int, qos: nat, retain: nat, freshId: uint16, now: int, sentAt: int)
      returns (r: PublishCall.Result)
      requires c.Valid() && outbox.Valid() && freshId != 0 && (qos > 0 ==> Fresh(outbox.items, freshId)) && PublishCall.Proper(data, len)
      modifies c, c.buffer, t, outbox, outbox.Repr
      ensures c.Valid() && outbox.Valid()
      ensures WroteWhenPublished(r, topic, data, len, qos, retain, old(c.fragTotal), old(c.fragOffset), old(t.wire))
      ensures r.OverLimit? || r.Unbuilt? || r.NotConnected? ==> t.wire == old(t.wire)
      ensures !r.OutOfPayload? ==>
                var x := PublishCall.StoredItem(topic, data, qos, retain, freshId, old(c.fragTotal), now);
                outbox.items == if qos == 0 || r.OverLimit? || r.Unbuilt? then old(outbox.items)
                                else old(outbox.items) + [if r.Published? then x.(tick := sentAt, pending := TRANSMITTED) else x]
      ensures (r.Unwritten? ==> connected) && t.failures == old(t.failures) + if r.Unwritten? then 1 else 0
      ensures r.OverLimit? <==> qos > 0 && limit > 0 && !(0 <= len + old(outbox.size) <= limit)
    {
      if qos > 0 {
        NotFound(outbox.items, freshId);
      }
      hide PublishCall.StoredItem, PublishCall.Written, PublishCall.Spared, PublishCall.StoresAstray, PublishCall.P311.CannotBuild;
      hide PublishCall.P311.PublishPacket, PublishCall.Passes, Fresh, Outbox.Chained;
      r := PublishCall.Publish(c, t, outbox, topic, data, len, qos, retain, connected, limit, freshId, now, sentAt);
    }

    /** esp_mqtt_client_enqueue: stored for the client loop to send, whatever the connection state. */
    method Enqueue(topic: seq<byte>, data: Option<seq<byte>>, len: int, qos: nat, retain: nat, store: bool, freshId: uint16, now: int)
      returns (r: PublishCall.Staged)
      requires Valid() && freshId != 0 && (qos > 0 ==> Fresh(outbox.items, freshId)) && PublishCall.Proper(data, len)
      modifies this`pendingQos, this`log, c, c.buffer, outbox, outbox.Repr
      ensures Valid()
      ensures View() == if r.Ready? && (qos > 0 || store)
                        then After(old(View()), QosRuns.Enqueue(PublishCall.StoredItem(topic, data, qos, retain, if qos > 0 then freshId else 0, old(c.fragTotal), now)))
                        else old(View())
      ensures pendingQos == if r.NotBuilt? || (qos == 0 && !store) then old(pendingQos) else qos
      ensures limit > 0 && !(0 <= len + old(outbox.size) <= limit) ==> r.NotBuilt?
      ensures topic != [] && data.Some? && 9 + |topic| <= c.buffer.Length && 4 + |topic| + |data.value| < 0x1000_0000
              && (limit == 0 || len + old(outbox.size) <= limit) ==>
                r.Ready?
    {
      ghost var before := View();
      EnqueueIsStep(before, topic, data, qos, retain, if qos > 0 then freshId else 0, c.fragTotal, now);
      hide PublishCall.StoredItem, PublishCall.StagedFor, PublishCall.StoresAstray, PublishCall.P311.CannotBuild, PublishCall.P311.OffsetAfter;
      hide PublishCall.P311.FragTotalAfter, Inv, Fresh, After, Outbox.Chained;
      if PublishCall.Passes(limit, outbox.size, len) {
        return PublishCall.NotBuilt;
      }
      if data.Some? {
        PublishCall.P311.RefusedOnlyFor(c.buffer.Length, topic, data.value, qos, c.fragTotal);
        NeverAstray(topic, data, len, qos, c.fragTotal, c.fragOffset);
      }
      r := PublishCall.EnqueuePublish(c, outbox, topic, data, len, qos, retain, store, freshId, now);
      if !r.NotBuilt? && (qos > 0 || store) {
        pendingQos := qos;
      }
      assert before.items + [] == before.items;
    }

    /**
     A subscription or its end: stored, counted as transmitted at once, and written. `packet` is what the builder made.
     A subscription, but not its end, is refused when the outbox is over its limit.
     */
    method Subscribe(packet: seq<byte>, id: uint16, now: int) returns (ok: bool)
      requires Valid() && packet != [] && id != 0 && Fresh(outbox.items, id)
      requires MessageType(packet[0]) == TYPE_SUBSCRIBE || MessageType(packet[0]) == TYPE_UNSUBSCRIBE
      modifies this`log, t, outbox, outbox.Repr
      ensures Valid()
      ensures var refused := !connected || (MessageType(packet[0]) == TYPE_SUBSCRIBE && limit > 0 && old(outbox.size) > limit);
              if refused then View() == old(View()) && t.wire == old(t.wire) && !ok && t.failures == old(t.failures)
              else
                && t.failures == old(t.failures) + (if ok then 0 else 1)
                && View() == After(old(View()), QosRuns.Subscribe(Item(id, MessageType(packet[0]), pendingQos, now, QUEUED, packet)))
                && PacketWritten(old(t.wire), t.wire, packet, ok)
    {
      if MessageType(packet[0]) == TYPE_SUBSCRIBE && limit > 0 && outbox.size > limit {
        return false;
      }
      if !connected {
        return false;
      }
      NewSubscription(outbox.items, packet, id, pendingQos, now);
      hide Inv, Fresh, New, After, MessageType, Outbox.Chained;
      SubscribeLogged(packet, id, now);
      ok := WriteAll(t, packet);
    }

    method SubscribeLogged(packet: seq<byte>, id: uint16, now: int)
      requires Valid() && packet != [] && id != 0 && Fresh(outbox.items, id)
      requires New(outbox.items, Item(id, MessageType(packet[0]), pendingQos, now, QUEUED, packet))
      modifies this`log, outbox, outbox.Repr
      ensures Valid() && View() == After(old(View()), QosRuns.Subscribe(Item(id, MessageType(packet[0]), pendingQos, now, QUEUED, packet)))
    {
      ghost var before := View();
      ghost var x := Item(id, MessageType(packet[0]), pendingQos, now, QUEUED, packet);
      hide Inv, Fresh, New, After, MessageType, Outbox.Chained;
      SubscribeIsStep(before, x);
      ghost var after := After(before, QosRuns.Subscribe(x));
      StoreTransmitted(packet, id, now);
      log := after.log;
      assert View() == after;
      hide Outbox.Valid;
    }

    /** mqtt_enqueue followed by outbox_set_pending. */
    method StoreTransmitted(packet: seq<byte>, id: uint16, now: int)
      requires outbox.Valid() && packet != [] && Fresh(outbox.items, id)
      modifies outbox, outbox.Repr
      ensures outbox.Valid() && fresh(outbox.Repr - old(outbox.Repr))
      ensures outbox.items == old(outbox.items) + [Item(id, MessageType(packet[0]), pendingQos, now, TRANSMITTED, packet)]
    {
      ghost var x := Item(id, MessageType(packet[0]), pendingQos, now, QUEUED, packet);
      NewIsLast(outbox.items, x);
      assert packet + [] == packet;
      hide Fresh, First, MessageType, Outbox.Chained;
      var node := outbox.Enqueue(id, MessageType(packet[0]), pendingQos, packet, [], now);
      var found := outbox.SetPending(id, TRANSMITTED);
    }

    /** PUBACK, PUBCOMP, SUBACK and UNSUBACK remove the message they answer. */
    method ReceiveAck(id: uint16, initiator: int) returns (found: bool)
      requires Valid()
      modifies this`log, outbox, outbox.Repr
      ensures Valid() && View() == After(old(View()), Acknowledged(id, initiator))
      ensures found <==> exists i :: 0 <= i < |old(outbox.items)| && old(outbox.items)[i].id == id && old(outbox.items)[i].msgType % 256 == initiator
    {
      ghost var before := View();
      AckIsStep(before, id, initiator);
      FirstIsOldest(outbox.items, WithIdAndType(id, initiator));
      hide Inv, After, RemoveFirst, Outbox.Chained;
      found := outbox.Delete(id, initiator);
      log := After(before, Acknowledged(id, initiator)).log;
    }

    /** A PUBREC moves its message on and is answered with PUBREL, whether or not the message is known. */
    method ReceivePubrec(id: uint16, freshId: uint16) returns (ok: bool)
      requires Valid() && freshId != 0
      modifies this`log, c, c.buffer, t, outbox, outbox.Repr
      ensures Valid() && View() == if ok then After(old(View()), Pubrec(id)) else old(View())
      ensures !ok <==> c.buffer.Length < 7 || old(c.fragTotal) >= 0x1000_0005
      ensures !ok ==> t.wire == old(t.wire)
      ensures ok ==> PubrelWritten(old(t.wire), t.wire, id, freshId, old(c.fragTotal), t.failures == old(t.failures))
      ensures t.failures <= old(t.failures) + 1 && (!ok ==> t.failures == old(t.failures))
      ensures ok && t.failures == old(t.failures) && old(c.fragTotal) == 0 ==>
                var n := if id == 0 then freshId else id; t.wire == old(t.wire) + [0x62, 2, n / 0x100, n % 0x100]
    {
      hide Inv, After, Outbox.Chained, Acks311.AckPacket, Acks311.BuiltAck;
      Acks311.AckBytes(if id == 0 then freshId else id);
      Acks311.MsgAck(c, TYPE_PUBREL, 1, id, freshId);
      if c.length == 0 {
        return false;
      }
      Acknowledge(id);
      var written := WriteMessage(c, t);
      return true;
    }

    /** The state change of a PUBREC, and its part of the log. */
    method Acknowledge(id: uint16)
      requires outbox.Valid() && Inv(View())
      modifies this`log, outbox, outbox.Repr
      ensures outbox.Valid() && Inv(View()) && View() == After(old(View()), Pubrec(id))
    {
      ghost var before := View();
      PubrecIsStep(before, id);
      hide Inv, After, First, Outbox.Chained;
      var found := outbox.SetPending(id, ACKNOWLEDGED);
      log := After(before, Pubrec(id)).log;
    }

    /** mqtt_resend_queued: writes a stored packet, marked as a duplicate first if it is a publish sent before. */
    method ResendItem(node: Node, ghost k: nat) returns (ok: bool)
      requires outbox.Valid() && k < |outbox.nodes| && outbox.nodes[k] == node && node.item.data != []
      modifies this`pendingQos, this`connected, t, outbox`items, node`item
      ensures outbox.Valid() && outbox.nodes == old(outbox.nodes)
      ensures var x := Resent(old(outbox.items)[k]);
              && outbox.items == old(outbox.items)[k := x] && node.item == x && pendingQos == x.qos
              && old(t.wire) <= t.wire && (if ok then t.wire == old(t.wire) + x.data else t.wire < old(t.wire) + x.data)
      ensures connected == (ok && old(connected)) && t.failures == old(t.failures) + if ok then 0 else 1
    {
      hide Resent, Outbox.Chained;
      pendingQos := node.item.qos;
      MarkIfSent(node, k);
      ok := WriteAll(t, node.item.data);
      if !ok {
        connected := false;
      }
    }

    method MarkIfSent(node: Node, ghost k: nat)
      requires outbox.Valid() && k < |outbox.nodes| && outbox.nodes[k] == node && node.item.data != [] && pendingQos == node.item.qos
      modifies outbox`items, node`item
      ensures outbox.Valid() && k < |old(outbox.items)|
      ensures outbox.items == old(outbox.items)[k := Resent(old(outbox.items)[k])] && node.item == Resent(old(outbox.items)[k])
      ensures node.item.qos == old(node.item.qos)
    {
      outbox.NodeAt(k);
      if node.item.msgType == TYPE_PUBLISH && pendingQos > 0 && node.item.pending == TRANSMITTED {
        outbox.MarkDup(node, k);
        outbox.NodeAt(k);
      } else {
        assert outbox.items[k := outbox.items[k]] == outbox.items;
      }
    }

    /** The oldest QUEUED item, found before, is written and has its state changed. */
    method ResendOldestQueued(node: Node, ghost i: nat) returns (ok: bool)
      requires outbox.Valid() && c.Valid() && Inv(View())
      requires i == First(outbox.items, InState(QUEUED)) && i < |outbox.items| && i < |outbox.nodes| && node == outbox.nodes[i]
      modifies this`pendingQos, this`connected, this`log, t, outbox, outbox.Repr
      ensures outbox.Valid() && Inv(View()) && View() == After(old(View()), ResendQueued(ok))
      ensures var data := old(outbox.items)[i].data;
              PacketWritten(old(t.wire), t.wire, data, ok)
      ensures t.failures == old(t.failures) + if ok then 0 else 1
    {
      hide Inv, After, First, Settled, Resent, WroteItem, Outbox.Chained;
      ghost var before := View();
      ResendIsStep(before);
      ok := ResendAndSettle(node, i);
      log := After(before, ResendQueued(ok)).log;
    }

    method ResendAndSettle(node: Node, ghost i: nat) returns (ok: bool)
      requires outbox.Valid() && i < |outbox.nodes| && outbox.nodes[i] == node
      requires outbox.items[i].data != [] && Resent(outbox.items[i]) == outbox.items[i]
      modifies this`pendingQos, this`connected, t, outbox, outbox.Repr
      ensures outbox.Valid() && outbox.items == if ok then Settled(old(outbox.items), i) else old(outbox.items)
      ensures var x := old(outbox.items)[i];
              if ok then t.wire == old(t.wire) + x.data else old(t.wire) <= t.wire < old(t.wire) + x.data
      ensures t.failures == old(t.failures) + if ok then 0 else 1
    {
      ghost var items := outbox.items;
      outbox.NodeAt(i);
      assert items[i := items[i]] == items;
      hide Settled, Resent, Outbox.Chained;
      ok := ResendItem(node, i);
      assert outbox.items == items;
      if ok {
        SettleResent(node, i);
      }
    }

    /** After a successful resend: a QoS 0 publish is done, everything else with QoS > 0 counts as transmitted. */
    method SettleResent(node: Node, ghost i: nat)
      requires outbox.Valid() && i < |outbox.nodes| && outbox.nodes[i] == node && pendingQos == node.item.qos
      modifies outbox, outbox.Repr
      ensures outbox.Valid() && outbox.items == Settled(old(outbox.items), i)
    {
      outbox.NodeAt(i);
      hide RemoveAt, First;
      var id, isPublish := node.item.id, node.item.msgType == TYPE_PUBLISH;
      if isPublish && pendingQos == 0 {
        ghost var nodes := outbox.nodes;
        var found := outbox.DeleteItem(node);
        assert node in nodes;
      }
      if pendingQos > 0 {
        var found := outbox.SetPending(id, TRANSMITTED);
      }
    }

    /** The oldest TRANSMITTED item is written again when it has waited longer than the timeout. */
    method RetransmitOldest(now: int) returns (ok: bool)
      requires Valid()
      modifies this`pendingQos, this`connected, this`log, t, outbox, outbox.Repr
      ensures Valid() && View() == After(old(View()), Retransmit(now, retransmitTimeout))
      ensures RetransmissionWritten(old(View()), View(), old(t.wire), t.wire, ok)
      ensures t.failures == old(t.failures) + if ok then 0 else 1
    {
      hide OldestIn, NoneIn;
      ghost var before, i := View(), First(outbox.items, InState(TRANSMITTED));
      ok := true;
      var node := outbox.Dequeue(TRANSMITTED);
      RetransmitIsStep(before, now, retransmitTimeout);
      hide Inv, After, First, Resent, Outbox.Chained, WroteItem;
      if node != null && now - node.item.tick > retransmitTimeout {
        ok := ResendItem(node, i);
        log := After(before, Retransmit(now, retransmitTimeout)).log;
      }
    }

    /** mqtt_resend_pubrel for the oldest ACKNOWLEDGED item, when it has waited longer than the timeout. */
    method RetransmitOldestPubrel(now: int, freshId: uint16) returns (built: bool, written: bool)
      requires Valid() && freshId != 0
      modifies this`connected, this`pendingQos, this`log, c, c.buffer, t
      ensures Valid() && View() == if built then After(old(View()), RetransmitPubrel(now, retransmitTimeout)) else old(View())
      ensures !built ==> c.buffer.Length < 7 || c.fragTotal >= 0x1000_0005
      ensures c.fragTotal == old(c.fragTotal) && t.failures == old(t.failures) + if written then 0 else 1
      ensures PubrelSent(old(log), log, old(t.wire), t.wire, freshId, c.fragTotal, written)
    {
      hide OldestIn, NoneIn;
      ghost var before := View();
      var node := outbox.Dequeue(ACKNOWLEDGED);
      PubrelIsStep(before, now, retransmitTimeout);
      hide Inv, After, PubrelSent, Outbox.Chained;
      built, written := true, true;
      NothingSent(log, t.wire, freshId, c.fragTotal);
      if node != null && now - node.item.tick > retransmitTimeout {
        pendingQos := node.item.qos;
        built, written := SendPubrel(node.item.id, freshId);
      }
    }

    /** mqtt_resend_pubrel, and its part of the log. */
    method SendPubrel(id: int, freshId: uint16) returns (built: bool, written: bool)
      requires c.Valid() && freshId != 0
      modifies this`connected, this`log, c, c.buffer, t
      ensures c.Valid() && c.fragTotal == old(c.fragTotal) && t.failures == old(t.failures) + if written then 0 else 1
      ensures !built <==> c.buffer.Length < 7 || c.fragTotal >= 0x1000_0005
      ensures log == old(log) + if built then [WrotePubrel(id, true)] else []
      ensures PubrelSent(old(log), log, old(t.wire), t.wire, freshId, c.fragTotal, written)
    {
      hide PubrelWritten;
      built, written := WritePubrel(id % 0x1_0000, freshId);
      if built {
        log := log + [WrotePubrel(id, true)];
        assert log[|log| - 1] == WrotePubrel(id, true);
      }
    }

    method WritePubrel(id: uint16, freshId: uint16) returns (built: bool, written: bool)
      requires c.Valid() && freshId != 0
      modifies this`connected, c, c.buffer, t
      ensures c.Valid() && c.fragTotal == old(c.fragTotal) && t.failures == old(t.failures) + if written then 0 else 1
      ensures !built <==> c.buffer.Length < 7 || c.fragTotal >= 0x1000_0005
      ensures !built ==> t.wire == old(t.wire) && written
      ensures built ==> PubrelWritten(old(t.wire), t.wire, id, freshId, c.fragTotal, written)
      ensures built && written && c.fragTotal == 0 ==>
                var n := if id == 0 then freshId else id; t.wire == old(t.wire) + [0x62, 2, n / 0x100, n % 0x100]
      ensures connected == (old(connected) && written)
    {
      hide Acks311.AckPacket, Acks311.BuiltAck;
      Acks311.AckBytes(if id == 0 then freshId else id);
      Acks311.MsgAck(c, TYPE_PUBREL, 1, id, freshId);
      if c.length == 0 {
        return false, true;
      }
      written := WriteMessage(c, t);
      if !written {
        connected := false;
      }
      built := true;
    }

    /**
     The part of the connected client loop that sends: the oldest unsent item, or else, at intervals, the oldest
     transmitted and the oldest acknowledged one.
     */
    method ServiceOutbox(now: int, freshId: uint16) returns (ok: bool, built: bool, written: bool, ghost between: State, ghost wire: seq<byte>)
      requires Valid() && freshId != 0
      modifies this`pendingQos, this`connected, this`lastRetransmit, this`log, c, c.buffer, t, outbox, outbox.Repr
      ensures Valid()
      ensures var due := (if old(lastRetransmit) == 0 then now else old(lastRetransmit)) + retransmitTimeout <= now;
              Serviced(old(View()), between, View(), old(t.wire), wire, t.wire, if due then Some(now) else None, retransmitTimeout, freshId, c.fragTotal,
                       ok, built, written)
      ensures !built ==> c.buffer.Length < 7 || c.fragTotal >= 0x1000_0005
      ensures t.failures == old(t.failures) + (if ok then 0 else 1) + (if written then 0 else 1)
    {
      hide OldestIn, NoneIn;
      assert |outbox.items| == |outbox.nodes|;
      hide Inv, After, RetransmissionWritten, PubrelSent, PacketWritten, Outbox.Chained;
      ok, built, written, between, wire := true, true, true, View(), t.wire;
      if lastRetransmit == 0 {
        lastRetransmit := now;
      }
      var node := outbox.Dequeue(QUEUED);
      if node != null {
        ok := ResendOldestQueued(node, First(outbox.items, InState(QUEUED)));
      } else if lastRetransmit + retransmitTimeout <= now {
        lastRetransmit := now;
        ok, built, written, between, wire := RetransmitBoth(now, freshId);
      }
    }

    method RetransmitBoth(now: int, freshId: uint16) returns (ok: bool, built: bool, written: bool, ghost between: State, ghost wire: seq<byte>)
      requires Valid() && freshId != 0
      modifies this`pendingQos, this`connected, this`log, c, c.buffer, t, outbox, outbox.Repr
      ensures Valid() && between == After(old(View()), Retransmit(now, retransmitTimeout))
      ensures View() == if built then After(between, RetransmitPubrel(now, retransmitTimeout)) else between
      ensures RetransmissionWritten(old(View()), between, old(t.wire), wire, ok)
      ensures PubrelSent(between.log, log, wire, t.wire, freshId, c.fragTotal, written)
      ensures !built ==> c.buffer.Length < 7 || c.fragTotal >= 0x1000_0005
      ensures t.failures == old(t.failures) + (if ok then 0 else 1) + (if written then 0 else 1)
    {
      hide Inv, After, RetransmissionWritten, PubrelSent, Outbox.Chained;
      ok := RetransmitOldest(now);
      between, wire := View(), t.wire;
      built, written := RetransmitOldestPubrel(now, freshId);
    }

    /** mqtt_delete_expired_messages */
    method DeleteExpired(now: int, timeout: int)
      requires Valid()
      modifies this`log, outbox, outbox.Repr
      ensures Valid() && View() == After(old(View()), Expire(now, timeout))
      ensures LeftByTick(old(outbox.items), outbox.items, now, timeout)
    {
      ghost var before := View();
      ExpireIsStep(before, now, timeout);
      hide Inv, After, Without, LeftByTick, Expired, Outbox.Chained;
      var deleted := outbox.DeleteExpired(now, timeout);
      log := After(before, Expire(now, timeout)).log;
    }

    /** The end of the client task. */
    method Stop()
      requires Valid()
      modifies this`log, this`connected, outbox, outbox.Repr
      ensures Valid() && !connected && View() == After(old(View()), QosRuns.Stop) && outbox.items == []
    {
      ghost var before := View();
      StopIsStep(before);
      hide Inv, After, Outbox.Chained;
      outbox.DeleteAllItems();
      connected := false;
      log := After(before, QosRuns.Stop).log;
    }
  }

  lemma NeverAstray(topic: seq<byte>, data: Option<seq<byte>>, len: int, qos: nat, fragTotal: uint32, fragOffset: uint32)
    requires data.Some?
    ensures !PublishCall.StoresAstray(topic, data, len, qos, fragTotal, fragOffset)
  {
  }

  /** What a publish call does to the outbox is its step. */
  lemma PublishIsStep(s: State, items: seq<Item>, topic: seq<byte>, data: Option<seq<byte>>, qos: nat, retain: nat, id: uint16,
                      fragTotal: uint32, now: int, sentAt: int, r: PublishCall.Result)
    requires Inv(s) && id != 0 && (qos > 0 ==> Fresh(s.items, id))
    requires var x := PublishCall.StoredItem(topic, data, qos, retain, id, fragTotal, now);
             items == if qos == 0 || r.OverLimit? || r.Unbuilt? then s.items
                      else s.items + [if r.Published? then x.(tick := sentAt, pending := TRANSMITTED) else x]
    ensures var t := After(s, EspMqttClient.PublishStep(topic, data, qos, retain, id, fragTotal, now, sentAt, r));
            t.items == items && Inv(t)
  {
    var step := EspMqttClient.PublishStep(topic, data, qos, retain, id, fragTotal, now, sentAt, r);
    var x := PublishCall.StoredItem(topic, data, qos, retain, id, fragTotal, now);
    NewPublish(topic, data, qos, retain, id, fragTotal, now);
    hide PublishCall.StoredItem, Inv, Sound, SetPending, SetTick, Fresh;
    StepLeads(s, step);
    if qos > 0 {
      PublishedItems(s.items, x, sentAt);
    }
  }

  /** A publish with QoS > 0 is stored as a new item. */
  lemma NewPublish(topic: seq<byte>, data: Option<seq<byte>>, qos: nat, retain: nat, id: uint16, fragTotal: uint32, now: int)
    ensures var x := PublishCall.StoredItem(topic, data, qos, retain, id, fragTotal, now);
            && x.id == id && x.pending == QUEUED && x.qos == qos
            && (qos == 0 || id != 0 ==> Sound(x))
  {
  }

  lemma NotFound(items: seq<Item>, id: int)
    requires Fresh(items, id)
    ensures First(items, WithId(id)) == |items|
  {
  }

  /** Setting tick and state of the newest item through its identifier. */
  lemma PublishedItems(items: seq<Item>, x: Item, sentAt: int)
    requires Fresh(items, x.id)
    ensures SetPending(SetTick(items + [x], x.id, sentAt), x.id, TRANSMITTED) == items + [x.(tick := sentAt, pending := TRANSMITTED)]
    ensures SetPending(items + [x], x.id, TRANSMITTED) == items + [x.(pending := TRANSMITTED)]
  {
    var y := x.(tick := sentAt);
    FindsNew(items, x);
    FindsNew(items, y);
    assert (items + [x])[|items| := y] == items + [y];
    assert (items + [y])[|items| := y.(pending := TRANSMITTED)] == items + [y.(pending := TRANSMITTED)];
    assert (items + [x])[|items| := x.(pending := TRANSMITTED)] == items + [x.(pending := TRANSMITTED)];
  }

  lemma {:induction false} WithoutAny(items: seq<Item>)
    ensures Without(items, (x: Item) => true) == []
  {
    if items != [] {
      WithoutAny(items[1..]);
    }
  }

  /** The other calls as steps: what becomes of the items, and that the invariant holds on. */
  lemma EnqueueIsStep(s: State, topic: seq<byte>, data: Option<seq<byte>>, qos: nat, retain: nat, id: uint16, fragTotal: uint32, now: int)
    requires Inv(s) && (qos > 0 ==> id != 0 && Fresh(s.items, id)) && (qos == 0 ==> id == 0)
    ensures var x := PublishCall.StoredItem(topic, data, qos, retain, id, fragTotal, now);
            var t := After(s, QosRuns.Enqueue(x));
            Inv(t) && t.items == s.items + [x] && t.log == s.log
  {
    var x := PublishCall.StoredItem(topic, data, qos, retain, id, fragTotal, now);
    NewPublish(topic, data, qos, retain, id, fragTotal, now);
    hide PublishCall.StoredItem, Inv, Sound, Fresh;
    StepLeads(s, QosRuns.Enqueue(x));
  }

  lemma SubscribeIsStep(s: State, x: Item)
    requires Inv(s) && New(s.items, x) && x.id != 0
    ensures var t := After(s, QosRuns.Subscribe(x));
            Inv(t) && t.items == s.items + [x.(pending := TRANSMITTED)]
  {
    StepLeads(s, QosRuns.Subscribe(x));
    PublishedItems(s.items, x, 0);
    hide Inv, New, SetPending, SetTick, Fresh;
  }

  lemma NewSubscription(items: seq<Item>, packet: seq<byte>, id: uint16, qos: int, now: int)
    requires packet != [] && id != 0 && Fresh(items, id) && MessageType(packet[0]) != TYPE_PUBLISH
    ensures New(items, Item(id, MessageType(packet[0]), qos, now, QUEUED, packet))
  {
  }

  lemma NewIsLast(items: seq<Item>, x: Item)
    requires Fresh(items, x.id)
    ensures First(items + [x], WithId(x.id)) == |items|
    ensures (items + [x])[|items| := x.(pending := TRANSMITTED)] == items + [x.(pending := TRANSMITTED)]
  {
    FindsNew(items, x);
  }

  lemma PubrecIsStep(s: State, id: int)
    requires Inv(s)
    ensures var t, i := After(s, Pubrec(id)), First(s.items, WithId(id));
            Inv(t) && t.items == if i < |s.items| then s.items[i := s.items[i].(pending := ACKNOWLEDGED)] else s.items
  {
    StepLeads(s, Pubrec(id));
  }

  lemma AckIsStep(s: State, id: uint16, initiator: int)
    requires Inv(s)
    ensures var t := After(s, Acknowledged(id, initiator)); Inv(t) && t.items == RemoveFirst(s.items, WithIdAndType(id, initiator))
  {
    StepLeads(s, Acknowledged(id, initiator));
    hide Inv, RemoveFirst;
  }

  lemma ExpireIsStep(s: State, now: int, timeout: int)
    requires Inv(s)
    ensures Inv(After(s, Expire(now, timeout))) && After(s, Expire(now, timeout)).items == Without(s.items, Expired(now, timeout))
  {
    StepLeads(s, Expire(now, timeout));
    RemoveAllLeads(s, Expired(now, timeout));
    hide Inv, Without, Expired;
  }

  lemma StopIsStep(s: State)
    requires Inv(s)
    ensures Inv(After(s, QosRuns.Stop)) && After(s, QosRuns.Stop).items == []
  {
    StepLeads(s, QosRuns.Stop);
    RemoveAllLeads(s, (x: Item) => true);
    WithoutAny(s.items);
  }

  /**
   What one turn of the connected loop does: the oldest queued item is written, or else, when it is time, the oldest
   transmitted and the oldest acknowledged one, with `between` and `middle` the state and the wire between these two.
   */
  predicate Serviced(s: State, between: State, t: State, before: seq<byte>, middle: seq<byte>, wire: seq<byte>, due: Option<int>, timeout: int,
                     freshId: uint16, fragTotal: uint32, ok: bool, built: bool, written: bool)
  {
    var i := First(s.items, InState(QUEUED));
    if i < |s.items| then t == After(s, ResendQueued(ok)) && PacketWritten(before, wire, s.items[i].data, ok)
    else if due.None? then t == s && wire == before
    else
      && between == After(s, Retransmit(due.value, timeout))
      && t == (if built then After(between, RetransmitPubrel(due.value, timeout)) else between)
      && RetransmissionWritten(s, between, before, middle, ok)
      && PubrelSent(between.log, t.log, middle, wire, freshId, fragTotal, written)
  }

  /** Nothing was written, or the oldest transmitted item as it is now stored, and logged as such. */
  predicate RetransmissionWritten(s: State, t: State, before: seq<byte>, wire: seq<byte>, ok: bool) {
    var i := First(s.items, InState(TRANSMITTED));
    if t.log == s.log then wire == before && ok
    else i < |t.items| && t.log == s.log + [WroteItem(t.items[i], true)] && PacketWritten(before, wire, t.items[i].data, ok)
  }

  /** All that was written is the PUBREL built for this identifier, under the leftover total if there is one, whole if and only if ok. */
  predicate PubrelWritten(before: seq<byte>, wire: seq<byte>, id: uint16, freshId: uint16, fragTotal: uint32, ok: bool) {
    PacketWritten(before, wire, Acks311.BuiltAck(TYPE_PUBREL, 1, if id == 0 then freshId else id, fragTotal), ok)
  }

  /** Nothing was written, or the PUBREL of the identifier logged last. */
  predicate PubrelSent(logBefore: seq<Event>, log: seq<Event>, before: seq<byte>, wire: seq<byte>, freshId: uint16, fragTotal: uint32,
                       written: bool)
  {
    if log == logBefore then wire == before && written
    else
      && log != [] && log == logBefore + [WrotePubrel(log[|log| - 1].id, true)]
      && PubrelWritten(before, wire, log[|log| - 1].id % 0x1_0000, freshId, fragTotal, written)
  }

  lemma NothingSent(log: seq<Event>, wire: seq<byte>, freshId: uint16, fragTotal: uint32)
    ensures PubrelSent(log, log, wire, wire, freshId, fragTotal, true)
  {
  }

  /** All that was written is this packet, whole if and only if ok. */
  predicate PacketWritten(before: seq<byte>, wire: seq<byte>, data: seq<byte>, ok: bool) {
    if ok then wire == before + data else before <= wire < before + data
  }

  /** The item as the client loop writes it. */
  function Resent(x: Item): Item {
    if x.msgType == TYPE_PUBLISH && x.qos > 0 && x.pending == TRANSMITTED then MarkDup(x) else x
  }

  function Settled(items: seq<Item>, i: nat): seq<Item>
    requires i < |items|
  {
    var x := items[i];
    if x.msgType == TYPE_PUBLISH && x.qos == 0 then RemoveAt(items, i)
    else if x.qos > 0 then SetPending(items, x.id, TRANSMITTED)
    else items
  }

  lemma ResendIsStep(s: State)
    requires Inv(s) && First(s.items, InState(QUEUED)) < |s.items|
    ensures var i := First(s.items, InState(QUEUED));
            && s.items[i].pending == QUEUED && s.items[i].data != [] && Resent(s.items[i]) == s.items[i]
            && Inv(After(s, ResendQueued(false))) && After(s, ResendQueued(false)).items == s.items
            && Inv(After(s, ResendQueued(true))) && After(s, ResendQueued(true)).items == Settled(s.items, i)
  {
    var i := First(s.items, InState(QUEUED));
    FirstIsOldest(s.items, InState(QUEUED));
    assert Sound(s.items[i]);
    StepLeads(s, ResendQueued(false));
    StepLeads(s, ResendQueued(true));
  }

  lemma RetransmitIsStep(s: State, now: int, timeout: int)
    requires Inv(s)
    ensures var i, t := First(s.items, InState(TRANSMITTED)), After(s, Retransmit(now, timeout));
            && Inv(t) && (i < |s.items| ==> s.items[i].data != [])
            && (if i < |s.items| && now - s.items[i].tick > timeout
                then t.items == s.items[i := Resent(s.items[i])] && t.log == s.log + [WroteItem(Resent(s.items[i]), true)]
                else t == s)
  {
    var i := First(s.items, InState(TRANSMITTED));
    FirstIsOldest(s.items, InState(TRANSMITTED));
    if i < |s.items| {
      assert Sound(s.items[i]);
    }
    StepLeads(s, Retransmit(now, timeout));
  }

  lemma PubrelIsStep(s: State, now: int, timeout: int)
    requires Inv(s)
    ensures var i, t := First(s.items, InState(ACKNOWLEDGED)), After(s, RetransmitPubrel(now, timeout));
            Inv(t) && t == if i < |s.items| && now - s.items[i].tick > timeout then s.(log := s.log + [WrotePubrel(s.items[i].id, true)]) else s
  {
    StepLeads(s, RetransmitPubrel(now, timeout));
  }
}
