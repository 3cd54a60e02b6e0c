/** What each step of the runs does to the stored items and the log, item by item. */
module QosSteps {
  import opened Bytes
  import opened Connection
  import opened ItemList
  import opened QosRuns

  /** Item i is the oldest one with this identifier. */
  predicate OldestWith(items: seq<Item>, id: int, i: nat) {
    i < |items| && items[i].id == id && forall j :: 0 <= j < i ==> items[j].id != id
  }

  /** A publish call stores one item at the end, transmitted if it was sent, and logs what was written. */
  lemma PublishEffect(s: State, x: Item, tried: bool, sent: bool, sentAt: int)
    requires Possible(s, Publish(x, tried, sent, sentAt))
    ensures var t := After(s, Publish(x, tried, sent, sentAt));
            && t.items == s.items + [if sent then x.(tick := sentAt, pending := TRANSMITTED) else x]
            && t.log == s.log + if tried then [Wrote(x.id, x.data[0], x.qos, QUEUED, false)] else []
  {
    FirstAt(s.items + [x], WithId(x.id), |s.items|);
    var ticked := s.items + [x.(tick := sentAt)];
    FirstAt(ticked, WithId(x.id), |s.items|);
    hide First;
    assert (s.items + [x])[|s.items| := x.(tick := sentAt)] == ticked;
    assert ticked[|s.items| := x.(tick := sentAt, pending := TRANSMITTED)] == s.items + [x.(tick := sentAt, pending := TRANSMITTED)];
  }

  /** A subscription is stored as transmitted and written at once. */
  lemma SubscribeEffect(s: State, x: Item)
    requires Possible(s, Subscribe(x))
    ensures var t := After(s, Subscribe(x));
            && t.items == s.items + [x.(pending := TRANSMITTED)]
            && t.log == s.log + [Wrote(x.id, x.data[0], x.qos, TRANSMITTED, false)]
  {
    FirstAt(s.items + [x], WithId(x.id), |s.items|);
    hide First;
    assert (s.items + [x])[|s.items| := x.(pending := TRANSMITTED)] == s.items + [x.(pending := TRANSMITTED)];
  }

  /** A PUBREC moves the oldest item with its identifier on, changes no other, and is answered with PUBREL even if there is none. */
  lemma PubrecEffect(s: State, id: int, i: nat)
    requires OldestWith(s.items, id, i) || (i == |s.items| && Fresh(s.items, id))
    ensures var t := After(s, Pubrec(id));
            if i < |s.items| then
              t.items == s.items[i := s.items[i].(pending := ACKNOWLEDGED)] && t.log == s.log + [GotPubrec(id), WrotePubrel(id, false)]
            else t.items == s.items && t.log == s.log + [WrotePubrel(id, false)]
  {
    FirstAt(s.items, WithId(id), i);
    hide First;
  }

  /** An acknowledgement removes the oldest item with its identifier and the type that it answers. */
  lemma AcknowledgedEffect(s: State, id: int, msgType: int, i: nat)
    requires i <= |s.items| && (i < |s.items| ==> s.items[i].id == id && s.items[i].msgType % 256 == msgType)
    requires forall j :: 0 <= j < i ==> s.items[j].id != id || s.items[j].msgType % 256 != msgType
    ensures After(s, Acknowledged(id, msgType)) ==
            if i < |s.items| then State(s.items[..i] + s.items[i + 1..], s.log + [Removed(id)]) else s
  {
    FirstAt(s.items, WithIdAndType(id, msgType), i);
    hide First;
  }

  /**
   The oldest queued item is written, and if that succeeds a QoS 0 publish leaves, an item with QoS is transmitted, and any
   other stays as it is. Without a queued item nothing happens.
   */
  lemma ResendQueuedEffect(s: State, ok: bool, i: nat)
    requires Inv(s) && (OldestIn(s.items, QUEUED, i) || (i == |s.items| && NoneIn(s.items, QUEUED)))
    ensures var t := After(s, ResendQueued(ok));
            if i == |s.items| then t == s
            else
              var x := s.items[i];
              var log := s.log + [Wrote(x.id, x.data[0], x.qos, QUEUED, true)];
              if ok && x.msgType == 3 && x.qos == 0 then t == State(s.items[..i] + s.items[i + 1..], log + [Removed(x.id)])
              else if ok && x.qos > 0 then t == State(s.items[i := x.(pending := TRANSMITTED)], log)
              else t == State(s.items, log)
  {
    FirstAt(s.items, InState(QUEUED), i);
    if i < |s.items| {
      assert Sound(s.items[i]);
      if s.items[i].qos > 0 {
        FirstAt(s.items, WithId(s.items[i].id), i);
      }
    }
    hide First;
  }

  /** The oldest transmitted item is written again once it has waited longer than the timeout, a publish with its DUP bit set. */
  lemma RetransmitEffect(s: State, now: int, timeout: int, i: nat)
    requires Inv(s)
    requires OldestIn(s.items, TRANSMITTED, i) || (i == |s.items| && NoneIn(s.items, TRANSMITTED))
    ensures var t := After(s, Retransmit(now, timeout));
            if i == |s.items| || now - s.items[i].tick <= timeout then t == s
            else
              var x := s.items[i];
              && x.data != []
              && var first := if x.msgType == 3 && x.qos > 0 && x.data[0] / 8 % 2 == 0 then x.data[0] as int + 8 else x.data[0];
              && 0 <= first < 0x100
              && t.items == s.items[i := x.(data := [first] + x.data[1..])]
              && t.log == s.log + [Wrote(x.id, first, x.qos, TRANSMITTED, true)]
  {
    FirstAt(s.items, InState(TRANSMITTED), i);
    hide First;
    if i < |s.items| {
      assert Sound(s.items[i]);
      var x := s.items[i];
      assert x.data == [x.data[0]] + x.data[1..];
      assert [SetDup(x.data[0])] + x.data[1..] == x.data[0 := SetDup(x.data[0])];
      assert s.items[i := x] == s.items;
    }
  }

  /** PUBREL is written again for the oldest acknowledged item once it has waited longer than the timeout. */
  lemma RetransmitPubrelEffect(s: State, now: int, timeout: int, i: nat)
    requires OldestIn(s.items, ACKNOWLEDGED, i) || (i == |s.items| && NoneIn(s.items, ACKNOWLEDGED))
    ensures After(s, RetransmitPubrel(now, timeout)) ==
            if i == |s.items| || now - s.items[i].tick <= timeout then s
            else State(s.items, s.log + [WrotePubrel(s.items[i].id, true)])
  {
    FirstAt(s.items, InState(ACKNOWLEDGED), i);
    hide First;
  }

  /** The log of a removal of all these items, oldest first. */
  function Removals(ids: seq<int>): seq<Event> {
    if ids == [] then [] else [Removed(ids[0])] + Removals(ids[1..])
  }

  lemma {:induction false} RemoveAllLogs(s: State, test: Test)
    ensures RemoveAll(s, test) == State(Without(s.items, test), s.log + Removals(IdsOf(s.items, test)))
    decreases |s.items|
  {
    RemoveFirstThenAll(s.items, test);
    IdsOfFirst(s.items, test);
    if First(s.items, test) < |s.items| {
      RemoveAllLogs(Remove(s, test), test);
    }
  }

  /** Expiry takes exactly the items that have been there for longer than the timeout, and logs them, oldest first. */
  lemma ExpireEffect(s: State, now: int, timeout: int)
    ensures var t := After(s, Expire(now, timeout));
            && LeftByTick(s.items, t.items, now, timeout)
            && exists ids {:trigger Removals(ids)} :: ReportedByTick(s.items, ids, now, timeout) && t.log == s.log + Removals(ids)
  {
    RemoveAllLogs(s, Expired(now, timeout));
    LeftByTickOnly(s.items, now, timeout);
    hide LeftByTick, ReportedByTick, RemoveAll;
    assert Removals(IdsOf(s.items, Expired(now, timeout))) == Removals(IdsOf(s.items, Expired(now, timeout)));
  }

  lemma {:induction false} AllGone(items: seq<Item>, all: Test, ids: seq<int>)
    requires |ids| == |items| && forall i :: 0 <= i < |items| ==> ids[i] == items[i].id && all(items[i])
    ensures Without(items, all) == [] && IdsOf(items, all) == ids
  {
    if items != [] {
      AllGone(items[1..], all, ids[1..]);
    }
  }

  /** The end of the client drops all items, and logs them in order. */
  lemma StopEffect(s: State, ids: seq<int>)
    requires |ids| == |s.items| && forall i :: 0 <= i < |ids| ==> ids[i] == s.items[i].id
    ensures After(s, Stop) == State([], s.log + Removals(ids))
  {
    var all: Test := (x: Item) => true;
    RemoveAllLogs(s, all);
    AllGone(s.items, all, ids);
    assert After(s, Stop) == RemoveAll(s, all);
  }
}
