/**
 The sending side of the client over whole runs: publishes, acknowledgements, resends, expiry and reconnects as steps
 over the outbox items, with a log of what is written to the broker (sections 4.3 and 4.4 of MQTT 3.1.1).
 */
module QosRuns {
  import opened Bytes
  import opened Connection
  import opened ItemList

  datatype Event =
    | Wrote(id: int, first: byte, qos: int, state: Pending, looped: bool)   // a stored packet; looped when written by the client loop
    | WrotePubrel(id: int, looped: bool)
    | GotPubrec(id: int)   // for an item of the outbox
    | Removed(id: int)     // the item left the outbox

  datatype State = State(items: seq<Item>, log: seq<Event>)

  datatype Step =
    | Publish(item: Item, tried: bool, sent: bool, sentAt: int)
    | Enqueue(item: Item)
    | Subscribe(item: Item)                   // also unsubscribe
    | Pubrec(id: int)
    | Acknowledged(id: int, msgType: int)     // PUBACK, PUBCOMP, SUBACK, UNSUBACK
    | ResendQueued(ok: bool)
    | Retransmit(now: int, timeout: int)
    | RetransmitPubrel(now: int, timeout: int)
    | Expire(now: int, timeout: int)
    | Reconnect
    | Stop

  /** outbox_set_pending */
  function SetPending(items: seq<Item>, id: int, pending: Pending): seq<Item> {
    var i := First(items, WithId(id));
    if i < |items| then items[i := items[i].(pending := pending)] else items
  }

  function SetTick(items: seq<Item>, id: int, tick: int): seq<Item> {
    var i := First(items, WithId(id));
    if i < |items| then items[i := items[i].(tick := tick)] else items
  }

  /** mqtt_set_dup on the stored packet. */
  function MarkDup(x: Item): Item {
    if x.data == [] then x else x.(data := x.data[0 := SetDup(x.data[0])])
  }

  function WroteItem(x: Item, looped: bool): Event {
    Wrote(x.id, if x.data == [] then 0 else x.data[0], x.qos, x.pending, looped)
  }

  function Remove(s: State, test: Test): State {
    var i := First(s.items, test);
    if i < |s.items| then State(RemoveAt(s.items, i), s.log + [Removed(s.items[i].id)]) else s
  }

  function RemoveAll(s: State, test: Test): State
    decreases |s.items|
  {
    if First(s.items, test) == |s.items| then s else RemoveAll(Remove(s, test), test)
  }

  function AfterPublish(s: State, x: Item, tried: bool, sent: bool, sentAt: int): State {
    var items := s.items + [x];
    State(if sent then SetPending(SetTick(items, x.id, sentAt), x.id, TRANSMITTED) else items,
          s.log + if tried then [WroteItem(x, false)] else [])
  }

  function AfterSubscribe(s: State, x: Item): State {
    State(SetPending(s.items + [x], x.id, TRANSMITTED), s.log + [WroteItem(x.(pending := TRANSMITTED), false)])
  }

  function AfterPubrec(s: State, id: int): State {
    State(SetPending(s.items, id, ACKNOWLEDGED),
          s.log + (if First(s.items, WithId(id)) < |s.items| then [GotPubrec(id)] else []) + [WrotePubrel(id, false)])
  }

  /** The oldest QUEUED item is written; a QoS 0 publish is then done, any other QoS > 0 item waits for its acknowledgement. */
  function AfterResendQueued(s: State, ok: bool): State {
    var i := First(s.items, InState(QUEUED));
    if i == |s.items| then s
    else
      var x := s.items[i];
      var written := s.(log := s.log + [WroteItem(x, true)]);
      if !ok then written
      else if x.msgType == TYPE_PUBLISH && x.qos == 0 then State(RemoveAt(s.items, i), written.log + [Removed(x.id)])
      else if x.qos > 0 then written.(items := SetPending(s.items, x.id, TRANSMITTED))
      else written
  }

  /** The oldest TRANSMITTED item is written again when it has waited long enough, a publish marked as a duplicate. */
  function AfterRetransmit(s: State, now: int, timeout: int): State {
    var i := First(s.items, InState(TRANSMITTED));
    if i == |s.items| || now - s.items[i].tick <= timeout then s
    else
      var x := if s.items[i].msgType == TYPE_PUBLISH && s.items[i].qos > 0 then MarkDup(s.items[i]) else s.items[i];
      State(s.items[i := x], s.log + [WroteItem(x, true)])
  }

  function AfterRetransmitPubrel(s: State, now: int, timeout: int): State {
    var i := First(s.items, InState(ACKNOWLEDGED));
    if i == |s.items| || now - s.items[i].tick <= timeout then s
    else s.(log := s.log + [WrotePubrel(s.items[i].id, true)])
  }

  function After(s: State, step: Step): State {
    match step
    case Publish(x, tried, sent, sentAt) => AfterPublish(s, x, tried, sent, sentAt)
    case Enqueue(x) => s.(items := s.items + [x])
    case Subscribe(x) => AfterSubscribe(s, x)
    case Pubrec(id) => AfterPubrec(s, id)
    case Acknowledged(id, msgType) => Remove(s, WithIdAndType(id, msgType))
    case ResendQueued(ok) => AfterResendQueued(s, ok)
    case Retransmit(now, timeout) => AfterRetransmit(s, now, timeout)
    case RetransmitPubrel(now, timeout) => AfterRetransmitPubrel(s, now, timeout)
    case Expire(now, timeout) => RemoveAll(s, Expired(now, timeout))
    case Reconnect => s
    case Stop => RemoveAll(s, (x: Item) => true)
  }

  /** A new item is a packet of its type, not yet a duplicate, and its identifier is not in use. */
  predicate New(items: seq<Item>, x: Item) {
    && Sound(x) && x.pending == QUEUED && (x.id == 0 || Fresh(items, x.id))
  }

  predicate Fresh(items: seq<Item>, id: int) {
    forall i {:trigger items[i]} :: 0 <= i < |items| ==> items[i].id != id
  }

  predicate Possible(s: State, step: Step) {
    match step
    case Publish(x, tried, sent, _) => New(s.items, x) && x.id != 0 && (sent ==> tried)
    case Enqueue(x) => New(s.items, x)
    case Subscribe(x) => New(s.items, x) && x.id != 0
    case _ => true
  }

  /** An item is a packet of its own type; only a QoS 0 publish lacks an identifier; a queued publish is no duplicate. */
  predicate Sound(x: Item) {
    && x.data != [] && MessageType(x.data[0]) == x.msgType && x.pending != CONFIRMED
    && (x.msgType == TYPE_PUBLISH && x.qos > 0 ==> x.id != 0)
    && (x.msgType != TYPE_PUBLISH ==> x.id != 0)
    && (x.msgType == TYPE_PUBLISH && x.pending == QUEUED ==> Dup(x.data[0]) == 0)
  }

  predicate Distinct(items: seq<Item>) {
    forall i, j :: 0 <= i < j < |items| && items[i].id == items[j].id ==> items[i].id == 0
  }

  /** Identifiers with a PUBREC since their item was stored. */
  function Acked(log: seq<Event>): set<int> {
    if log == [] then {} else AckedBy(Acked(log[..|log| - 1]), log[|log| - 1])
  }

  function AckedBy(before: set<int>, e: Event): set<int> {
    match e
    case GotPubrec(id) => before + {id}
    case Removed(id) => before - {id}
    case _ => before
  }

  /** What may be written while these identifiers are acknowledged. */
  predicate Allowed(acked: set<int>, e: Event) {
    match e
    case Wrote(id, first, qos, state, looped) =>
      && (id != 0 ==> id !in acked)
      && (looped && MessageType(first) == TYPE_PUBLISH && qos > 0 ==>
            (state == TRANSMITTED && Dup(first) == 1) || (state == QUEUED && Dup(first) == 0))
    case WrotePubrel(id, looped) => looped && id != 0 ==> id in acked
    case _ => true
  }

  predicate SafeLog(log: seq<Event>) {
    log == [] || (SafeLog(log[..|log| - 1]) && Allowed(Acked(log[..|log| - 1]), log[|log| - 1]))
  }

  /** The acknowledged items are exactly those whose PUBREC came in. */
  predicate AckedHeld(items: seq<Item>, acked: set<int>) {
    && (forall i {:trigger items[i]} :: 0 <= i < |items| && items[i].id != 0 ==> (items[i].pending == ACKNOWLEDGED <==> items[i].id in acked))
    && (forall id :: id in acked && id != 0 ==> !Fresh(items, id))
  }

  predicate Inv(s: State) {
    && Distinct(s.items) && (forall i {:trigger s.items[i]} :: 0 <= i < |s.items| ==> Sound(s.items[i]))
    && AckedHeld(s.items, Acked(s.log)) && SafeLog(s.log)
  }

  const START := State([], [])

  lemma LogOne(log: seq<Event>, e: Event)
    ensures (log + [e])[..|log|] == log
    ensures SafeLog(log + [e]) <==> SafeLog(log) && Allowed(Acked(log), e)
    ensures Acked(log + [e]) == AckedBy(Acked(log), e)
  {
  }

  /** In a safe log every single write was allowed at its time. */
  lemma {:induction false} SafeLogMeans(log: seq<Event>, j: nat)
    requires SafeLog(log) && j < |log|
    ensures Allowed(Acked(log[..j]), log[j])
    decreases |log|
  {
    var init := log[..|log| - 1];
    if j < |init| {
      SafeLogMeans(init, j);
      assert init[..j] == log[..j];
    }
  }

  /** Kind of change 1: a new item at the end. */
  lemma Append(items: seq<Item>, x: Item, acked: set<int>)
    requires Distinct(items) && AckedHeld(items, acked) && (forall i {:trigger items[i]} :: 0 <= i < |items| ==> Sound(items[i]))
    requires Sound(x) && (x.id == 0 || Fresh(items, x.id)) && x.pending != ACKNOWLEDGED
    ensures var r := items + [x];
            Distinct(r) && AckedHeld(r, acked) && forall i {:trigger r[i]} :: 0 <= i < |r| ==> Sound(r[i])
  {
    var r := items + [x];
    forall id | id in acked && id != 0
      ensures !Fresh(r, id)
    {
      var i :| 0 <= i < |items| && items[i].id == id;
      assert r[i].id == id;
    }
  }

  /** Kind of change 2: an item in place. */
  lemma Update(items: seq<Item>, k: nat, y: Item, acked: set<int>)
    requires Distinct(items) && k < |items| && (forall i {:trigger items[i]} :: 0 <= i < |items| ==> Sound(items[i]))
    requires Sound(y) && y.id == items[k].id
    requires AckedHeld(items, acked) && (y.id != 0 ==> (y.pending == ACKNOWLEDGED <==> items[k].pending == ACKNOWLEDGED))
    ensures var r := items[k := y];
            Distinct(r) && AckedHeld(r, acked) && forall i {:trigger r[i]} :: 0 <= i < |r| ==> Sound(r[i])
  {
    var r := items[k := y];
    SameIds(items, k, y, acked);
  }

  lemma SameIds(items: seq<Item>, k: nat, y: Item, acked: set<int>)
    requires k < |items| && y.id == items[k].id
    ensures forall id {:trigger Fresh(items[k := y], id)} :: Fresh(items[k := y], id) <==> Fresh(items, id)
  {
    var r := items[k := y];
    forall id
      ensures Fresh(r, id) <==> Fresh(items, id)
    {
      assert Fresh(r, id) ==> forall i {:trigger items[i]} :: 0 <= i < |items| ==> r[i].id != id;
      assert Fresh(items, id) ==> forall i {:trigger r[i]} :: 0 <= i < |r| ==> items[i].id != id;
    }
  }

  /** An acknowledgement in place. */
  lemma Acknowledge(items: seq<Item>, k: nat, acked: set<int>)
    requires Distinct(items) && k < |items| && (forall i {:trigger items[i]} :: 0 <= i < |items| ==> Sound(items[i]))
    requires AckedHeld(items, acked)
    ensures var r := items[k := items[k].(pending := ACKNOWLEDGED)];
            && Distinct(r) && AckedHeld(r, acked + {items[k].id})
            && forall i {:trigger r[i]} :: 0 <= i < |r| ==> Sound(r[i])
  {
    var r := items[k := items[k].(pending := ACKNOWLEDGED)];
    SameIds(items, k, r[k], acked);
    assert r[k].id == items[k].id;
    forall i {:trigger r[i]} | 0 <= i < |r| && r[i].id != 0
      ensures r[i].pending == ACKNOWLEDGED <==> r[i].id in acked + {items[k].id}
    {
      if i != k {
        assert items[i] == r[i] && items[i].id != items[k].id;
      }
    }
  }

  /** Kind of change 3: an item leaves. */
  lemma Removal(items: seq<Item>, k: nat, acked: set<int>)
    requires Distinct(items) && k < |items| && (forall i {:trigger items[i]} :: 0 <= i < |items| ==> Sound(items[i]))
    requires AckedHeld(items, acked)
    ensures var r := RemoveAt(items, k);
            && Distinct(r) && AckedHeld(r, acked - {items[k].id})
            && forall i {:trigger r[i]} :: 0 <= i < |r| ==> Sound(r[i])
  {
    var r := RemoveAt(items, k);
    hide RemoveAt;
    forall id | id in acked - {items[k].id} && id != 0
      ensures !Fresh(r, id)
    {
      var i :| 0 <= i < |items| && items[i].id == id;
      assert r[if i < k then i else i - 1].id == id;
    }
  }

  function Rank(p: Pending): nat {
    match p
    case QUEUED => 0
    case TRANSMITTED => 1
    case ACKNOWLEDGED => 2
    case CONFIRMED => 3
  }

  /** The same message later: the state may have advanced and the packet may have been marked as a duplicate. */
  predicate Moved(x: Item, y: Item) {
    && y.id == x.id && y.msgType == x.msgType && y.qos == x.qos
    && (y.data == x.data || y.data == MarkDup(x).data)
    && Rank(x.pending) <= Rank(y.pending)
  }

  predicate Held(x: Item, items: seq<Item>) {
    exists j {:trigger items[j]} :: 0 <= j < |items| && Moved(x, items[j])
  }

  /** Every item with an identifier is still there, unless its identifier is among those gone. */
  predicate Keeps(before: seq<Item>, after: seq<Item>, gone: set<int>) {
    forall i {:trigger before[i]} :: 0 <= i < |before| && before[i].id != 0 && before[i].id !in gone ==> Held(before[i], after)
  }

  /** Identifiers removed according to a log. */
  function Gone(log: seq<Event>): set<int> {
    if log == [] then {}
    else Gone(log[1..]) + if log[0].Removed? then {log[0].id} else {}
  }

  lemma {:induction false} GoneConcat(a: seq<Event>, b: seq<Event>)
    ensures Gone(a + b) == Gone(a) + Gone(b)
    decreases |a|
  {
    if a == [] {
      assert a + b == b;
    } else {
      assert (a + b)[1..] == a[1..] + b;
      GoneConcat(a[1..], b);
    }
  }

  /** From s to t the invariant holds on, the log grows, and no item goes back, changes or vanishes unlogged. */
  predicate Leads(s: State, t: State) {
    Inv(t) && s.log <= t.log && Keeps(s.items, t.items, Gone(t.log[|s.log|..]))
  }

  lemma DupBit(b: byte)
    ensures SetDup(SetDup(b)) == SetDup(b) && MessageType(SetDup(b)) == MessageType(b) && Dup(SetDup(b)) == 1
  {
  }

  lemma MovedTwice(x: Item, y: Item, z: Item)
    requires Moved(x, y) && Moved(y, z)
    ensures Moved(x, z)
  {
  }

  lemma KeepsTwice(a: seq<Item>, b: seq<Item>, c: seq<Item>, gone1: set<int>, gone2: set<int>)
    requires Keeps(a, b, gone1) && Keeps(b, c, gone2)
    ensures Keeps(a, c, gone1 + gone2)
  {
    forall i {:trigger a[i]} | 0 <= i < |a| && a[i].id != 0 && a[i].id !in gone1 + gone2
      ensures Held(a[i], c)
    {
      hide MarkDup, Rank;
      assert Held(a[i], b);
      var j :| 0 <= j < |b| && Moved(a[i], b[j]);
      assert Held(b[j], c);
      var k :| 0 <= k < |c| && Moved(b[j], c[k]);
      MovedTwice(a[i], b[j], c[k]);
    }
  }

  lemma LeadsOn(s: State, t: State, u: State)
    requires Leads(s, t) && Leads(t, u)
    ensures Leads(s, u)
  {
    hide Inv, Keeps, Gone;
    KeepsTwice(s.items, t.items, u.items, Gone(t.log[|s.log|..]), Gone(u.log[|t.log|..]));
    GoneConcat(t.log[|s.log|..], u.log[|t.log|..]);
    assert u.log[..|t.log|] == t.log;
    assert u.log[|s.log|..] == t.log[|s.log|..] + u.log[|t.log|..];
  }

  lemma LeadsNowhere(s: State)
    requires Inv(s)
    ensures Leads(s, s)
  {
  }

  /** The primitive changes that the steps are made of. */
  lemma Stores(s: State, x: Item)
    requires Inv(s) && New(s.items, x)
    ensures Leads(s, s.(items := s.items + [x]))
  {
    Append(s.items, x, Acked(s.log));
    LeadsNowhere(s);
    var r := s.items + [x];
    assert forall i {:trigger s.items[i]} :: 0 <= i < |s.items| ==> r[i] == s.items[i] && Moved(s.items[i], r[i]);
    hide Acked, SafeLog, Distinct, AckedHeld, Sound, Moved;
  }

  lemma Changes(s: State, k: nat, y: Item)
    requires Inv(s) && k < |s.items| && Sound(y) && Moved(s.items[k], y)
    requires y.pending == ACKNOWLEDGED <==> s.items[k].pending == ACKNOWLEDGED
    ensures Leads(s, s.(items := s.items[k := y]))
  {
    Update(s.items, k, y, Acked(s.log));
    LeadsNowhere(s);
    var r := s.items[k := y];
    forall i {:trigger s.items[i]} | 0 <= i < |s.items|
      ensures Held(s.items[i], r)
    {
      assert Moved(s.items[i], r[i]);
    }
    hide Acked, SafeLog, Distinct, AckedHeld, Sound, Moved;
  }

  lemma Logs(s: State, e: Event)
    requires Inv(s) && Allowed(Acked(s.log), e) && (e.Wrote? || e.WrotePubrel?)
    ensures Leads(s, s.(log := s.log + [e]))
  {
  }

  lemma Acks(s: State, k: nat)
    requires Inv(s) && k < |s.items|
    ensures Leads(s, State(s.items[k := s.items[k].(pending := ACKNOWLEDGED)], s.log + [GotPubrec(s.items[k].id)]))
  {
    var e := GotPubrec(s.items[k].id);
    LogOne(s.log, e);
    Acknowledge(s.items, k, Acked(s.log));
    var r := s.items[k := s.items[k].(pending := ACKNOWLEDGED)];
    forall i {:trigger s.items[i]} | 0 <= i < |s.items|
      ensures Held(s.items[i], r)
    {
      assert Moved(s.items[i], r[i]);
    }
    hide Acked, SafeLog, Distinct, AckedHeld, Sound, Moved;
  }

  lemma Drops(s: State, k: nat)
    requires Inv(s) && k < |s.items|
    ensures Leads(s, State(RemoveAt(s.items, k), s.log + [Removed(s.items[k].id)]))
  {
    var e := Removed(s.items[k].id);
    LogOne(s.log, e);
    Removal(s.items, k, Acked(s.log));
    var r := RemoveAt(s.items, k);
    assert (s.log + [e])[|s.log|..] == [e];
    assert Gone([e]) == {s.items[k].id};
    hide RemoveAt;
    forall i {:trigger s.items[i]} | 0 <= i < |s.items| && i != k
      ensures Held(s.items[i], r)
    {
      assert Moved(s.items[i], r[if i < k then i else i - 1]);
    }
    hide Acked, SafeLog, Distinct, AckedHeld, Sound, Moved, Gone;
  }

  /** Searching for an identifier that only the item at k has. */
  lemma FindsOnly(items: seq<Item>, k: nat)
    requires Distinct(items) && k < |items| && items[k].id != 0
    ensures First(items, WithId(items[k].id)) == k
  {
    FirstAt(items, WithId(items[k].id), k);
  }

  lemma FindsNew(items: seq<Item>, x: Item)
    requires Fresh(items, x.id)
    ensures First(items + [x], WithId(x.id)) == |items|
  {
    FirstAt(items + [x], WithId(x.id), |items|);
  }

  lemma SetsPending(s: State, k: nat, pending: Pending)
    requires Inv(s) && k < |s.items| && s.items[k].id != 0
    requires Rank(s.items[k].pending) <= Rank(pending) < 2
    ensures SetPending(s.items, s.items[k].id, pending) == s.items[k := s.items[k].(pending := pending)]
    ensures Leads(s, s.(items := SetPending(s.items, s.items[k].id, pending)))
  {
    FindsOnly(s.items, k);
    var y := s.items[k].(pending := pending);
    assert Sound(y) && Moved(s.items[k], y);
    hide Inv, Sound, Moved, MarkDup;
    Changes(s, k, y);
  }

  lemma SetsTick(s: State, k: nat, tick: int)
    requires Inv(s) && k < |s.items| && s.items[k].id != 0
    ensures SetTick(s.items, s.items[k].id, tick) == s.items[k := s.items[k].(tick := tick)]
    ensures Leads(s, s.(items := SetTick(s.items, s.items[k].id, tick)))
  {
    FindsOnly(s.items, k);
    var y := s.items[k].(tick := tick);
    assert Sound(y) && Moved(s.items[k], y);
    hide Inv, Sound, Moved, MarkDup;
    Changes(s, k, y);
  }

  lemma Writes(s: State, k: nat, looped: bool)
    requires Inv(s) && k < |s.items| && s.items[k].pending != ACKNOWLEDGED && s.items[k].data != []
    requires looped && s.items[k].pending == TRANSMITTED && s.items[k].msgType == TYPE_PUBLISH && s.items[k].qos > 0 ==> Dup(s.items[k].data[0]) == 1
    ensures Leads(s, s.(log := s.log + [WroteItem(s.items[k], looped)]))
  {
  }

  lemma PublishLeads(s: State, x: Item, tried: bool, sent: bool, sentAt: int)
    requires Inv(s) && New(s.items, x) && x.id != 0
    ensures Leads(s, AfterPublish(s, x, tried, sent, sentAt))
  {
    assert x.data != [] && x.pending == QUEUED;
    hide Inv, Keeps, Gone, New, SetPending, SetTick;
    var n, t := |s.items|, s.(items := s.items + [x]);
    Stores(s, x);
    var u := if tried then t.(log := t.log + [WroteItem(x, false)]) else t;
    if tried {
      Writes(t, n, false);
      LeadsOn(s, t, u);
    }
    if sent {
      var v := u.(items := SetTick(u.items, x.id, sentAt));
      SetsTick(u, n, sentAt);
      LeadsOn(s, u, v);
      SetsPending(v, n, TRANSMITTED);
      LeadsOn(s, v, v.(items := SetPending(v.items, x.id, TRANSMITTED)));
    }
    assert s.log + [] == s.log;
  }

  lemma SubscribeLeads(s: State, x: Item)
    requires Inv(s) && New(s.items, x) && x.id != 0
    ensures Leads(s, AfterSubscribe(s, x))
  {
    assert x.data != [] && x.pending == QUEUED;
    hide Inv, Keeps, Gone, New, SetPending, SetTick;
    var n, t := |s.items|, s.(items := s.items + [x]);
    Stores(s, x);
    var u := t.(items := SetPending(t.items, x.id, TRANSMITTED));
    SetsPending(t, n, TRANSMITTED);
    LeadsOn(s, t, u);
    Writes(u, n, false);
    LeadsOn(s, u, AfterSubscribe(s, x));
  }

  lemma PubrecLeads(s: State, id: int)
    requires Inv(s)
    ensures Leads(s, AfterPubrec(s, id))
  {
    var k := First(s.items, WithId(id));
    FirstIsOldest(s.items, WithId(id));
    LeadsNowhere(s);
    hide Inv, Keeps, Gone;
    var t := if k < |s.items| then State(s.items[k := s.items[k].(pending := ACKNOWLEDGED)], s.log + [GotPubrec(id)]) else s;
    if k < |s.items| {
      Acks(s, k);
    } else {
      assert s.log + [] == s.log;
    }
    Logs(t, WrotePubrel(id, false));
    LeadsOn(s, t, AfterPubrec(s, id));
  }

  lemma RemoveLeads(s: State, test: Test)
    requires Inv(s)
    ensures Leads(s, Remove(s, test))
  {
    LeadsNowhere(s);
    if First(s.items, test) < |s.items| {
      Drops(s, First(s.items, test));
    }
  }

  lemma {:induction false} RemoveAllLeads(s: State, test: Test)
    requires Inv(s)
    ensures Leads(s, RemoveAll(s, test)) && RemoveAll(s, test).items == Without(s.items, test)
    decreases |s.items|
  {
    hide Inv, Keeps, Gone;
    LeadsNowhere(s);
    RemoveFirstThenAll(s.items, test);
    if First(s.items, test) < |s.items| {
      RemoveLeads(s, test);
      RemoveAllLeads(Remove(s, test), test);
      LeadsOn(s, Remove(s, test), RemoveAll(s, test));
    }
  }

  lemma ResendQueuedLeads(s: State, ok: bool)
    requires Inv(s)
    ensures Leads(s, AfterResendQueued(s, ok))
  {
    LeadsNowhere(s);
    var i := First(s.items, InState(QUEUED));
    if i < |s.items| {
      FirstIsOldest(s.items, InState(QUEUED));
      var x := s.items[i];
      assert Sound(x);
      hide Inv, Keeps, Gone, SetPending;
      var t := s.(log := s.log + [WroteItem(x, true)]);
      Writes(s, i, true);
      if ok && x.msgType == TYPE_PUBLISH && x.qos == 0 {
        Drops(t, i);
        LeadsOn(s, t, AfterResendQueued(s, ok));
      } else if ok && x.qos > 0 {
        SetsPending(t, i, TRANSMITTED);
        LeadsOn(s, t, AfterResendQueued(s, ok));
      }
    }
  }

  lemma MarkDupSound(x: Item)
    requires Sound(x) && x.pending == TRANSMITTED
    ensures Sound(MarkDup(x)) && Moved(x, MarkDup(x)) && Dup(MarkDup(x).data[0]) == 1
  {
    DupBit(x.data[0]);
    hide SetDup, MessageType, Dup;
  }

  lemma RetransmitLeads(s: State, now: int, timeout: int)
    requires Inv(s)
    ensures Leads(s, AfterRetransmit(s, now, timeout))
  {
    LeadsNowhere(s);
    var i := First(s.items, InState(TRANSMITTED));
    if i < |s.items| && now - s.items[i].tick > timeout {
      FirstIsOldest(s.items, InState(TRANSMITTED));
      var x := if s.items[i].msgType == TYPE_PUBLISH && s.items[i].qos > 0 then MarkDup(s.items[i]) else s.items[i];
      assert Sound(s.items[i]);
      MarkDupSound(s.items[i]);
      assert Moved(s.items[i], s.items[i]);
      assert x.data != [];
      var t := s.(items := s.items[i := x]);
      hide Inv, Keeps, Gone, Sound, Moved, Dup;
      Changes(s, i, x);
      Writes(t, i, true);
      LeadsOn(s, t, AfterRetransmit(s, now, timeout));
    }
  }

  lemma RetransmitPubrelLeads(s: State, now: int, timeout: int)
    requires Inv(s)
    ensures Leads(s, AfterRetransmitPubrel(s, now, timeout))
  {
    LeadsNowhere(s);
    var i := First(s.items, InState(ACKNOWLEDGED));
    if i < |s.items| {
      FirstIsOldest(s.items, InState(ACKNOWLEDGED));
      Logs(s, WrotePubrel(s.items[i].id, true));
    }
  }

  /** Every step keeps the invariant, and no item goes back, changes or vanishes unlogged. */
  lemma StepLeads(s: State, step: Step)
    requires Inv(s) && Possible(s, step)
    ensures Leads(s, After(s, step))
  {
    LeadsNowhere(s);
    hide Inv, Leads, AfterPublish, AfterSubscribe, AfterPubrec, AfterResendQueued, AfterRetransmit, AfterRetransmitPubrel, RemoveAll;
    match step
    case Publish(x, tried, sent, sentAt) => PublishLeads(s, x, tried, sent, sentAt);
    case Enqueue(x) => Stores(s, x);
    case Subscribe(x) => SubscribeLeads(s, x);
    case Pubrec(id) => PubrecLeads(s, id);
    case Acknowledged(id, msgType) => RemoveLeads(s, WithIdAndType(id, msgType));
    case ResendQueued(ok) => ResendQueuedLeads(s, ok);
    case Retransmit(now, timeout) => RetransmitLeads(s, now, timeout);
    case RetransmitPubrel(now, timeout) => RetransmitPubrelLeads(s, now, timeout);
    case Expire(now, timeout) => RemoveAllLeads(s, Expired(now, timeout));
    case Reconnect =>
    case Stop => RemoveAllLeads(s, (x: Item) => true);
  }

  /** All steps are possible, one after the other. */
  predicate Runs(s: State, steps: seq<Step>)
    requires Inv(s)
    decreases |steps|
  {
    steps == [] || (Possible(s, steps[0]) && (StepLeads(s, steps[0]); Runs(After(s, steps[0]), steps[1..])))
  }

  function Run(s: State, steps: seq<Step>): State
    requires Inv(s) && Runs(s, steps)
    decreases |steps|
  {
    if steps == [] then s else StepLeads(s, steps[0]); Run(After(s, steps[0]), steps[1..])
  }

  /** Over every run: the invariant holds, no state goes back, and no item changes or vanishes unlogged. */
  lemma {:induction false} RunLeads(s: State, steps: seq<Step>)
    requires Inv(s) && Runs(s, steps)
    ensures Leads(s, Run(s, steps))
    decreases |steps|
  {
    hide Inv, After, Possible, Keeps;
    if steps == [] {
      LeadsNowhere(s);
    } else {
      StepLeads(s, steps[0]);
      RunLeads(After(s, steps[0]), steps[1..]);
      LeadsOn(s, After(s, steps[0]), Run(s, steps));
    }
  }

  lemma StartHolds()
    ensures Inv(START)
  {
  }

  /** A run that begins with an empty outbox, and the state it ends in. */
  predicate RunsFromStart(steps: seq<Step>) {
    StartHolds();
    Runs(START, steps)
  }

  function FromStart(steps: seq<Step>): State
    requires RunsFromStart(steps)
  {
    StartHolds();
    Run(START, steps)
  }

  /** An identifier stays acknowledged until its item leaves. */
  lemma {:induction false} AckedUntilRemoved(log: seq<Event>, i: nat, j: nat, id: int)
    requires i < j <= |log| && log[i] == GotPubrec(id)
    requires forall k :: i < k < j ==> log[k] != Removed(id)
    ensures id in Acked(log[..j])
    decreases j
  {
    assert log[..j][..j - 1] == log[..j - 1];
    if i < j - 1 {
      AckedUntilRemoved(log, i, j - 1, id);
    }
  }

  /** Only a PUBREC makes an identifier acknowledged. */
  lemma {:induction false} AckedSince(log: seq<Event>, id: int)
    requires id in Acked(log)
    ensures exists i :: 0 <= i < |log| && log[i] == GotPubrec(id)
    decreases |log|
  {
    var init := log[..|log| - 1];
    if log[|log| - 1] != GotPubrec(id) {
      AckedSince(init, id);
      var i :| 0 <= i < |init| && init[i] == GotPubrec(id);
      assert log[i] == GotPubrec(id);
    }
  }

  /**
   QoS 2 safety over every run: once a PUBREC has come in, no packet with its identifier is written again
   until the item has left the outbox.
   */
  lemma SilentOnceAcknowledged(steps: seq<Step>, i: nat, j: nat, id: int)
    requires RunsFromStart(steps)
    requires id != 0 && i < j < |FromStart(steps).log|
    requires FromStart(steps).log[i] == GotPubrec(id)
    requires FromStart(steps).log[j].Wrote? && FromStart(steps).log[j].id == id
    ensures exists k :: i < k < j && FromStart(steps).log[k] == Removed(id)
  {
    StartHolds();
    RunLeads(START, steps);
    var log := FromStart(steps).log;
    SafeLogMeans(log, j);
    hide Inv, Runs, Run;
    if forall k :: i < k < j ==> log[k] != Removed(id) {
      AckedUntilRemoved(log, i, j, id);
    }
  }

  /** The client loop resends a QoS > 0 publish with DUP exactly when it was transmitted before; only for acknowledged ones it sends PUBREL. */
  lemma DupExactlyWhenTransmitted(steps: seq<Step>, j: nat)
    requires RunsFromStart(steps) && j < |FromStart(steps).log|
    ensures var e := FromStart(steps).log[j];
            && (e.Wrote? && e.looped && MessageType(e.first) == TYPE_PUBLISH && e.qos > 0 ==>
                  (e.state == QUEUED && Dup(e.first) == 0) || (e.state == TRANSMITTED && Dup(e.first) == 1))
            && (e.WrotePubrel? && e.looped && e.id != 0 ==> exists i :: 0 <= i < j && FromStart(steps).log[i] == GotPubrec(e.id))
  {
    StartHolds();
    RunLeads(START, steps);
    var log := FromStart(steps).log;
    SafeLogMeans(log, j);
    hide Inv, Runs, Run, Dup, MessageType;
    if log[j].WrotePubrel? && log[j].looped && log[j].id != 0 {
      AckedSince(log[..j], log[j].id);
      var i :| 0 <= i < j && log[..j][i] == GotPubrec(log[j].id);
      assert log[i] == GotPubrec(log[j].id);
    }
  }

  /** Identifiers removed between an earlier and a later state of a run. */
  function GoneBetween(s: State, t: State): set<int> {
    if |s.log| <= |t.log| then Gone(t.log[|s.log|..]) else {}
  }

  /** An item seen at one point of a run is found later with the same message and no earlier state, unless its removal was logged. */
  lemma StatesOnlyAdvance(s: State, steps: seq<Step>, x: Item)
    requires Inv(s) && Runs(s, steps)
    requires x in s.items && x.id != 0 && x.id !in GoneBetween(s, Run(s, steps))
    ensures Held(x, Run(s, steps).items)
  {
    RunLeads(s, steps);
    hide Run, Runs, Inv;
  }

  /** The identifier whose first holder this step marks as transmitted. */
  function Marks(s: State, step: Step): Option<int> {
    match step
    case Publish(x, _, sent, _) => if sent then Some(x.id) else None
    case Subscribe(x) => Some(x.id)
    case ResendQueued(ok) =>
      var i := First(s.items, InState(QUEUED));
      if ok && i < |s.items| && s.items[i].qos > 0 then Some(s.items[i].id) else None
    case _ => None
  }

  /** Some stored item has an earlier state than before; all are still there. */
  predicate GoesBack(items: seq<Item>, after: seq<Item>) {
    |items| <= |after| && exists k {:trigger items[k]} :: 0 <= k < |items| && Rank(after[k].pending) < Rank(items[k].pending)
  }

  lemma MarkedBack(items: seq<Item>, more: seq<Item>, id: int)
    requires First(items, WithId(id)) < |items| || (more != [] && more[0].id == id)
    ensures var i := First(items, WithId(id));
            && i < |items + more| && SetPending(items + more, id, TRANSMITTED) == (items + more)[i := (items + more)[i].(pending := TRANSMITTED)]
            && (GoesBack(items, SetPending(items + more, id, TRANSMITTED)) <==> i < |items| && Rank(items[i].pending) >= 2)
  {
    var i, all := First(items, WithId(id)), items + more;
    FirstIsOldest(items, WithId(id));
    FirstAt(all, WithId(id), i);
    var after := all[i := all[i].(pending := TRANSMITTED)];
    assert forall k {:trigger items[k]} :: 0 <= k < |items| && k != i ==> after[k] == items[k];
    hide First;
  }

  /**
   Without the assumption of fresh identifiers: a publish, a subscription or a resend turns a stored item back if and
   only if the identifier it marks is held first by an item that has its PUBREC.
   */
  lemma GoesBackExactlyWhenReused(s: State, step: Step)
    requires step.Publish? || step.Subscribe? || step.ResendQueued?
    ensures var id := Marks(s, step);
            GoesBack(s.items, After(s, step).items) <==>
              id.Some? && var i := First(s.items, WithId(id.value)); i < |s.items| && Rank(s.items[i].pending) >= 2
  {
    hide GoesBack, SetPending, SetTick;
    match step
    case Publish(x, tried, sent, sentAt) => PublishBack(s.items, x, sentAt); StoringKeeps(s.items, x);
    case Subscribe(x) => MarkedBack(s.items, [x], x.id);
    case ResendQueued(ok) => ResendBack(s, ok);
  }

  lemma StoringKeeps(items: seq<Item>, x: Item)
    ensures !GoesBack(items, items + [x]) && !GoesBack(items, items)
  {
  }

  lemma PublishBack(items: seq<Item>, x: Item, sentAt: int)
    ensures var i := First(items, WithId(x.id));
            GoesBack(items, SetPending(SetTick(items + [x], x.id, sentAt), x.id, TRANSMITTED)) <==> i < |items| && Rank(items[i].pending) >= 2
  {
    var i, all := First(items, WithId(x.id)), items + [x];
    FirstIsOldest(items, WithId(x.id));
    FirstAt(all, WithId(x.id), i);
    var ticked := all[i := all[i].(tick := sentAt)];
    FirstAt(ticked, WithId(x.id), i);
    var after := ticked[i := ticked[i].(pending := TRANSMITTED)];
    assert forall k {:trigger items[k]} :: 0 <= k < |items| && k != i ==> after[k] == items[k];
    hide First;
  }

  lemma ResendBack(s: State, ok: bool)
    ensures var id := Marks(s, ResendQueued(ok));
            GoesBack(s.items, AfterResendQueued(s, ok).items) <==>
              id.Some? && var i := First(s.items, WithId(id.value)); i < |s.items| && Rank(s.items[i].pending) >= 2
  {
    var i := First(s.items, InState(QUEUED));
    StoringKeeps(s.items, Item(0, 0, 0, 0, QUEUED, []));
    if ok && i < |s.items| && s.items[i].qos > 0 {
      var id := s.items[i].id;
      if First(s.items, WithId(id)) == |s.items| {
        FirstIsOldest(s.items, WithId(id));
      }
      assert s.items + [] == s.items;
      MarkedBack(s.items, [], id);
    }
  }

  /** For one, a publish under the identifier of an acknowledged message. */
  lemma ReusedIdentifierGoesBack(s: State, x: Item, y: Item, sentAt: int)
    requires s.items == [x] && x.pending == ACKNOWLEDGED && y.id == x.id
    ensures GoesBack(s.items, After(s, Publish(y, true, true, sentAt)).items)
  {
    GoesBackExactlyWhenReused(s, Publish(y, true, true, sentAt));
  }
}
