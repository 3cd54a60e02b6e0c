/** How long a neighbor stays: the table over whole runs of observations, status receptions and cleanups, in true time. */
module NeighborRuns {
  import opened Bytes
  import opened Neighbors
  import LocalStatus

  datatype Event =
    | Observed(time: nat, mac: Mac, rssi: int8)
    | Received(time: nat, mac: Mac, status: Status, rssi: int8, seen: uint32)   // an accepted status message
    | CleanedUp(time: nat)

  /** The time as the firmware sees it. */
  function Low32(t: nat): uint32 { t % 0x1_0000_0000 }

  function After(s: seq<Slot>, self: Mac, e: Event): (r: seq<Slot>)
    requires s != []
    ensures |r| == |s|
  {
    match e
    case Observed(t, mac, rssi) => Updated(s, self, mac, rssi, Low32(t))
    case Received(t, mac, status, rssi, seen) => LocalStatus.Stored(Updated(s, self, mac, rssi, seen), mac, status, Low32(t))
    case CleanedUp(t) => Cleaned(s, Low32(t))
  }

  function AfterAll(s: seq<Slot>, self: Mac, events: seq<Event>): (r: seq<Slot>)
    requires s != []
    ensures |r| == |s|
    decreases |events|
  {
    if events == [] then s else After(AfterAll(s, self, events[..|events| - 1]), self, events[|events| - 1])
  }

  predicate Hears(e: Event, mac: Mac) {
    !e.CleanedUp? && e.mac == mac
  }

  /** Event k is the last one heard from this address. */
  predicate LastHeard(events: seq<Event>, mac: Mac, k: nat) {
    k < |events| && Hears(events[k], mac) && forall j {:trigger events[j]} :: k < j < |events| ==> !Hears(events[j], mac)
  }

  /** An address in the table was heard, and its entry has the time it was last heard. */
  ghost predicate Dated(s: seq<Slot>, events: seq<Event>) {
    forall i {:trigger s[i]} :: 0 <= i < |s| && s[i].active ==>
      exists k: nat {:trigger events[k]} :: LastHeard(events, s[i].mac, k) && s[i].lastSeen == Low32(events[k].time)
  }

  /** What an event does to an entry. */
  lemma EntryAfter(s: seq<Slot>, self: Mac, last: map<Mac, Status>, e: Event, i: nat)
    requires s != [] && i < |s| && TableInv(s, self) && Provenance(s, last)
    ensures var x := After(s, self, e)[i];
            x.active ==> if Hears(e, x.mac) then x.lastSeen == Low32(e.time) else s[i].active && s[i].mac == x.mac && s[i].lastSeen == x.lastSeen
  {
    hide LocalStatus.Stored, Updated, TableInv, Provenance, Low32;
    match e
    case Observed(t, mac, rssi) => UpdateRefreshes(s, self, mac, rssi, Low32(t), i);
    case Received(t, mac, status, rssi, seen) => LocalStatus.StoredShows(s, self, last, mac, status, rssi, seen, Low32(t), i);
    case CleanedUp(t) => assert Cleaned(s, Low32(t))[i] == Expire(s[i], Low32(t));
  }

  /** Every event keeps the table invariant and the provenance of the states. */
  lemma EventKeeps(s: seq<Slot>, self: Mac, last: map<Mac, Status>, e: Event) returns (next: map<Mac, Status>)
    requires s != [] && TableInv(s, self) && Provenance(s, last)
    ensures TableInv(After(s, self, e), self) && Provenance(After(s, self, e), next)
  {
    hide TableInv, Provenance, Updated, Cleaned;
    next := last;
    match e
    case Observed(t, mac, rssi) => UpdateKeeps(s, self, mac, rssi, Low32(t), last);
    case Received(t, mac, status, rssi, seen) =>
      UpdateKeeps(s, self, mac, rssi, seen, last);
      StatusKeeps(Updated(s, self, mac, rssi, seen), self, mac, status, Low32(t), last);
      next := last[mac := status];
    case CleanedUp(t) => CleanupKeeps(s, self, Low32(t), last);
  }

  lemma EventDates(s: seq<Slot>, self: Mac, last: map<Mac, Status>, events: seq<Event>, e: Event)
    requires s != [] && TableInv(s, self) && Provenance(s, last) && Dated(s, events)
    ensures Dated(After(s, self, e), events + [e])
  {
    hide TableInv, Provenance, After, Low32;
    var r, all := After(s, self, e), events + [e];
    assert all[|events|] == e;
    forall i {:trigger r[i]} | 0 <= i < |r| && r[i].active
      ensures exists k: nat {:trigger all[k]} :: LastHeard(all, r[i].mac, k) && r[i].lastSeen == Low32(all[k].time)
    {
      EntryAfter(s, self, last, e, i);
      if Hears(e, r[i].mac) {
        assert LastHeard(all, r[i].mac, |events|);
      } else {
        var k: nat :| LastHeard(events, s[i].mac, k) && s[i].lastSeen == Low32(events[k].time);
        assert all[k] == events[k] && LastHeard(all, r[i].mac, k);
      }
    }
  }

  lemma {:induction false} RunDates(s: seq<Slot>, self: Mac, events: seq<Event>) returns (last: map<Mac, Status>)
    requires s != [] && forall i {:trigger s[i]} :: 0 <= i < |s| ==> !s[i].active
    ensures var r := AfterAll(s, self, events); TableInv(r, self) && Provenance(r, last) && Dated(r, events)
    decreases |events|
  {
    if events == [] {
      last := map[];
    } else {
      var before, e := events[..|events| - 1], events[|events| - 1];
      last := RunDates(s, self, before);
      hide TableInv, Provenance, Dated, After;
      EventDates(AfterAll(s, self, before), self, last, before, e);
      last := EventKeeps(AfterAll(s, self, before), self, last, e);
      assert before + [e] == events;
    }
  }

  /** Over every run from an empty table: every address in the table was heard. */
  lemma ListedWasHeard(s: seq<Slot>, self: Mac, events: seq<Event>, i: nat)
    requires s != [] && (forall j {:trigger s[j]} :: 0 <= j < |s| ==> !s[j].active)
    requires i < |s| && AfterAll(s, self, events)[i].active
    ensures exists k: nat {:trigger events[k]} :: LastHeard(events, AfterAll(s, self, events)[i].mac, k)
  {
    var _ := RunDates(s, self, events);
    hide AfterAll;
  }

  lemma SeenWhenLastHeard(s: seq<Slot>, events: seq<Event>, i: nat, k: nat)
    requires Dated(s, events) && i < |s| && s[i].active && LastHeard(events, s[i].mac, k)
    ensures s[i].lastSeen == Low32(events[k].time)
  {
    var u: nat :| LastHeard(events, s[i].mac, u) && s[i].lastSeen == Low32(events[u].time);
    assert !(k < u) && !(u < k);
  }

  lemma CleanupComesLast(s: seq<Slot>, self: Mac, events: seq<Event>, now: nat, i: nat)
    requires s != [] && i < |s|
    ensures AfterAll(s, self, events + [CleanedUp(now)])[i] == Expire(AfterAll(s, self, events)[i], Low32(now))
  {
    var all := events + [CleanedUp(now)];
    assert all[..|events|] == events;
  }

  /**
   And when it was last heard, by observation or by status, as event k, a cleanup less than a wrap later removes it
   exactly when that is more than 5000 ms ago.
   */
  lemma ExpiresExactly(s: seq<Slot>, self: Mac, events: seq<Event>, now: nat, i: nat, k: nat)
    requires s != [] && (forall j {:trigger s[j]} :: 0 <= j < |s| ==> !s[j].active)
    requires i < |s| && AfterAll(s, self, events)[i].active && LastHeard(events, AfterAll(s, self, events)[i].mac, k)
    requires events[k].time <= now < events[k].time + 0x1_0000_0000
    ensures AfterAll(s, self, events + [CleanedUp(now)])[i].active <==> now - events[k].time <= 5000
  {
    hide AfterAll, TableInv, Provenance, Dated, Low32;
    var _ := RunDates(s, self, events);
    SeenWhenLastHeard(AfterAll(s, self, events), events, i, k);
    CleanupComesLast(s, self, events, now, i);
    TrueAge(now, events[k].time);
  }

  lemma TrueAge(now: nat, heard: nat)
    requires heard <= now < heard + 0x1_0000_0000
    ensures Elapsed(Low32(now), Low32(heard)) == now - heard
  {
  }
}
