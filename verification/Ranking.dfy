/** The strongest neighbors, picked from the table for the message to the visualization server. */
module Ranking {
  import opened Bytes
  import opened Neighbors

  const TOP := 8

  datatype Entry = Entry(mac: Mac, rssi: int8)

  const EMPTY := Entry([0, 0, 0, 0, 0, 0], NO_RSSI)

  /** get_neighbor_count */
  function ActiveCount(s: seq<Slot>): (n: nat)
    ensures n <= |s|
  {
    if s == [] then 0 else ActiveCount(s[..|s| - 1]) + if s[|s| - 1].active then 1 else 0
  }

  function ActiveSlots(s: seq<Slot>): set<nat> {
    set i: nat {:trigger s[i]} | i < |s| && s[i].active
  }

  lemma {:induction false} ActiveCountIs(s: seq<Slot>)
    ensures ActiveCount(s) == |ActiveSlots(s)|
    decreases |s|
  {
    if s != [] {
      var n := |s| - 1;
      ActiveCountIs(s[..n]);
      assert ActiveSlots(s) == ActiveSlots(s[..n]) + if s[n].active then {n} else {};
    }
  }

  method CountActive(slots: array<Slot>) returns (count: nat)
    ensures count == ActiveCount(slots[..]) == |ActiveSlots(slots[..])|
  {
    ActiveCountIs(slots[..]);
    hide ActiveSlots;
    count := 0;
    for i := 0 to slots.Length
      invariant count == ActiveCount(slots[..i])
    {
      assert slots[..i + 1][..i] == slots[..i];
      if slots[i].active {
        count := count + 1;
      }
    }
    assert slots[..slots.Length] == slots[..];
  }

  /** The entry shows an active neighbor. */
  predicate Shows(s: seq<Slot>, e: Entry) {
    exists i {:trigger s[i]} :: 0 <= i < |s| && s[i].active && e == Entry(s[i].mac, s[i].rssi)
  }

  predicate Listed(top: seq<Entry>, mac: Mac) {
    exists k {:trigger top[k]} :: 0 <= k < |top| && top[k].mac == mac
  }

  /**
   A ranking of table s: distinct active neighbors, strongest first, and no neighbor left out is stronger than one
   that is in.
   */
  predicate Ranks(s: seq<Slot>, top: seq<Entry>) {
    && (forall k {:trigger top[k]} :: 0 <= k < |top| ==> Shows(s, top[k]))
    && (forall j, k :: 0 <= j < k < |top| ==> top[j].mac != top[k].mac && top[j].rssi >= top[k].rssi)
    && (forall i, k {:trigger s[i], top[k]} :: 0 <= i < |s| && 0 <= k < |top| && s[i].active && !Listed(top, s[i].mac) ==> s[i].rssi <= top[k].rssi)
  }

  /** Entry i is already among the ones chosen so far. */
  method AlreadyIncluded(top: array<Entry>, n: nat, mac: Mac) returns (included: bool)
    requires n <= top.Length
    ensures included <==> Listed(top[..n], mac)
  {
    included := false;
    for k := 0 to n
      invariant !included
      invariant forall j {:trigger top[j]} :: 0 <= j < k ==> top[j].mac != mac
    {
      if top[k].mac == mac {
        assert top[..n][k].mac == mac;
        included := true;
        break;
      }
    }
  }

  /** One turn of the selection: the strongest active slot not chosen yet, or -1. */
  method BestRemaining(slots: array<Slot>, top: array<Entry>, n: nat) returns (best: int)
    requires n <= top.Length
    ensures best == -1 || (0 <= best < slots.Length && slots[best].active && !Listed(top[..n], slots[best].mac))
    ensures forall j {:trigger slots[j]} :: 0 <= j < slots.Length && slots[j].active && !Listed(top[..n], slots[j].mac) ==>
              slots[j].rssi <= if best >= 0 then slots[best].rssi else NO_RSSI
  {
    best := -1;
    var bestRssi := NO_RSSI;
    for j := 0 to slots.Length
      invariant best == -1 || (0 <= best < j && slots[best].active && !Listed(top[..n], slots[best].mac))
      invariant bestRssi == if best >= 0 then slots[best].rssi else NO_RSSI
      invariant forall i {:trigger slots[i]} :: 0 <= i < j && slots[i].active && !Listed(top[..n], slots[i].mac) ==> slots[i].rssi <= bestRssi
    {
      if slots[j].active && slots[j].rssi > bestRssi {
        var included := AlreadyIncluded(top, n, slots[j].mac);
        if !included {
          bestRssi := slots[j].rssi;
          best := j;
        }
      }
    }
  }

  function ActiveMacs(s: seq<Slot>): set<Mac> {
    if s == [] then {} else ActiveMacs(s[..|s| - 1]) + if s[|s| - 1].active then {s[|s| - 1].mac} else {}
  }

  lemma {:induction false} ActiveMacsAre(s: seq<Slot>, mac: Mac)
    ensures mac in ActiveMacs(s) <==> exists i {:trigger s[i]} :: 0 <= i < |s| && s[i].active && s[i].mac == mac
    decreases |s|
  {
    if s != [] {
      var t := s[..|s| - 1];
      ActiveMacsAre(t, mac);
      if mac in ActiveMacs(t) {
        var i :| 0 <= i < |t| && t[i].active && t[i].mac == mac;
        assert s[i].active && s[i].mac == mac;
      }
      if i :| 0 <= i < |s| && s[i].active && s[i].mac == mac {
        if i < |t| {
          assert t[i].active && t[i].mac == mac;
        }
      }
    }
  }

  lemma {:induction false} ActiveMacsCount(s: seq<Slot>)
    requires DistinctMacs(s)
    ensures |ActiveMacs(s)| == ActiveCount(s)
    decreases |s|
  {
    if s != [] {
      var t, x := s[..|s| - 1], s[|s| - 1];
      ActiveMacsCount(t);
      ActiveMacsAre(t, x.mac);
      assert forall i {:trigger t[i]} :: 0 <= i < |t| && t[i].active && x.active ==> t[i] == s[i] && t[i].mac != x.mac;
    }
  }

  function TopMacs(top: seq<Entry>): set<Mac> {
    if top == [] then {} else TopMacs(top[..|top| - 1]) + {top[|top| - 1].mac}
  }

  lemma {:induction false} TopMacsAre(top: seq<Entry>, mac: Mac)
    ensures mac in TopMacs(top) <==> Listed(top, mac)
    ensures |TopMacs(top)| <= |top|
    decreases |top|
  {
    if top != [] {
      var t := top[..|top| - 1];
      TopMacsAre(t, mac);
      if Listed(t, mac) {
        var k :| 0 <= k < |t| && t[k].mac == mac;
        assert top[k].mac == mac;
      }
      if k :| 0 <= k < |top| && top[k].mac == mac {
        if k < |t| {
          assert t[k].mac == mac;
        } else {
          assert top[|top| - 1].mac == mac;
        }
      }
    }
  }

  /** Fewer entries than active neighbors leave one out. */
  lemma SomeLeft(s: seq<Slot>, top: seq<Entry>)
    requires DistinctMacs(s) && |top| < ActiveCount(s)
    ensures exists i {:trigger s[i]} :: 0 <= i < |s| && s[i].active && !Listed(top, s[i].mac)
  {
    ActiveMacsCount(s);
    TopMacsAre(top, EMPTY.mac);
    if ActiveMacs(s) <= TopMacs(top) {
      SubsetSize(ActiveMacs(s), TopMacs(top));
    } else {
      var mac :| mac in ActiveMacs(s) && mac !in TopMacs(top);
      ActiveMacsAre(s, mac);
      TopMacsAre(top, mac);
    }
  }

  lemma {:induction false} SubsetSize(a: set<Mac>, b: set<Mac>)
    requires a <= b
    ensures |a| <= |b|
    decreases |b|
  {
    if b != {} {
      var x :| x in b;
      SubsetSize(a - {x}, b - {x});
    }
  }

  /** A ranking of all of them leaves none out. */
  lemma NoneLeft(s: seq<Slot>, top: seq<Entry>, i: nat)
    requires DistinctMacs(s) && Ranks(s, top) && |top| == ActiveCount(s)
    requires i < |s| && s[i].active
    ensures Listed(top, s[i].mac)
  {
    if !Listed(top, s[i].mac) {
      var extra := top + [Entry(s[i].mac, s[i].rssi)];
      TopSize(extra);
      forall mac | mac in TopMacs(extra)
        ensures mac in ActiveMacs(s)
      {
        TopMacsAre(extra, mac);
        var k :| 0 <= k < |extra| && extra[k].mac == mac;
        if k < |top| {
          assert Shows(s, top[k]);
        }
        ActiveMacsAre(s, mac);
      }
      SubsetSize(TopMacs(extra), ActiveMacs(s));
      ActiveMacsCount(s);
    }
  }

  lemma {:induction false} TopSize(top: seq<Entry>)
    requires forall j, k :: 0 <= j < k < |top| ==> top[j].mac != top[k].mac
    ensures |TopMacs(top)| == |top|
    decreases |top|
  {
    if top != [] {
      TopSize(top[..|top| - 1]);
      TopMacsAre(top[..|top| - 1], top[|top| - 1].mac);
    }
  }

  lemma ListedLater(top: seq<Entry>, e: Entry)
    ensures forall mac {:trigger Listed(top + [e], mac)} :: Listed(top, mac) || e.mac == mac ==> Listed(top + [e], mac)
  {
    var r := top + [e];
    assert r[|top|] == e;
    assert forall k {:trigger top[k]} :: 0 <= k < |top| ==> r[k] == top[k];
  }

  /** The next best neighbor extends the ranking. */
  lemma ExtendRanking(s: seq<Slot>, top: seq<Entry>, best: nat)
    requires Ranks(s, top) && best < |s| && s[best].active && !Listed(top, s[best].mac)
    requires forall j {:trigger s[j]} :: 0 <= j < |s| && s[j].active && !Listed(top, s[j].mac) ==> s[j].rssi <= s[best].rssi
    ensures Ranks(s, top + [Entry(s[best].mac, s[best].rssi)])
  {
    var e := Entry(s[best].mac, s[best].rssi);
    var r := top + [e];
    assert Shows(s, e);
    ListedLater(top, e);
    assert forall k {:trigger top[k]} :: 0 <= k < |top| ==> r[k] == top[k] && top[k].mac != e.mac && top[k].rssi >= e.rssi;
    forall i, k {:trigger s[i], r[k]} | 0 <= i < |s| && 0 <= k < |r| && s[i].active && !Listed(r, s[i].mac)
      ensures s[i].rssi <= r[k].rssi
    {
      assert !Listed(top, s[i].mac);
    }
  }

  method PickNext(table: NeighborTable, top: array<Entry>, i: nat)
    requires table.Valid() && i < top.Length && i < ActiveCount(table.slots[..])
    requires Ranks(table.slots[..], top[..i])
    modifies top
    ensures Ranks(table.slots[..], top[..i + 1])
  {
    ghost var s, before := table.slots[..], top[..i];
    SomeLeft(s, before);
    var best := BestRemaining(table.slots, top, i);
    if best >= 0 {
      ExtendRanking(s, before, best);
      top[i] := Entry(table.slots[best].mac, table.slots[best].rssi);
      assert top[..i + 1] == before + [top[i]];
    } else {
      // the entry would be cleared
      assert false;
    }
  }

  /** The neighbor part of prepare_udp_message. Whatever the table size, the branch for "none left" is never taken. */
  method RankNeighbors(table: NeighborTable, top: array<Entry>) returns (count: nat)
    requires table.Valid() && top.Length == TOP
    modifies top
    ensures count == if ActiveCount(table.slots[..]) < TOP then ActiveCount(table.slots[..]) else TOP
    ensures count == if |ActiveSlots(table.slots[..])| < 8 then |ActiveSlots(table.slots[..])| else 8
    ensures Ranks(table.slots[..], top[..count])
    ensures forall k {:trigger top[k]} :: count <= k < TOP ==> top[k] == EMPTY
    ensures ActiveCount(table.slots[..]) <= TOP ==>
              forall i {:trigger table.slots[i]} :: 0 <= i < table.slots.Length && table.slots[i].active ==> Listed(top[..count], table.slots[i].mac)
  {
    ghost var s := table.slots[..];
    hide ActiveSlots;
    var neighborCount := CountActive(table.slots);
    count := if neighborCount < TOP then neighborCount else TOP;
    for i := 0 to count
      invariant Ranks(s, top[..i])
    {
      PickNext(table, top, i);
    }
    ghost var picked := top[..count];
    for i := count to TOP
      invariant top[..count] == picked
      invariant forall k {:trigger top[k]} :: count <= k < i ==> top[k] == EMPTY
    {
      top[i] := EMPTY;
    }
    if neighborCount <= TOP {
      forall i {:trigger s[i]} | 0 <= i < |s| && s[i].active
        ensures Listed(picked, s[i].mac)
      {
        NoneLeft(s, picked, i);
      }
    }
  }
}
