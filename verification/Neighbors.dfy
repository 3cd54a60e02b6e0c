/** The bounded table of neighbors: kept by signal strength, refreshed, evicted and expired in place. */
module Neighbors {
  import opened Bytes

  const RSSI_THRESHOLD: int8 := -80
  const NEIGHBOR_TIMEOUT_MS := 5000
  const NO_RSSI: int8 := -127

  /** The fields of a neighbor's state that a local status message carries. */
  datatype Status = Status(state: byte, val: byte, temperature: uint16, presence: byte, distance: uint32, timestamp: uint32, vseq: uint32)

  const NO_STATUS := Status(0, 0, 0, 0, 0, 0, 0)

  datatype Slot = Slot(active: bool, hasState: bool, mac: Mac, rssi: int8, lastSeen: uint32, status: Status)

  /** Index of the active slot with this address, or the table size. */
  function IndexOf(s: seq<Slot>, mac: Mac): (i: nat)
    ensures i <= |s|
    ensures i < |s| ==> s[i].active && s[i].mac == mac
  {
    if s == [] || (s[0].active && s[0].mac == mac) then 0 else 1 + IndexOf(s[1..], mac)
  }

  function FirstFree(s: seq<Slot>): (i: nat)
    ensures i <= |s|
    ensures i < |s| ==> !s[i].active
  {
    if s == [] || !s[0].active then 0 else 1 + FirstFree(s[1..])
  }

  /** Index of the weakest slot, the first of several. */
  function Weakest(s: seq<Slot>): (i: nat)
    requires s != []
    ensures i < |s|
  {
    if |s| == 1 then 0
    else
      var w := Weakest(s[..|s| - 1]);
      if s[|s| - 1].rssi < s[w].rssi then |s| - 1 else w
  }

  function NewSlot(was: Slot, mac: Mac, rssi: int8, now: uint32): Slot {
    was.(active := true, hasState := false, mac := mac, rssi := rssi, lastSeen := now)
  }

  /** The table after one observation. */
  function Updated(s: seq<Slot>, self: Mac, mac: Mac, rssi: int8, now: uint32): (r: seq<Slot>)
    requires s != []
    ensures |r| == |s|
  {
    var i := IndexOf(s, mac);
    var free := FirstFree(s);
    var w := Weakest(s);
    if mac == self then s
    else if rssi < RSSI_THRESHOLD then (if i < |s| then s[i := s[i].(lastSeen := now)] else s)
    else if i < |s| then s[i := s[i].(rssi := rssi, lastSeen := now)]
    else if free < |s| then s[free := NewSlot(s[free], mac, rssi, now)]
    else if rssi > s[w].rssi then s[w := NewSlot(s[w], mac, rssi, now)]
    else s
  }

  /** Slots other than those of this address stay; its own slot is refreshed, and the strength kept when too weak. */
  lemma UpdateRefreshes(s: seq<Slot>, self: Mac, mac: Mac, rssi: int8, now: uint32, i: nat)
    requires i < |s| && TableInv(s, self)
    ensures var x := Updated(s, self, mac, rssi, now)[i];
            && (x == s[i] || (x.active && x.mac == mac && mac != self))
            && (x.active && x.mac == mac ==> x.lastSeen == now && (rssi >= -80 ==> x.rssi == rssi))
            && (s[i].active && s[i].mac == mac ==>
                  x == s[i].(lastSeen := now, rssi := if rssi >= -80 then rssi else s[i].rssi))
  {
    var k := IndexOf(s, mac);
    if s[i].active && s[i].mac == mac {
      Found(s, mac, i);
      assert k == i;
    }
  }

  /** What a new entry replaces: a free slot, or the weakest one of a full table, weaker than itself. */
  lemma UpdateReplaces(s: seq<Slot>, self: Mac, mac: Mac, rssi: int8, now: uint32, i: nat)
    requires i < |s| && (s[i].active ==> s[i].mac != mac)
    requires Updated(s, self, mac, rssi, now)[i] != s[i]
    ensures rssi >= -80 && mac != self
    ensures forall j {:trigger s[j]} :: 0 <= j < |s| && s[j].active ==> s[j].mac != mac
    ensures Updated(s, self, mac, rssi, now)[i] == Slot(true, false, mac, rssi, now, s[i].status)
    ensures s[i].active ==> s[i].rssi < rssi && forall j {:trigger s[j]} :: 0 <= j < |s| ==> s[j].active && s[i].rssi <= s[j].rssi
  {
    forall j {:trigger s[j]} | 0 <= j < |s|
      ensures s[j].active ==> s[j].mac != mac
      ensures s[i].active ==> s[j].active && s[i].rssi <= s[j].rssi
    {
      if s[j].active && s[j].mac == mac {
        Found(s, mac, j);
        assert false;
      }
      if s[i].active {
        FirstFreeBefore(s, j);
        WeakestIsLeast(s, j);
      }
    }
  }

  /** A strong address is in the table afterwards, unless the table is full of entries at least as strong. */
  lemma UpdateRefuses(s: seq<Slot>, self: Mac, mac: Mac, rssi: int8, now: uint32, j: nat)
    requires j < |s| && rssi >= -80 && mac != self
    ensures var r := Updated(s, self, mac, rssi, now);
            || (exists i {:trigger r[i]} :: 0 <= i < |s| && r[i].active && r[i].mac == mac)
            || (r[j] == s[j] && s[j].active && s[j].rssi >= rssi)
  {
    var r := Updated(s, self, mac, rssi, now);
    var i, free, w := IndexOf(s, mac), FirstFree(s), Weakest(s);
    if i < |s| {
      assert r[i].active && r[i].mac == mac;
    } else if free < |s| {
      assert r[free].active && r[free].mac == mac;
    } else {
      FirstFreeBefore(s, j);
      WeakestIsLeast(s, j);
      assert rssi > s[w].rssi ==> r[w].active && r[w].mac == mac;
    }
  }

  /** All of these together, of the whole table. */
  lemma UpdateLaws(s: seq<Slot>, self: Mac, mac: Mac, rssi: int8, now: uint32)
    requires s != [] && TableInv(s, self)
    ensures var r := Updated(s, self, mac, rssi, now);
            && (forall i {:trigger r[i]} :: 0 <= i < |s| ==>
                  && (r[i] == s[i] || (r[i].active && r[i].mac == mac && mac != self))
                  && (r[i].active && r[i].mac == mac ==> r[i].lastSeen == now && (rssi >= -80 ==> r[i].rssi == rssi))
                  && (s[i].active && s[i].mac == mac ==> r[i] == s[i].(lastSeen := now, rssi := if rssi >= -80 then rssi else s[i].rssi)))
            && (forall i {:trigger r[i]} :: 0 <= i < |s| && r[i] != s[i] && !(s[i].active && s[i].mac == mac) ==>
                  && r[i] == Slot(true, false, mac, rssi, now, s[i].status)
                  && (s[i].active ==> s[i].rssi < rssi && forall j {:trigger s[j]} :: 0 <= j < |s| ==> s[j].active && s[i].rssi <= s[j].rssi))
            && (rssi >= -80 && mac != self ==>
                  || (exists i {:trigger r[i]} :: 0 <= i < |s| && r[i].active && r[i].mac == mac)
                  || (forall j {:trigger r[j]} :: 0 <= j < |s| ==> r[j].active && r[j].rssi >= rssi))
  {
    var r := Updated(s, self, mac, rssi, now);
    hide Updated;
    forall i | 0 <= i < |s|
      ensures r[i] == s[i] || (r[i].active && r[i].mac == mac && mac != self)
      ensures r[i].active && r[i].mac == mac ==> r[i].lastSeen == now && (rssi >= -80 ==> r[i].rssi == rssi)
      ensures s[i].active && s[i].mac == mac ==> r[i] == s[i].(lastSeen := now, rssi := if rssi >= -80 then rssi else s[i].rssi)
      ensures r[i] != s[i] && !(s[i].active && s[i].mac == mac) ==>
                && r[i] == Slot(true, false, mac, rssi, now, s[i].status)
                && (s[i].active ==> s[i].rssi < rssi && forall j {:trigger s[j]} :: 0 <= j < |s| ==> s[j].active && s[i].rssi <= s[j].rssi)
    {
      UpdateRefreshes(s, self, mac, rssi, now, i);
      if r[i] != s[i] && !(s[i].active && s[i].mac == mac) {
        UpdateReplaces(s, self, mac, rssi, now, i);
      }
    }
    if rssi >= -80 && mac != self {
      forall j | 0 <= j < |s|
        ensures (exists i {:trigger r[i]} :: 0 <= i < |s| && r[i].active && r[i].mac == mac) || (r[j].active && r[j].rssi >= rssi)
      {
        UpdateRefuses(s, self, mac, rssi, now, j);
      }
    }
  }

  /** now - then in 32-bit arithmetic */
  function Elapsed(now: uint32, since: uint32): uint32 {
    Wrap32(now - since)
  }

  function Expire(x: Slot, now: uint32): Slot {
    if x.active && Elapsed(now, x.lastSeen) > NEIGHBOR_TIMEOUT_MS then x.(active := false, hasState := false, rssi := NO_RSSI) else x
  }

  function Cleaned(s: seq<Slot>, now: uint32): (r: seq<Slot>)
    ensures |r| == |s|
    ensures forall i {:trigger r[i]} :: 0 <= i < |s| ==> r[i] == Expire(s[i], now)
  {
    if s == [] then [] else [Expire(s[0], now)] + Cleaned(s[1..], now)
  }

  lemma {:induction false} IndexOfAbsent(s: seq<Slot>, mac: Mac, j: nat)
    requires j < IndexOf(s, mac)
    ensures !(s[j].active && s[j].mac == mac)
  {
    if j > 0 {
      IndexOfAbsent(s[1..], mac, j - 1);
    }
  }

  lemma {:induction false} IndexOfIs(s: seq<Slot>, mac: Mac, k: nat)
    requires k <= |s| && (k < |s| ==> s[k].active && s[k].mac == mac)
    requires forall j {:trigger s[j]} :: 0 <= j < k ==> !(s[j].active && s[j].mac == mac)
    ensures IndexOf(s, mac) == k
  {
    if k > 0 {
      IndexOfIs(s[1..], mac, k - 1);
    }
  }

  lemma {:induction false} FirstFreeIs(s: seq<Slot>, k: nat)
    requires k <= |s| && (k < |s| ==> !s[k].active) && forall j {:trigger s[j]} :: 0 <= j < k ==> s[j].active
    ensures FirstFree(s) == k
  {
    if k > 0 {
      FirstFreeIs(s[1..], k - 1);
    }
  }

  lemma {:induction false} FirstFreeBefore(s: seq<Slot>, j: nat)
    requires j < FirstFree(s)
    ensures s[j].active
  {
    if j > 0 {
      FirstFreeBefore(s[1..], j - 1);
    }
  }

  lemma {:induction false} WeakestIsLeast(s: seq<Slot>, j: nat)
    requires j < |s|
    ensures s[Weakest(s)].rssi <= s[j].rssi
    decreases |s|
  {
    if |s| > 1 {
      var t := s[..|s| - 1];
      if j < |s| - 1 {
        WeakestIsLeast(t, j);
      }
    }
  }

  predicate DistinctMacs(s: seq<Slot>) {
    forall i, j :: 0 <= i < j < |s| && s[i].active && s[j].active ==> s[i].mac != s[j].mac
  }

  /** Active entries are distinct, never the node itself, and strong enough. */
  predicate TableInv(s: seq<Slot>, self: Mac) {
    && DistinctMacs(s)
    && (forall i {:trigger s[i]} :: 0 <= i < |s| && s[i].active ==> s[i].mac != self && s[i].rssi >= RSSI_THRESHOLD)
  }

  /** A slot with state shows the last valid status of its present occupant. */
  predicate Provenance(s: seq<Slot>, last: map<Mac, Status>) {
    forall i {:trigger s[i]} :: 0 <= i < |s| && s[i].active && s[i].hasState ==> s[i].mac in last && s[i].status == last[s[i].mac]
  }

  /** A slot refreshed in place, or given to an address that is not in the table. */
  lemma SlotKeeps(s: seq<Slot>, self: Mac, k: nat, x: Slot, last: map<Mac, Status>)
    requires TableInv(s, self) && Provenance(s, last) && k < |s|
    requires x.active && x.mac != self && x.rssi >= RSSI_THRESHOLD
    requires x.hasState ==> s[k].active && s[k].hasState && s[k].mac == x.mac && s[k].status == x.status
    requires (s[k].active && s[k].mac == x.mac) || IndexOf(s, x.mac) == |s|
    ensures TableInv(s[k := x], self) && Provenance(s[k := x], last)
  {
    forall j {:trigger s[j]} | 0 <= j < |s| && j != k && s[j].active
      ensures s[j].mac != x.mac
    {
      if IndexOf(s, x.mac) == |s| {
        IndexOfAbsent(s, x.mac, j);
      }
    }
  }

  /** Every observation keeps the table invariant and the provenance of the states. */
  lemma UpdateKeeps(s: seq<Slot>, self: Mac, mac: Mac, rssi: int8, now: uint32, last: map<Mac, Status>)
    requires s != [] && TableInv(s, self) && Provenance(s, last)
    ensures TableInv(Updated(s, self, mac, rssi, now), self) && Provenance(Updated(s, self, mac, rssi, now), last)
  {
    var i, free, w := IndexOf(s, mac), FirstFree(s), Weakest(s);
    assert i < |s| ==> s[i].rssi >= RSSI_THRESHOLD;
    hide TableInv, Provenance, IndexOf, FirstFree, Weakest;
    if mac != self {
      if i < |s| {
        SlotKeeps(s, self, i, s[i].(lastSeen := now), last);
        if rssi >= RSSI_THRESHOLD {
          SlotKeeps(s, self, i, s[i].(rssi := rssi, lastSeen := now), last);
        }
      } else if rssi >= RSSI_THRESHOLD {
        SlotKeeps(s, self, w, NewSlot(s[w], mac, rssi, now), last);
        if free < |s| {
          SlotKeeps(s, self, free, NewSlot(s[free], mac, rssi, now), last);
        }
      }
    }
  }

  lemma CleanupKeeps(s: seq<Slot>, self: Mac, now: uint32, last: map<Mac, Status>)
    requires TableInv(s, self) && Provenance(s, last)
    ensures TableInv(Cleaned(s, now), self) && Provenance(Cleaned(s, now), last)
  {
  }

  /** A valid status of this neighbor, stored in its slot. */
  lemma StatusKeeps(s: seq<Slot>, self: Mac, mac: Mac, status: Status, now: uint32, last: map<Mac, Status>)
    requires TableInv(s, self) && Provenance(s, last)
    ensures var i, l := IndexOf(s, mac), last[mac := status];
            var r := if i < |s| then s[i := s[i].(status := status, hasState := true, lastSeen := now)] else s;
            TableInv(r, self) && Provenance(r, l)
  {
    var i, l := IndexOf(s, mac), last[mac := status];
    forall j {:trigger s[j]} | 0 <= j < |s| && j != i
      ensures !(s[j].active && s[j].mac == mac)
    {
      if j < i {
        IndexOfAbsent(s, mac, j);
      }
    }
  }

  /**
   Everything seen so far with enough strength is in the table, unless the table is full of entries that are at
   least as strong.
   */
  ghost predicate TopK(s: seq<Slot>, self: Mac, seen: set<Mac>, strength: Mac -> int8) {
    && (forall i {:trigger s[i]} :: 0 <= i < |s| && s[i].active ==> s[i].mac in seen && s[i].rssi == strength(s[i].mac))
    && (forall m :: m in seen && m != self && strength(m) >= RSSI_THRESHOLD && IndexOf(s, m) == |s| ==> FullAndStronger(s, strength(m)))
  }

  predicate FullAndStronger(s: seq<Slot>, rssi: int8) {
    forall i {:trigger s[i]} :: 0 <= i < |s| ==> s[i].active && s[i].rssi >= rssi
  }

  /** An address is found exactly when some active slot has it. */
  lemma Found(s: seq<Slot>, mac: Mac, i: nat)
    requires i < |s| && s[i].active && s[i].mac == mac
    ensures IndexOf(s, mac) < |s|
  {
    if IndexOf(s, mac) == |s| {
      IndexOfAbsent(s, mac, i);
    }
  }

  /** A slot with its own strength, refreshed in place. */
  lemma RefreshTopK(s: seq<Slot>, self: Mac, seen: set<Mac>, strength: Mac -> int8, k: nat, x: Slot)
    requires TopK(s, self, seen, strength) && k < |s| && s[k].active && x.active && x.mac == s[k].mac && x.rssi == s[k].rssi
    ensures TopK(s[k := x], self, seen, strength)
  {
    var r := s[k := x];
    forall m | m in seen && m != self && strength(m) >= RSSI_THRESHOLD && IndexOf(r, m) == |r|
      ensures FullAndStronger(r, strength(m))
    {
      AbsentInBoth(s, k, x, m);
      if x.mac == m {
        Found(r, m, k);
      }
    }
  }

  lemma AbsentInBoth(s: seq<Slot>, k: nat, x: Slot, m: Mac)
    requires k < |s| && IndexOf(s[k := x], m) == |s|
    ensures IndexOf(s, m) == |s| || (s[k].active && s[k].mac == m)
  {
    var i := IndexOf(s, m);
    if i < |s| && i != k {
      Found(s[k := x], m, i);
    }
  }

  /** An address seen for the first time that does not get in, because the table is full of stronger entries or it is too weak. */
  lemma LeaveOutTopK(s: seq<Slot>, self: Mac, seen: set<Mac>, strength: Mac -> int8, mac: Mac)
    requires TopK(s, self, seen, strength)
    requires mac == self || strength(mac) < RSSI_THRESHOLD || IndexOf(s, mac) < |s| || FullAndStronger(s, strength(mac))
    ensures TopK(s, self, seen + {mac}, strength)
  {
  }

  /** Each observation of a fixed strength keeps the table a top-k selection of what was seen. */
  lemma UpdateTopK(s: seq<Slot>, self: Mac, seen: set<Mac>, strength: Mac -> int8, mac: Mac, now: uint32)
    requires s != [] && TopK(s, self, seen, strength)
    ensures TopK(Updated(s, self, mac, strength(mac), now), self, seen + {mac}, strength)
  {
    var i, free, w, rssi := IndexOf(s, mac), FirstFree(s), Weakest(s), strength(mac);
    var all := seen + {mac};
    if mac == self || rssi < RSSI_THRESHOLD || i < |s| {
      LeaveOutTopK(s, self, seen, strength, mac);
      if mac != self && i < |s| {
        assert s[i].rssi == rssi;
        RefreshTopK(s, self, all, strength, i, s[i].(lastSeen := now));
        RefreshTopK(s, self, all, strength, i, s[i].(rssi := rssi, lastSeen := now));
      }
    } else if free < |s| {
      NewTopK(s, self, seen, strength, free, NewSlot(s[free], mac, rssi, now));
    } else {
      forall j {:trigger s[j]} | 0 <= j < |s|
        ensures s[j].active && s[w].rssi <= s[j].rssi
      {
        FirstFreeBefore(s, j);
        WeakestIsLeast(s, j);
      }
      if rssi > s[w].rssi {
        NewTopK(s, self, seen, strength, w, NewSlot(s[w], mac, rssi, now));
      } else {
        LeaveOutTopK(s, self, seen, strength, mac);
      }
    }
  }

  /** A new address takes a free slot, or that of the weakest entry when it is stronger. */
  lemma NewTopK(s: seq<Slot>, self: Mac, seen: set<Mac>, strength: Mac -> int8, k: nat, x: Slot)
    requires TopK(s, self, seen, strength) && k < |s| && x.active && x.rssi == strength(x.mac) >= RSSI_THRESHOLD
    requires s[k].active ==> (forall j {:trigger s[j]} :: 0 <= j < |s| ==> s[j].active && s[k].rssi <= s[j].rssi) && s[k].rssi < x.rssi
    ensures TopK(s[k := x], self, seen + {x.mac}, strength)
  {
    var r, all := s[k := x], seen + {x.mac};
    assert r[k] == x;
    forall m | m in all && m != self && strength(m) >= RSSI_THRESHOLD && IndexOf(r, m) == |r|
      ensures FullAndStronger(r, strength(m))
    {
      if m == x.mac {
        Found(r, m, k);
      } else {
        AbsentInBoth(s, k, x, m);
        if IndexOf(s, m) == |s| {
          assert FullAndStronger(s, strength(m));
          assert s[k].active;
        }
      }
    }
  }

  /** A stream of observations, each with its time. */
  function Observe(s: seq<Slot>, self: Mac, strength: Mac -> int8, observations: seq<(Mac, uint32)>): (r: seq<Slot>)
    requires s != []
    ensures |r| == |s|
    decreases |observations|
  {
    if observations == [] then s
    else
      var o := observations[0];
      Observe(Updated(s, self, o.0, strength(o.0), o.1), self, strength, observations[1..])
  }

  function Addresses(observations: seq<(Mac, uint32)>): set<Mac> {
    if observations == [] then {} else {observations[0].0} + Addresses(observations[1..])
  }

  lemma {:induction false} ObserveTopK(s: seq<Slot>, self: Mac, seen: set<Mac>, strength: Mac -> int8, observations: seq<(Mac, uint32)>)
    requires s != [] && TopK(s, self, seen, strength)
    ensures TopK(Observe(s, self, strength, observations), self, seen + Addresses(observations), strength)
    decreases |observations|
  {
    hide TopK, Updated;
    if observations == [] {
      assert seen + {} == seen;
    } else {
      var o := observations[0];
      UpdateTopK(s, self, seen, strength, o.0, o.1);
      ObserveTopK(Updated(s, self, o.0, strength(o.0), o.1), self, seen + {o.0}, strength, observations[1..]);
      assert seen + {o.0} + Addresses(observations[1..]) == seen + Addresses(observations);
    }
  }

  /**
   Online top-k: from an empty table of any size, whatever the stream, an address that was seen with enough strength and
   is not in the table faces a full table of entries at least as strong.
   */
  lemma OnlineTopK(s: seq<Slot>, self: Mac, strength: Mac -> int8, observations: seq<(Mac, uint32)>, m: Mac)
    requires s != [] && forall i {:trigger s[i]} :: 0 <= i < |s| ==> !s[i].active
    requires m in Addresses(observations) && m != self && strength(m) >= RSSI_THRESHOLD
    ensures var r := Observe(s, self, strength, observations);
            IndexOf(r, m) < |r| || FullAndStronger(r, strength(m))
  {
    assert TopK(s, self, {}, strength);
    ObserveTopK(s, self, {}, strength, observations);
    assert {} + Addresses(observations) == Addresses(observations);
    hide Observe, Addresses;
  }

  /** The 0/1 values of the slots with state, in slot order. */
  function Values(s: seq<Slot>): (v: seq<nat>)
    ensures |v| <= |s|
  {
    if s == [] then []
    else
      var x := s[|s| - 1];
      Values(s[..|s| - 1]) + if x.active && x.hasState then [if x.status.val != 0 then 1 else 0] else []
  }

  /** Cut off at n values, or filled up with zeros. */
  function Fitted(v: seq<nat>, n: nat): (r: seq<nat>)
    ensures |r| == n
  {
    if |v| >= n then v[..n] else v + seq(n - |v|, i => 0)
  }

  /** The slots in front of slot i that have a state. */
  function WithState(s: seq<Slot>, i: nat): (slots: set<nat>)
    requires i <= |s|
  {
    set j: nat {:trigger s[j]} | j < i && s[j].active && s[j].hasState
  }

  /** The value of a slot with state comes after those of the slots with state in front of it. */
  lemma {:induction false} ValueOfSlot(s: seq<Slot>, i: nat)
    requires i < |s|
    ensures |Values(s)| == |WithState(s, |s|)|
    ensures s[i].active && s[i].hasState ==>
              && |WithState(s, i)| < |Values(s)|
              && Values(s)[|WithState(s, i)|] == if s[i].status.val != 0 then 1 else 0
    decreases |s|
  {
    var n := |s| - 1;
    var t := s[..n];
    assert WithState(t, n) == WithState(s, n);
    if s[n].active && s[n].hasState {
      assert WithState(s, |s|) == WithState(s, n) + {n};
    } else {
      assert WithState(s, |s|) == WithState(s, n);
    }
    if i < n {
      ValueOfSlot(t, i);
      assert WithState(t, i) == WithState(s, i);
    } else if n > 0 {
      ValueOfSlot(t, 0);
    } else {
      assert WithState(s, n) == {};
    }
  }

  lemma FittedShows(s: seq<Slot>, n: nat)
    requires s != []
    ensures var values := Fitted(Values(s), n);
            && (forall i {:trigger s[i]} :: 0 <= i < |s| && s[i].active && s[i].hasState && |WithState(s, i)| < n ==>
                  values[|WithState(s, i)|] == if s[i].status.val != 0 then 1 else 0)
            && (forall k {:trigger values[k]} :: |WithState(s, |s|)| <= k < n ==> values[k] == 0)
  {
    hide WithState, Values;
    ValueOfSlot(s, 0);
    forall i | 0 <= i < |s| && s[i].active && s[i].hasState && |WithState(s, i)| < n
      ensures Fitted(Values(s), n)[|WithState(s, i)|] == if s[i].status.val != 0 then 1 else 0
    {
      ValueOfSlot(s, i);
    }
  }

  /** Under provenance, the values are those of the last valid statuses of the present occupants. */
  lemma {:induction false} ValuesAreLastStatuses(s: seq<Slot>, last: map<Mac, Status>)
    requires Provenance(s, last)
    ensures Values(s) == LastValues(s, last)
    decreases |s|
  {
    if s != [] {
      var x := s[|s| - 1];
      assert x.active && x.hasState ==> x.mac in last && x.status == last[x.mac];
      ValuesAreLastStatuses(s[..|s| - 1], last);
    }
  }

  function LastValues(s: seq<Slot>, last: map<Mac, Status>): seq<nat> {
    if s == [] then []
    else
      var x := s[|s| - 1];
      LastValues(s[..|s| - 1], last) +
      if x.active && x.hasState then [if x.mac in last && last[x.mac].val != 0 then 1 else 0] else []
  }

  class NeighborTable {
    const slots: array<Slot>
    const self: Mac
    ghost var last: map<Mac, Status>   // the last valid status received from each address

    ghost predicate Valid()
      reads this, slots
    {
      slots.Length > 0 && TableInv(slots[..], self) && Provenance(slots[..], last)
    }

    constructor (size: nat, self: Mac)
      requires size > 0
      ensures Valid() && fresh(slots) && slots.Length == size && this.self == self
      ensures last == map[] && forall i {:trigger slots[i]} :: 0 <= i < size ==> !slots[i].active
    {
      slots := new Slot[size](_ => Slot(false, false, [0, 0, 0, 0, 0, 0], NO_RSSI, 0, NO_STATUS));
      this.self := self;
      last := map[];
    }

    /** get_neighbor_by_mac; the table size stands for a null pointer. */
    method Find(mac: Mac) returns (i: nat)
      ensures i == IndexOf(slots[..], mac)
      ensures i <= slots.Length && (i < slots.Length ==> slots[i].active && slots[i].mac == mac)
      ensures forall j {:trigger slots[j]} :: 0 <= j < i ==> !(slots[j].active && slots[j].mac == mac)
    {
      i := 0;
      while i < slots.Length
        invariant i <= slots.Length
        invariant forall j {:trigger slots[j]} :: 0 <= j < i ==> !(slots[j].active && slots[j].mac == mac)
      {
        if slots[i].active && slots[i].mac == mac {
          break;
        }
        i := i + 1;
      }
      IndexOfIs(slots[..], mac, i);
    }

    method FindFree() returns (i: nat)
      ensures i == FirstFree(slots[..])
      ensures i <= slots.Length && (i < slots.Length ==> !slots[i].active)
      ensures forall j {:trigger slots[j]} :: 0 <= j < i ==> slots[j].active
    {
      i := 0;
      while i < slots.Length
        invariant i <= slots.Length
        invariant forall j {:trigger slots[j]} :: 0 <= j < i ==> slots[j].active
      {
        if !slots[i].active {
          break;
        }
        i := i + 1;
      }
      FirstFreeIs(slots[..], i);
    }

    method FindWeakest() returns (w: nat)
      requires slots.Length > 0
      ensures w == Weakest(slots[..])
      ensures w < slots.Length && forall j {:trigger slots[j]} :: 0 <= j < slots.Length ==>
                if j < w then slots[w].rssi < slots[j].rssi else slots[w].rssi <= slots[j].rssi
    {
      w := 0;
      var i := 1;
      assert slots[..1] == [slots[0]];
      while i < slots.Length
        invariant 1 <= i <= slots.Length && w == Weakest(slots[..i])
        invariant w < i && forall j {:trigger slots[j]} :: 0 <= j < i ==>
                    if j < w then slots[w].rssi < slots[j].rssi else slots[w].rssi <= slots[j].rssi
      {
        assert slots[..i + 1][..i] == slots[..i];
        if slots[i].rssi < slots[w].rssi {
          w := i;
        }
        i := i + 1;
      }
      assert slots[..slots.Length] == slots[..];
    }

    /** update_neighbor_list */
    method Update(mac: Mac, rssi: int8, now: uint32)
      requires Valid()
      modifies slots
      ensures Valid() && slots[..] == Updated(old(slots[..]), self, mac, rssi, now)
      // the entry of this address is refreshed, and no other slot is touched but one that its new entry replaces
      ensures forall i {:trigger slots[i]} :: 0 <= i < slots.Length ==>
                && (slots[i] == old(slots[..])[i] || (slots[i].active && slots[i].mac == mac && mac != self))
                && (slots[i].active && slots[i].mac == mac ==> slots[i].lastSeen == now && (rssi >= -80 ==> slots[i].rssi == rssi))
                && (old(slots[..])[i].active && old(slots[..])[i].mac == mac ==>
                      slots[i] == old(slots[..])[i].(lastSeen := now, rssi := if rssi >= -80 then rssi else old(slots[..])[i].rssi))
      // the slot replaced was free, or the weakest of a full table and weaker than the new entry
      ensures forall i {:trigger slots[i]} :: 0 <= i < slots.Length && slots[i] != old(slots[..])[i] && !(old(slots[..])[i].active && old(slots[..])[i].mac == mac) ==>
                && slots[i] == Slot(true, false, mac, rssi, now, old(slots[..])[i].status)
                && (old(slots[..])[i].active ==> old(slots[..])[i].rssi < rssi && forall j {:trigger old(slots[..])[j]} :: 0 <= j < slots.Length ==>
                      old(slots[..])[j].active && old(slots[..])[i].rssi <= old(slots[..])[j].rssi)
      // a strong address is in the table afterwards, unless all entries are at least as strong
      ensures rssi >= -80 && mac != self ==>
                || (exists i {:trigger slots[i]} :: 0 <= i < slots.Length && slots[i].active && slots[i].mac == mac)
                || (forall j {:trigger slots[j]} :: 0 <= j < slots.Length ==> slots[j].active && slots[j].rssi >= rssi)
    {
      UpdateKeeps(slots[..], self, mac, rssi, now, last);
      UpdateLaws(slots[..], self, mac, rssi, now);
      UpdateInPlace(mac, rssi, now);
    }

    method UpdateInPlace(mac: Mac, rssi: int8, now: uint32)
      requires slots.Length > 0
      modifies slots
      ensures slots[..] == Updated(old(slots[..]), self, mac, rssi, now)
    {
      hide IndexOf, FirstFree, Weakest;
      if mac == self {
        return;
      }
      var existing := Find(mac);
      if rssi < RSSI_THRESHOLD {
        // a known neighbor stays, with its old strength
        if existing < slots.Length {
          slots[existing] := slots[existing].(lastSeen := now);
        }
        return;
      }
      if existing < slots.Length {
        slots[existing] := slots[existing].(rssi := rssi, lastSeen := now);
        return;
      }
      var free := FindFree();
      if free < slots.Length {
        slots[free] := NewSlot(slots[free], mac, rssi, now);
        return;
      }
      var weakest := FindWeakest();
      if rssi > slots[weakest].rssi {
        slots[weakest] := NewSlot(slots[weakest], mac, rssi, now);
      }
    }

    /** cleanup_inactive_neighbors */
    method Cleanup(now: uint32)
      requires Valid()
      modifies slots
      ensures Valid() && slots[..] == Cleaned(old(slots[..]), now)
      ensures forall i {:trigger slots[i]} :: 0 <= i < slots.Length ==>
                slots[i] == if old(slots[..])[i].active && (now - old(slots[..])[i].lastSeen) % 0x1_0000_0000 > 5000
                            then old(slots[..])[i].(active := false, hasState := false, rssi := -127)
                            else old(slots[..])[i]
    {
      ghost var s := slots[..];
      CleanupKeeps(s, self, now, last);
      for i := 0 to slots.Length
        invariant forall j {:trigger slots[j]} :: 0 <= j < i ==> slots[j] == Expire(s[j], now)
        invariant forall j {:trigger slots[j]} :: i <= j < slots.Length ==> slots[j] == s[j]
      {
        if slots[i].active && Elapsed(now, slots[i].lastSeen) > NEIGHBOR_TIMEOUT_MS {
          slots[i] := slots[i].(active := false, hasState := false, rssi := NO_RSSI);
        }
      }
      assert slots[..] == Cleaned(s, now);
    }

    /** fill_neighbor_values */
    method FillValues(n: nat) returns (values: seq<nat>)
      requires Valid()
      ensures values == Fitted(Values(slots[..]), n)
      ensures values == Fitted(LastValues(slots[..], last), n)
      // value by value: slots with state in order, then zeros
      ensures |values| == n
      ensures forall i {:trigger slots[i]} :: 0 <= i < slots.Length && slots[i].active && slots[i].hasState && |WithState(slots[..], i)| < n ==>
                values[|WithState(slots[..], i)|] == if slots[i].status.val != 0 then 1 else 0
      ensures forall k {:trigger values[k]} :: |WithState(slots[..], slots.Length)| <= k < n ==> values[k] == 0
    {
      FittedShows(slots[..], n);
      values := Fit(n);
    }

    method Fit(n: nat) returns (values: seq<nat>)
      requires Valid()
      ensures values == Fitted(Values(slots[..]), n)
      ensures values == Fitted(LastValues(slots[..], last), n)
    {
      ValuesAreLastStatuses(slots[..], last);
      values := [];
      var i := 0;
      while i < slots.Length && |values| < n
        invariant i <= slots.Length && |values| <= n && values == Values(slots[..i])
      {
        assert slots[..i + 1][..i] == slots[..i];
        if slots[i].active && slots[i].hasState {
          values := values + [if slots[i].status.val != 0 then 1 else 0];
        }
        i := i + 1;
      }
      ValuesPrefix(slots[..], i);
      ghost var written := values;
      while |values| < n
        invariant |written| <= |values| <= n && values == written + seq(|values| - |written|, k => 0)
      {
        values := values + [0];
      }
      assert slots[..slots.Length] == slots[..];
    }
  }

  lemma {:induction false} ValuesPrefix(s: seq<Slot>, i: nat)
    requires i <= |s|
    ensures |Values(s[..i])| <= |Values(s)| && Values(s)[..|Values(s[..i])|] == Values(s[..i])
    decreases |s|
  {
    if i == |s| {
      assert s[..i] == s;
    } else {
      ValuesPrefix(s[..|s| - 1], i);
      assert s[..|s| - 1][..i] == s[..i];
    }
  }
}
