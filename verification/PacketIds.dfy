/** Packet identifiers from the incrementing 16-bit counter (section 2.3.1 of MQTT 3.1.1). */
module PacketIds {
  import opened Bytes
  import opened ItemList
  import QosRuns

  const CYCLE := 0xFFFF

  class Allocator {
    var last: uint16   // last_message_id

    /** The loop of append_message_id for a message without an identifier of its own. */
    method Allocate() returns (id: uint16)
      modifies this
      ensures id == last == Next(old(last)) && id != 0
      ensures id as int == if old(last) == 65535 then 1 else old(last) as int + 1
    {
      id := 0;
      while id == 0
        invariant id == 0 ==> last == old(last) || (old(last) == 0xFFFF && last == 0)
        invariant id != 0 ==> id == last == Next(old(last))
        decreases if id != 0 then 0 else if last == 0xFFFF then 2 else 1
      {
        last := if last == 0xFFFF then 0 else last + 1;
        id := last;
      }
    }
  }

  function Next(last: uint16): uint16 {
    if last == 0xFFFF then 1 else last + 1
  }

  /** The identifier of the k-th allocation from counter state `last`. */
  function Nth(last: uint16, k: nat): uint16 {
    if k == 0 then last else Next(Nth(last, k - 1))
  }

  /** How often the counter has wrapped by then. */
  function Wraps(last: uint16, k: nat): nat {
    if k == 0 then 0 else Wraps(last, k - 1) + if Nth(last, k - 1) == 0xFFFF then 1 else 0
  }

  lemma {:induction false} NthUnwrapped(last: uint16, k: nat)
    ensures Nth(last, k) == last + k - CYCLE * Wraps(last, k)
    ensures k > 0 ==> Nth(last, k) != 0
  {
    if k > 0 {
      NthUnwrapped(last, k - 1);
    }
  }

  lemma {:induction false} WrapsGrow(last: uint16, i: nat, j: nat)
    requires i <= j
    ensures Wraps(last, i) <= Wraps(last, j)
    decreases j
  {
    if i < j {
      WrapsGrow(last, i, j - 1);
    }
  }

  /** Any 65535 consecutive allocations, from any counter state, give pairwise distinct identifiers, none of them 0. */
  lemma ConsecutiveDistinct(last: uint16, i: nat, j: nat)
    requires 1 <= i < j && j - i < CYCLE
    ensures Nth(last, i) != Nth(last, j) && Nth(last, i) != 0
  {
    NthUnwrapped(last, i);
    NthUnwrapped(last, j);
    WrapsGrow(last, i, j);
    assert Nth(last, j) - Nth(last, i) == j - i - CYCLE * (Wraps(last, j) - Wraps(last, i));
  }

  /** One more allocation than that repeats the identifier. */
  lemma RepeatsAfterCycle(last: uint16, i: nat)
    requires 1 <= i
    ensures Nth(last, i) == Nth(last, i + CYCLE)
  {
    NthUnwrapped(last, i);
    NthUnwrapped(last, i + CYCLE);
    WrapsGrow(last, i, i + CYCLE);
    var w := Wraps(last, i + CYCLE) - Wraps(last, i);
    assert Nth(last, i + CYCLE) == Nth(last, i) + CYCLE - CYCLE * w;
    assert w == 1;
  }

  /** Allocation numbers of the items of an outbox: each non-zero identifier came from the counter, fewer than 65535 allocations ago. */
  predicate RecentlyBorn(items: seq<Item>, born: seq<nat>, last: uint16, n: nat) {
    && |born| == |items|
    && forall i {:trigger items[i]} :: 0 <= i < |items| && items[i].id != 0 ==>
         1 <= born[i] <= n && n + 1 - born[i] < CYCLE && items[i].id == Nth(last, born[i])
  }

  /** Then the next identifier is not in use: the assumption under which the runs of the client are safe. */
  lemma NextIsFresh(items: seq<Item>, born: seq<nat>, last: uint16, n: nat)
    requires RecentlyBorn(items, born, last, n)
    ensures QosRuns.Fresh(items, Nth(last, n + 1))
  {
    forall i {:trigger items[i]} | 0 <= i < |items|
      ensures items[i].id != Nth(last, n + 1)
    {
      if items[i].id != 0 {
        ConsecutiveDistinct(last, born[i], n + 1);
      } else {
        NthUnwrapped(last, n + 1);
      }
    }
  }
}
