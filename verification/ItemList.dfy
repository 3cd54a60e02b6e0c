/** The outbox as a plain list: what each of its operations means, and laws between them. */
module ItemList {
  import opened Bytes

  datatype Pending = QUEUED | TRANSMITTED | ACKNOWLEDGED | CONFIRMED

  datatype Item = Item(id: int, msgType: int, qos: int, tick: int, pending: Pending, data: seq<byte>)

  type Test = Item -> bool

  function WithId(id: int): Test { (x: Item) => x.id == id }

  function WithIdAndType(id: int, msgType: int): Test {
    (x: Item) => x.id == id && x.msgType % 0x100 == msgType
  }

  function InState(pending: Pending): Test { (x: Item) => x.pending == pending }

  function Expired(now: int, timeout: int): Test { (x: Item) => now - x.tick > timeout }

  /** Sum of the item lengths. */
  function Size(items: seq<Item>): nat {
    if items == [] then 0 else |items[0].data| + Size(items[1..])
  }

  /** Index of the oldest item that passes, or the number of items. */
  function First(items: seq<Item>, test: Test): (i: nat)
    ensures i <= |items|
  {
    if items == [] || test(items[0]) then 0 else 1 + First(items[1..], test)
  }

  function RemoveAt<T>(s: seq<T>, k: nat): (r: seq<T>)
    requires k < |s|
    ensures |r| == |s| - 1
    ensures forall i {:trigger r[i]} :: 0 <= i < |r| ==> r[i] == s[if i < k then i else i + 1]
  {
    s[..k] + s[k + 1..]
  }

  /** The items without the oldest one that passes. */
  function RemoveFirst(items: seq<Item>, test: Test): seq<Item> {
    var i := First(items, test);
    if i < |items| then RemoveAt(items, i) else items
  }

  /** The items that do not pass, in order. */
  function Without(items: seq<Item>, test: Test): (r: seq<Item>)
    ensures |r| <= |items|
  {
    if items == [] then []
    else if test(items[0]) then Without(items[1..], test)
    else [items[0]] + Without(items[1..], test)
  }

  lemma {:induction false} FirstIsOldest(items: seq<Item>, test: Test)
    ensures First(items, test) < |items| ==> test(items[First(items, test)])
    ensures forall j :: 0 <= j < First(items, test) ==> !test(items[j])
  {
    if items != [] && !test(items[0]) {
      FirstIsOldest(items[1..], test);
    }
  }

  /** The scan stops at the first item that passes. */
  lemma {:induction false} FirstAt(items: seq<Item>, test: Test, k: nat)
    requires k <= |items| && forall j :: 0 <= j < k ==> !test(items[j])
    requires k < |items| ==> test(items[k])
    ensures First(items, test) == k
  {
    if k > 0 {
      FirstAt(items[1..], test, k - 1);
    }
  }

  lemma {:induction false} SizeOfConcat(a: seq<Item>, b: seq<Item>)
    ensures Size(a + b) == Size(a) + Size(b)
  {
    if a == [] {
      assert a + b == b;
    } else {
      assert (a + b)[1..] == a[1..] + b;
      SizeOfConcat(a[1..], b);
    }
  }

  lemma SizeWithout(items: seq<Item>, i: nat)
    requires i < |items|
    ensures Size(RemoveAt(items, i)) == Size(items) - |items[i].data|
  {
    SizeOfConcat(items[..i], items[i + 1..]);
    SizeOfConcat(items[..i], items[i..]);
    assert items == items[..i] + items[i..] && items[i..][1..] == items[i + 1..];
  }

  /** Changing anything but the data of an item leaves the size alone. */
  lemma SizeOfUpdate(items: seq<Item>, i: nat, x: Item)
    requires i < |items| && |x.data| == |items[i].data|
    ensures Size(items[i := x]) == Size(items)
  {
    SizeWithout(items, i);
    SizeWithout(items[i := x], i);
    assert RemoveAt(items[i := x], i) == RemoveAt(items, i);
  }

  lemma {:induction false} WithoutOfConcat(a: seq<Item>, b: seq<Item>, test: Test)
    ensures Without(a + b, test) == Without(a, test) + Without(b, test)
  {
    if a == [] {
      assert a + b == b;
    } else {
      assert (a + b)[1..] == a[1..] + b;
      WithoutOfConcat(a[1..], b, test);
    }
  }

  lemma WithoutPassing(items: seq<Item>, i: nat, test: Test)
    requires i < |items| && test(items[i])
    ensures Without(RemoveAt(items, i), test) == Without(items, test)
  {
    assert items == items[..i] + items[i..] && items[i..][1..] == items[i + 1..];
    WithoutOfConcat(items[..i], items[i + 1..], test);
    WithoutOfConcat(items[..i], items[i..], test);
  }

  /** Removing one passing item does not change what stays when all of them are removed. */
  lemma RemoveFirstThenAll(items: seq<Item>, test: Test)
    ensures First(items, test) == |items| ==> Without(items, test) == items
    ensures Without(RemoveFirst(items, test), test) == Without(items, test)
  {
    hide RemoveAt;
    FirstIsOldest(items, test);
    if First(items, test) < |items| {
      WithoutPassing(items, First(items, test), test);
    } else {
      WithoutNone(items, test);
    }
  }

  lemma {:induction false} WithoutNone(items: seq<Item>, test: Test)
    requires forall j :: 0 <= j < |items| ==> !test(items[j])
    ensures Without(items, test) == items
  {
    if items != [] {
      WithoutNone(items[1..], test);
    }
  }

  /** Removing the oldest passing item again and again, until none is left. */
  function RemoveOneByOne(items: seq<Item>, test: Test): seq<Item>
    decreases |items|
  {
    if First(items, test) == |items| then items else RemoveOneByOne(RemoveFirst(items, test), test)
  }

  /** Repeated single removal and the one-pass removal leave the same items. */
  lemma {:induction false} OneByOneIsOnePass(items: seq<Item>, test: Test)
    ensures RemoveOneByOne(items, test) == Without(items, test)
    decreases |items|
  {
    RemoveFirstThenAll(items, test);
    if First(items, test) < |items| {
      OneByOneIsOnePass(RemoveFirst(items, test), test);
    }
  }

  /** The identifiers of the passing items, in order. */
  function IdsOf(items: seq<Item>, test: Test): seq<int> {
    if items == [] then [] else (if test(items[0]) then [items[0].id] else []) + IdsOf(items[1..], test)
  }

  lemma {:induction false} IdsOfFirst(items: seq<Item>, test: Test)
    ensures var i := First(items, test);
            IdsOf(items, test) == if i == |items| then [] else [items[i].id] + IdsOf(RemoveAt(items, i), test)
  {
    var i := First(items, test);
    if items != [] && !test(items[0]) {
      IdsOfFirst(items[1..], test);
      if i < |items| {
        IdsOfLater(items, i, test);
      }
    } else if items != [] {
      assert RemoveAt(items, 0) == items[1..];
    }
    hide RemoveAt;
  }

  lemma IdsOfLater(items: seq<Item>, i: nat, test: Test)
    requires 0 < i < |items| && !test(items[0])
    ensures IdsOf(RemoveAt(items, i), test) == IdsOf(RemoveAt(items[1..], i - 1), test)
  {
    var r := RemoveAt(items, i);
    assert r != [] && r[0] == items[0] && r[1..] == RemoveAt(items[1..], i - 1);
    hide RemoveAt;
  }

  /** One removal of the repetition. */
  lemma RemoveOne(items: seq<Item>, test: Test)
    ensures var i, r := First(items, test), RemoveFirst(items, test);
            && RemoveOneByOne(r, test) == RemoveOneByOne(items, test)
            && (forall x :: x in r ==> x in items)
            && (if i < |items| then |r| < |items| && IdsOf(items, test) == [items[i].id] + IdsOf(r, test)
                else r == items == RemoveOneByOne(items, test) && IdsOf(items, test) == [])
  {
    IdsOfFirst(items, test);
  }

  /** The later items are those of `before` at these positions, in order. */
  predicate InOrder(before: seq<Item>, after: seq<Item>, at: seq<nat>) {
    && |at| == |after|
    && (forall k :: 0 <= k < |at| ==> at[k] < |before| && after[k] == before[at[k]])
    && (forall j, k :: 0 <= j < k < |at| ==> at[j] < at[k])
  }

  /** The positions of the items that do not pass: these stay, and in order. */
  lemma {:induction false} WithoutInOrder(items: seq<Item>, test: Test) returns (at: seq<nat>)
    ensures InOrder(items, Without(items, test), at)
    ensures forall i :: 0 <= i < |items| ==> (i in at <==> !test(items[i]))
    decreases |items|
  {
    if items == [] {
      return [];
    }
    var n := |items| - 1;
    var init := items[..n];
    assert items == init + [items[n]];
    WithoutOfConcat(init, [items[n]], test);
    assert [items[n]][1..] == [];
    at := WithoutInOrder(init, test);
    assert forall k :: 0 <= k < |at| ==> at[k] < n;
    if !test(items[n]) {
      at := at + [n];
    }
  }

  lemma {:induction false} IdsOfConcat(a: seq<Item>, b: seq<Item>, test: Test)
    ensures IdsOf(a + b, test) == IdsOf(a, test) + IdsOf(b, test)
  {
    if a == [] {
      assert a + b == b;
    } else {
      assert (a + b)[1..] == a[1..] + b;
      IdsOfConcat(a[1..], b, test);
    }
  }

  /** The positions of the items that pass. */
  lemma {:induction false} IdsInOrder(items: seq<Item>, test: Test) returns (at: seq<nat>)
    ensures |at| == |IdsOf(items, test)| && forall k :: 0 <= k < |at| ==> at[k] < |items| && IdsOf(items, test)[k] == items[at[k]].id
    ensures forall j, k :: 0 <= j < k < |at| ==> at[j] < at[k]
    ensures forall i :: 0 <= i < |items| ==> (i in at <==> test(items[i]))
    decreases |items|
  {
    if items == [] {
      return [];
    }
    var n := |items| - 1;
    var init := items[..n];
    assert items == init + [items[n]];
    IdsOfConcat(init, [items[n]], test);
    assert [items[n]][1..] == [];
    at := IdsInOrder(init, test);
    assert forall k :: 0 <= k < |at| ==> at[k] < n;
    if test(items[n]) {
      at := at + [n];
    }
  }

  /** Item i is the oldest one in this state. */
  predicate OldestIn(items: seq<Item>, pending: Pending, i: nat) {
    i < |items| && items[i].pending == pending && forall j :: 0 <= j < i ==> items[j].pending != pending
  }

  predicate NoneIn(items: seq<Item>, pending: Pending) {
    forall j :: 0 <= j < |items| ==> items[j].pending != pending
  }

  /** Exactly the items that have been there for no longer than the timeout are left, in order. */
  ghost predicate LeftByTick(before: seq<Item>, after: seq<Item>, now: int, timeout: int) {
    exists at :: InOrder(before, after, at) && forall i :: 0 <= i < |before| ==> (i in at <==> now - before[i].tick <= timeout)
  }

  /** Exactly the items that have been there for longer than the timeout are reported, in order. */
  ghost predicate ReportedByTick(items: seq<Item>, ids: seq<int>, now: int, timeout: int) {
    exists at :: Reports(items, ids, at) && forall i :: 0 <= i < |items| ==> (i in at <==> now - items[i].tick > timeout)
  }

  /** What stays, and what goes, when the expired items are removed, in terms of their ticks. */
  lemma ExpiredByTick(items: seq<Item>, now: int, timeout: int)
    ensures exists at :: InOrder(items, Without(items, Expired(now, timeout)), at)
                         && forall i :: 0 <= i < |items| ==> (i in at <==> now - items[i].tick <= timeout)
    ensures exists at :: Reports(items, IdsOf(items, Expired(now, timeout)), at)
                         && forall i :: 0 <= i < |items| ==> (i in at <==> now - items[i].tick > timeout)
  {
    var stay := WithoutInOrder(items, Expired(now, timeout));
    var go := IdsInOrder(items, Expired(now, timeout));
    assert Reports(items, IdsOf(items, Expired(now, timeout)), go);
  }

  lemma LeftByTickOnly(items: seq<Item>, now: int, timeout: int)
    ensures LeftByTick(items, Without(items, Expired(now, timeout)), now, timeout)
    ensures ReportedByTick(items, IdsOf(items, Expired(now, timeout)), now, timeout)
  {
    ExpiredByTick(items, now, timeout);
    hide InOrder;
  }

  /** The identifiers are those of the items at these positions, in order. */
  predicate Reports(items: seq<Item>, ids: seq<int>, at: seq<nat>) {
    && |at| == |ids| && (forall k :: 0 <= k < |at| ==> at[k] < |items| && ids[k] == items[at[k]].id)
    && (forall j, k :: 0 <= j < k < |at| ==> at[j] < at[k])
  }
}
