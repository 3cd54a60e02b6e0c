/** The outbox: a singly linked tail queue on the heap, and a running total of the item lengths. */
module Outbox {
  import opened Bytes
  import opened ItemList
  import Connection

  /** struct outbox_item: the fields of the item, and its queue link. */
  class Node {
    var item: Item
    var next: Node?
    ghost var index: nat   // position in the queue

    constructor (item: Item)
      ensures this.item == item && next == null
    {
      this.item, this.next := item, null;
    }
  }

  class Outbox {
    var first: Node?   // stqh_first
    var last: Node?    // node whose link stqh_last points at; null when it points at stqh_first
    var size: int

    ghost var nodes: seq<Node>
    ghost var items: seq<Item>
    ghost var Repr: set<Node>

    /** The link of node i when the nodes are chained in order. */
    static ghost function Link(nodes: seq<Node>, i: nat): Node?
      requires i < |nodes|
    {
      if i + 1 < |nodes| then nodes[i + 1] else null
    }

    /** The nodes are distinct, chained in order, and hold the items. */
    static ghost predicate Chained(nodes: seq<Node>, items: seq<Item>, repr: set<Node>)
      reads repr
    {
      && |items| == |nodes|
      && (forall i :: 0 <= i < |nodes| ==> nodes[i] in repr && nodes[i].index == i && nodes[i].item == items[i])
      && (forall i {:trigger nodes[i].next} :: 0 <= i < |nodes| ==> nodes[i].next == Link(nodes, i))
    }

    ghost predicate Valid()
      reads this, Repr
    {
      && Chained(nodes, items, Repr)
      && first == (if nodes == [] then null else nodes[0])
      && last == (if nodes == [] then null else nodes[|nodes| - 1])
      && size == Size(items)
    }

    constructor ()
      ensures Valid() && items == []
    {
      first, last, size := null, null, 0;
      nodes, items, Repr := [], [], {};
    }

    /** A copy of the message at the tail, in state QUEUED. */
    method Enqueue(msgId: int, msgType: int, msgQos: int, data: seq<byte>, remainingData: seq<byte>, tick: int)
      returns (node: Node)
      requires Valid()
      modifies this, Repr
      ensures Valid() && fresh(node) && Repr == old(Repr) + {node} && nodes == old(nodes) + [node]
      ensures items == old(items) + [Item(msgId, msgType, msgQos, tick, QUEUED, data + remainingData)]
      ensures size == old(size) + |data| + |remainingData|
    {
      node := new Node(Item(msgId, msgType, msgQos, tick, QUEUED, data + remainingData));
      SizeOfConcat(items, [node.item]);
      InsertTail(node);
      size := size + |node.item.data|;
    }

    /** STAILQ_INSERT_TAIL */
    method InsertTail(node: Node)
      requires Valid() && node !in Repr && node.next == null
      modifies this`first, this`last, this`nodes, this`items, this`Repr, Repr`next, node`index
      ensures nodes == old(nodes) + [node] && items == old(items) + [node.item] && Repr == old(Repr) + {node}
      ensures Chained(nodes, items, Repr) && first == nodes[0] && last == node
    {
      node.index := |nodes|;
      if last == null {
        first := node;
      } else {
        last.next := node;
      }
      last := node;
      nodes, items, Repr := nodes + [node], items + [node.item], Repr + {node};
    }

    /** The oldest item that passes; the scan of outbox_get, outbox_dequeue and the deletions. */
    method Find(test: Test) returns (node: Node?)
      requires Valid()
      ensures node == null <==> First(items, test) == |items|
      ensures node != null ==> node == nodes[First(items, test)] && node.item == items[First(items, test)] && test(node.item)
    {
      node := first;
      ghost var i := 0;
      while node != null
        invariant i <= |nodes|
        invariant node == (if i < |nodes| then nodes[i] else null)
        invariant forall j :: 0 <= j < i ==> !test(items[j])
        decreases |nodes| - i
      {
        if test(node.item) {
          FirstAt(items, test, i);
          return;
        }
        node := node.next;
        i := i + 1;
      }
      FirstAt(items, test, i);
    }

    method Get(msgId: int) returns (node: Node?)
      requires Valid()
      ensures node == null <==> First(items, WithId(msgId)) == |items|
      ensures node != null ==> node == nodes[First(items, WithId(msgId))]
      // the oldest one with this identifier
      ensures node == null <==> forall j :: 0 <= j < |items| ==> items[j].id != msgId
      ensures node != null ==> exists i :: 0 <= i < |items| && node == nodes[i] && items[i].id == msgId && forall j :: 0 <= j < i ==> items[j].id != msgId
    {
      FirstIsOldest(items, WithId(msgId));
      node := Find(WithId(msgId));
    }

    /** The oldest item in the given state. The item stays in the queue. */
    method Dequeue(pending: Pending) returns (node: Node?)
      requires Valid()
      ensures node == null <==> First(items, InState(pending)) == |items|
      ensures node != null ==> node == nodes[First(items, InState(pending))] && node.item.pending == pending
      // the oldest one in this state
      ensures node == null <==> NoneIn(items, pending)
      ensures node != null ==> OldestIn(items, pending, First(items, InState(pending)))
    {
      FirstIsOldest(items, InState(pending));
      node := Find(InState(pending));
    }

    lemma NodeAt(i: nat)
      requires Valid() && i < |nodes|
      ensures nodes[i] in Repr && nodes[i].item == items[i] && nodes[i].next == Link(nodes, i)
    {
    }

    /** The pointer updates of STAILQ_REMOVE: the predecessor of node k, or the head, skips it. */
    method Bypass(node: Node, ghost k: nat)
      requires Valid() && k < |nodes| && nodes[k] == node
      modifies this`first, this`last, Repr`next
      ensures first == (if k == 0 then Link(nodes, 0) else nodes[0])
      ensures last == (if k + 1 < |nodes| then nodes[|nodes| - 1] else if k > 0 then nodes[k - 1] else null)
      ensures forall i {:trigger nodes[i].next} :: 0 <= i < |nodes| ==> nodes[i].next == Link(nodes, if i + 1 == k then k else i)
    {
      if first == node {
        first := node.next;
        if first == null {
          last := null;
        }
      } else {
        var current := first;
        ghost var c := 0;
        while current.next != node
          invariant 0 <= c < k && current == nodes[c]
          decreases k - c
        {
          current := current.next;
          c := c + 1;
        }
        assert c == k - 1 by { assert nodes[c].next.index == c + 1; }
        current.next := node.next;
        if current.next == null {
          last := current;
        }
      }
    }

    /** Chaining the remaining nodes in order is chaining past node k. */
    static lemma LinkAfterRemoval(nodes: seq<Node>, k: nat, i: nat)
      requires k < |nodes| && i + 1 < |nodes|
      ensures var j := if i < k then i else i + 1;
              && RemoveAt(nodes, k)[i] == nodes[j]
              && Link(RemoveAt(nodes, k), i) == Link(nodes, if j + 1 == k then k else j)
    {
    }

    /** Drops node k from the abstract queue once no link leads to it. */
    ghost method Forget(k: nat)
      requires k < |nodes| == |items|
      requires forall i :: 0 <= i < |nodes| ==> nodes[i] in Repr && nodes[i].index == i && nodes[i].item == items[i]
      requires forall i {:trigger nodes[i].next} :: 0 <= i < |nodes| ==> nodes[i].next == Link(nodes, if i + 1 == k then k else i)
      modifies this`nodes, this`items, Repr`index
      ensures nodes == RemoveAt(old(nodes), k) && items == RemoveAt(old(items), k)
      ensures Chained(nodes, items, Repr)
    {
      hide RemoveAt;
      nodes, items := RemoveAt(nodes, k), RemoveAt(items, k);
      forall i | k <= i < |nodes| {
        nodes[i].index := i;
      }
      forall i {:trigger nodes[i].next} | 0 <= i < |nodes|
        ensures nodes[i].next == Link(nodes, i)
      {
        LinkAfterRemoval(old(nodes), k, i);
      }
    }

    /** STAILQ_REMOVE of the node at index k, which is then freed. */
    method Remove(node: Node, ghost k: nat)
      requires Valid() && k < |nodes| && nodes[k] == node
      modifies this`first, this`last, this`nodes, this`items, this`size, Repr`next, Repr`index
      ensures Valid() && items == RemoveAt(old(items), k) && nodes == RemoveAt(old(nodes), k)
    {
      SizeWithout(items, k);
      NodeAt(k);
      hide RemoveAt;
      var length := |node.item.data|;
      Bypass(node, k);
      Forget(k);
      size := size - length;
    }

    method DeleteItem(toDelete: Node) returns (ok: bool)
      requires Valid()
      modifies this`first, this`last, this`nodes, this`items, this`size, Repr`next, Repr`index
      ensures Valid() && ok == (toDelete in old(nodes))
      ensures ok ==> exists k :: 0 <= k < |old(nodes)| && old(nodes)[k] == toDelete && items == RemoveAt(old(items), k)
                                 && nodes == RemoveAt(old(nodes), k)
      ensures !ok ==> items == old(items) && nodes == old(nodes)
    {
      var node := first;
      ghost var i := 0;
      while node != null
        invariant i <= |nodes|
        invariant node == (if i < |nodes| then nodes[i] else null)
        invariant toDelete !in nodes[..i]
        decreases |nodes| - i
      {
        if node == toDelete {
          Remove(node, i);
          return true;
        }
        node := node.next;
        i := i + 1;
      }
      return false;
    }

    /** Deletes the oldest item with this identifier and type, and no other. */
    method Delete(msgId: int, msgType: int) returns (ok: bool)
      requires Valid()
      modifies this`first, this`last, this`nodes, this`items, this`size, Repr`next, Repr`index
      ensures Valid() && items == RemoveFirst(old(items), WithIdAndType(msgId, msgType))
      ensures ok <==> First(old(items), WithIdAndType(msgId, msgType)) < |old(items)|
      // the oldest one with this identifier and the low byte of its type
      ensures ok <==> exists i :: 0 <= i < |old(items)| && old(items)[i].id == msgId && old(items)[i].msgType % 256 == msgType
      ensures !ok ==> items == old(items)
      ensures ok ==> exists i :: 0 <= i < |old(items)| && items == old(items)[..i] + old(items)[i + 1..]
                                 && old(items)[i].id == msgId && old(items)[i].msgType % 256 == msgType
                                 && forall j :: 0 <= j < i ==> !(old(items)[j].id == msgId && old(items)[j].msgType % 256 == msgType)
    {
      FirstIsOldest(items, WithIdAndType(msgId, msgType));
      var node := Find(WithIdAndType(msgId, msgType));
      if node == null {
        return false;
      }
      Remove(node, First(items, WithIdAndType(msgId, msgType)));
      return true;
    }

    method SetPending(msgId: int, pending: Pending) returns (ok: bool)
      requires Valid()
      modifies Repr, this`items
      ensures Valid() && nodes == old(nodes)
      ensures var i := First(old(items), WithId(msgId));
              && ok == (i < |items|)
              && items == if ok then old(items)[i := old(items)[i].(pending := pending)] else old(items)
    {
      var node := Get(msgId);
      if node == null {
        return false;
      }
      ghost var i := First(items, WithId(msgId));
      SizeOfUpdate(items, i, items[i].(pending := pending));
      node.item := node.item.(pending := pending);
      items := items[i := items[i].(pending := pending)];
      return true;
    }

    method SetTick(msgId: int, tick: int) returns (ok: bool)
      requires Valid()
      modifies Repr, this`items
      ensures Valid() && nodes == old(nodes)
      ensures var i := First(old(items), WithId(msgId));
              && ok == (i < |items|)
              && items == if ok then old(items)[i := old(items)[i].(tick := tick)] else old(items)
    {
      var node := Get(msgId);
      if node == null {
        return false;
      }
      ghost var i := First(items, WithId(msgId));
      SizeOfUpdate(items, i, items[i].(tick := tick));
      node.item := node.item.(tick := tick);
      items := items[i := items[i].(tick := tick)];
      return true;
    }

    /** mqtt_set_dup on the stored packet of the item at index k. */
    method MarkDup(node: Node, ghost k: nat)
      requires Valid() && k < |nodes| && nodes[k] == node && node.item.data != []
      modifies node`item, this`items
      ensures Valid() && nodes == old(nodes)
      ensures var x := old(items)[k]; items == old(items)[k := x.(data := x.data[0 := Connection.SetDup(x.data[0])])]
    {
      var x := node.item.(data := node.item.data[0 := Connection.SetDup(node.item.data[0])]);
      SizeOfUpdate(items, k, x);
      node.item := x;
      items := items[k := x];
    }

    /** Deletes the oldest expired item and returns its identifier, or -1. */
    method DeleteSingleExpired(now: int, timeout: int) returns (msgId: int)
      requires Valid()
      modifies this`first, this`last, this`nodes, this`items, this`size, Repr`next, Repr`index
      ensures Valid() && items == RemoveFirst(old(items), Expired(now, timeout))
      ensures var i := First(old(items), Expired(now, timeout));
              msgId == if i < |old(items)| then old(items)[i].id else -1
      // the oldest one that has been there for longer than the timeout
      ensures (forall j :: 0 <= j < |old(items)| ==> now - old(items)[j].tick <= timeout) ==> msgId == -1 && items == old(items)
      ensures (exists j :: 0 <= j < |old(items)| && now - old(items)[j].tick > timeout) ==>
                exists i :: 0 <= i < |old(items)| && items == old(items)[..i] + old(items)[i + 1..] && msgId == old(items)[i].id
                            && now - old(items)[i].tick > timeout && forall j :: 0 <= j < i ==> now - old(items)[j].tick <= timeout
    {
      FirstIsOldest(items, Expired(now, timeout));
      var node := Find(Expired(now, timeout));
      if node == null {
        return -1;
      }
      msgId := node.item.id;
      Remove(node, First(items, Expired(now, timeout)));
    }

    /** One deletion of the pass: node i goes, and the pass goes on with the node behind it. */
    method RemovePassing(node: Node, ghost i: nat, ghost test: Test)
      requires Valid() && i < |nodes| && nodes[i] == node && test(items[i])
      requires forall j :: 0 <= j < i ==> !test(items[j])
      modifies this`first, this`last, this`nodes, this`items, this`size, Repr`next, Repr`index
      ensures Valid() && |nodes| == |old(nodes)| - 1
      ensures old(node.next) == (if i < |nodes| then nodes[i] else null)
      ensures forall j :: 0 <= j < i ==> !test(items[j])
      ensures Without(items, test) == Without(old(items), test)
    {
      NodeAt(i);
      FirstAt(items, test, i);
      RemoveFirstThenAll(items, test);
      hide Without, First;
      Remove(node, i);
    }

    /** Deletes every expired item in one pass and returns how many there were. */
    method DeleteExpired(now: int, timeout: int) returns (deleted: int)
      requires Valid()
      modifies this`first, this`last, this`nodes, this`items, this`size, Repr`next, Repr`index
      ensures Valid() && items == Without(old(items), Expired(now, timeout))
      ensures deleted == |old(items)| - |items|
      ensures LeftByTick(old(items), items, now, timeout)
    {
      LeftByTickOnly(items, now, timeout);
      hide Without, First, RemoveAt, LeftByTick;
      ghost var test := Expired(now, timeout);
      deleted := 0;
      var node := first;
      ghost var i := 0;
      while node != null
        invariant Valid() && 0 <= i <= |nodes|
        invariant node == (if i < |nodes| then nodes[i] else null)
        invariant forall j :: 0 <= j < i ==> !test(items[j])
        invariant Without(items, test) == Without(old(items), test)
        invariant deleted == |old(items)| - |items|
        decreases |nodes| - i
      {
        NodeAt(i);
        var following := node.next;
        if now - node.item.tick > timeout {
          RemovePassing(node, i, test);
          deleted := deleted + 1;
        } else {
          i := i + 1;
        }
        node := following;
      }
      WithoutNone(items, test);
    }

    /** The client loop when deletions are reported: single deletions until none is expired. */
    method DeleteExpiredOneByOne(now: int, timeout: int) returns (reported: seq<int>)
      requires Valid() && forall x :: x in items ==> x.id >= 0
      modifies this`first, this`last, this`nodes, this`items, this`size, Repr`next, Repr`index
      ensures Valid() && items == Without(old(items), Expired(now, timeout))
      ensures reported == IdsOf(old(items), Expired(now, timeout))
      ensures LeftByTick(old(items), items, now, timeout) && ReportedByTick(old(items), reported, now, timeout)
    {
      LeftByTickOnly(items, now, timeout);
      hide LeftByTick, ReportedByTick;
      ghost var test := Expired(now, timeout);
      OneByOneIsOnePass(items, test);
      hide IdsOf, RemoveFirst, RemoveOneByOne, First, Without, Chained;
      reported := [];
      var more := true;
      while more
        invariant Valid() && forall x :: x in items ==> x.id >= 0
        invariant RemoveOneByOne(items, test) == RemoveOneByOne(old(items), test)
        invariant !more ==> items == RemoveOneByOne(items, test)
        invariant reported + IdsOf(items, test) == IdsOf(old(items), test)
        invariant !more ==> IdsOf(items, test) == []
        decreases more, |items|
      {
        RemoveOne(items, test);
        var msgId := DeleteSingleExpired(now, timeout);
        if msgId >= 0 {
          reported := reported + [msgId];
        } else {
          more := false;
        }
      }
    }

    method DeleteAllItems()
      requires Valid()
      modifies this`first, this`last, this`nodes, this`items, this`size, Repr`next, Repr`index
      ensures Valid() && items == []
    {
      var node := first;
      while node != null
        invariant Valid() && node == (if nodes == [] then null else nodes[0])
        decreases |nodes|
      {
        var following := node.next;
        Remove(node, 0);
        node := following;
      }
    }
  }
}
