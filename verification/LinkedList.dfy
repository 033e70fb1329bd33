/** The singly linked list (ds/src/sll.c): a node is put in or taken out at an iterator by copying
    its neighbour, and a dummy node at the end knows the list. */
module LinkedList {

  type Item = int

  datatype Data = Item(x: Item) | Owner(list: SList)

  class Node {
    var data: Data
    var next: Node?

    constructor (data: Data, next: Node?)
      ensures this.data == data && this.next == next
    {
      this.data, this.next := data, next;
    }
  }

  class SList {
    var head: Node
    var tail: Node
    ghost var nodes: seq<Node>

    /** The nodes are linked from the head to the dummy, which is the tail and belongs to this list. */
    ghost predicate Valid()
      reads this, set n <- nodes
    {
      && |nodes| > 0 && head == nodes[0] && tail == nodes[|nodes| - 1] && Distinct(nodes)
      && (forall i :: 0 <= i < |nodes| - 1 ==> nodes[i].data.Item? && nodes[i].next == nodes[i + 1])
      && tail.data == Owner(this) && tail.next == null
    }

    ghost function Contents(): seq<Item>
      requires Valid()
      reads this, set n <- nodes
    {
      seq(|nodes| - 1, i requires 0 <= i < |nodes| - 1 && Valid() reads this, set n <- nodes => nodes[i].data.x)
    }

    constructor ()
      ensures Valid() && fresh(nodes) && Contents() == []
    {
      var dummy := new Node(Item(0), null);
      head, tail, nodes := dummy, dummy, [dummy];
      new;
      dummy.data := Owner(this);
    }
  }

  ghost predicate Distinct(nodes: seq<Node>) { forall i, j :: 0 <= i < j < |nodes| ==> nodes[i] != nodes[j] }

  lemma StillDistinct(nodes: seq<Node>, i: nat, node: Node)
    requires Distinct(nodes) && i < |nodes| && node !in nodes
    ensures Distinct(nodes[..i + 1] + [node] + nodes[i + 1..])
  {}

  lemma PutIn(before: seq<Item>, i: nat, x: Item, after: seq<Item>)
    requires i <= |before| && |after| == |before| + 1 && after[i] == x
    requires forall k :: 0 <= k < |after| && k != i ==> after[k] == before[if k < i then k else k - 1]
    ensures after == before[..i] + [x] + before[i..]
  {}

  /** `i` is where the iterator stands; at the end it is the dummy. */
  method SLLInsert(where: Node, x: Item, ghost list: SList, ghost i: nat) returns (iter: Node)
    requires list.Valid() && i < |list.nodes| && where == list.nodes[i]
    modifies where, list
    ensures list.Valid() && iter == where && |list.nodes| == |old(list.nodes)| + 1
    ensures fresh(list.nodes[i + 1]) && list.nodes == old(list.nodes)[..i + 1] + [list.nodes[i + 1]] + old(list.nodes)[i + 1..]
    ensures list.Contents() == old(list.Contents())[..i] + [x] + old(list.Contents())[i..]
  {
    ghost var nodes, items := list.nodes, list.Contents();
    assert i < |nodes| - 1 ==> nodes[i].next == nodes[i + 1] && items[i] == where.data.x;
    var node := new Node(where.data, where.next);
    where.next := node;
    where.data := Item(x);
    if node.next == null {
      node.data.list.tail := node;
    }
    StillDistinct(nodes, i, node);
    list.nodes := nodes[..i + 1] + [node] + nodes[i + 1..];
    forall k | 0 <= k < |nodes| ensures list.nodes[k].data.Item? && list.nodes[k].next == list.nodes[k + 1] {
      if k > i + 1 {
        assert list.nodes[k] == nodes[k - 1] && list.nodes[k + 1] == nodes[k];
      }
    }
    PutIn(items, i, x, list.Contents());
    iter := where;
  }

  /** The node of the element stays and takes over the one behind it, whose node goes. */
  method SLLRemove(toRemove: Node, ghost list: SList, ghost i: nat) returns (iter: Node)
    requires list.Valid() && i < |list.nodes| - 1 && toRemove == list.nodes[i]
    modifies toRemove, list
    ensures list.Valid() && iter == toRemove
    ensures list.nodes == old(list.nodes)[..i + 1] + old(list.nodes)[i + 2..]
    ensures list.Contents() == old(list.Contents())[..i] + old(list.Contents())[i + 1..]
  {
    ghost var nodes := list.nodes;
    assert nodes[i].next == nodes[i + 1];
    assert i + 1 < |nodes| - 1 ==> nodes[i + 1].next == nodes[i + 2];
    var tmp := toRemove.next;
    toRemove.data := tmp.data;
    toRemove.next := tmp.next;
    if toRemove.next == null {
      toRemove.data.list.tail := toRemove;
    }
    list.nodes := nodes[..i + 1] + nodes[i + 2..];
    iter := toRemove;
  }
}
