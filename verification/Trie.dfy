/** The binary trie that hands out host numbers (projects/dhcp/src/trie.c). */
module Trie {
  import opened Wrappers
  import opened Bits
  import opened HostSearch

  datatype Status = SUCCESS | IP_OCCUPIED_ALLOCATED_ANOTHER | NO_IP_AVAILABLE | DOUBLE_FREE | IP_NOT_FOUND

  /** The place of a node: the turns taken from the root. */
  datatype Key = Root | Down(parent: Key, right: bool)

  function Level(k: Key): nat { if k.Root? then 0 else 1 + Level(k.parent) }

  /** Where the walk for `host` is when `bits` bits are still to be looked at. */
  function KeyOf(depth: nat, host: nat, bits: nat): Key
    decreases depth - bits
  {
    if bits >= depth then Root else Down(KeyOf(depth, host, bits + 1), IsBitSet(host, bits))
  }

  lemma {:induction false} LevelOfKey(depth: nat, host: nat, bits: nat)
    requires bits <= depth
    ensures Level(KeyOf(depth, host, bits)) == depth - bits
    decreases depth - bits
  {
    if bits < depth { LevelOfKey(depth, host, bits + 1); }
  }

  lemma {:induction false} KeyOfDetermines(depth: nat, a: nat, b: nat, bits: nat)
    requires bits <= depth && a < Pow2(depth) && b < Pow2(depth)
    requires KeyOf(depth, a, bits) == KeyOf(depth, b, bits)
    ensures Shr(a, bits) == Shr(b, bits)
    decreases depth - bits
  {
    if bits < depth {
      KeyOfDetermines(depth, a, b, bits + 1);
    } else {
      ShrToZero(a, depth, depth);
      ShrToZero(b, depth, depth);
    }
  }

  /** Different hosts have different nodes. */
  lemma {:induction false} KeyOfInjective(depth: nat, a: nat, b: nat)
    requires a < Pow2(depth) && b < Pow2(depth)
    ensures KeyOf(depth, a, 0) == KeyOf(depth, b, 0) ==> a == b
  {
    if KeyOf(depth, a, 0) == KeyOf(depth, b, 0) { KeyOfDetermines(depth, a, b, 0); }
  }

  lemma {:induction false} SameKey(depth: nat, a: nat, b: nat, bits: nat)
    requires Shr(a, bits) == Shr(b, bits)
    ensures KeyOf(depth, a, bits) == KeyOf(depth, b, bits)
    decreases depth - bits
  {
    if bits < depth { SameKey(depth, a, b, bits + 1); }
  }

  /** The host number spelled by the turns. */
  function HostOf(k: Key): nat {
    if k.Root? then 0 else 2 * HostOf(k.parent) + (if k.right then 1 else 0)
  }

  lemma {:induction false} HostOfBound(k: Key)
    ensures HostOf(k) < Pow2(Level(k))
  {
    if k.Down? { HostOfBound(k.parent); }
  }

  lemma {:induction false} KeyOfHostOf(depth: nat, k: Key, host: nat)
    requires Level(k) <= depth && Shr(host, depth - Level(k)) == HostOf(k)
    ensures KeyOf(depth, host, depth - Level(k)) == k
    decreases k
  {
    if k.Down? { KeyOfHostOf(depth, k.parent, host); }
  }

  /** The walk for `host` goes through `k`. */
  predicate Through(depth: nat, host: nat, k: Key) {
    Level(k) <= depth && KeyOf(depth, host, depth - Level(k)) == k
  }

  lemma {:induction false} OneHostAt(depth: nat, host: nat, k: Key)
    requires host < Pow2(depth) && Level(k) == depth
    ensures Through(depth, host, k) <==> host == HostOf(k)
  {
    HostOfBound(k);
    KeyOfHostOf(depth, k, HostOf(k));
    KeyOfInjective(depth, host, HostOf(k));
  }

  lemma {:induction false} ThroughOne(depth: nat, host: nat, k: Key)
    requires Level(k) < depth
    ensures Through(depth, host, k) <==> Through(depth, host, Down(k, false)) || Through(depth, host, Down(k, true))
    ensures !(Through(depth, host, Down(k, false)) && Through(depth, host, Down(k, true)))
  {
    var bits := depth - Level(k) - 1;
    assert KeyOf(depth, host, bits) == Down(KeyOf(depth, host, bits + 1), IsBitSet(host, bits));
  }

  function Under(depth: nat, hosts: set<nat>, k: Key): set<nat> {
    set h | h in hosts && Through(depth, h, k)
  }

  lemma {:induction false} UnderSplit(depth: nat, hosts: set<nat>, k: Key)
    requires Level(k) < depth
    ensures |Under(depth, hosts, k)| == |Under(depth, hosts, Down(k, false))| + |Under(depth, hosts, Down(k, true))|
  {
    var l, r := Under(depth, hosts, Down(k, false)), Under(depth, hosts, Down(k, true));
    forall h | h in hosts ensures h in Under(depth, hosts, k) <==> h in l || h in r {
      ThroughOne(depth, h, k);
    }
    forall h | h in l ensures h !in r {
      ThroughOne(depth, h, k);
    }
    assert Under(depth, hosts, k) == l + r;
  }

  // ---------- the nodes that there are ----------

  /** The nodes on the way to a host, down to `low` open bits. */
  function PathFrom(depth: nat, host: nat, low: nat): set<Key> { set b | low <= b <= depth :: KeyOf(depth, host, b) }

  lemma {:induction false} PathFromNext(depth: nat, host: nat, low: nat)
    requires low < depth
    ensures PathFrom(depth, host, low) == PathFrom(depth, host, low + 1) + {KeyOf(depth, host, low)}
  {
    forall k ensures k in PathFrom(depth, host, low) <==> k in PathFrom(depth, host, low + 1) || k == KeyOf(depth, host, low) {}
  }

  ghost predicate OnWay(depth: nat, ever: set<nat>, k: Key) {
    k.Root? || exists e, b :: e in ever && 0 <= b <= depth && KeyOf(depth, e, b) == k
  }

  /** The nodes are the root and the ways to all hosts ever inserted. */
  ghost predicate Grown(keys: set<Key>, depth: nat, ever: set<nat>) {
    && (forall k {:trigger OnWay(depth, ever, k)} :: k in keys <==> OnWay(depth, ever, k))
    && forall e :: e in ever ==> e < Pow2(depth)
  }

  lemma {:induction false} GrownMore(keys: set<Key>, depth: nat, ever: set<nat>, host: nat)
    requires Grown(keys, depth, ever) && host < Pow2(depth)
    ensures Grown(keys + PathFrom(depth, host, 0), depth, ever + {host})
  {
    forall k ensures k in keys + PathFrom(depth, host, 0) <==> OnWay(depth, ever + {host}, k) {
      assert k in keys <==> OnWay(depth, ever, k);
      if k in PathFrom(depth, host, 0) {
        var b :| 0 <= b <= depth && KeyOf(depth, host, b) == k;
      }
    }
  }

  /** A host has its node exactly if it was ever inserted. */
  lemma {:induction false} LeafEver(keys: set<Key>, depth: nat, ever: set<nat>, host: nat)
    requires Grown(keys, depth, ever) && depth > 0 && host < Pow2(depth)
    ensures KeyOf(depth, host, 0) in keys <==> host in ever
  {
    var k := KeyOf(depth, host, 0);
    LevelOfKey(depth, host, 0);
    if host in ever { assert OnWay(depth, ever, k); }
    if k in keys {
      assert OnWay(depth, ever, k);
      var e, b :| e in ever && 0 <= b <= depth && KeyOf(depth, e, b) == k;
      LevelOfKey(depth, e, b);
      KeyOfInjective(depth, e, host);
    }
  }

  /** A right child is there exactly if a host ever inserted went that way. */
  lemma {:induction false} PivotKeys(keys: set<Key>, depth: nat, ever: set<nat>, host: nat, index: nat)
    requires Grown(keys, depth, ever) && index < depth && host < Pow2(depth)
    ensures Down(KeyOf(depth, host, index + 1), true) in keys <==> exists e :: e in ever && Agrees(e, host, index)
  {
    var k := Down(KeyOf(depth, host, index + 1), true);
    LevelOfKey(depth, host, index + 1);
    assert k in keys <==> OnWay(depth, ever, k);
    if k in keys {
      var e, b :| e in ever && 0 <= b <= depth && KeyOf(depth, e, b) == k;
      LevelOfKey(depth, e, b);
      assert b == index;
      KeyOfDetermines(depth, e, host, index + 1);
      assert Agrees(e, host, index);
    }
    forall e | e in ever && Agrees(e, host, index) ensures k in keys {
      SameKey(depth, e, host, index + 1);
      assert KeyOf(depth, e, index) == k;
    }
  }

  class TrieNode {
    var left: TrieNode?
    var right: TrieNode?
    var isLeaf: bool
    var hasFreeInSubtree: bool
    /** The node's place in the trie. */
    ghost const key: Key

    constructor (ghost key: Key)
      ensures left == null && right == null && !isLeaf && hasFreeInSubtree && this.key == key
    {
      this.key := key;
      left, right, isLeaf, hasFreeInSubtree := null, null, false, true;
    }

    /** The value TRIEUpdateMetadata gives to has_free_in_subtree. */
    function ComputesFree(): bool
      reads this, left, right
    {
      !isLeaf || left == null || right == null || left.hasFreeInSubtree || right.hasFreeInSubtree
    }

    function At(toRight: bool): TrieNode?
      reads this
    {
      if toRight then right else left
    }
  }

  /** The effect of an insertion, given the host the search finds. */
  predicate Inserted(before: Book, requested: nat, found: Option<nat>, status: Status, given: nat, after: Book) {
    match found
    case None => status == NO_IP_AVAILABLE && after == before
    case Some(h) =>
      && given == h && after == HostSearch.Book(before.ever + {h}, before.hosts + {h})
      && status == if h == requested then SUCCESS else IP_OCCUPIED_ALLOCATED_ANOTHER
  }

  /** A search that starts at a set bit goes on below it. */
  lemma {:induction false} NextHostBelow(ever: set<nat>, hosts: set<nat>, host: nat, bits: nat)
    requires IsBitSet(host, bits)
    ensures NextHost(ever, hosts, host, bits + 1) == NextHost(ever, hosts, host, bits)
  {
    LowestPivotBelow(ever, host, 0, bits);
  }

  function Lookup(nodes: map<Key, TrieNode>, k: Key): TrieNode? {
    if k in nodes then nodes[k] else null
  }

  class Trie {
    const root: TrieNode
    const depth: nat
    /** All hosts ever inserted. */
    ghost var ever: set<nat>
    ghost var nodes: map<Key, TrieNode>
    ghost var Repr: set<TrieNode>

    ghost predicate Linked(k: Key)
      reads this, Repr
    {
      k in nodes ==>
        && nodes[k] in Repr
        && nodes[k].key == k
        && nodes[k].hasFreeInSubtree
        && nodes[k].left == Lookup(nodes, Down(k, false))
        && nodes[k].right == Lookup(nodes, Down(k, true))
        && Level(k) <= depth
        && (Level(k) < depth ==> !nodes[k].isLeaf)
        && (k.Down? ==> k.parent in nodes)
    }

    ghost predicate Shaped()
      reads this, Repr
    {
      && Root in nodes && nodes[Root] == root
      && forall k {:trigger Linked(k)} :: Linked(k)
    }

    ghost predicate Valid()
      reads this, Repr
    {
      Shaped() && Grown(nodes.Keys, depth, ever)
    }

    ghost function Book(): Book
      reads this, Repr
    {
      HostSearch.Book(ever, Hosts())
    }

    ghost predicate Taken(host: nat)
      reads this, Repr
    {
      var k := KeyOf(depth, host, 0);
      k in nodes && nodes[k] in Repr && nodes[k].isLeaf
    }

    /** The hosts handed out. */
    ghost function Hosts(): set<nat>
      reads this, Repr
    {
      set h | 0 <= h < Pow2(depth) && Taken(h)
    }

    constructor (depth: nat)
      ensures Valid() && fresh(Repr) && this.depth == depth
      ensures depth > 0 ==> Hosts() == {}
      ensures ever == {}
    {
      this.depth := depth;
      var r := new TrieNode(Root);
      root := r;
      nodes := map[Root := r];
      Repr := {r};
      ever := {};
      assert forall k :: OnWay(depth, {}, k) <==> k.Root?;
    }

    lemma {:induction false} Ancestor(host: nat, low: nat, high: nat)
      requires Shaped() && low <= high <= depth && KeyOf(depth, host, low) in nodes
      ensures KeyOf(depth, host, high) in nodes
      decreases high
    {
      if low < high {
        Ancestor(host, low, high - 1);
        assert Linked(KeyOf(depth, host, high - 1));
      }
    }

    method TraversePath(host: nat) returns (target: TrieNode?)
      requires Valid()
      ensures target == Lookup(nodes, KeyOf(depth, host, 0))
    {
      var current: TrieNode := root;
      var bit: nat := depth;
      while bit > 0
        invariant bit <= depth && Lookup(nodes, KeyOf(depth, host, bit)) == current
      {
        bit := bit - 1;
        assert Linked(KeyOf(depth, host, bit + 1));
        if current.At(IsBitSet(host, bit)) == null {
          if KeyOf(depth, host, 0) in nodes { Ancestor(host, 0, bit); }
          return null;
        }
        current := current.At(IsBitSet(host, bit));
      }
      target := current;
    }

    method TRIESearch(host: nat) returns (found: bool)
      requires Valid() && host < Pow2(depth)
      ensures found <==> host in Hosts()
    {
      var target := TraversePath(host);
      assert Linked(KeyOf(depth, host, 0));
      found := target != null && target.isLeaf;
    }

    /** A new node hung under `current`, as AllocateAtTarget does it. */
    method AddChild(current: TrieNode, toRight: bool) returns (child: TrieNode)
      requires Shaped() && Lookup(nodes, current.key) == current && Level(current.key) < depth
      requires current.At(toRight) == null
      modifies this`nodes, this`Repr, current`left, current`right
      ensures Shaped() && fresh(child) && Repr == old(Repr) + {child}
      ensures nodes == old(nodes)[Down(current.key, toRight) := child] && !child.isLeaf
      ensures Hosts() == old(Hosts())
    {
      ghost var k := current.key;
      ghost var c := Down(k, toRight);
      assert Linked(k) && Linked(Down(c, false)) && Linked(Down(c, true));
      child := new TrieNode(c);
      nodes := nodes[c := child];
      Repr := Repr + {child};
      if toRight { current.right := child; } else { current.left := child; }
      forall j ensures Linked(j) {
        assert old(Linked(j));
      }
      forall h: nat ensures Taken(h) <==> old(Taken(h)) {
        assert old(Linked(KeyOf(depth, h, 0)));
      }
    }

    method TRIEUpdateMetadata(path: seq<TrieNode>)
      requires Shaped() && forall i :: 0 <= i < |path| ==> Lookup(nodes, path[i].key) == path[i]
      modifies path`hasFreeInSubtree
      ensures Shaped()
    {
      var level := |path|;
      while level > 0
        invariant level <= |path| && Shaped()
      {
        level := level - 1;
        var n := path[level];
        assert Linked(n.key) && Linked(Down(n.key, false));
        label before:
        n.hasFreeInSubtree := n.ComputesFree();
        forall j ensures Linked(j) {
          assert old@before(Linked(j));
        }
      }
    }

    /** Nodes of the path to `host` from its start down to the `bits` open bits. */
    ghost predicate OnPath(path: seq<TrieNode>)
      reads this
    {
      forall i :: 0 <= i < |path| ==> Lookup(nodes, path[i].key) == path[i]
    }

    /** Marks the host's node; the caller has walked there. */
    method MarkLeaf(current: TrieNode, host: nat, path: seq<TrieNode>)
      requires Shaped() && OnPath(path) && Lookup(nodes, KeyOf(depth, host, 0)) == current && host < Pow2(depth)
      modifies current`isLeaf, path`hasFreeInSubtree
      ensures Shaped() && Hosts() == old(Hosts()) + {host}
    {
      LevelOfKey(depth, host, 0);
      assert Linked(KeyOf(depth, host, 0));
      current.isLeaf := true;
      forall j ensures Linked(j) {
        assert old(Linked(j));
      }
      TRIEUpdateMetadata(path);
      forall h: nat | h < Pow2(depth) ensures Taken(h) <==> old(Taken(h)) || h == host {
        assert Linked(KeyOf(depth, h, 0)) && old(Linked(KeyOf(depth, h, 0)));
        KeyOfInjective(depth, h, host);
      }
    }

    method AllocateAtTarget(current: TrieNode, path: seq<TrieNode>, target: nat, remaining: nat)
      requires Valid() && OnPath(path) && target < Pow2(depth) && remaining <= depth
      requires Lookup(nodes, KeyOf(depth, target, remaining)) == current
      modifies this`nodes, this`Repr, this`ever, Repr
      ensures Valid() && fresh(Repr - old(Repr)) && Hosts() == old(Hosts()) + {target} && ever == old(ever) + {target}
    {
      PathInRepr(path);
      GrownMore(nodes.Keys, depth, ever, target);
      var node := MakePath(current, path, target, remaining);
      assert Grown(nodes.Keys, depth, ever + {target});
      assert Linked(KeyOf(depth, target, 0));
      MarkLeaf(node, target, path);
      NoteEver(target);
    }

    /** The loop of AllocateAtTarget: the nodes missing on the way to the host are made. */
    method MakePath(current: TrieNode, path: seq<TrieNode>, target: nat, remaining: nat) returns (node: TrieNode)
      requires Shaped() && OnPath(path) && remaining <= depth && Lookup(nodes, KeyOf(depth, target, remaining)) == current
      modifies this`nodes, this`Repr, Repr
      ensures Shaped() && fresh(Repr - old(Repr)) && Hosts() == old(Hosts()) && OnPath(path)
      ensures Lookup(nodes, KeyOf(depth, target, 0)) == node && nodes.Keys == old(nodes.Keys) + PathFrom(depth, target, 0)
    {
      AncestorPath(target, remaining);
      assert nodes.Keys == old(nodes.Keys) + PathFrom(depth, target, remaining);
      node := current;
      var bit: nat := remaining;
      while bit > 0
        invariant bit <= remaining && Shaped() && fresh(Repr - old(Repr)) && Hosts() == old(Hosts())
        invariant OnPath(path) && Lookup(nodes, KeyOf(depth, target, bit)) == node
        invariant nodes.Keys == old(nodes.Keys) + PathFrom(depth, target, bit)
      {
        bit := bit - 1;
        PathFromNext(depth, target, bit);
        node := ChildOrNew(node, path, target, bit);
      }
    }

    /** One turn of the loop of AllocateAtTarget. */
    method ChildOrNew(traverse: TrieNode, path: seq<TrieNode>, target: nat, bit: nat) returns (child: TrieNode)
      requires Shaped() && OnPath(path) && bit < depth && Lookup(nodes, KeyOf(depth, target, bit + 1)) == traverse
      modifies this`nodes, this`Repr, Repr
      ensures Shaped() && fresh(Repr - old(Repr)) && Hosts() == old(Hosts()) && OnPath(path)
      ensures Lookup(nodes, KeyOf(depth, target, bit)) == child && nodes.Keys == old(nodes.Keys) + {KeyOf(depth, target, bit)}
    {
      var direction := IsBitSet(target, bit);
      LevelOfKey(depth, target, bit + 1);
      assert Linked(traverse.key) && Linked(KeyOf(depth, target, bit + 1));
      assert forall i :: 0 <= i < |path| ==> Linked(path[i].key);
      if traverse.At(direction) == null {
        child := AddChild(traverse, direction);
      } else {
        child := traverse.At(direction);
      }
    }

    ghost method NoteEver(host: nat)
      requires Shaped()
      modifies this`ever
      ensures Shaped() && ever == old(ever) + {host} && Hosts() == old(Hosts())
    {
      ever := ever + {host};
      forall j ensures Linked(j) {
        assert old(Linked(j));
      }
      forall h: nat ensures Taken(h) <==> old(Taken(h)) {}
    }

    lemma PathInRepr(path: seq<TrieNode>)
      requires Shaped() && OnPath(path)
      ensures forall i :: 0 <= i < |path| ==> path[i] in Repr
    {
      assert forall i :: 0 <= i < |path| ==> Linked(path[i].key);
    }

    lemma AncestorPath(host: nat, low: nat)
      requires Shaped() && low <= depth && KeyOf(depth, host, low) in nodes
      ensures PathFrom(depth, host, low) <= nodes.Keys
    {
      forall b | low <= b <= depth ensures KeyOf(depth, host, b) in nodes { Ancestor(host, low, b); }
    }

    /** Marks a host whose node is there already. */
    method MarkAgain(current: TrieNode, host: nat, path: seq<TrieNode>)
      requires Valid() && OnPath(path) && Lookup(nodes, KeyOf(depth, host, 0)) == current && host < Pow2(depth)
      modifies current`isLeaf, path`hasFreeInSubtree, this`ever
      ensures Valid() && Hosts() == old(Hosts()) + {host} && ever == old(ever) + {host}
    {
      AncestorPath(host, 0);
      GrownMore(nodes.Keys, depth, ever, host);
      assert nodes.Keys + PathFrom(depth, host, 0) == nodes.Keys;
      MarkLeaf(current, host, path);
      NoteEver(host);
    }

    /** Walks towards `requested` from a node on its path with `bits` bits open. */
    method TRIEInsertHelper(start: TrieNode, requested: nat, bits: nat) returns (status: Status, given: nat)
      requires Valid() && requested < Pow2(depth) && bits <= depth
      requires Lookup(nodes, KeyOf(depth, requested, bits)) == start
      modifies this`nodes, this`Repr, this`ever, Repr
      ensures Valid() && fresh(Repr - old(Repr))
      ensures Inserted(old(Book()), requested, NextHost(old(ever), old(Hosts()), requested, bits), status, given, Book())
      decreases bits, bits > 0 && !IsBitSet(requested, bits - 1)
    {
      ghost var book := Book();
      var current, path, pivot, pivotDepth, bit := WalkDown(start, requested, bits);
      assert bit == 0 ==> Linked(KeyOf(depth, requested, 0));
      if bit == 0 && current.isLeaf {
        assert requested in book.hosts;
        status, given := FindAndAllocateNextFree(pivot, requested, pivotDepth, bits);
      } else {
        assert requested !in book.hosts;
        if bit > 0 {
          AllocateAtTarget(current, path, requested, bit);
        } else {
          PathInRepr(path);
          MarkAgain(current, requested, path);
        }
        status, given := SUCCESS, requested;
      }
    }

    /** What the loop sees at a node is what the search on sets sees. */
    lemma PivotHere(current: TrieNode, host: nat, bit: nat)
      requires Valid() && host < Pow2(depth) && bit < depth && Lookup(nodes, KeyOf(depth, host, bit + 1)) == current
      ensures current in Repr && current.key == KeyOf(depth, host, bit + 1) && (current.right != null ==> current.right in Repr && current.right.hasFreeInSubtree)
      ensures IsPivot(ever, host, bit) <==> !IsBitSet(host, bit) && current.right != null
      ensures current.At(IsBitSet(host, bit)) == Lookup(nodes, KeyOf(depth, host, bit))
    {
      assert Linked(KeyOf(depth, host, bit + 1)) && Linked(Down(KeyOf(depth, host, bit + 1), true));
      PivotKeys(nodes.Keys, depth, ever, host, bit);
    }

    lemma NotTaken(host: nat, bit: nat)
      requires Shaped() && bit <= depth && KeyOf(depth, host, bit) !in nodes
      ensures host !in Hosts()
    {
      if KeyOf(depth, host, 0) in nodes { Ancestor(host, 0, bit); }
    }

    /** The loop of TRIEInsertHelper: down to the node of the host, or to where the next one, at
        `bit` open bits, has no child to go on; it remembers the lowest pivot. */
    method WalkDown(start: TrieNode, requested: nat, bits: nat)
      returns (current: TrieNode, path: seq<TrieNode>, pivot: TrieNode?, pivotDepth: nat, bit: nat)
      requires Valid() && requested < Pow2(depth) && bits <= depth && Lookup(nodes, KeyOf(depth, requested, bits)) == start
      ensures bit <= bits && OnPath(path) && Lookup(nodes, KeyOf(depth, requested, bit)) == current
      ensures bit > 0 ==> requested !in Hosts()
      ensures bit == 0 ==> LowestPivot(ever, requested, 0, bits) == if pivot == null then None else Some(pivotDepth)
      ensures pivot != null ==>
                pivotDepth < bits && !IsBitSet(requested, pivotDepth) && Lookup(nodes, KeyOf(depth, requested, pivotDepth + 1)) == pivot
    {
      current, path, pivot, pivotDepth, bit := start, [], null, 0, bits;
      while bit > 0
        invariant bit <= bits && OnPath(path) && Lookup(nodes, KeyOf(depth, requested, bit)) == current
        invariant LowestPivot(ever, requested, bit, bits) == if pivot == null then None else Some(pivotDepth)
        invariant pivot != null ==> Lookup(nodes, KeyOf(depth, requested, pivotDepth + 1)) == pivot
      {
        var direction := IsBitSet(requested, bit - 1);
        PivotHere(current, requested, bit - 1);
        var child := current.At(direction);
        path := path + [current];
        if !direction && current.right != null && current.right.hasFreeInSubtree {
          pivot := current;
          pivotDepth := bit - 1;
        }
        if child == null {
          NotTaken(requested, bit - 1);
          return;
        }
        assert Linked(KeyOf(depth, requested, bit - 1));
        if !child.hasFreeInSubtree {
          assert false; // the flag is never cleared, so the search for another host never starts here
        }
        current := child;
        bit := bit - 1;
      }
    }

    method FindAndAllocateNextFree(pivot: TrieNode?, base: nat, pivotDepth: nat, ghost bits: nat) returns (status: Status, given: nat)
      requires Valid() && base < Pow2(depth) && base in Hosts() && bits <= depth
      requires pivot != null ==>
                 && pivotDepth < bits && !IsBitSet(base, pivotDepth)
                 && Lookup(nodes, KeyOf(depth, base, pivotDepth + 1)) == pivot
      modifies this`nodes, this`Repr, this`ever, Repr
      ensures Valid() && fresh(Repr - old(Repr))
      ensures var found := if pivot == null then None
                           else NextHost(old(ever), old(Hosts()), base + Pow2(pivotDepth), pivotDepth);
              Inserted(old(Book()), base, found, status, given, Book())
      decreases bits, bits > 0 && !IsBitSet(base, bits - 1), 0
    {
      if pivot == null {
        return NO_IP_AVAILABLE, 0;
      }
      var next := base + Pow2(pivotDepth);
      SetBit(base, pivotDepth);
      SetBitWithin(base, pivotDepth, depth);
      SameKey(depth, next, base, pivotDepth + 1);
      NextHostBelow(ever, Hosts(), next, pivotDepth);
      NextHostMeaning(ever, Hosts(), next, pivotDepth, depth);
      status, given := TRIEInsertHelper(pivot, next, pivotDepth + 1);
      status := if status == SUCCESS then IP_OCCUPIED_ALLOCATED_ANOTHER else status;
    }

    /** NO_IP_AVAILABLE exactly if every candidate of the search is taken; else the first free one is given. */
    method TRIEInsert(requested: nat) returns (status: Status, given: nat)
      requires Valid() && requested < Pow2(depth)
      modifies this`nodes, this`Repr, this`ever, Repr
      ensures Valid() && fresh(Repr - old(Repr)) && Book() == Asked(old(Book()), requested, depth)
      ensures status == SUCCESS || status == IP_OCCUPIED_ALLOCATED_ANOTHER || status == NO_IP_AVAILABLE
      ensures status == SUCCESS <==> requested !in old(Hosts())
      ensures status == NO_IP_AVAILABLE <==> AllTaken(Tried(old(ever), requested, depth), old(Hosts()))
      ensures status == NO_IP_AVAILABLE ==> Hosts() == old(Hosts())
      ensures status != NO_IP_AVAILABLE ==>
                && FoundIn(Tried(old(ever), requested, depth), old(Hosts()), given) && Hosts() == old(Hosts()) + {given}
                && given < Pow2(depth) && given !in old(Hosts()) && (status == SUCCESS <==> given == requested)
    {
      assert Linked(Root);
      NextHostIsFirstFree(ever, Hosts(), requested, depth);
      NextHostMeaning(ever, Hosts(), requested, depth, depth);
      status, given := NO_IP_AVAILABLE, 0;
      if !root.hasFreeInSubtree {
        return;
      }
      status, given := TRIEInsertHelper(root, requested, depth);
    }

    method TRIEFree(host: nat) returns (status: Status)
      requires Valid() && host < Pow2(depth)
      modifies Repr
      ensures Valid() && Hosts() == old(Hosts()) - {host} && ever == old(ever)
      ensures status == SUCCESS <==> host in old(Hosts())
      ensures status != SUCCESS ==> status == if KeyOf(depth, host, 0) in nodes then DOUBLE_FREE else IP_NOT_FOUND
      ensures depth > 0 && status != SUCCESS ==> status == if host in ever then DOUBLE_FREE else IP_NOT_FOUND
    {
      if depth > 0 { LeafEver(nodes.Keys, depth, ever, host); }
      var target := TraversePath(host);
      assert Linked(KeyOf(depth, host, 0));
      if target == null {
        return IP_NOT_FOUND;
      }
      if !target.isLeaf {
        return DOUBLE_FREE;
      }
      target.isLeaf := false;
      forall j ensures Linked(j) {
        assert old(Linked(j));
      }
      var path: seq<TrieNode> := [];
      var current: TrieNode := root;
      var bit: nat := depth;
      while bit > 0
        invariant Valid() && bit <= depth && OnPath(path) && Lookup(nodes, KeyOf(depth, host, bit)) == current
        modifies {}
      {
        bit := bit - 1;
        path := path + [current];
        Ancestor(host, 0, bit);
        assert Linked(KeyOf(depth, host, bit + 1));
        current := current.At(IsBitSet(host, bit));
      }
      assert forall i :: 0 <= i < |path| ==> Linked(path[i].key);
      TRIEUpdateMetadata(path);
      forall h: nat | h < Pow2(depth) ensures Taken(h) <==> old(Taken(h)) && h != host {
        assert Linked(KeyOf(depth, h, 0)) && old(Linked(KeyOf(depth, h, 0)));
        KeyOfInjective(depth, h, host);
      }
      return SUCCESS;
    }

    lemma HostsEver()
      requires Valid() && depth > 0
      ensures Hosts() <= ever
    {
      forall h | h in Hosts() ensures h in ever { LeafEver(nodes.Keys, depth, ever, h); }
    }

    /** The taken hosts whose walk goes through `k`. */
    ghost function HostsUnder(k: Key): set<nat>
      reads this, Repr
    {
      Under(depth, Hosts(), k)
    }

    lemma NoHostsUnder(k: Key)
      requires Valid() && Level(k) <= depth
      ensures k !in nodes ==> |HostsUnder(k)| == 0
    {
      forall h | h in HostsUnder(k) ensures k in nodes {
        Ancestor(h, 0, depth - Level(k));
      }
      assert k !in nodes ==> HostsUnder(k) == {};
    }

    lemma HostsUnderLeaf(k: Key)
      requires Valid() && Level(k) == depth && k in nodes
      ensures nodes[k] in Repr && HostsUnder(k) == if nodes[k].isLeaf then {HostOf(k)} else {}
    {
      assert Linked(k);
      HostOfBound(k);
      forall h: nat | h < Pow2(depth) ensures Through(depth, h, k) <==> h == HostOf(k) { OneHostAt(depth, h, k); }
      assert Through(depth, HostOf(k), k);
    }

    /** Counts what is free below `node`, with `bits` bits open. */
    function TRIECountFree(node: TrieNode, bits: nat): (count: nat)
      requires Valid() && node in Repr && Lookup(nodes, node.key) == node && Level(node.key) + bits == depth
      reads this, Repr
      ensures count + |HostsUnder(node.key)| == Pow2(bits)
      decreases bits
    {
      assert Linked(node.key);
      if bits == 0 then
        HostsUnderLeaf(node.key);
        if node.isLeaf then 0 else 1
      else
        assert Linked(Down(node.key, false)) && Linked(Down(node.key, true));
        UnderSplit(depth, Hosts(), node.key);
        NoHostsUnder(Down(node.key, false));
        NoHostsUnder(Down(node.key, true));
        (if node.left != null then TRIECountFree(node.left, bits - 1) else Pow2(bits - 1)) +
        (if node.right != null then TRIECountFree(node.right, bits - 1) else Pow2(bits - 1)) -
        (if node.isLeaf then 1 else 0)
    }

    /** Counted from the root: what is free and what is held make up all hosts. */
    lemma CountFreeComplements()
      requires Valid()
      ensures root in Repr && Lookup(nodes, root.key) == root && Level(root.key) == 0
      ensures TRIECountFree(root, depth) + |Hosts()| == Pow2(depth)
    {
      assert Linked(Root);
      assert HostsUnder(Root) == Hosts();
    }
  }
}
