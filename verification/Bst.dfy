/** The search tree with parent pointers and a stub for its end (ds/src/bst.c). */
module Bst {
  import opened BstShape
  import opened BstPlaces
  import opened BstRemoval

  class BST {
    const stub: nat
    var cells: Memory
    ghost var tree: Tree

    ghost predicate Valid()
      reads this
    {
      Whole(cells, Top, tree, stub) && Ascending(cells, Inorder(tree))
    }

    /** The iterators from the first node to the end. */
    ghost function Iters(): seq<nat>
      reads this
    {
      Inorder(tree) + [stub]
    }

    constructor (address: nat)
      requires address != NULL
      ensures Valid() && Iters() == [address]
    {
      stub := address;
      cells := map[address := Cell(NULL, NULL, address, 0)];
      tree := Leaf;
    }

    /** Leftmost and Rightmost. */
    method Outermost(start: nat, side: Side, ghost s: Tree, ghost parent: nat) returns (node: nat)
      requires Linked(cells, s, parent) && s.Fork? && start == s.at && NoRepeats(Inorder(s))
      ensures node == Edge(s, side)
    {
      node := start;
      ghost var t, p := s, parent;
      while Child(cells[node], side) != NULL && Child(cells[node], side) != node
        invariant t.Fork? && node == t.at && Linked(cells, t, p) && NoRepeats(Inorder(t)) && Edge(t, side) == Edge(s, side)
        decreases t
      {
        EdgeBelow(t, side);
        SubtreeApart(t, side);
        t, p := Subtree(t, side), t.at;
        node := Child(cells[node], side);
      }
      EdgeBelow(t, side);
      SubtreeApart(t, side);
      RootIn(Subtree(t, side));
    }

    method StepInOrder(iter: nat, first: Side, ghost i: nat) returns (r: nat)
      requires Valid() && i <= |Inorder(tree)| && iter == Iters()[i]
      requires if first == RIGHT then i < |Inorder(tree)| else i > 0
      ensures r == Iters()[if first == RIGHT then i + 1 else i - 1]
    {
      ghost var c, s, sub, p := StepFrom(cells, tree, stub, iter, first, i);
      if Child(cells[iter], first) != NULL {
        r := Outermost(Child(cells[iter], first), Opposite(first), sub, p);
      } else {
        r := Climb(iter, first, i, c, s);
      }
    }

    /** The second loop of StepInOrder. */
    method Climb(start: nat, first: Side, ghost i: nat, ghost place: Place, ghost sub: Tree) returns (r: nat)
      requires Whole(cells, place, sub, stub) && sub.Fork? && start == sub.at && Passed(place, sub, first, i)
      requires All(place, sub) == Inorder(tree) && (first == LEFT ==> 0 < i)
      ensures i <= |Inorder(tree)| && (first == RIGHT ==> i < |Inorder(tree)|)
      ensures r == Iters()[if first == RIGHT then i + 1 else i - 1]
    {
      var node := start;
      ghost var c, s := place, sub;
      ClimbTest(cells, c, s, stub, first);
      while cells[node].parent != NULL && node == Child(cells[cells[node].parent], first)
        invariant Whole(cells, c, s, stub) && s.Fork? && node == s.at && Passed(c, s, first, i) && All(c, s) == Inorder(tree)
        invariant node in cells && cells[node].parent in cells && (first == LEFT ==> !c.Top?)
        decreases c
      {
        ClimbTest(cells, c, s, stub, first);
        ClimbOn(cells, c, s, stub, first, i);
        c, s := c.up, Above(c, s);
        node := cells[node].parent;
        ClimbTest(cells, c, s, stub, first);
      }
      ClimbTest(cells, c, s, stub, first);
      ClimbEnds(c, s, stub, first, i);
      r := cells[node].parent; // never NULL: the stub is above every node
    }

    method BSTBegin() returns (r: nat)
      requires Valid()
      ensures r == Iters()[0]
    {
      assert All(Top, tree) == Inorder(tree);
      if cells[stub].left != NULL {
        r := Outermost(cells[stub].left, LEFT, tree, stub);
      } else {
        LinkedCells(cells, tree, stub);
        RootIn(tree);
        r := stub;
      }
    }

    method BSTNext(iter: nat, ghost i: nat) returns (r: nat)
      requires Valid() && i < |Inorder(tree)| && iter == Iters()[i]
      ensures r == Iters()[i + 1]
    {
      r := StepInOrder(iter, RIGHT, i);
    }

    /** The step back from where BSTNext went. */
    method BSTPrev(iter: nat, ghost i: nat) returns (r: nat)
      requires Valid() && 0 < i <= |Inorder(tree)| && iter == Iters()[i]
      ensures r == Iters()[i - 1]
    {
      r := StepInOrder(iter, LEFT, i);
    }

    /** From one iterator up to another: the keys in between, in ascending order, until an action answers non-zero. */
    method BSTForEach(from: nat, to: nat, action: int -> int, ghost i: nat, ghost j: nat) returns (status: int, ghost visited: seq<int>)
      requires Valid() && i <= j <= |Inorder(tree)| && from == Iters()[i] && to == Iters()[j]
      ensures Spells(cells, Inorder(tree)[i..j], visited) && Increasing(visited)
      ensures if status == 0 then |visited| == j - i && Quiet(action, visited, j - i)
              else |visited| > 0 && Quiet(action, visited, |visited| - 1) && action(visited[|visited| - 1]) == status
    {
      ghost var nodes := Inorder(tree);
      IteratorsDiffer(cells, tree, stub);
      var it := from;
      visited, status := [], 0;
      while it != to
        invariant Visiting(cells, nodes, stub, i, j, it, visited) && Quiet(action, visited, |visited|)
        decreases j - i - |visited|
      {
        VisitNext(cells, nodes, stub, i, j, it, visited);
        status := action(cells[it].data);
        QuietMore(action, visited, cells[it].data);
        ghost var n := i + |visited|;
        visited := visited + [cells[it].data];
        if status != 0 {
          break;
        }
        it := BSTNext(it, n);
      }
      VisitedMeaning(cells, nodes, stub, i, j, visited);
    }

    /** FindNode and BSTFind. */
    method BSTFind(key: int) returns (r: nat)
      requires Valid()
      ensures if r == stub then forall a :: a in Inorder(tree) ==> cells[a].data != key
              else r in Inorder(tree) && cells[r].data == key
    {
      var current := cells[stub].left;
      ghost var c, t := Top, tree;
      assert All(Top, tree) == Inorder(tree);
      while current != NULL
        invariant Whole(cells, c, t, stub) && All(c, t) == Inorder(tree) && current == Root(t) && Between(cells, c, key)
        decreases t
      {
        RootIn(t);
        assert t.at in All(c, t);
        if key == cells[current].data {
          return current;
        }
        var side := if key > cells[current].data then RIGHT else LEFT;
        Descend(cells, c, t, stub, key, side);
        c, t := Below(c, t, side), Subtree(t, side);
        current := Child(cells[current], side);
      }
      LinkedCells(cells, t, ParentOf(c, stub));
      RootIn(t);
      return stub;
    }

    /** The loop of BSTInsert: down to the empty link where a new key belongs. */
    method DescendToLeaf(data: int) returns (parent: nat, side: Side, ghost c: Place)
      requires Valid() && forall a :: a in Inorder(tree) ==> cells[a].data != data
      ensures Whole(cells, c, Leaf, stub) && All(c, Leaf) == Inorder(tree) && Between(cells, c, data)
      ensures parent == ParentOf(c, stub) && side == SideOf(c)
    {
      var current := cells[stub].left;
      parent, side, c := stub, LEFT, Top;
      ghost var t := tree;
      assert All(Top, tree) == Inorder(tree);
      while current != NULL
        invariant Whole(cells, c, t, stub) && All(c, t) == Inorder(tree) && current == Root(t) && Between(cells, c, data)
        invariant parent == ParentOf(c, stub) && side == SideOf(c)
        decreases t
      {
        RootIn(t);
        assert t.at in All(c, t);
        parent := current;
        side := if data > cells[current].data then RIGHT else LEFT;
        Descend(cells, c, t, stub, data, side);
        c, t := Below(c, t, side), Subtree(t, side);
        current := Child(cells[current], side);
      }
      LinkedCells(cells, t, parent);
      RootIn(t);
    }

    /** `address` is what malloc gives for the new node. */
    method BSTInsert(data: int, address: nat) returns (iter: nat)
      requires Valid() && address != NULL && address !in cells
      requires forall a :: a in Inorder(tree) ==> cells[a].data != data
      modifies this
      ensures Valid() && iter == address && address in cells && cells[address].data == data
      ensures exists k :: 0 <= k <= |old(Inorder(tree))| && Inorder(tree) == old(Inorder(tree))[..k] + [address] + old(Inorder(tree))[k..]
      ensures SameData(old(cells), cells)
    {
      NewCell(cells, tree, stub, address, data);
      cells := cells[address := Cell(NULL, NULL, NULL, data)];
      var parent, side;
      ghost var c;
      parent, side, c := DescendToLeaf(data);
      InsertHere(cells, c, stub, address, data);
      cells := SetChildLink(cells, parent, side, address);
      Plugged(cells, c, Fork(Leaf, address, Leaf), stub);
      InsertedIn(Inorder(tree), Before(c), address, After(c));
      tree := Plug(c, Fork(Leaf, address, Leaf));
      iter := address;
    }

    /** The successor, next to the node or further down, takes its place. */
    method ReplaceBySuccessor(node: nat, next: nat, ghost c: Place, ghost s: Tree) returns (ghost t: Tree)
      requires Whole(cells, c, s, stub) && s.Fork? && s.left.Fork? && s.right.Fork? && node == s.at && next == Edge(s.right, LEFT)
      modifies this`cells
      ensures Whole(cells, c, t, stub) && SameData(old(cells), cells)
      ensures node !in All(c, t) && All(c, t) == Before(c) + Inorder(s.left) + (Inorder(s.right) + After(c))
    {
      ghost var m := cells;
      t := Fork(s.left, next, DropMin(s.right));
      SuccessorPlace(m, c, s, stub);
      if cells[next].parent != node {
        cells := ReplaceInParent(cells, next, cells[next].right);
        cells := SetChildLink(cells, next, RIGHT, cells[node].right);
      }
      SuccessorReady(m, cells, c, s, stub);
      cells := ReplaceInParent(cells, node, next);
      cells := SetChildLink(cells, next, LEFT, cells[node].left);
    }

    /** The three cases of BSTRemove. */
    method Unlink(node: nat, ghost i: nat, ghost c: Place, ghost s: Tree) returns (ghost t: Tree)
      requires Valid() && i < |Inorder(tree)| && node == Iters()[i]
      requires Whole(cells, c, s, stub) && s.Fork? && node == s.at && All(c, s) == Inorder(tree) && i == |Before(c)| + |Inorder(s.left)|
      modifies this`cells
      ensures Whole(cells, c, t, stub) && SameData(old(cells), cells)
      ensures node !in All(c, t) && All(c, t) == Before(c) + Inorder(s.left) + (Inorder(s.right) + After(c))
    {
      ChildLinks(cells, c, s, stub);
      if cells[node].left == NULL {
        t := s.right;
        CutOne(cells, c, s, t, stub);
        cells := ReplaceInParent(cells, node, cells[node].right);
      } else if cells[node].right == NULL {
        t := s.left;
        CutOne(cells, c, s, t, stub);
        cells := ReplaceInParent(cells, node, cells[node].left);
      } else {
        DownEdge(c, s, RIGHT, i);
        var next := BSTNext(node, i);
        t := ReplaceBySuccessor(node, next, c, s);
      }
    }

    /** The element leaves; every other node stays, with its data. */
    method BSTRemove(iter: nat, ghost i: nat)
      requires Valid() && i < |Inorder(tree)| && iter == Iters()[i]
      modifies this
      ensures Valid() && Inorder(tree) == old(Inorder(tree))[..i] + old(Inorder(tree))[i + 1..]
      ensures OthersKeep(old(cells), cells, iter)
    {
      ghost var m, nodes := cells, Inorder(tree);
      AllFromTop(tree);
      ghost var c, s := Locate(cells, Top, tree, i, stub);
      ghost var t := Unlink(iter, i, c, s);
      RemovedOrder(m, cells, nodes, c, s, t, i, stub);
      cells := cells - {iter};
      tree := Plug(c, t);
    }
  }

  /** The data of the first nodes. */
  ghost predicate Spells(m: Memory, nodes: seq<nat>, visited: seq<int>) {
    |visited| <= |nodes| && forall k :: 0 <= k < |visited| ==> nodes[k] in m && visited[k] == m[nodes[k]].data
  }

  predicate Increasing(visited: seq<int>) { forall k, l :: 0 <= k < l < |visited| ==> visited[k] < visited[l] }

  /** The first n actions answered zero. */
  predicate Quiet(action: int -> int, visited: seq<int>, n: nat)
    requires n <= |visited|
  {
    forall k :: 0 <= k < n ==> action(visited[k]) == 0
  }

  lemma QuietMore(action: int -> int, visited: seq<int>, x: int)
    requires Quiet(action, visited, |visited|)
    ensures Quiet(action, visited + [x], |visited|) && (action(x) == 0 ==> Quiet(action, visited + [x], |visited| + 1))
  {}

  /** Underway from the i-th iterator to the j-th. */
  ghost predicate Visiting(m: Memory, nodes: seq<nat>, stub: nat, i: nat, j: nat, it: nat, visited: seq<int>) {
    && i <= j <= |nodes| && |visited| <= j - i && it == (nodes + [stub])[i + |visited|] && Spells(m, nodes[i..j], visited)
    && NoRepeats(nodes + [stub]) && forall a :: a in nodes ==> a in m
  }

  lemma VisitNext(m: Memory, nodes: seq<nat>, stub: nat, i: nat, j: nat, it: nat, visited: seq<int>)
    requires Visiting(m, nodes, stub, i, j, it, visited) && it != (nodes + [stub])[j]
    ensures i + |visited| < j && it in m && Spells(m, nodes[i..j], visited + [m[it].data])
    ensures Visiting(m, nodes, stub, i, j, (nodes + [stub])[i + |visited| + 1], visited + [m[it].data])
  {
    assert it == nodes[i..j][|visited|];
  }

  lemma VisitedMeaning(m: Memory, nodes: seq<nat>, stub: nat, i: nat, j: nat, visited: seq<int>)
    requires Ascending(m, nodes) && i <= j <= |nodes| && NoRepeats(nodes + [stub]) && Spells(m, nodes[i..j], visited)
    ensures Increasing(visited)
    ensures (nodes + [stub])[i + |visited|] == (nodes + [stub])[j] ==> |visited| == j - i
  {
    forall k, l | 0 <= k < l < |visited| ensures visited[k] < visited[l] {
      assert nodes[i..j][k] == nodes[i + k] && nodes[i..j][l] == nodes[i + l];
    }
  }

  lemma {:induction false} IteratorsDiffer(m: Memory, t: Tree, stub: nat)
    requires Whole(m, Top, t, stub)
    ensures NoRepeats(Inorder(t) + [stub]) && forall a :: a in Inorder(t) ==> a in m
  {
    assert All(Top, t) == Inorder(t);
    LinkedCells(m, t, stub);
  }

  lemma {:induction false} ChildLinks(m: Memory, c: Place, s: Tree, stub: nat)
    requires Whole(m, c, s, stub) && s.Fork?
    ensures s.at in m && m[s.at].parent in m && IsCell(m, m[s.at].left) && IsCell(m, m[s.at].right)
    ensures (m[s.at].left == NULL <==> s.left.Leaf?) && (m[s.at].right == NULL <==> s.right.Leaf?)
  {
    LinkedCells(m, s.left, s.at);
    LinkedCells(m, s.right, s.at);
    RootIn(s.left);
    RootIn(s.right);
    ClimbTest(m, c, s, stub, RIGHT);
  }

  lemma {:induction false} AllFromTop(t: Tree)
    ensures All(Top, t) == Inorder(t)
  {}

  /** Every other node is still there, with its data. */
  ghost predicate OthersKeep(m: Memory, m': Memory, at: nat) {
    forall a :: a in m && a != at ==> a in m' && m'[a].data == m[a].data
  }

  /** Freeing the removed node leaves a tree with the others. */
  lemma {:induction false} RemovedOrder(m: Memory, m': Memory, nodes: seq<nat>, c: Place, s: Tree, t: Tree, i: nat, stub: nat)
    requires Ascending(m, nodes) && s.Fork? && All(c, s) == nodes && i == |Before(c)| + |Inorder(s.left)|
    requires Whole(m', c, t, stub) && SameData(m, m') && s.at !in All(c, t) && s.at != stub
    requires All(c, t) == Before(c) + Inorder(s.left) + (Inorder(s.right) + After(c))
    ensures i < |nodes| && Whole(m' - {s.at}, Top, Plug(c, t), stub) && OthersKeep(m, m' - {s.at}, s.at)
    ensures Inorder(Plug(c, t)) == nodes[..i] + nodes[i + 1..] && Ascending(m' - {s.at}, Inorder(Plug(c, t)))
  {
    OrderWithout(nodes, c, s, i);
    RemainingAscend(m, m', nodes, i, s.at, All(c, t));
    FreeKeeps(m', c, t, stub, s.at);
    Plugged(m' - {s.at}, c, t, stub);
  }

  lemma RemainingAscend(m: Memory, m': Memory, nodes: seq<nat>, i: nat, at: nat, rest: seq<nat>)
    requires Ascending(m, nodes) && SameData(m, m') && i < |nodes| && nodes[i] == at && rest == nodes[..i] + nodes[i + 1..] && at !in rest
    ensures Ascending(m' - {at}, rest)
  {
    var a, b := nodes[..i], nodes[i + 1..];
    assert nodes == a + [at] + b;
    forall y | y in a + b ensures y in m' - {at} && (y in m ==> (m' - {at})[y].data == m[y].data) {
      assert y in a + [at] + b;
    }
    AscendingWithout(m, m' - {at}, a, at, b);
  }

  lemma InsertedIn(nodes: seq<nat>, a: seq<nat>, x: nat, b: seq<nat>)
    requires nodes == a + [] + b
    ensures exists k :: 0 <= k <= |nodes| && a + [x] + b == nodes[..k] + [x] + nodes[k..]
  {
    assert nodes[..|a|] == a && nodes[|a|..] == b;
  }

  lemma {:induction false} NewCell(m: Memory, tree: Tree, stub: nat, address: nat, data: int)
    requires Whole(m, Top, tree, stub) && Ascending(m, Inorder(tree)) && address !in m
    ensures var m' := m[address := Cell(NULL, NULL, NULL, data)];
            Whole(m', Top, tree, stub) && Ascending(m', Inorder(tree)) && SameData(m, m') && address !in Inorder(tree)
  {
    var m' := m[address := Cell(NULL, NULL, NULL, data)];
    LinkedCells(m, tree, stub);
    LinkedFrame(m, m', tree, stub);
  }

  /** A new leaf where the key belongs keeps the order. */
  lemma {:induction false} AllOfOne(c: Place, at: nat)
    ensures All(c, Leaf) == Before(c) + After(c) && All(c, Fork(Leaf, at, Leaf)) == Before(c) + [at] + After(c)
  {
    assert Inorder(Fork(Leaf, at, Leaf)) == [at];
  }

  lemma {:induction false} InsertHere(m: Memory, c: Place, stub: nat, address: nat, data: int)
    requires Whole(m, c, Leaf, stub) && Between(m, c, data) && Ascending(m, All(c, Leaf))
    requires address != NULL && address != stub && address !in All(c, Leaf) && address in m && m[address] == Cell(NULL, NULL, NULL, data)
    ensures ParentOf(c, stub) in m
    ensures var m', t := SetChildLink(m, ParentOf(c, stub), SideOf(c), address), Fork(Leaf, address, Leaf);
            Whole(m', c, t, stub) && SameData(m, m') && Ascending(m', All(c, t)) && All(c, t) == Before(c) + [address] + After(c)
  {
    var t := Fork(Leaf, address, Leaf);
    AllOfOne(c, address);
    InsertKeepsOrder(m, Before(c), address, After(c));
    Graft(m, c, NULL, t, NULL, stub);
  }

  lemma InsertKeepsOrder(m: Memory, a: seq<nat>, x: nat, b: seq<nat>)
    requires Ascending(m, a + b) && NoRepeats(a + b) && x !in a + b && x in m
    requires (forall y :: y in a ==> m[y].data < m[x].data) && (forall y :: y in b ==> m[y].data > m[x].data)
    ensures Ascending(m, a + [x] + b) && NoRepeats(a + [x] + b)
  {
    var s := a + [x] + b;
    forall i, j | 0 <= i < j < |s| ensures s[i] in m && s[j] in m && m[s[i]].data < m[s[j]].data {
      assert i < |a| ==> s[i] == (a + b)[i] && s[i] in a;
      assert i > |a| ==> s[i] == (a + b)[i - 1];
      assert j < |a| ==> s[j] == (a + b)[j];
      assert j > |a| ==> s[j] == (a + b)[j - 1] && s[j] in b;
    }
    assert forall y :: y in s ==> y in a + b || y == x;
  }
}
