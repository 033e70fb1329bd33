/** Steps from node to node in the parent-pointer search tree (ds/src/bst.c), and the way down to a key. */
module BstPlaces {
  import opened BstShape

  /** The first or the last node of a subtree. */
  function Edge(t: Tree, side: Side): nat
    requires t.Fork?
  {
    if side == LEFT then Inorder(t)[0] else Inorder(t)[|Inorder(t)| - 1]
  }

  lemma {:induction false} EdgeBelow(t: Tree, side: Side)
    requires t.Fork?
    ensures var sub := if side == LEFT then t.left else t.right; Edge(t, side) == if sub.Fork? then Edge(sub, side) else t.at
  {
    RootIn(t.left);
    RootIn(t.right);
  }

  function Subtree(t: Tree, side: Side): Tree
    requires t.Fork?
  {
    if side == LEFT then t.left else t.right
  }

  function Opposite(side: Side): Side { if side == LEFT then RIGHT else LEFT }

  lemma {:induction false} SubtreeApart(t: Tree, side: Side)
    requires t.Fork? && NoRepeats(Inorder(t))
    ensures NoRepeats(Inorder(Subtree(t, side))) && t.at !in Inorder(Subtree(t, side))
  {
    NoRepeatsSplit(Inorder(t.left) + [t.at], Inorder(t.right));
    NoRepeatsSplit(Inorder(t.left), [t.at]);
    assert t.at in Inorder(t.left) + [t.at];
  }

  // ---------- stepping ----------

  /** Going on in direction `first`, subtree `s` has been passed: it ends, or begins, at index `i`. */
  predicate Passed(c: Place, s: Tree, first: Side, i: nat) {
    if first == RIGHT then |Before(c)| + |Inorder(s)| == i + 1 else |Before(c)| == i
  }

  function Above(c: Place, s: Tree): Tree
    requires !c.Top?
  {
    if c.InLeft? then Fork(s, c.at, c.right) else Fork(c.left, c.at, s)
  }

  predicate OnSide(c: Place, side: Side) { if side == LEFT then c.InLeft? else c.InRight? }

  /** The test of the climbing loop tells on which side the node hangs. */
  lemma {:induction false} ClimbTest(m: Memory, c: Place, s: Tree, stub: nat, first: Side)
    requires Whole(m, c, s, stub) && s.Fork? && (first == LEFT ==> !c.Top?)
    ensures m[s.at].parent == ParentOf(c, stub) && ParentOf(c, stub) in m && ParentOf(c, stub) != NULL
    ensures s.at == Child(m[ParentOf(c, stub)], first) <==> OnSide(c, first)
  {
    RootIn(s);
    if !c.Top? {
      ApartAbove(c, s);
      RootIn(if c.InLeft? then c.right else c.left);
    }
  }

  lemma {:induction false} ClimbOn(m: Memory, c: Place, s: Tree, stub: nat, first: Side, i: nat)
    requires Whole(m, c, s, stub) && Passed(c, s, first, i) && OnSide(c, first)
    ensures Whole(m, c.up, Above(c, s), stub) && All(c.up, Above(c, s)) == All(c, s) && Passed(c.up, Above(c, s), first, i)
  {
    if c.InLeft? { LeftIsPlace(m, c.up, s, c.at, c.right, stub); } else { RightIsPlace(m, c.up, c.left, c.at, s, stub); }
  }

  /** Where the loop ends the parent is the neighbour. */
  lemma {:induction false} ClimbEnds(c: Place, s: Tree, stub: nat, first: Side, i: nat)
    requires Passed(c, s, first, i) && !OnSide(c, first) && (first == LEFT ==> i > 0)
    ensures first == RIGHT ==> i + 1 <= |All(c, s)| && ParentOf(c, stub) == (All(c, s) + [stub])[i + 1]
    ensures first == LEFT ==> i - 1 < |All(c, s)| && ParentOf(c, stub) == All(c, s)[i - 1]
  {}

  /** The neighbour in a subtree of the node itself. */
  lemma {:induction false} DownEdge(c: Place, s: Tree, first: Side, i: nat)
    requires s.Fork? && Subtree(s, first).Fork? && i == |Before(c)| + |Inorder(s.left)|
    ensures first == RIGHT ==> i + 1 < |All(c, s)| && Edge(Subtree(s, first), LEFT) == All(c, s)[i + 1]
    ensures first == LEFT ==> 0 < i <= |All(c, s)| && Edge(Subtree(s, first), RIGHT) == All(c, s)[i - 1]
  {}

  /** The neighbour of node `i` to the right or to the left, the end included. */
  function Neighbour(nodes: seq<nat>, stub: nat, first: Side, i: nat): nat
    requires i <= |nodes| && if first == RIGHT then i < |nodes| else i > 0
  {
    (nodes + [stub])[if first == RIGHT then i + 1 else i - 1]
  }

  /** Where a step starts: with a subtree on that side, or with a climb. */
  lemma {:induction false} StepFrom(m: Memory, tree: Tree, stub: nat, iter: nat, first: Side, i: nat) returns (c: Place, s: Tree, sub: Tree, p: nat)
    requires Whole(m, Top, tree, stub) && i <= |Inorder(tree)| && iter == (Inorder(tree) + [stub])[i]
    requires if first == RIGHT then i < |Inorder(tree)| else i > 0
    ensures iter in m && Child(m[iter], first) == Root(sub) && Linked(m, sub, p) && NoRepeats(Inorder(sub))
    ensures Root(sub) != NULL ==> sub.Fork? && Edge(sub, Opposite(first)) == Neighbour(Inorder(tree), stub, first, i)
    ensures Root(sub) == NULL ==>
      Whole(m, c, s, stub) && s.Fork? && s.at == iter && Passed(c, s, first, i) && All(c, s) == Inorder(tree)
  {
    assert All(Top, tree) == Inorder(tree);
    if i == |Inorder(tree)| {
      c, s, sub, p := Top, tree, tree, stub;
      LinkedCells(m, tree, stub);
      RootIn(tree);
      EdgeBelow(tree, RIGHT);
    } else {
      c, s := Locate(m, Top, tree, i, stub);
      Apart(c, s);
      SubtreeApart(s, first);
      sub, p := Subtree(s, first), s.at;
      LinkedCells(m, sub, p);
      RootIn(sub);
      if sub.Fork? { DownEdge(c, s, first, i); }
    }
  }

  // ---------- searching ----------

  function Plug(c: Place, t: Tree): Tree
    decreases c
  {
    if c.Top? then t else Plug(c.up, Above(c, t))
  }

  lemma {:induction false} Plugged(m: Memory, c: Place, t: Tree, stub: nat)
    requires Whole(m, c, t, stub)
    ensures Whole(m, Top, Plug(c, t), stub) && Inorder(Plug(c, t)) == All(c, t)
    decreases c
  {
    match c
    case Top => assert All(Top, t) == Inorder(t);
    case InLeft(up, at, right) =>
      LeftIsPlace(m, up, t, at, right, stub);
      Plugged(m, up, Above(c, t), stub);
    case InRight(up, left, at) =>
      RightIsPlace(m, up, left, at, t, stub);
      Plugged(m, up, Above(c, t), stub);
  }

  /** All keys before the place are smaller, all behind it larger. */
  ghost predicate Between(m: Memory, c: Place, key: int) {
    && (forall a :: a in Before(c) ==> a in m && m[a].data < key)
    && (forall a :: a in After(c) ==> a in m && m[a].data > key)
  }

  lemma AscendingSplit(m: Memory, a: seq<nat>, x: nat, b: seq<nat>)
    requires Ascending(m, a + [x] + b)
    ensures (forall y :: y in a ==> m[y].data < m[x].data) && (forall y :: y in b ==> m[y].data > m[x].data)
  {
    var s := a + [x] + b;
    assert s[|a|] == x;
    forall i | 0 <= i < |a| ensures m[a[i]].data < m[x].data { assert s[i] == a[i]; }
    forall i | 0 <= i < |b| ensures m[b[i]].data > m[x].data { assert s[|a| + 1 + i] == b[i]; }
  }

  function Below(c: Place, t: Tree, side: Side): Place
    requires t.Fork?
  {
    if side == LEFT then InLeft(c, t.at, t.right) else InRight(c, t.left, t.at)
  }

  /** Going down the side that the comparison says. */
  lemma {:induction false} Descend(m: Memory, c: Place, t: Tree, stub: nat, key: int, side: Side)
    requires Whole(m, c, t, stub) && t.Fork? && Ascending(m, All(c, t)) && Between(m, c, key)
    requires if side == RIGHT then key > m[t.at].data else key < m[t.at].data
    ensures Whole(m, Below(c, t, side), Subtree(t, side), stub) && Between(m, Below(c, t, side), key)
    ensures All(Below(c, t, side), Subtree(t, side)) == All(c, t)
  {
    assert All(c, t) == (Before(c) + Inorder(t.left)) + [t.at] + (Inorder(t.right) + After(c));
    AscendingSplit(m, Before(c) + Inorder(t.left), t.at, Inorder(t.right) + After(c));
    if side == LEFT {
      LeftIsPlace(m, c, t.left, t.at, t.right, stub);
    } else {
      RightIsPlace(m, c, t.left, t.at, t.right, stub);
    }
    DescendBetween(m, c, t, key, side);
  }

  lemma {:induction false} DescendBetween(m: Memory, c: Place, t: Tree, key: int, side: Side)
    requires t.Fork? && t.at in m && Between(m, c, key)
    requires forall y :: y in Before(c) + Inorder(t.left) ==> y in m && m[y].data < m[t.at].data
    requires forall y :: y in Inorder(t.right) + After(c) ==> y in m && m[y].data > m[t.at].data
    requires if side == RIGHT then key > m[t.at].data else key < m[t.at].data
    ensures Between(m, Below(c, t, side), key)
  {
    assert forall y :: y in Inorder(t.left) ==> y in Before(c) + Inorder(t.left);
    assert forall y :: y in Inorder(t.right) ==> y in Inorder(t.right) + After(c);
  }

  ghost predicate Ascending(m: Memory, s: seq<nat>) {
    && (forall a :: a in s ==> a in m)
    && forall i, j :: 0 <= i < j < |s| ==> m[s[i]].data < m[s[j]].data
  }
}
