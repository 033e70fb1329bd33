/** The memory of the parent-pointer search tree (ds/src/bst.c): cells by address, the tree that
    they make up, and places in it. */
module BstShape {

  const NULL: nat := 0

  datatype Side = LEFT | RIGHT

  datatype Cell = Cell(parent: nat, left: nat, right: nat, data: int)

  type Memory = map<nat, Cell>

  function Child(c: Cell, side: Side): nat { if side == LEFT then c.left else c.right }

  /** The nodes of a subtree by their addresses. */
  datatype Tree = Leaf | Fork(left: Tree, at: nat, right: Tree)

  function Root(t: Tree): nat { if t.Leaf? then NULL else t.at }

  function Inorder(t: Tree): seq<nat> {
    if t.Leaf? then [] else Inorder(t.left) + [t.at] + Inorder(t.right)
  }

  ghost predicate Linked(m: Memory, t: Tree, parent: nat) {
    t.Leaf? ||
    (&& t.at != NULL && t.at in m
     && m[t.at].parent == parent && m[t.at].left == Root(t.left) && m[t.at].right == Root(t.right)
     && Linked(m, t.left, t.at) && Linked(m, t.right, t.at))
  }

  // ---------- places ----------

  /** The way from a subtree up to the stub. */
  datatype Place = Top | InLeft(up: Place, at: nat, right: Tree) | InRight(up: Place, left: Tree, at: nat)

  function ParentOf(c: Place, stub: nat): nat { if c.Top? then stub else c.at }

  function Before(c: Place): seq<nat> {
    match c
    case Top => []
    case InLeft(up, _, _) => Before(up)
    case InRight(up, left, at) => Before(up) + Inorder(left) + [at]
  }

  function After(c: Place): seq<nat> {
    match c
    case Top => []
    case InLeft(up, at, right) => [at] + Inorder(right) + After(up)
    case InRight(up, _, _) => After(up)
  }

  /** All nodes in order, seen from a subtree at a place. */
  function All(c: Place, t: Tree): seq<nat> { Before(c) + Inorder(t) + After(c) }

  ghost predicate LinkedPlace(m: Memory, c: Place, child: nat, stub: nat) {
    match c
    case Top => stub in m && m[stub].parent == NULL && m[stub].left == child && m[stub].right == stub
    case InLeft(up, at, right) =>
      && at != NULL && at in m && m[at].parent == ParentOf(up, stub) && m[at].left == child && m[at].right == Root(right)
      && Linked(m, right, at) && LinkedPlace(m, up, at, stub)
    case InRight(up, left, at) =>
      && at != NULL && at in m && m[at].parent == ParentOf(up, stub) && m[at].left == Root(left) && m[at].right == child
      && Linked(m, left, at) && LinkedPlace(m, up, at, stub)
  }

  predicate NoRepeats(s: seq<nat>) { forall i, j :: 0 <= i < j < |s| ==> s[i] != s[j] }

  /** The subtree at the place makes up a whole tree, each node once and none of them the stub. */
  ghost predicate Whole(m: Memory, c: Place, t: Tree, stub: nat) {
    && LinkedPlace(m, c, Root(t), stub) && Linked(m, t, ParentOf(c, stub))
    && NoRepeats(All(c, t)) && stub !in All(c, t) && stub != NULL
  }

  lemma {:induction false} LeftIsPlace(m: Memory, c: Place, l: Tree, at: nat, r: Tree, stub: nat)
    ensures All(InLeft(c, at, r), l) == All(c, Fork(l, at, r))
    ensures Whole(m, InLeft(c, at, r), l, stub) <==> Whole(m, c, Fork(l, at, r), stub)
  {}

  lemma {:induction false} RightIsPlace(m: Memory, c: Place, l: Tree, at: nat, r: Tree, stub: nat)
    ensures All(InRight(c, l, at), r) == All(c, Fork(l, at, r))
    ensures Whole(m, InRight(c, l, at), r, stub) <==> Whole(m, c, Fork(l, at, r), stub)
  {}

  /** Every node is the root of a subtree at some place. */
  lemma {:induction false} Locate(m: Memory, c: Place, t: Tree, i: nat, stub: nat) returns (c': Place, s: Tree)
    requires Whole(m, c, t, stub) && i < |Inorder(t)|
    ensures Whole(m, c', s, stub) && All(c', s) == All(c, t)
    ensures s.Fork? && s.at == Inorder(t)[i] && |Before(c')| + |Inorder(s.left)| == |Before(c)| + i
    decreases t
  {
    var n := |Inorder(t.left)|;
    if i < n {
      LeftIsPlace(m, c, t.left, t.at, t.right, stub);
      c', s := Locate(m, InLeft(c, t.at, t.right), t.left, i, stub);
    } else if i == n {
      c', s := c, t;
    } else {
      RightIsPlace(m, c, t.left, t.at, t.right, stub);
      c', s := Locate(m, InRight(c, t.left, t.at), t.right, i - n - 1, stub);
    }
  }

  // ---------- frames ----------

  lemma {:induction false} LinkedFrame(m: Memory, m': Memory, t: Tree, parent: nat)
    requires Linked(m, t, parent) && forall a :: a in Inorder(t) ==> a in m' && (a in m ==> m'[a] == m[a])
    ensures Linked(m', t, parent)
    decreases t
  {
    if t.Fork? {
      assert t.at in Inorder(t);
      LinkedFrame(m, m', t.left, t.at);
      LinkedFrame(m, m', t.right, t.at);
    }
  }

  lemma {:induction false} PlaceFrame(m: Memory, m': Memory, c: Place, child: nat, stub: nat)
    requires LinkedPlace(m, c, child, stub)
    requires forall a :: a in Before(c) || a in After(c) || a == stub ==> a in m' && (a in m ==> m'[a] == m[a])
    ensures LinkedPlace(m', c, child, stub)
    decreases c
  {
    match c
    case Top =>
    case InLeft(up, at, right) =>
      assert at in After(c);
      LinkedFrame(m, m', right, at);
      PlaceFrame(m, m', up, at, stub);
    case InRight(up, left, at) =>
      assert at in Before(c);
      LinkedFrame(m, m', left, at);
      PlaceFrame(m, m', up, at, stub);
  }

  lemma NoRepeatsSplit(a: seq<nat>, b: seq<nat>)
    requires NoRepeats(a + b)
    ensures NoRepeats(a) && NoRepeats(b) && forall x :: x in a ==> x !in b
  {
    forall i, j | 0 <= i < j < |a| ensures a[i] != a[j] { assert (a + b)[i] != (a + b)[j]; }
    forall i, j | 0 <= i < j < |b| ensures b[i] != b[j] { assert (a + b)[|a| + i] != (a + b)[|a| + j]; }
    forall i, j | 0 <= i < |a| && 0 <= j < |b| ensures a[i] != b[j] { assert (a + b)[i] != (a + b)[|a| + j]; }
  }

  /** A subtree and the rest of the tree have no node in common. */
  lemma {:induction false} Apart(c: Place, t: Tree)
    requires NoRepeats(All(c, t))
    ensures NoRepeats(Inorder(t)) && forall x :: x in Inorder(t) ==> x !in Before(c) && x !in After(c)
  {
    NoRepeatsSplit(Before(c) + Inorder(t), After(c));
    NoRepeatsSplit(Before(c), Inorder(t));
  }

  /** The node above a subtree is not in its other subtree nor further up. */
  lemma {:induction false} ApartAbove(c: Place, t: Tree)
    requires NoRepeats(All(c, t)) && !c.Top?
    ensures c.at !in Inorder(if c.InLeft? then c.right else c.left) && c.at !in Before(c.up) && c.at !in After(c.up)
    ensures forall x :: x in Inorder(if c.InLeft? then c.right else c.left) ==> x !in Inorder(t)
  {
    var whole := if c.InLeft? then Fork(t, c.at, c.right) else Fork(c.left, c.at, t);
    assert All(c.up, whole) == All(c, t) by {
      if c.InLeft? { LeftIsPlace(map[], c.up, t, c.at, c.right, 0); } else { RightIsPlace(map[], c.up, c.left, c.at, t, 0); }
    }
    Apart(c.up, whole);
    assert c.at in Inorder(whole);
    NoRepeatsSplit(Inorder(whole.left) + [c.at], Inorder(whole.right));
    NoRepeatsSplit(Inorder(whole.left), [c.at]);
    assert c.at in Inorder(whole.left) + [c.at];
    assert forall x :: x in Inorder(whole.left) ==> x in Inorder(whole.left) + [c.at];
  }

  // ---------- links ----------

  predicate IsCell(m: Memory, a: nat) { a == NULL || a in m }

  function SetChildLink(m: Memory, parent: nat, side: Side, child: nat): Memory
    requires parent in m && IsCell(m, child)
  {
    var m1 := m[parent := if side == LEFT then m[parent].(left := child) else m[parent].(right := child)];
    if child == NULL then m1 else m1[child := m1[child].(parent := parent)]
  }

  function SideOf(c: Place): Side { if c.InRight? then RIGHT else LEFT }

  /** Only the cells of the two nodes change, and no data. */
  ghost predicate Unchanged(m: Memory, m': Memory, p: nat, q: nat) {
    && (forall a :: a in m ==> a in m' && m'[a].data == m[a].data)
    && (forall a :: a in m && a != p && a != q ==> m'[a] == m[a])
  }

  lemma {:induction false} Reparent(m: Memory, m': Memory, t: Tree, parent: nat, parent': nat)
    requires Linked(m, t, parent) && NoRepeats(Inorder(t))
    requires forall a :: a in Inorder(t) ==> a in m && a in m' && m'[a] == if a == t.at then m[a].(parent := parent') else m[a]
    ensures Linked(m', t, parent')
  {
    if t.Fork? {
      NoRepeatsSplit(Inorder(t.left) + [t.at], Inorder(t.right));
      NoRepeatsSplit(Inorder(t.left), [t.at]);
      assert t.at in Inorder(t) && t.at in Inorder(t.left) + [t.at];
      LinkedFrame(m, m', t.left, t.at);
      LinkedFrame(m, m', t.right, t.at);
    }
  }

  lemma {:induction false} LinkedCells(m: Memory, t: Tree, parent: nat)
    requires Linked(m, t, parent)
    ensures forall a :: a in Inorder(t) ==> a in m && a != NULL
    decreases t
  {
    if t.Fork? {
      LinkedCells(m, t.left, t.at);
      LinkedCells(m, t.right, t.at);
    }
  }

  lemma {:induction false} PlaceCells(m: Memory, c: Place, child: nat, stub: nat)
    requires LinkedPlace(m, c, child, stub)
    ensures stub in m && forall a :: a in Before(c) || a in After(c) ==> a in m && a != NULL
    decreases c
  {
    match c
    case Top =>
    case InLeft(up, at, right) =>
      PlaceCells(m, up, at, stub);
      LinkedCells(m, right, at);
    case InRight(up, left, at) =>
      PlaceCells(m, up, at, stub);
      LinkedCells(m, left, at);
  }

  lemma {:induction false} RootIn(t: Tree)
    ensures t.Fork? ==> t.at in Inorder(t)
  {}

  ghost predicate CanGraft(m: Memory, c: Place, child: nat, t: Tree, parent: nat, stub: nat) {
    && LinkedPlace(m, c, child, stub) && Linked(m, t, parent)
    && NoRepeats(All(c, t)) && stub !in All(c, t) && stub != NULL
  }

  /** Linking another subtree at a place makes it the subtree there. */
  lemma {:induction false} Graft(m: Memory, c: Place, child: nat, t: Tree, parent: nat, stub: nat)
    requires CanGraft(m, c, child, t, parent, stub)
    ensures ParentOf(c, stub) in m && IsCell(m, Root(t))
    ensures var m' := SetChildLink(m, ParentOf(c, stub), SideOf(c), Root(t));
            Whole(m', c, t, stub) && Unchanged(m, m', ParentOf(c, stub), Root(t))
  {
    PlaceCells(m, c, child, stub);
    LinkedCells(m, t, parent);
    Apart(c, t);
    RootIn(t);
    var p := ParentOf(c, stub);
    assert p !in Inorder(t) by { if !c.Top? { assert p in Before(c) || p in After(c); } }
    var m' := SetChildLink(m, p, SideOf(c), Root(t));
    Reparent(m, m', t, parent, p);
    GraftPlace(m, m', c, child, t, stub);
  }

  lemma {:induction false} GraftPlace(m: Memory, m': Memory, c: Place, child: nat, t: Tree, stub: nat)
    requires LinkedPlace(m, c, child, stub) && NoRepeats(All(c, t)) && stub !in All(c, t) && stub != NULL
    requires ParentOf(c, stub) in m && ParentOf(c, stub) in m'
    requires m'[ParentOf(c, stub)] == if SideOf(c) == LEFT then m[ParentOf(c, stub)].(left := Root(t)) else m[ParentOf(c, stub)].(right := Root(t))
    requires forall a :: a in m && a != ParentOf(c, stub) && a != Root(t) ==> a in m' && m'[a] == m[a]
    ensures LinkedPlace(m', c, Root(t), stub)
  {
    if !c.Top? {
      Apart(c, t);
      ApartAbove(c, t);
      RootIn(t);
      PlaceCells(m, c, child, stub);
      var other := if c.InLeft? then c.right else c.left;
      forall a | a in Before(c.up) || a in After(c.up) || a == stub ensures a in m' && m'[a] == m[a] {
        assert a != stub ==> a in Before(c) || a in After(c);
        assert a != Root(t);
      }
      forall a | a in Inorder(other) ensures a in m' && m'[a] == m[a] {
        assert a in Before(c) || a in After(c);
      }
      PlaceFrame(m, m', c.up, c.at, stub);
      LinkedFrame(m, m', other, c.at);
    }
  }
}
