/** Removal from the parent-pointer search tree (ds/src/bst.c): what the relinking does to the memory. */
module BstRemoval {
  import opened BstShape
  import opened BstPlaces

  /** `v` takes the place of `u` below its parent, which may be the stub. */
  function ReplaceInParent(m: Memory, u: nat, v: nat): Memory
    requires u in m && m[u].parent in m && IsCell(m, v)
  {
    var parent := m[u].parent;
    if m[parent].parent == NULL then SetChildLink(m, parent, LEFT, v)
    else SetChildLink(m, parent, if m[parent].left == u then LEFT else RIGHT, v)
  }

  /** The side is the one on which `u` hangs. */
  lemma {:induction false} ReplacesAtPlace(m: Memory, c: Place, u: nat, v: nat, stub: nat)
    requires LinkedPlace(m, c, u, stub) && u in m && m[u].parent == ParentOf(c, stub) && ParentOf(c, stub) in m && IsCell(m, v)
    requires u != NULL && stub != NULL && (c.InRight? ==> u != Root(c.left))
    ensures ReplaceInParent(m, u, v) == SetChildLink(m, ParentOf(c, stub), SideOf(c), v)
  {}

  lemma NoRepeatsWithout(a: seq<nat>, x: nat, b: seq<nat>)
    requires NoRepeats(a + [x] + b)
    ensures NoRepeats(a + b) && x !in a + b
  {
    NoRepeatsSplit(a + [x], b);
    NoRepeatsSplit(a, [x]);
    assert x in a + [x];
    forall i, j | 0 <= i < j < |a + b| ensures (a + b)[i] != (a + b)[j] {
      if i < |a| <= j {
        assert a[i] in a + [x] && b[j - |a|] in b;
      }
    }
  }

  /** A node with one child is replaced by it. */
  lemma {:induction false} OneSideLeft(c: Place, s: Tree, t: Tree)
    requires s.Fork? && ((s.left.Leaf? && t == s.right) || (s.right.Leaf? && t == s.left))
    ensures All(c, t) == Before(c) + Inorder(s.left) + (Inorder(s.right) + After(c))
  {}

  lemma {:induction false} CutOne(m: Memory, c: Place, s: Tree, t: Tree, stub: nat)
    requires Whole(m, c, s, stub) && s.Fork? && ((s.left.Leaf? && t == s.right) || (s.right.Leaf? && t == s.left))
    ensures ParentOf(c, stub) in m && IsCell(m, Root(t))
    ensures Whole(ReplaceInParent(m, s.at, Root(t)), c, t, stub)
    ensures s.at !in All(c, t) && All(c, t) == Before(c) + Inorder(s.left) + (Inorder(s.right) + After(c))
    ensures Unchanged(m, ReplaceInParent(m, s.at, Root(t)), ParentOf(c, stub), Root(t))
  {
    AllWithout(c, s.left, s.at, s.right, stub);
    OneSideLeft(c, s, t);
    Graft(m, c, s.at, t, s.at, stub);
    ClimbTest(m, c, s, stub, RIGHT);
    if !c.Top? { ClimbTest(m, c, s, stub, LEFT); }
    ReplacesAtPlace(m, c, s.at, Root(t), stub);
  }

  lemma {:induction false} AboveApart(c: Place, t: Tree, stub: nat)
    requires NoRepeats(All(c, t)) && stub !in All(c, t)
    ensures ParentOf(c, stub) !in Inorder(t)
  {
    Apart(c, t);
    if !c.Top? { assert c.at in Before(c) || c.at in After(c); }
  }

  // ---------- the successor leaves its place ----------

  function DropMin(t: Tree): Tree
    requires t.Fork?
  {
    if t.left.Leaf? then t.right else Fork(DropMin(t.left), t.at, t.right)
  }

  lemma {:induction false} DropMinInorder(t: Tree)
    requires t.Fork?
    ensures Inorder(t) == [Edge(t, LEFT)] + Inorder(DropMin(t))
    decreases t
  {
    EdgeBelow(t, LEFT);
    if t.left.Fork? { DropMinInorder(t.left); }
  }

  ghost predicate SameData(m: Memory, m': Memory) {
    forall a :: a in m ==> a in m' && m'[a].data == m[a].data
  }

  /** The first node of a subtree has no left child; when it is replaced by its right child the subtree has lost it. */
  lemma {:induction false} CutMin(m: Memory, c: Place, t: Tree, stub: nat)
    requires Whole(m, c, t, stub) && t.Fork?
    ensures var next := Edge(t, LEFT);
            next in m && m[next].left == NULL && m[next].parent in m && IsCell(m, m[next].right)
    ensures var next := Edge(t, LEFT); var m' := ReplaceInParent(m, next, m[next].right);
            && Whole(m', c, DropMin(t), stub) && SameData(m, m') && m'[next] == m[next]
            && next !in All(c, DropMin(t)) && (t.left.Fork? ==> m[next].parent in Inorder(t))
            && (t.left.Leaf? ==> m[next].parent == ParentOf(c, stub))
    decreases t
  {
    EdgeBelow(t, LEFT);
    if t.left.Leaf? {
      CutOne(m, c, t, t.right, stub);
      ClimbTest(m, c, t, stub, RIGHT);
      AboveApart(c, t, stub);
      Apart(c, t);
      SubtreeApart(t, RIGHT);
      RootIn(t.right);
    } else {
      LeftIsPlace(m, c, t.left, t.at, t.right, stub);
      CutMin(m, InLeft(c, t.at, t.right), t.left, stub);
      LeftIsPlace(ReplaceInParent(m, Edge(t, LEFT), m[Edge(t, LEFT)].right), c, DropMin(t.left), t.at, t.right, stub);
    }
  }

  // ---------- the successor takes the place ----------

  /** `next` with the rest of the right subtree goes to the place of `at` and takes its left subtree. */
  lemma {:induction false} JoinUp(m: Memory, c: Place, l: Tree, at: nat, next: nat, r: Tree, q: nat, stub: nat)
    requires LinkedPlace(m, c, at, stub) && at in m && m[at].parent == ParentOf(c, stub) && at != NULL && (c.InRight? ==> at != Root(c.left))
    requires Linked(m, l, at) && Linked(m, Fork(Leaf, next, r), q)
    requires NoRepeats(All(c, Fork(l, next, r))) && stub !in All(c, Fork(l, next, r)) && stub != NULL && ParentOf(c, stub) in m
    ensures next in m && IsCell(m, Root(l)) && Root(l) != next
    ensures var m3 := ReplaceInParent(m, at, next);
            && next in m3 && IsCell(m3, Root(l)) && Whole(SetChildLink(m3, next, LEFT, Root(l)), c, Fork(l, next, r), stub)
            && SameData(m, SetChildLink(m3, next, LEFT, Root(l)))
  {
    var t := Fork(Leaf, next, r);
    LeftIsPlace(m, c, l, next, r, stub);
    assert All(InLeft(c, next, r), l) == All(c, Fork(l, next, r));
    Apart(InLeft(c, next, r), l);
    LinkedCells(m, l, at);
    RootIn(l);
    assert next in After(InLeft(c, next, r));
    JoinApart(c, l, next, r, stub);
    Graft(m, c, at, t, q, stub);
    ReplacesAtPlace(m, c, at, next, stub);
    var m3 := ReplaceInParent(m, at, next);
    LeftIsPlace(m3, c, Leaf, next, r, stub);
    AboveApart(c, Fork(l, next, r), stub);
    forall a | a in Inorder(l) ensures a in m3 && m3[a] == m[a] {
      assert a in Inorder(Fork(l, next, r));
    }
    LinkedFrame(m, m3, l, at);
    Graft(m3, InLeft(c, next, r), NULL, l, at, stub);
    LeftIsPlace(SetChildLink(m3, next, LEFT, Root(l)), c, l, next, r, stub);
  }

  /** The successor stands for the removed node in the order. */
  lemma {:induction false} SuccessorInOrder(c: Place, l: Tree, at: nat, r: Tree, next: nat, rest: Tree, stub: nat)
    requires NoRepeats(All(c, Fork(l, at, r))) && stub !in All(c, Fork(l, at, r)) && Inorder(r) == [next] + Inorder(rest)
    ensures All(c, Fork(l, next, rest)) == Before(c) + Inorder(l) + (Inorder(r) + After(c))
    ensures NoRepeats(All(c, Fork(l, next, rest))) && stub !in All(c, Fork(l, next, rest)) && at !in All(c, Fork(l, next, rest))
  {
    AllWithout(c, l, at, r, stub);
    AllRegrouped(c, l, next, rest, Inorder(r));
  }

  lemma {:induction false} AllRegrouped(c: Place, l: Tree, next: nat, rest: Tree, r: seq<nat>)
    requires r == [next] + Inorder(rest)
    ensures All(c, Fork(l, next, rest)) == Before(c) + Inorder(l) + (r + After(c))
  {
  }

  lemma {:induction false} AllWithout(c: Place, l: Tree, at: nat, r: Tree, stub: nat)
    requires NoRepeats(All(c, Fork(l, at, r))) && stub !in All(c, Fork(l, at, r))
    ensures var s := Before(c) + Inorder(l) + (Inorder(r) + After(c)); NoRepeats(s) && stub !in s && at !in s
  {
    var before, after := Before(c) + Inorder(l), Inorder(r) + After(c);
    assert All(c, Fork(l, at, r)) == before + [at] + after;
    NoRepeatsWithout(before, at, after);
    WithoutSubset(before, at, after, stub);
  }

  lemma WithoutSubset(a: seq<nat>, x: nat, b: seq<nat>, y: nat)
    requires y !in a + [x] + b
    ensures y !in a + b
  {
    assert forall z :: z in a + b ==> z in a + [x] + b;
  }

  /** The cells that linking the right subtree elsewhere leaves alone. */
  lemma {:induction false} RightApart(m: Memory, c: Place, l: Tree, at: nat, r: Tree, stub: nat)
    requires Whole(m, c, Fork(l, at, r), stub) && r.Fork?
    ensures r.at in Inorder(r) && NoRepeats(Inorder(r)) && at !in Inorder(r) && stub !in Inorder(r) && ParentOf(c, stub) in m
    ensures forall a :: a in Before(c) || a in After(c) || a in Inorder(l) || a == at || a == stub ==> a in m && a !in Inorder(r)
    ensures forall a :: a in Inorder(r) ==> a in m
    ensures forall a :: a in Before(c) || a in After(c) || a in Inorder(l) || a == at || a in Inorder(r) ==> a in All(c, Fork(l, at, r))
  {
    var s := Fork(l, at, r);
    Apart(c, s);
    NoRepeatsSplit(Inorder(l) + [at], Inorder(r));
    PlaceCells(m, c, at, stub);
    LinkedCells(m, s, ParentOf(c, stub));
    RootIn(r);
    assert forall a :: a in Inorder(s) ==> a in All(c, s);
    assert forall a :: a in Inorder(l) || a == at || a in Inorder(r) ==> a in Inorder(s);
    assert forall a :: a in Inorder(l) || a == at ==> a in Inorder(l) + [at];
  }

  lemma {:induction false} HangBelow(m: Memory, at: nat, next: nat, r: Tree)
    requires Linked(m, r, at) && r.Fork? && NoRepeats(Inorder(r)) && next in m && next != NULL && m[next].left == NULL
    requires next !in Inorder(r) && forall a :: a in Inorder(r) ==> a in m
    ensures Linked(SetChildLink(m, next, RIGHT, r.at), Fork(Leaf, next, r), m[next].parent)
  {
    Reparent(m, SetChildLink(m, next, RIGHT, r.at), r, at, next);
  }

  lemma {:induction false} RestStays(m: Memory, c: Place, l: Tree, at: nat, next: nat, below: nat, stub: nat)
    requires LinkedPlace(m, c, at, stub) && Linked(m, l, at) && next in m && below in m
    requires forall a :: a in Before(c) || a in After(c) || a in Inorder(l) || a == at || a == stub ==> a in m && a != next && a != below
    ensures var m2 := SetChildLink(m, next, RIGHT, below); LinkedPlace(m2, c, at, stub) && m2[at] == m[at] && Linked(m2, l, at)
  {
    var m2 := SetChildLink(m, next, RIGHT, below);
    LinkedFrame(m, m2, l, at);
    PlaceFrame(m, m2, c, at, stub);
  }

  /** A successor further down has been cut out; it takes the right subtree. */
  lemma {:induction false} TakeRight(m: Memory, c: Place, l: Tree, at: nat, next: nat, r: Tree, stub: nat)
    requires Whole(m, c, Fork(l, at, r), stub) && r.Fork? && next in m && next != NULL && m[next].left == NULL
    requires next !in All(c, Fork(l, at, r)) && next != stub
    ensures r.at in m
    ensures var m2 := SetChildLink(m, next, RIGHT, r.at);
            && LinkedPlace(m2, c, at, stub) && at in m2 && m2[at] == m[at] && Linked(m2, l, at)
            && Linked(m2, Fork(Leaf, next, r), m[next].parent) && SameData(m, m2) && ParentOf(c, stub) in m2
  {
    RightApart(m, c, l, at, r, stub);
    RestStays(m, c, l, at, next, r.at, stub);
    HangBelow(m, at, next, r);
  }

  // ---------- the removed node is freed ----------

  lemma {:induction false} FreeKeeps(m: Memory, c: Place, t: Tree, stub: nat, at: nat)
    requires Whole(m, c, t, stub) && at !in All(c, t) && at != stub
    ensures Whole(m - {at}, c, t, stub)
  {
    PlaceCells(m, c, Root(t), stub);
    LinkedCells(m, t, ParentOf(c, stub));
    var m' := m - {at};
    forall a | a in Before(c) || a in After(c) || a in Inorder(t) ensures a in m' && m'[a] == m[a] {
      assert a in All(c, t);
    }
    LinkedFrame(m, m', t, ParentOf(c, stub));
    PlaceFrame(m, m', c, Root(t), stub);
  }

  lemma AscendingWithout(m: Memory, m': Memory, a: seq<nat>, x: nat, b: seq<nat>)
    requires Ascending(m, a + [x] + b) && forall y :: y in a + b ==> y in m' && (y in m ==> m'[y].data == m[y].data)
    ensures Ascending(m', a + b)
  {
    var s := a + [x] + b;
    forall i, j | 0 <= i < j < |a + b| ensures m'[(a + b)[i]].data < m'[(a + b)[j]].data {
      var i', j' := if i < |a| then i else i + 1, if j < |a| then j else j + 1;
      assert s[i'] == (a + b)[i] && s[j'] == (a + b)[j] && s[i'] in s && s[j'] in s;
      assert (a + b)[i] in a + b && (a + b)[j] in a + b;
    }
  }

  lemma {:induction false} JoinApart(c: Place, l: Tree, next: nat, r: Tree, stub: nat)
    requires NoRepeats(All(c, Fork(l, next, r))) && stub !in All(c, Fork(l, next, r))
    ensures NoRepeats(All(c, Fork(Leaf, next, r))) && stub !in All(c, Fork(Leaf, next, r))
  {
    assert Inorder(Fork(Leaf, next, r)) == [next] + Inorder(r);
    MiddleOut(Before(c), Inorder(l), next, Inorder(r), After(c));
    NoRepeatsMiddle(Before(c), Inorder(l), [next] + Inorder(r) + After(c));
  }

  lemma MiddleOut(a: seq<nat>, l: seq<nat>, x: nat, r: seq<nat>, b: seq<nat>)
    ensures a + (l + [x] + r) + b == a + l + ([x] + r + b) && a + ([x] + r) + b == a + ([x] + r + b)
  {}

  lemma NoRepeatsMiddle(a: seq<nat>, b: seq<nat>, d: seq<nat>)
    requires NoRepeats(a + b + d)
    ensures NoRepeats(a + d)
  {
    NoRepeatsSplit(a + b, d);
    NoRepeatsSplit(a, b);
    forall i, j | 0 <= i < j < |a + d| ensures (a + d)[i] != (a + d)[j] {
      if i < |a| <= j {
        assert a[i] in a + b && d[j - |a|] in d;
      }
    }
  }

  /** The nodes in order without the one at the root of `s`. */
  lemma {:induction false} OrderWithout(nodes: seq<nat>, c: Place, s: Tree, i: nat)
    requires s.Fork? && All(c, s) == nodes && i == |Before(c)| + |Inorder(s.left)|
    ensures i < |nodes| && nodes[..i] == Before(c) + Inorder(s.left) && nodes[i + 1..] == Inorder(s.right) + After(c) && nodes[i] == s.at
  {
    assert All(c, s) == (Before(c) + Inorder(s.left)) + [s.at] + (Inorder(s.right) + After(c));
  }

  /** The successor and its links, before anything is changed. */
  lemma {:induction false} SuccessorPlace(m: Memory, c: Place, s: Tree, stub: nat)
    requires Whole(m, c, s, stub) && s.Fork? && s.right.Fork?
    ensures var next := Edge(s.right, LEFT);
            && next in m && m[next].parent in m && IsCell(m, m[next].right) && s.at in m && next != s.at
            && (m[next].parent == s.at <==> s.right.left.Leaf?)
            && (var m1 := ReplaceInParent(m, next, m[next].right); s.at in m1 && next in m1 && IsCell(m1, m1[s.at].right))
  {
    var next := Edge(s.right, LEFT);
    RightIsPlace(m, c, s.left, s.at, s.right, stub);
    CutMin(m, InRight(c, s.left, s.at), s.right, stub);
    Apart(c, s);
    SubtreeApart(s, RIGHT);
    var m1 := ReplaceInParent(m, next, m[next].right);
    RightIsPlace(m1, c, s.left, s.at, DropMin(s.right), stub);
    LinkedCells(m1, DropMin(s.right), s.at);
    RootIn(DropMin(s.right));
    assert next in Inorder(s.right);
  }

  /** The successor, with what is left of the right subtree, is ready to go up. */
  ghost predicate Ready(m: Memory, c: Place, l: Tree, at: nat, next: nat, rest: Tree, q: nat, stub: nat) {
    && LinkedPlace(m, c, at, stub) && at in m && m[at].parent == ParentOf(c, stub) && m[at].left == Root(l) && ParentOf(c, stub) in m
    && Linked(m, l, at) && Linked(m, Fork(Leaf, next, rest), q)
  }

  lemma {:induction false} ReadyBeside(m: Memory, c: Place, s: Tree, stub: nat)
    requires Whole(m, c, s, stub) && s.Fork? && s.right.Fork? && s.right.left.Leaf?
    ensures Ready(m, c, s.left, s.at, Edge(s.right, LEFT), DropMin(s.right), s.at, stub)
  {
    EdgeBelow(s.right, LEFT);
    PlaceCells(m, c, s.at, stub);
    ClimbTest(m, c, s, stub, RIGHT);
  }

  lemma {:induction false} ReadyBelow(m: Memory, c: Place, s: Tree, stub: nat)
    requires Whole(m, c, s, stub) && s.Fork? && s.right.Fork? && s.right.left.Fork?
    ensures var next := Edge(s.right, LEFT);
            && next in m && m[next].parent in m && IsCell(m, m[next].right)
            && (var m1 := ReplaceInParent(m, next, m[next].right);
                && s.at in m1 && next in m1 && IsCell(m1, m1[s.at].right)
                && Ready(SetChildLink(m1, next, RIGHT, m1[s.at].right), c, s.left, s.at, next, DropMin(s.right), m1[next].parent, stub)
                && SameData(m, SetChildLink(m1, next, RIGHT, m1[s.at].right)))
  {
    var next, rest := Edge(s.right, LEFT), DropMin(s.right);
    RightIsPlace(m, c, s.left, s.at, s.right, stub);
    CutMin(m, InRight(c, s.left, s.at), s.right, stub);
    var m1 := ReplaceInParent(m, next, m[next].right);
    RightIsPlace(m1, c, s.left, s.at, rest, stub);
    LinkedCells(m, s.right, s.at);
    assert next in Inorder(s.right);
    assert next in All(c, s);
    TakeRight(m1, c, s.left, s.at, next, rest, stub);
    ClimbTest(m1, c, Fork(s.left, s.at, rest), stub, RIGHT);
  }

  lemma {:induction false} GoUp(m: Memory, c: Place, s: Tree, next: nat, rest: Tree, q: nat, stub: nat)
    requires s.Fork? && Ready(m, c, s.left, s.at, next, rest, q, stub) && s.at != NULL && s.at != stub && stub != NULL
    requires NoRepeats(All(c, s)) && NoRepeats(All(c, Fork(s.left, next, rest))) && stub !in All(c, Fork(s.left, next, rest)) && s.at !in All(c, Fork(s.left, next, rest))
    ensures next in m
    ensures var m3 := ReplaceInParent(m, s.at, next);
            && s.at in m3 && next in m3 && IsCell(m3, m3[s.at].left)
            && Whole(SetChildLink(m3, next, LEFT, m3[s.at].left), c, Fork(s.left, next, rest), stub)
            && SameData(m, SetChildLink(m3, next, LEFT, m3[s.at].left))
  {
    if c.InRight? {
      ApartAbove(c, s);
      RootIn(c.left);
      RootIn(s);
    }
    JoinUp(m, c, s.left, s.at, next, rest, q, stub);
    ReplacesAtPlace(m, c, s.at, next, stub);
    Apart(c, s);
    RootIn(s);
    if !c.Top? { assert c.at in Before(c) || c.at in After(c); }
    assert next in Inorder(Fork(s.left, next, rest));
    assert next in All(c, Fork(s.left, next, rest));
  }

  /** The memory when the successor goes up: as it was when it is the right child, or else with the
      successor cut out and given the right subtree. */
  lemma {:induction false} SuccessorReady(m: Memory, m': Memory, c: Place, s: Tree, stub: nat)
    requires Whole(m, c, s, stub) && s.Fork? && s.left.Fork? && s.right.Fork?
    requires var next := Edge(s.right, LEFT);
             && next in m && m[next].parent in m && IsCell(m, m[next].right) && s.at in m
             && (m[next].parent == s.at ==> m' == m)
             && (m[next].parent != s.at ==>
                  var m1 := ReplaceInParent(m, next, m[next].right);
                  s.at in m1 && next in m1 && IsCell(m1, m1[s.at].right) && m' == SetChildLink(m1, next, RIGHT, m1[s.at].right))
    ensures var next, t := Edge(s.right, LEFT), Fork(s.left, Edge(s.right, LEFT), DropMin(s.right));
            && s.at in m' && m'[s.at].parent in m' && next in m' && s.at !in All(c, t)
            && All(c, t) == Before(c) + Inorder(s.left) + (Inorder(s.right) + After(c))
            && (var m3 := ReplaceInParent(m', s.at, next);
                && s.at in m3 && next in m3 && IsCell(m3, m3[s.at].left)
                && Whole(SetChildLink(m3, next, LEFT, m3[s.at].left), c, t, stub)
                && SameData(m, SetChildLink(m3, next, LEFT, m3[s.at].left)))
  {
    var next, rest := Edge(s.right, LEFT), DropMin(s.right);
    DropMinInorder(s.right);
    SuccessorInOrder(c, s.left, s.at, s.right, next, rest, stub);
    SuccessorPlace(m, c, s, stub);
    RootIn(s);
    assert s.at in All(c, s);
    if s.right.left.Leaf? {
      ReadyBeside(m, c, s, stub);
      GoUp(m', c, s, next, rest, s.at, stub);
    } else {
      ReadyBelow(m, c, s, stub);
      GoUp(m', c, s, next, rest, ReplaceInParent(m, next, m[next].right)[next].parent, stub);
    }
  }
}
