/** The AVL operations as they run on linked nodes, each overwriting child pointers and
    heights in place (ds/src/avl.c).  Every operation is shown to do to the linked tree
    what the function in Avl.dfy does to its value. */
module AvlNodes {
  import opened Avl

  class AvlNode {
    var height: nat
    var data: int
    var left: AvlNode?
    var right: AvlNode?
    /** The nodes of this subtree and the value it represents. */
    ghost var Repr: set<AvlNode>
    ghost var tree: Tree

    ghost predicate Valid()
      reads this, Repr
      ensures Valid() ==> this in Repr && tree.Node?
      decreases Repr
    {
      && this in Repr
      && (left != null ==> left in Repr && left.Repr <= Repr && this !in left.Repr && left.Valid())
      && (right != null ==> right in Repr && right.Repr <= Repr && this !in right.Repr && right.Valid())
      && Footprint(left) !! Footprint(right)
      && tree == Node(height, data, TreeOf(left), TreeOf(right))
    }

    constructor (data: int)
      ensures Valid() && Repr == {this} && tree == Node(1, data, Nil, Nil)
    {
      this.data, height, left, right := data, 1, null, null;
      Repr, tree := {this}, Node(1, data, Nil, Nil);
    }
  }

  ghost function Footprint(n: AvlNode?): set<AvlNode>
    reads n
  {
    if n == null then {} else n.Repr
  }

  ghost function TreeOf(n: AvlNode?): Tree
    reads n
  {
    if n == null then Nil else n.tree
  }

  ghost predicate ValidTree(n: AvlNode?)
    reads n, Footprint(n)
  {
    n != null ==> n.Valid()
  }

  method HeightOf(n: AvlNode?) returns (h: nat)
    requires ValidTree(n)
    ensures h == NodeHeight(TreeOf(n))
  {
    h := if n == null then 0 else n.height;
  }

  method FixHeightOf(n: AvlNode)
    requires n.Valid()
    modifies n`height, n`tree
    ensures n.Valid() && n.tree == FixHeight(old(n.tree))
  {
    var hl := HeightOf(n.left);
    var hr := HeightOf(n.right);
    n.height := 1 + if hl > hr then hl else hr;
    n.tree := FixHeight(n.tree);
  }

  /** The node apart from one child, with the other in place and a new one that fits beside it. */
  ghost predicate FitsOn(n: AvlNode, child: AvlNode?, other: AvlNode?)
    reads n, child, Footprint(child), other, Footprint(other)
  {
    && n.tree.Node? && n.tree.height == n.height && n.tree.data == n.data
    && ValidTree(child) && ValidTree(other) && n !in Footprint(child) && n !in Footprint(other)
    && Footprint(child) !! Footprint(other)
  }

  /** Hangs a child on the left; `nodes` is what the node is to comprise. */
  method SetLeft(n: AvlNode, child: AvlNode?, ghost nodes: set<AvlNode>)
    requires FitsOn(n, child, n.right) && n.tree.right == TreeOf(n.right) && {n} + Footprint(child) + Footprint(n.right) <= nodes
    modifies n`left, n`Repr, n`tree
    ensures n.Valid() && n.left == child && n.Repr == nodes && n.tree == old(n.tree).(left := TreeOf(child))
  {
    n.left, n.Repr, n.tree := child, nodes, n.tree.(left := TreeOf(child));
  }

  method SetRight(n: AvlNode, child: AvlNode?, ghost nodes: set<AvlNode>)
    requires FitsOn(n, child, n.left) && n.tree.left == TreeOf(n.left) && {n} + Footprint(n.left) + Footprint(child) <= nodes
    modifies n`right, n`Repr, n`tree
    ensures n.Valid() && n.right == child && n.Repr == nodes && n.tree == old(n.tree).(right := TreeOf(child))
  {
    n.right, n.Repr, n.tree := child, nodes, n.tree.(right := TreeOf(child));
  }

  method SetData(n: AvlNode, data: int)
    requires n.Valid()
    modifies n`data, n`tree
    ensures n.Valid() && n.data == data && n.tree == old(n.tree).(data := data)
  {
    n.data, n.tree := data, n.tree.(data := data);
  }

  method RotateLeftAt(n: AvlNode) returns (top: AvlNode)
    requires n.Valid() && n.right != null
    modifies n, n.right
    ensures old(n.tree).right.Node?
    ensures top.Valid() && top.Repr == old(n.Repr) && top.tree == RotateLeft(old(n.tree))
  {
    ghost var all := n.Repr;
    top := n.right;
    SetRight(n, top.left, {n} + Footprint(n.left) + Footprint(top.left));
    FixHeightOf(n);
    SetLeft(top, n, all);
    FixHeightOf(top);
  }

  method RotateRightAt(n: AvlNode) returns (top: AvlNode)
    requires n.Valid() && n.left != null
    modifies n, n.left
    ensures old(n.tree).left.Node?
    ensures top.Valid() && top.Repr == old(n.Repr) && top.tree == RotateRight(old(n.tree))
  {
    ghost var all := n.Repr;
    top := n.left;
    SetLeft(n, top.right, {n} + Footprint(top.right) + Footprint(n.right));
    FixHeightOf(n);
    SetRight(top, n, all);
    FixHeightOf(top);
  }

  method BalanceFactorOf(n: AvlNode) returns (factor: int)
    requires n.Valid()
    ensures factor == BalanceFactor(n.tree)
  {
    var hl := HeightOf(n.left);
    var hr := HeightOf(n.right);
    factor := hl as int - hr as int;
  }

  /** The branch of Rebalance for a node that leans to the left. */
  method MendLeft(n: AvlNode) returns (top: AvlNode)
    requires n.Valid() && BalanceFactor(n.tree) > 1
    modifies n.Repr
    ensures top.Valid() && top.Repr == old(n.Repr) && top.tree == Rebalance(old(n.tree))
  {
    var inner := BalanceFactorOf(n.left);
    if inner < 0 {
      var l := RotateLeftAt(n.left);
      SetLeft(n, l, n.Repr);
    }
    top := RotateRightAt(n);
  }

  method MendRight(n: AvlNode) returns (top: AvlNode)
    requires n.Valid() && BalanceFactor(n.tree) < -1
    modifies n.Repr
    ensures top.Valid() && top.Repr == old(n.Repr) && top.tree == Rebalance(old(n.tree))
  {
    ghost var t := n.tree;
    var inner := BalanceFactorOf(n.right);
    if inner > 0 {
      var r := RotateRightAt(n.right);
      SetRight(n, r, n.Repr);
      assert n.tree == t.(right := RotateRight(t.right));
    }
    top := RotateLeftAt(n);
  }

  method RebalanceAt(n: AvlNode) returns (top: AvlNode)
    requires n.Valid()
    modifies n.Repr
    ensures top.Valid() && top.Repr == old(n.Repr) && top.tree == Rebalance(old(n.tree))
  {
    var balance := BalanceFactorOf(n);
    if balance > 1 {
      top := MendLeft(n);
    } else if balance < -1 {
      top := MendRight(n);
    } else {
      top := n;
    }
  }

  /** A child has changed: the height is put right and then the balance. */
  method Settle(n: AvlNode) returns (top: AvlNode)
    requires n.Valid()
    modifies n.Repr
    ensures top.Valid() && top.Repr == old(n.Repr) && top.tree == Rebalance(FixHeight(old(n.tree)))
  {
    FixHeightOf(n);
    top := RebalanceAt(n);
  }

  method InsertRec(subRoot: AvlNode?, data: int) returns (top: AvlNode)
    requires ValidTree(subRoot)
    modifies Footprint(subRoot)
    ensures top.Valid() && fresh(top.Repr - old(Footprint(subRoot))) && top.tree == Insert(old(TreeOf(subRoot)), data)
    decreases Footprint(subRoot)
  {
    if subRoot == null {
      top := new AvlNode(data);
      return;
    }
    ghost var t := subRoot.tree;
    if data < subRoot.data {
      var l := InsertRec(subRoot.left, data);
      SetLeft(subRoot, l, subRoot.Repr + l.Repr);
      assert subRoot.tree == t.(left := Insert(t.left, data));
    } else {
      var r := InsertRec(subRoot.right, data);
      SetRight(subRoot, r, subRoot.Repr + r.Repr);
      assert subRoot.tree == t.(right := Insert(t.right, data));
    }
    top := Settle(subRoot);
  }

  /** Unlinks the least node; `rest` is what remains of the subtree. */
  method PopMinRec(subRoot: AvlNode) returns (rest: AvlNode?, min: AvlNode)
    requires subRoot.Valid()
    modifies subRoot.Repr
    ensures ValidTree(rest) && Footprint(rest) <= old(subRoot.Repr)
    ensures min in old(subRoot.Repr) && min !in Footprint(rest)
    ensures TreeOf(rest) == PopMin(old(subRoot.tree)).0 && min.data == PopMin(old(subRoot.tree)).1
    decreases subRoot.Repr
  {
    if subRoot.left == null {
      return subRoot.right, subRoot;
    }
    var l;
    l, min := PopMinRec(subRoot.left);
    SetLeft(subRoot, l, {subRoot} + Footprint(l) + Footprint(subRoot.right));
    FixHeightOf(subRoot);
    rest := subRoot;
  }

  /** The node keeps its place and takes over the data of its successor, which is unlinked. */
  method TakeSuccessor(n: AvlNode)
    requires n.Valid() && n.left != null && n.right != null
    modifies n.Repr
    ensures old(n.tree).right.Node?
    ensures n.Valid() && n.Repr <= old(n.Repr)
    ensures var (rest, successor) := PopMin(old(n.tree).right);
            n.tree == old(n.tree).(right := rest, data := successor)
  {
    var rest, successor := PopMinRec(n.right);
    SetRight(n, rest, {n} + Footprint(n.left) + Footprint(rest));
    SetData(n, successor.data);
  }

  method RemoveRec(subRoot: AvlNode?, data: int) returns (top: AvlNode?)
    requires ValidTree(subRoot)
    modifies Footprint(subRoot)
    ensures ValidTree(top) && Footprint(top) <= old(Footprint(subRoot)) && TreeOf(top) == Remove(old(TreeOf(subRoot)), data)
    decreases Footprint(subRoot)
  {
    if subRoot == null {
      return null;
    }
    ghost var t := subRoot.tree;
    if data < subRoot.data {
      var l := RemoveRec(subRoot.left, data);
      SetLeft(subRoot, l, subRoot.Repr);
    } else if data > subRoot.data {
      var r := RemoveRec(subRoot.right, data);
      SetRight(subRoot, r, subRoot.Repr);
    } else {
      if subRoot.left == null {
        return subRoot.right;
      }
      if subRoot.right == null {
        return subRoot.left;
      }
      assert t.left.Node? && t.right.Node?;
      TakeSuccessor(subRoot);
    }
    assert Remove(t, data) == Rebalance(FixHeight(subRoot.tree));
    top := Settle(subRoot);
  }

  method FindRec(n: AvlNode?, data: int) returns (found: AvlNode?)
    requires ValidTree(n)
    ensures found != null <==> Find(TreeOf(n), data)
    ensures found != null ==> found in Footprint(n) && found.data == data
    decreases Footprint(n)
  {
    if n == null {
      return null;
    }
    if data == n.data {
      return n;
    } else if data < n.data {
      found := FindRec(n.left, data);
    } else {
      found := FindRec(n.right, data);
    }
  }

  /** The tree as its users see it: an ascending sequence of keys. */
  class AvlTree {
    var root: AvlNode?

    ghost predicate Valid()
      reads this, root, Footprint(root)
    {
      ValidTree(root) && Ordered(TreeOf(root)) && Exact(TreeOf(root))
    }

    ghost function Keys(): seq<int>
      reads this, root
    {
      InOrder(TreeOf(root))
    }

    constructor ()
      ensures Valid() && Keys() == [] && root == null
    {
      root := null;
    }

    method AVLInsert(data: int)
      requires Valid() && data !in Keys()
      modifies this, Footprint(root)
      ensures Valid() && fresh(Footprint(root) - old(Footprint(root)))
      ensures Keys() == With(old(Keys()), data)
      ensures Ascending(Keys()) && forall k :: k in Keys() <==> k in old(Keys()) || k == data
      ensures old(Balanced(TreeOf(root))) ==> Balanced(TreeOf(root))
    {
      InsertKeeps(TreeOf(root), data);
      WithKeeps(Keys(), data);
      if Balanced(TreeOf(root)) { InsertBalances(TreeOf(root), data); }
      root := InsertRec(root, data);
    }

    method AVLRemove(data: int)
      requires Valid()
      modifies this, Footprint(root)
      ensures Valid() && Footprint(root) <= old(Footprint(root))
      ensures Keys() == Without(old(Keys()), data)
      ensures Ascending(Keys()) && forall k :: k in Keys() <==> k in old(Keys()) && k != data
      ensures old(Balanced(TreeOf(root))) ==> (Balanced(TreeOf(root)) <==> old(SafeRemove(TreeOf(root), data)))
    {
      RemoveKeeps(TreeOf(root), data);
      WithoutKeeps(Keys(), data);
      if Balanced(TreeOf(root)) { RemoveBalancedIff(TreeOf(root), data); }
      root := RemoveRec(root, data);
    }

    method AVLFind(data: int) returns (found: bool)
      requires Valid()
      ensures found <==> data in Keys()
    {
      FindIsMembership(TreeOf(root), data);
      var n := FindRec(root, data);
      found := n != null;
    }

    method AVLHeight() returns (h: nat)
      requires Valid()
      ensures h == NodeHeight(TreeOf(root)) && Exact(TreeOf(root))
      ensures Balanced(TreeOf(root)) ==> |Keys()| >= Fib(h + 2) - 1
    {
      h := if root != null then root.height else 0;
      if Balanced(TreeOf(root)) { HeightBound(TreeOf(root)); }
    }
  }
}
