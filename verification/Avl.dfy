/** The AVL tree (ds/src/avl.c): recursive insertion and removal with rotations.
    Nodes are values here; keys are integers compared by their order. */
module Avl {

  /** NULL, or a node with its stored height. */
  datatype Tree = Nil | Node(height: nat, data: int, left: Tree, right: Tree)

  function Max(a: nat, b: nat): nat { if a > b then a else b }

  function NodeHeight(t: Tree): nat { if t.Nil? then 0 else t.height }

  function FixHeight(t: Tree): Tree
    requires t.Node?
  {
    t.(height := 1 + Max(NodeHeight(t.left), NodeHeight(t.right)))
  }

  function BalanceFactor(t: Tree): int
    requires t.Node?
  {
    NodeHeight(t.left) - NodeHeight(t.right)
  }

  function RotateLeft(t: Tree): Tree
    requires t.Node? && t.right.Node?
  {
    var lower := FixHeight(t.(right := t.right.left));
    FixHeight(t.right.(left := lower))
  }

  function RotateRight(t: Tree): Tree
    requires t.Node? && t.left.Node?
  {
    var lower := FixHeight(t.(left := t.left.right));
    FixHeight(t.left.(right := lower))
  }

  function Rebalance(t: Tree): Tree
    requires t.Node?
  {
    if BalanceFactor(t) > 1 then
      RotateRight(if BalanceFactor(t.left) < 0 then t.(left := RotateLeft(t.left)) else t)
    else if BalanceFactor(t) < -1 then
      RotateLeft(if BalanceFactor(t.right) > 0 then t.(right := RotateRight(t.right)) else t)
    else t
  }

  function Insert(t: Tree, data: int): Tree {
    if t.Nil? then Node(1, data, Nil, Nil)
    else if data < t.data then Rebalance(FixHeight(t.(left := Insert(t.left, data))))
    else Rebalance(FixHeight(t.(right := Insert(t.right, data))))
  }

  /** The tree without its least node, and the data of that node. */
  function PopMin(t: Tree): (Tree, int)
    requires t.Node?
  {
    if t.left.Nil? then (t.right, t.data)
    else
      var (rest, min) := PopMin(t.left);
      (FixHeight(t.(left := rest)), min)
  }

  function Remove(t: Tree, data: int): Tree {
    if t.Nil? then Nil
    else if data < t.data then Rebalance(FixHeight(t.(left := Remove(t.left, data))))
    else if data > t.data then Rebalance(FixHeight(t.(right := Remove(t.right, data))))
    else if t.left.Nil? then t.right
    else if t.right.Nil? then t.left
    else
      var (rest, successor) := PopMin(t.right);
      Rebalance(FixHeight(t.(right := rest, data := successor)))
  }

  function Find(t: Tree, data: int): bool {
    t.Node? && (data == t.data || (if data < t.data then Find(t.left, data) else Find(t.right, data)))
  }

  // ---------- what a tree holds ----------

  function InOrder(t: Tree): seq<int> {
    if t.Nil? then [] else InOrder(t.left) + [t.data] + InOrder(t.right)
  }

  predicate Ascending(s: seq<int>) { forall i, j :: 0 <= i < j < |s| ==> s[i] < s[j] }

  predicate Ordered(t: Tree) { Ascending(InOrder(t)) }

  /** The stored height of every node is its height. */
  predicate Exact(t: Tree) {
    t.Node? ==> Exact(t.left) && Exact(t.right) && t.height == 1 + Max(NodeHeight(t.left), NodeHeight(t.right))
  }

  predicate Balanced(t: Tree) {
    t.Node? ==> Balanced(t.left) && Balanced(t.right) && -1 <= BalanceFactor(t) <= 1
  }

  /** Rotations keep the sequence of keys and the exactness of heights. */
  lemma RebalanceKeeps(t: Tree)
    requires t.Node? && Exact(t.left) && Exact(t.right)
    ensures InOrder(Rebalance(t)) == InOrder(t)
    ensures Exact(t) ==> Exact(Rebalance(t))
  {
    if BalanceFactor(t) > 1 {
      var l := t.left;
      if BalanceFactor(l) < 0 {
        RotateLeftKeeps(l);
        RotateRightKeeps(t.(left := RotateLeft(l)));
      } else {
        RotateRightKeeps(t);
      }
    } else if BalanceFactor(t) < -1 {
      var r := t.right;
      if BalanceFactor(r) > 0 {
        RotateRightKeeps(r);
        RotateLeftKeeps(t.(right := RotateRight(r)));
      } else {
        RotateLeftKeeps(t);
      }
    }
  }

  lemma RotateLeftKeeps(t: Tree)
    requires t.Node? && t.right.Node? && Exact(t.left) && Exact(t.right)
    ensures InOrder(RotateLeft(t)) == InOrder(t) && Exact(RotateLeft(t))
  {
    Regroup(InOrder(t.left), t.data, InOrder(t.right.left), t.right.data, InOrder(t.right.right));
  }

  lemma RotateRightKeeps(t: Tree)
    requires t.Node? && t.left.Node? && Exact(t.left) && Exact(t.right)
    ensures InOrder(RotateRight(t)) == InOrder(t) && Exact(RotateRight(t))
  {
    Regroup(InOrder(t.left.left), t.left.data, InOrder(t.left.right), t.data, InOrder(t.right));
  }

  lemma Regroup(a: seq<int>, x: int, b: seq<int>, y: int, c: seq<int>)
    ensures a + [x] + (b + [y] + c) == (a + [x] + b) + [y] + c
  {
  }

  // ---------- sorted sequences ----------

  /** The sequence with `x` put before the first greater element. */
  function With(s: seq<int>, x: int): seq<int> {
    if s == [] then [x] else if x < s[0] then [x] + s else [s[0]] + With(s[1..], x)
  }

  /** The sequence without the first element equal to `x`. */
  function Without(s: seq<int>, x: int): seq<int> {
    if s == [] then [] else if s[0] == x then s[1..] else [s[0]] + Without(s[1..], x)
  }

  lemma AscendingCons(x: int, s: seq<int>)
    ensures Ascending([x] + s) <==> Ascending(s) && forall y :: y in s ==> x < y
  {
    var all := [x] + s;
    assert forall i :: 0 <= i < |s| ==> all[i + 1] == s[i];
    if Ascending(all) {
      forall y | y in s ensures x < y {
        var i :| 0 <= i < |s| && s[i] == y;
        assert all[0] < all[i + 1];
      }
      forall i, j | 0 <= i < j < |s| ensures s[i] < s[j] { assert all[i + 1] < all[j + 1]; }
    }
    if Ascending(s) && forall y :: y in s ==> x < y {
      forall i, j | 0 <= i < j < |all| ensures all[i] < all[j] {
        assert all[j] == s[j - 1] && s[j - 1] in s && (i > 0 ==> all[i] == s[i - 1]);
      }
    }
  }

  /** Adding a new key to an ascending sequence: nothing else comes or goes. */
  lemma {:induction false} WithKeeps(s: seq<int>, x: int)
    requires Ascending(s) && x !in s
    ensures Ascending(With(s, x)) && |With(s, x)| == |s| + 1
    ensures forall y :: y in With(s, x) <==> y in s || y == x
    decreases |s|
  {
    if s == [] {
    } else {
      var h, rest := s[0], s[1..];
      assert s == [h] + rest;
      AscendingCons(h, rest);
      if x < h {
        AscendingCons(x, s);
      } else {
        WithKeeps(rest, x);
        AscendingCons(h, With(rest, x));
      }
    }
  }

  lemma {:induction false} WithoutKeeps(s: seq<int>, x: int)
    requires Ascending(s)
    ensures Ascending(Without(s, x)) && |Without(s, x)| == |s| - (if x in s then 1 else 0)
    ensures forall y :: y in Without(s, x) <==> y in s && y != x
    decreases |s|
  {
    if s != [] {
      var h, rest := s[0], s[1..];
      assert s == [h] + rest;
      AscendingCons(h, rest);
      WithoutKeeps(rest, x);
      if h != x { AscendingCons(h, Without(rest, x)); }
    }
  }

  lemma {:induction false} WithInFront(a: seq<int>, y: int, c: seq<int>, x: int)
    requires x < y
    ensures With(a + [y] + c, x) == With(a, x) + [y] + c
    decreases |a|
  {
    if a == [] {
      assert a + [y] + c == [y] + c;
    } else {
      assert (a + [y] + c)[1..] == a[1..] + [y] + c;
      WithInFront(a[1..], y, c, x);
    }
  }

  lemma {:induction false} WithBehind(a: seq<int>, y: int, c: seq<int>, x: int)
    requires x > y && forall z :: z in a ==> z < x
    ensures With(a + [y] + c, x) == a + [y] + With(c, x)
    decreases |a|
  {
    if a == [] {
      assert a + [y] + c == [y] + c && ([y] + c)[1..] == c;
    } else {
      assert (a + [y] + c)[1..] == a[1..] + [y] + c;
      assert a[0] in a && forall z :: z in a[1..] ==> z in a;
      WithBehind(a[1..], y, c, x);
      assert a == [a[0]] + a[1..];
    }
  }

  lemma {:induction false} WithoutInFront(a: seq<int>, y: int, c: seq<int>, x: int)
    requires x != y && x !in c
    ensures Without(a + [y] + c, x) == Without(a, x) + [y] + c
    decreases |a|
  {
    if a == [] {
      assert a + [y] + c == [y] + c && ([y] + c)[1..] == c;
      WithoutAbsent(c, x);
    } else {
      assert (a + [y] + c)[1..] == a[1..] + [y] + c;
      WithoutInFront(a[1..], y, c, x);
    }
  }

  lemma {:induction false} WithoutAbsent(s: seq<int>, x: int)
    requires x !in s
    ensures Without(s, x) == s
    decreases |s|
  {
    if s != [] {
      WithoutAbsent(s[1..], x);
      assert s == [s[0]] + s[1..];
    }
  }

  lemma {:induction false} WithoutBehind(a: seq<int>, y: int, c: seq<int>, x: int)
    requires x !in a
    ensures Without(a + [y] + c, x) == if x == y then a + c else a + [y] + Without(c, x)
    decreases |a|
  {
    if a == [] {
      assert a + [y] + c == [y] + c && ([y] + c)[1..] == c && a + c == c;
    } else {
      assert (a + [y] + c)[1..] == a[1..] + [y] + c;
      WithoutBehind(a[1..], y, c, x);
      assert a == [a[0]] + a[1..];
    }
  }

  lemma AscendingParts(a: seq<int>, y: int, c: seq<int>)
    requires Ascending(a + [y] + c)
    ensures Ascending(a) && Ascending(c)
    ensures (forall z :: z in a ==> z < y) && (forall z :: z in c ==> y < z)
  {
    var s := a + [y] + c;
    assert forall i :: 0 <= i < |a| ==> s[i] == a[i];
    assert s[|a|] == y;
    assert forall i :: 0 <= i < |c| ==> s[|a| + 1 + i] == c[i];
  }

  // ---------- insertion and removal ----------

  /** Insertion puts the key where it belongs and keeps stored heights exact, on any ordered tree. */
  lemma {:induction false} InsertKeeps(t: Tree, data: int)
    requires Ordered(t) && Exact(t) && data !in InOrder(t)
    ensures InOrder(Insert(t, data)) == With(InOrder(t), data)
    ensures Exact(Insert(t, data))
    decreases t
  {
    if t.Node? {
      var l, r := InOrder(t.left), InOrder(t.right);
      AscendingParts(l, t.data, r);
      if data < t.data {
        InsertKeeps(t.left, data);
        WithInFront(l, t.data, r, data);
        RebalanceKeeps(FixHeight(t.(left := Insert(t.left, data))));
      } else {
        InsertKeeps(t.right, data);
        WithBehind(l, t.data, r, data);
        RebalanceKeeps(FixHeight(t.(right := Insert(t.right, data))));
      }
    }
  }

  lemma {:induction false} PopMinKeeps(t: Tree)
    requires t.Node? && Exact(t)
    ensures InOrder(t) == [PopMin(t).1] + InOrder(PopMin(t).0)
    ensures Exact(PopMin(t).0)
    decreases t
  {
    if t.left.Node? {
      PopMinKeeps(t.left);
    }
  }

  /** Removal takes out exactly the key and keeps stored heights exact, on any ordered tree. */
  lemma {:induction false} RemoveKeeps(t: Tree, data: int)
    requires Ordered(t) && Exact(t)
    ensures InOrder(Remove(t, data)) == Without(InOrder(t), data)
    ensures Exact(Remove(t, data))
    decreases t
  {
    if t.Node? {
      var l, r := InOrder(t.left), InOrder(t.right);
      AscendingParts(l, t.data, r);
      if data < t.data {
        RemoveKeeps(t.left, data);
        WithoutInFront(l, t.data, r, data);
        RebalanceKeeps(FixHeight(t.(left := Remove(t.left, data))));
      } else {
        WithoutBehind(l, t.data, r, data);
        if data > t.data {
          RemoveKeeps(t.right, data);
          RebalanceKeeps(FixHeight(t.(right := Remove(t.right, data))));
        } else if t.left.Node? && t.right.Node? {
          PopMinKeeps(t.right);
          RebalanceKeeps(FixHeight(t.(right := PopMin(t.right).0, data := PopMin(t.right).1)));
        }
      }
    }
  }

  lemma {:induction false} FindIsMembership(t: Tree, data: int)
    requires Ordered(t)
    ensures Find(t, data) <==> data in InOrder(t)
    decreases t
  {
    if t.Node? {
      AscendingParts(InOrder(t.left), t.data, InOrder(t.right));
      FindIsMembership(t.left, data);
      FindIsMembership(t.right, data);
    }
  }

  // ---------- balance ----------

  predicate Sound(t: Tree) { Exact(t) && Balanced(t) }

  /** A node that is off balance by at most two is set right, and loses at most one level. */
  lemma RebalanceBalances(t: Tree)
    requires t.Node? && Exact(t) && Balanced(t.left) && Balanced(t.right) && -2 <= BalanceFactor(t) <= 2
    ensures Balanced(Rebalance(t))
    ensures t.height - 1 <= NodeHeight(Rebalance(t)) <= t.height
    ensures -1 <= BalanceFactor(t) <= 1 ==> Rebalance(t) == t
  {
    if BalanceFactor(t) == 2 {
      LeftHeavy(t);
    } else if BalanceFactor(t) == -2 {
      RightHeavy(t);
    }
  }

  /** What a double rotation puts below the node `m`. */
  lemma {:induction false} DoubleBalances(low: Tree, m: Tree, high: Tree, a: Tree, b: Tree)
    requires m.Node? && Exact(m) && Balanced(m) && Balanced(low) && Balanced(high) && NodeHeight(low) == NodeHeight(high) == m.height - 1
    requires a.Node? && a == Node(1 + Max(NodeHeight(low), NodeHeight(m.left)), a.data, low, m.left)
    requires b.Node? && b == Node(1 + Max(NodeHeight(m.right), NodeHeight(high)), b.data, m.right, high)
    ensures Balanced(a) && Balanced(b) && NodeHeight(a) == NodeHeight(b) == m.height
  {}

  lemma {:induction false} LeftHeavy(t: Tree)
    requires t.Node? && Exact(t) && Balanced(t.left) && Balanced(t.right) && BalanceFactor(t) == 2
    ensures Balanced(Rebalance(t)) && t.height - 1 <= NodeHeight(Rebalance(t)) <= t.height
  {
    var l := t.left;
    if BalanceFactor(l) < 0 {
      var m := l.right;
      var a := FixHeight(l.(right := m.left));
      var b := FixHeight(t.(left := m.right));
      DoubleBalances(l.left, m, t.right, a, b);
      assert Rebalance(t) == Node(l.height, m.data, a, b);
    } else {
      var b := FixHeight(t.(left := l.right));
      assert Balanced(b);
      assert Rebalance(t) == FixHeight(l.(right := b));
    }
  }

  lemma {:induction false} RightHeavy(t: Tree)
    requires t.Node? && Exact(t) && Balanced(t.left) && Balanced(t.right) && BalanceFactor(t) == -2
    ensures Balanced(Rebalance(t)) && t.height - 1 <= NodeHeight(Rebalance(t)) <= t.height
  {
    var r := t.right;
    if BalanceFactor(r) > 0 {
      var m := r.left;
      var a := FixHeight(t.(right := m.left));
      var b := FixHeight(r.(left := m.right));
      DoubleBalances(t.left, m, r.right, a, b);
      assert Rebalance(t) == Node(r.height, m.data, a, b);
    } else {
      var a := FixHeight(t.(right := r.left));
      assert Balanced(a);
      assert Rebalance(t) == FixHeight(r.(left := a));
    }
  }

  /** Every tree built by insertions stays balanced. */
  lemma {:induction false} InsertBalances(t: Tree, data: int)
    requires Sound(t) && Ordered(t) && data !in InOrder(t)
    ensures Balanced(Insert(t, data))
    ensures NodeHeight(t) <= NodeHeight(Insert(t, data)) <= NodeHeight(t) + 1
    decreases t
  {
    if t.Node? {
      AscendingParts(InOrder(t.left), t.data, InOrder(t.right));
      var child := if data < t.data then t.left else t.right;
      InsertKeeps(child, data);
      InsertBalances(child, data);
      if data < t.data {
        RebalanceBalances(FixHeight(t.(left := Insert(t.left, data))));
      } else {
        RebalanceBalances(FixHeight(t.(right := Insert(t.right, data))));
      }
    }
  }

  function Built(keys: seq<int>): Tree {
    if keys == [] then Nil else Insert(Built(keys[..|keys| - 1]), keys[|keys| - 1])
  }

  predicate Distinct(keys: seq<int>) { forall i, j :: 0 <= i < j < |keys| ==> keys[i] != keys[j] }

  /** Any run of insertions of distinct keys, from the empty tree. */
  lemma {:induction false} BuiltMeaning(keys: seq<int>)
    requires Distinct(keys)
    ensures Sound(Built(keys)) && Ordered(Built(keys))
    ensures |InOrder(Built(keys))| == |keys| && forall k :: k in InOrder(Built(keys)) <==> k in keys
    decreases |keys|
  {
    if keys != [] {
      var front, last := keys[..|keys| - 1], keys[|keys| - 1];
      BuiltMeaning(front);
      assert keys == front + [last];
      InsertKeeps(Built(front), last);
      InsertBalances(Built(front), last);
      WithKeeps(InOrder(Built(front)), last);
    }
  }

  function Fib(n: nat): nat { if n < 2 then n else Fib(n - 1) + Fib(n - 2) }

  lemma {:induction false} FibMonotone(n: nat)
    ensures Fib(n) <= Fib(n + 1)
    decreases n
  {
    if n >= 2 {
      FibMonotone(n - 1);
      FibMonotone(n - 2);
    }
  }

  /** A balanced tree of height h has at least Fib(h + 2) - 1 nodes, so its height is logarithmic. */
  lemma {:induction false} HeightBound(t: Tree)
    requires Sound(t)
    ensures |InOrder(t)| >= Fib(NodeHeight(t) + 2) - 1
    decreases t
  {
    if t.Node? {
      HeightBound(t.left);
      HeightBound(t.right);
      FibMonotone(t.height);
      var l, r := NodeHeight(t.left), NodeHeight(t.right);
      assert (l == t.height - 1 && t.height - 2 <= r) || (r == t.height - 1 && t.height - 2 <= l);
      assert |InOrder(t)| == |InOrder(t.left)| + 1 + |InOrder(t.right)|;
    }
  }

  // ---------- when removal keeps the balance ----------

  /** Taking the least node out of a balanced tree lowers it. */
  predicate Drops(t: Tree)
    requires t.Node?
  {
    t.left.Nil? || (NodeHeight(t.left) > NodeHeight(t.right) && Drops(t.left))
  }

  /** No node on the left spine leans to the right while everything below it on the spine drops. */
  predicate SafePop(t: Tree)
    requires t.Node?
  {
    t.left.Nil? || (SafePop(t.left) && (Drops(t.left) ==> NodeHeight(t.left) >= NodeHeight(t.right)))
  }

  lemma {:induction false} PopMinBalanced(t: Tree)
    requires t.Node? && Sound(t)
    ensures SafePop(t) ==> NodeHeight(PopMin(t).0) == t.height - (if Drops(t) then 1 else 0)
    ensures t.height - 1 <= NodeHeight(PopMin(t).0) <= t.height
    ensures Balanced(PopMin(t).0) <==> SafePop(t)
    decreases t
  {
    PopMinKeeps(t);
    if t.left.Node? {
      PopMinKeeps(t.left);
      PopMinBalanced(t.left);
    }
  }

  /** The node to be removed has at most one child, or its right subtree can lose its least node safely. */
  predicate SafeRemove(t: Tree, data: int) {
    t.Node? ==>
      if data < t.data then SafeRemove(t.left, data)
      else if data > t.data then SafeRemove(t.right, data)
      else t.left.Nil? || t.right.Nil? || SafePop(t.right)
  }

  /** A node whose left subtree has lost at most one level: rebalancing it mends this node, and
      nothing inside the changed subtree. */
  lemma LeftShrunk(t: Tree, l: Tree)
    requires t.Node? && Sound(t) && Exact(l) && NodeHeight(t.left) - 1 <= NodeHeight(l) <= NodeHeight(t.left)
    ensures var r := Rebalance(FixHeight(t.(left := l)));
            (Balanced(r) <==> Balanced(l)) && t.height - 1 <= NodeHeight(r) <= t.height
  {
    var t' := FixHeight(t.(left := l));
    if Balanced(l) {
      RebalanceBalances(t');
    } else if BalanceFactor(t') == -2 {
      RightHeavyKeepsLeft(t');
    }
  }

  lemma RightShrunk(t: Tree, r: Tree, data: int)
    requires t.Node? && Sound(t) && Exact(r) && NodeHeight(t.right) - 1 <= NodeHeight(r) <= NodeHeight(t.right)
    ensures var s := Rebalance(FixHeight(t.(right := r, data := data)));
            (Balanced(s) <==> Balanced(r)) && t.height - 1 <= NodeHeight(s) <= t.height
  {
    var t' := FixHeight(t.(right := r, data := data));
    if Balanced(r) {
      RebalanceBalances(t');
    } else if BalanceFactor(t') == 2 {
      LeftHeavyKeepsRight(t');
    }
  }

  lemma RightHeavyKeepsLeft(t: Tree)
    requires t.Node? && Exact(t) && Balanced(t.right) && BalanceFactor(t) == -2 && !Balanced(t.left)
    ensures !Balanced(Rebalance(t)) && t.height - 1 <= NodeHeight(Rebalance(t)) <= t.height
  {
    var r := t.right;
    assert Exact(r) && Balanced(r) && -1 <= BalanceFactor(r) <= 1;
    var m := if BalanceFactor(r) > 0 then r.left else r;
    assert Exact(m) && Balanced(m) && -1 <= BalanceFactor(m) <= 1;
    var a := FixHeight(t.(right := m.left));
    assert !Balanced(a) && Rebalance(t).left == a;
  }

  lemma LeftHeavyKeepsRight(t: Tree)
    requires t.Node? && Exact(t) && Balanced(t.left) && BalanceFactor(t) == 2 && !Balanced(t.right)
    ensures !Balanced(Rebalance(t)) && t.height - 1 <= NodeHeight(Rebalance(t)) <= t.height
  {
    var l := t.left;
    assert Exact(l) && Balanced(l) && -1 <= BalanceFactor(l) <= 1;
    var m := if BalanceFactor(l) < 0 then l.right else l;
    assert Exact(m) && Balanced(m) && -1 <= BalanceFactor(m) <= 1;
    var b := FixHeight(t.(left := m.right));
    assert !Balanced(b) && Rebalance(t).right == b;
  }

  /** Removal from a balanced tree gives a balanced tree exactly if the condition holds. */
  lemma {:induction false} RemoveBalancedIff(t: Tree, data: int)
    requires Sound(t) && Ordered(t)
    ensures Balanced(Remove(t, data)) <==> SafeRemove(t, data)
    ensures NodeHeight(t) - 1 <= NodeHeight(Remove(t, data)) <= NodeHeight(t)
    decreases t
  {
    if t.Node? {
      AscendingParts(InOrder(t.left), t.data, InOrder(t.right));
      if data < t.data {
        RemoveKeeps(t.left, data);
        RemoveBalancedIff(t.left, data);
        LeftShrunk(t, Remove(t.left, data));
      } else if data > t.data {
        RemoveKeeps(t.right, data);
        RemoveBalancedIff(t.right, data);
        RightShrunk(t, Remove(t.right, data), t.data);
      } else if t.left.Node? && t.right.Node? {
        PopMinKeeps(t.right);
        PopMinBalanced(t.right);
        RightShrunk(t, PopMin(t.right).0, PopMin(t.right).1);
      }
    }
  }

  function LeafOf(k: int): Tree { Node(1, k, Nil, Nil) }

  lemma LeafSound(k: int)
    ensures Sound(LeafOf(k))
  {
    assert Sound(Nil);
  }

  /** A balanced tree over k-2 .. k+5 without k+1; its root k has two children. */
  function Lopsided(k: int): Tree {
    Node(4, k, Node(2, k - 1, LeafOf(k - 2), Nil), Node(3, k + 3, LeafOf(k + 2), Node(2, k + 4, Nil, LeafOf(k + 5))))
  }

  lemma LopsidedSound(k: int)
    ensures Sound(Lopsided(k)) && Ordered(Lopsided(k))
  {
    var t := Lopsided(k);
    var l, r, big := t.left, t.right, t.right.right;
    assert InOrder(LeafOf(k - 2)) == [k - 2] && InOrder(l) == [k - 2, k - 1];
    assert InOrder(LeafOf(k + 5)) == [k + 5] && InOrder(big) == [k + 4, k + 5];
    assert InOrder(LeafOf(k + 2)) == [k + 2] && InOrder(r) == [k + 2, k + 3, k + 4, k + 5];
    assert InOrder(t) == [k - 2, k - 1, k, k + 2, k + 3, k + 4, k + 5];
    LeafSound(k - 2);
    LeafSound(k + 2);
    LeafSound(k + 5);
    assert Sound(big) && Sound(l);
    assert Sound(r);
  }

  lemma {:induction false} InsertLeft(t: Tree, data: int, l: Tree)
    requires t.Node? && data < t.data && Insert(t.left, data) == l && -1 <= NodeHeight(l) - NodeHeight(t.right) <= 1
    ensures Insert(t, data) == Node(1 + Max(NodeHeight(l), NodeHeight(t.right)), t.data, l, t.right)
  {}

  lemma {:induction false} InsertRight(t: Tree, data: int, r: Tree)
    requires t.Node? && data > t.data && Insert(t.right, data) == r && -1 <= NodeHeight(t.left) - NodeHeight(r) <= 1
    ensures Insert(t, data) == Node(1 + Max(NodeHeight(t.left), NodeHeight(r)), t.data, t.left, r)
  {}

  lemma BuiltNext(keys: seq<int>, n: nat)
    requires n < |keys|
    ensures Built(keys[..n + 1]) == Insert(Built(keys[..n]), keys[n])
  {
    assert keys[..n + 1][..n] == keys[..n];
  }

  /** That tree comes from seven insertions. */
  lemma {:induction false} LopsidedBuilt(k: int, keys: seq<int>)
    requires keys == [k, k - 1, k + 3, k - 2, k + 2, k + 4, k + 5]
    ensures Built(keys) == Lopsided(k)
  {
    BuiltFour(k, keys);
    BuiltSeven(k, keys);
    assert keys[..7] == keys;
  }

  lemma {:induction false} BuiltSeven(k: int, keys: seq<int>)
    requires |keys| >= 7 && keys[4] == k + 2 && keys[5] == k + 4 && keys[6] == k + 5
    requires Built(keys[..4]) == Node(3, k, Node(2, k - 1, LeafOf(k - 2), Nil), LeafOf(k + 3))
    ensures Built(keys[..7]) == Lopsided(k)
  {
    LastThree(k);
    BuiltNext(keys, 4);
    BuiltNext(keys, 5);
    BuiltNext(keys, 6);
  }

  lemma {:induction false} BuiltFour(k: int, keys: seq<int>)
    requires |keys| >= 4 && keys[0] == k && keys[1] == k - 1 && keys[2] == k + 3 && keys[3] == k - 2
    ensures Built(keys[..4]) == Node(3, k, Node(2, k - 1, LeafOf(k - 2), Nil), LeafOf(k + 3))
  {
    FirstFour(k);
    assert keys[..0] == [];
    BuiltNext(keys, 0);
    BuiltNext(keys, 1);
    BuiltNext(keys, 2);
    BuiltNext(keys, 3);
  }

  lemma {:induction false} FirstFour(k: int)
    ensures Insert(Nil, k) == LeafOf(k) && Insert(LeafOf(k), k - 1) == Node(2, k, LeafOf(k - 1), Nil)
    ensures Insert(Node(2, k, LeafOf(k - 1), Nil), k + 3) == Node(2, k, LeafOf(k - 1), LeafOf(k + 3))
    ensures Insert(Node(2, k, LeafOf(k - 1), LeafOf(k + 3)), k - 2) == Node(3, k, Node(2, k - 1, LeafOf(k - 2), Nil), LeafOf(k + 3))
  {
    InsertLeft(LeafOf(k), k - 1, LeafOf(k - 1));
    InsertRight(Node(2, k, LeafOf(k - 1), Nil), k + 3, LeafOf(k + 3));
    InsertLeft(LeafOf(k - 1), k - 2, LeafOf(k - 2));
    InsertLeft(Node(2, k, LeafOf(k - 1), LeafOf(k + 3)), k - 2, Node(2, k - 1, LeafOf(k - 2), Nil));
  }

  lemma {:induction false} LastThree(k: int)
    ensures var l, r2 := Node(2, k - 1, LeafOf(k - 2), Nil), LeafOf(k + 2);
            && Insert(Node(3, k, l, LeafOf(k + 3)), k + 2) == Node(3, k, l, Node(2, k + 3, r2, Nil))
            && Insert(Node(3, k, l, Node(2, k + 3, r2, Nil)), k + 4) == Node(3, k, l, Node(2, k + 3, r2, LeafOf(k + 4)))
            && Insert(Node(3, k, l, Node(2, k + 3, r2, LeafOf(k + 4))), k + 5) == Lopsided(k)
  {
    var l, r2 := Node(2, k - 1, LeafOf(k - 2), Nil), LeafOf(k + 2);
    InsertLeft(LeafOf(k + 3), k + 2, r2);
    InsertRight(Node(3, k, l, LeafOf(k + 3)), k + 2, Node(2, k + 3, r2, Nil));
    InsertRight(Node(2, k + 3, r2, Nil), k + 4, LeafOf(k + 4));
    InsertRight(Node(3, k, l, Node(2, k + 3, r2, Nil)), k + 4, Node(2, k + 3, r2, LeafOf(k + 4)));
    InsertRight(LeafOf(k + 4), k + 5, LeafOf(k + 5));
    InsertRight(Node(2, k + 3, r2, LeafOf(k + 4)), k + 5, Node(2, k + 4, Nil, LeafOf(k + 5)));
    InsertRight(Node(3, k, l, Node(2, k + 3, r2, LeafOf(k + 4))), k + 5, Node(3, k + 3, r2, Node(2, k + 4, Nil, LeafOf(k + 5))));
  }

  /** A two-child removal can leave the tree off balance: removing the root of that tree leaves k+3
      with nothing on its left and two levels on its right. */
  lemma RemovalCanUnbalance(k: int)
    ensures !Balanced(Remove(Lopsided(k), k))
  {
    LopsidedSound(k);
    RemoveBalancedIff(Lopsided(k), k);
    LopsidedUnsafe(k);
  }

  lemma LopsidedUnsafe(k: int)
    ensures !SafeRemove(Lopsided(k), k)
  {
    var r := Lopsided(k).right;
    assert Drops(r.left) && NodeHeight(r.left) < NodeHeight(r.right);
  }

  // ---------- removing a key that is not there ----------

  /** Every node on the search path is in balance. */
  predicate PathBalanced(t: Tree, data: int) {
    t.Node? ==> -1 <= BalanceFactor(t) <= 1 && (if data < t.data then PathBalanced(t.left, data) else PathBalanced(t.right, data))
  }

  /** Removing an absent key leaves the tree as it is exactly if the search path is in balance;
      elsewhere it may rotate, though never lose or gain a key. */
  lemma {:induction false} RemoveAbsentIff(t: Tree, data: int)
    requires Exact(t) && Ordered(t) && data !in InOrder(t)
    ensures Remove(t, data) == t <==> PathBalanced(t, data)
    decreases t
  {
    if t.Node? {
      AscendingParts(InOrder(t.left), t.data, InOrder(t.right));
      if data < t.data {
        RemoveAbsentIff(t.left, data);
        assert PathBalanced(t, data) <==> -1 <= BalanceFactor(t) <= 1 && PathBalanced(t.left, data);
        RemoveKeeps(t.left, data);
        WithoutAbsent(InOrder(t.left), data);
        AbsentBelow(t, Remove(t.left, data), t.right);
        assert Remove(t, data) == Rebalance(FixHeight(Node(t.height, t.data, Remove(t.left, data), t.right)));
      } else {
        RemoveAbsentIff(t.right, data);
        assert PathBalanced(t, data) <==> -1 <= BalanceFactor(t) <= 1 && PathBalanced(t.right, data);
        RemoveKeeps(t.right, data);
        WithoutAbsent(InOrder(t.right), data);
        AbsentBelow(t, t.left, Remove(t.right, data));
        assert Remove(t, data) == Rebalance(FixHeight(Node(t.height, t.data, t.left, Remove(t.right, data))));
      }
    }
  }

  /** A subtree with the same keys has been put in; the whole is as before exactly if that one is and the node is in balance. */
  lemma {:induction false} AbsentBelow(t: Tree, l: Tree, r: Tree)
    requires t.Node? && Exact(t) && Exact(l) && Exact(r) && Ordered(t) && InOrder(l) == InOrder(t.left) && InOrder(r) == InOrder(t.right)
    ensures Rebalance(FixHeight(Node(t.height, t.data, l, r))) == t <==> l == t.left && r == t.right && -1 <= BalanceFactor(t) <= 1
  {
    RebalanceMovesRoot(FixHeight(Node(t.height, t.data, l, r)));
  }

  lemma RebalanceMovesRoot(t: Tree)
    requires t.Node? && Exact(t) && Ordered(t)
    ensures if -1 <= BalanceFactor(t) <= 1 then Rebalance(t) == t else Rebalance(t).data != t.data
  {
    AscendingParts(InOrder(t.left), t.data, InOrder(t.right));
    RebalanceKeeps(t);
    if t.left.Node? { RootInside(t.left); }
    if t.right.Node? { RootInside(t.right); }
  }

  lemma RootInside(t: Tree)
    requires t.Node?
    ensures t.data in InOrder(t)
    ensures t.left.Node? ==> t.left.data in InOrder(t)
    ensures t.right.Node? ==> t.right.data in InOrder(t)
  {
    assert InOrder(t)[|InOrder(t.left)|] == t.data;
    if t.left.Node? { assert InOrder(t)[|InOrder(t.left.left)|] == t.left.data; }
    if t.right.Node? { assert InOrder(t)[|InOrder(t.left)| + 1 + |InOrder(t.right.left)|] == t.right.data; }
  }
}
