/** The nodes of the linked list in memory (ds/src/sll.c), and what each single write to them does
    to the list that they spell. */
module ListMemory {

  type Item = int

  const NULL: nat := 0

  /** What a node carries: an item or, in the dummy at the end, the list that it belongs to. */
  datatype Data = Item(x: Item) | Owner

  datatype Cell = Cell(data: Data, next: nat)

  type Memory = map<nat, Cell>

  /** Walking from `a` to the dummy passes exactly these items. */
  ghost predicate Spells(cells: Memory, a: nat, items: seq<Item>)
    decreases |items|
  {
    && a in cells
    && if items == [] then cells[a] == Cell(Owner, NULL)
       else cells[a].data == Item(items[0]) && Spells(cells, cells[a].next, items[1..])
  }

  // ---------- a list while it is being written ----------

  predicate Distinct(a: seq<nat>) { forall i, j :: 0 <= i < j < |a| ==> a[i] != a[j] }

  function DataAt(items: seq<Item>, i: nat): Data { if i < |items| then Item(items[i]) else Owner }

  function NextAt(chain: seq<nat>, i: nat, end: nat): nat { if i + 1 < |chain| then chain[i + 1] else end }

  predicate CellAt(cells: Memory, chain: seq<nat>, i: nat, data: Data, next: nat) {
    i < |chain| && chain[i] in cells && cells[chain[i]] == Cell(data, next)
  }

  /** The nodes `chain` are linked one to the other and carry the items, the last one the owner, but
      that the first carries `first` and the last points to `end`. */
  predicate Chained(cells: Memory, chain: seq<nat>, items: seq<Item>, first: Data, end: nat) {
    && |chain| == |items| + 1 && Distinct(chain) && NULL !in chain
    && (forall i :: 0 < i < |chain| ==> CellAt(cells, chain, i, DataAt(items, i), NextAt(chain, i, end)))
    && CellAt(cells, chain, 0, first, NextAt(chain, 0, end))
  }

  lemma {:induction false} ChainedSpells(cells: Memory, chain: seq<nat>, items: seq<Item>, i: nat)
    requires Chained(cells, chain, items, DataAt(items, 0), NULL) && i <= |items|
    ensures Spells(cells, chain[i], items[i..])
    decreases |items| - i
  {
    assert CellAt(cells, chain, i, DataAt(items, i), NextAt(chain, i, NULL));
    if i < |items| {
      ChainedSpells(cells, chain, items, i + 1);
      assert items[i..][1..] == items[i + 1..];
    }
  }

  lemma WriteElsewhere(cells: Memory, chain: seq<nat>, items: seq<Item>, first: Data, end: nat, a: nat, c: Cell)
    requires Chained(cells, chain, items, first, end) && a !in chain
    ensures Chained(cells[a := c], chain, items, first, end)
  {
    forall i | 0 < i < |chain| ensures CellAt(cells[a := c], chain, i, DataAt(items, i), NextAt(chain, i, end)) {
      assert CellAt(cells, chain, i, DataAt(items, i), NextAt(chain, i, end));
    }
  }

  lemma FreeElsewhere(cells: Memory, chain: seq<nat>, items: seq<Item>, first: Data, end: nat, a: nat)
    requires Chained(cells, chain, items, first, end) && a !in chain
    ensures Chained(cells - {a}, chain, items, first, end)
  {
    forall i | 0 < i < |chain| ensures CellAt(cells - {a}, chain, i, DataAt(items, i), NextAt(chain, i, end)) {
      assert CellAt(cells, chain, i, DataAt(items, i), NextAt(chain, i, end));
    }
  }

  /** where->next = node, for the last node. */
  lemma WriteEnd(cells: Memory, chain: seq<nat>, items: seq<Item>, first: Data, end: nat, node: nat)
    requires Chained(cells, chain, items, first, end)
    ensures var last := chain[|chain| - 1]; last in cells && Chained(cells[last := cells[last].(next := node)], chain, items, first, node)
  {
    var k := |chain| - 1;
    assert CellAt(cells, chain, k, if k == 0 then first else DataAt(items, k), end);
    var cells' := cells[chain[k] := cells[chain[k]].(next := node)];
    forall i | 0 < i < |chain| ensures CellAt(cells', chain, i, DataAt(items, i), NextAt(chain, i, node)) {
      assert CellAt(cells, chain, i, DataAt(items, i), NextAt(chain, i, end));
    }
  }

  /** where->data = x, for the last node: the node behind it is now part of the list. */
  lemma WriteLast(cells: Memory, chain: seq<nat>, items: seq<Item>, first: Data, node: nat, x: Item)
    requires Chained(cells, chain, items, first, node)
    requires node !in chain && node != NULL && node in cells && cells[node] == Cell(Owner, NULL)
    ensures var last := chain[|chain| - 1];
            last in cells && Chained(cells[last := cells[last].(data := Item(x))], chain + [node], items + [x], if items == [] then Item(x) else first, NULL)
  {
    var k := |chain| - 1;
    assert CellAt(cells, chain, k, if k == 0 then first else DataAt(items, k), node);
    var cells', chain', items' := cells[chain[k] := cells[chain[k]].(data := Item(x))], chain + [node], items + [x];
    forall i | 0 < i < |chain'| ensures CellAt(cells', chain', i, DataAt(items', i), NextAt(chain', i, NULL)) {
      if i < k { assert CellAt(cells, chain, i, DataAt(items, i), NextAt(chain, i, node)); }
    }
  }

  /** head->data = tmp->data. */
  lemma CopyData(cells: Memory, chain: seq<nat>, items: seq<Item>, first: Data, end: nat)
    requires Chained(cells, chain, items, first, end) && items != []
    ensures var head, tmp := chain[0], chain[1];
            && head in cells && cells[head] == Cell(first, tmp) && tmp in cells
            && Chained(cells[head := cells[head].(data := cells[tmp].data)], chain, items, DataAt(items, 1), end)
  {
    assert CellAt(cells, chain, 1, DataAt(items, 1), NextAt(chain, 1, end));
    var cells' := cells[chain[0] := cells[chain[0]].(data := cells[chain[1]].data)];
    forall i | 0 < i < |chain| ensures CellAt(cells', chain, i, DataAt(items, i), NextAt(chain, i, end)) {
      assert CellAt(cells, chain, i, DataAt(items, i), NextAt(chain, i, end));
    }
  }

  /** head->next = tmp->next: the second node is no longer part of the list. */
  lemma CopyNext(cells: Memory, chain: seq<nat>, items: seq<Item>, end: nat)
    requires Chained(cells, chain, items, DataAt(items, 1), end) && items != []
    ensures var head, tmp := chain[0], chain[1];
            && head in cells && tmp in cells && tmp !in [head] + chain[2..]
            && Chained(cells[head := cells[head].(next := cells[tmp].next)], [head] + chain[2..], items[1..], DataAt(items[1..], 0), end)
  {
    var chain', items' := [chain[0]] + chain[2..], items[1..];
    assert CellAt(cells, chain, 1, DataAt(items, 1), NextAt(chain, 1, end));
    var cells' := cells[chain[0] := cells[chain[0]].(next := cells[chain[1]].next)];
    assert forall i :: 0 < i < |chain'| ==> chain'[i] == chain[i + 1];
    forall i | 0 < i < |chain'| ensures CellAt(cells', chain', i, DataAt(items', i), NextAt(chain', i, end)) {
      assert CellAt(cells, chain, i + 1, DataAt(items, i + 1), NextAt(chain, i + 1, end));
    }
  }
}
