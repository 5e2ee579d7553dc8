/** The nested circular lists in which cmocka keeps the values that mocked functions return. */
module CmockaLists {
  import opened DoublyLinked

  /** An allocated cell.  The head of a symbol's list is part of the SymbolMapValue that holds it;
      it has an address of its own and is freed with it. */
  datatype Cell =
    | ListNode(value: Ptr, refcount: int, next: Ptr, prev: Ptr)
    | SymbolMapValue(symbol_name: string, symbol_values_list_head: Ptr)
    | Location(file: string, line: int)

  type Mem = map<Ptr, Cell>

  ghost predicate IsNode(h: Mem, p: Ptr) { p in h && h[p].ListNode? }

  ghost function LinksOf(h: Mem): (links: LinkMap)
    ensures forall p :: p in links <==> IsNode(h, p)
    ensures forall p | IsNode(h, p) :: links[p] == Links(h[p].next, h[p].prev)
  {
    map p | p in h && h[p].ListNode? :: Links(h[p].next, h[p].prev)
  }

  /** The nodes ps make a circle with the head. */
  ghost predicate Ring(h: Mem, head: Ptr, ps: seq<Ptr>) { Chain(LinksOf(h), head, ps, head) }

  // ---------------------------------------------------------------- nested lists

  /** A node with its value, or with its symbol and the list of the symbol's values. */
  datatype Item =
    | Value(node: Ptr, refcount: int, value: Ptr)
    | Symbol(node: Ptr, refcount: int, value: Ptr, name: string, head: Ptr, kids: seq<Item>)

  function Nodes(items: seq<Item>): (ps: seq<Ptr>)
    ensures |ps| == |items|
  {
    seq(|items|, k requires 0 <= k < |items| => items[k].node)
  }

  /** The cells below a node. */
  function Below(i: Item): set<Ptr> {
    if i.Value? then {i.value} else {i.value, i.head} + Foot(i.kids)
  }

  /** The cells of a list, its head excepted. */
  function Foot(items: seq<Item>): set<Ptr> {
    if items == [] then {} else {items[0].node} + Below(items[0]) + Foot(items[1..])
  }

  /** No cell is used twice. */
  ghost predicate Separate(items: seq<Item>) {
    items != [] ==>
      && items[0].node !in Below(items[0])
      && (items[0].Symbol? ==> Sound(items[0]))
      && ({items[0].node} + Below(items[0])) !! Foot(items[1..])
      && Separate(items[1..])
  }

  ghost predicate Sound(i: Item)
    requires i.Symbol?
  {
    i.value != i.head && i.value !in Foot(i.kids) && i.head !in Foot(i.kids) && Separate(i.kids)
  }

  /** The cells of item i, with lists nested n deep below it. */
  ghost predicate Cells(h: Mem, i: Item, n: nat)
    decreases i
  {
    && IsNode(h, i.node) && h[i.node].value == i.value && h[i.node].refcount == i.refcount
    && i.value in h
    && if n == 0 then i.Value? && h[i.value].Location?
       else i.Symbol? && h[i.value] == SymbolMapValue(i.name, i.head) && ListAt(h, i.head, i.kids, n - 1)
  }

  ghost predicate Items(h: Mem, items: seq<Item>, n: nat)
    decreases items, 0
  {
    forall k | 0 <= k < |items| :: Cells(h, items[k], n)
  }

  ghost predicate ListAt(h: Mem, head: Ptr, items: seq<Item>, n: nat)
    decreases items, 1
  {
    Ring(h, head, Nodes(items)) && Items(h, items, n)
  }

  ghost predicate Agree(h: Mem, g: Mem, s: set<Ptr>) {
    forall p | p in s && p in h :: p in g && g[p] == h[p]
  }

  lemma {:induction false} FootHas(items: seq<Item>, k: nat)
    requires k < |items|
    ensures items[k].node in Foot(items) && Below(items[k]) <= Foot(items)
  {
    if k == 0 {
    } else {
      FootHas(items[1..], k - 1);
    }
  }

  /** Cells depends on a node's value and refcount, and on all that is below it. */
  lemma {:induction false} CellsFrame(h: Mem, g: Mem, i: Item, n: nat)
    requires Cells(h, i, n) && Agree(h, g, Below(i))
    requires IsNode(g, i.node) && g[i.node].value == h[i.node].value && g[i.node].refcount == h[i.node].refcount
    ensures Cells(g, i, n)
    decreases i
  {
    if n > 0 {
      assert IsNode(h, i.head) by { ChainEnds(LinksOf(h), i.head, Nodes(i.kids), i.head); }
      ListFrame(h, g, i.head, i.kids, n - 1);
    }
  }

  lemma {:induction false} ListFrame(h: Mem, g: Mem, head: Ptr, items: seq<Item>, n: nat)
    requires ListAt(h, head, items, n) && Agree(h, g, Foot(items) + {head})
    ensures ListAt(g, head, items, n)
    decreases items
  {
    ChainEnds(LinksOf(h), head, Nodes(items), head);
    forall r | r in Nodes(items) ensures r in Foot(items) {
      var k :| 0 <= k < |items| && items[k].node == r;
      FootHas(items, k);
    }
    ChainFrame(LinksOf(h), LinksOf(g), head, Nodes(items), head);
    forall k | 0 <= k < |items| ensures Cells(g, items[k], n) {
      FootHas(items, k);
      CellsFrame(h, g, items[k], n);
    }
  }

  lemma {:induction false} FootAppends(a: seq<Item>, b: seq<Item>)
    ensures Foot(a + b) == Foot(a) + Foot(b)
    ensures Separate(a + b) <==> Separate(a) && Separate(b) && Foot(a) !! Foot(b)
    ensures Nodes(a + b) == Nodes(a) + Nodes(b)
  {
    if a == [] {
      assert a + b == b;
    } else {
      assert (a + b)[1..] == a[1..] + b;
      FootAppends(a[1..], b);
    }
  }

  /** A list cut at one of its items. */
  lemma FootCuts(a: seq<Item>, i: Item, b: seq<Item>)
    ensures Foot(a + [i] + b) == Foot(a) + ({i.node} + Below(i)) + Foot(b)
    ensures Separate(a + [i] + b) <==>
              && Separate(a) && Separate([i]) && Separate(b)
              && Foot(a) !! ({i.node} + Below(i)) && (Foot(a) + ({i.node} + Below(i))) !! Foot(b)
    ensures Nodes(a + [i] + b) == Nodes(a) + [i.node] + Nodes(b)
  {
    FootAppends(a + [i], b);
    FootAppends(a, [i]);
    assert Foot([i]) == {i.node} + Below(i) by { assert [i][1..] == []; }
  }

  lemma {:induction false} NodesAreDistinct(items: seq<Item>)
    requires Separate(items)
    ensures Distinct(Nodes(items)) && forall p | p in Nodes(items) :: p in Foot(items)
  {
    if items == [] {
    } else {
      NodesAreDistinct(items[1..]);
      assert Nodes(items) == [items[0].node] + Nodes(items[1..]);
    }
  }

  // ---------------------------------------------------------------- what is pruned

  /** The symbol without what should always be returned and has been. */
  function Pruned(i: Item, n: nat): (j: Item)
    decreases i, 0
  {
    if i.Value? || i.kids == [] then i
    else if n <= 1 then i.(kids := if i.kids[0].refcount < -1 then i.kids[1..] else i.kids)
    else i.(kids := Prune(i.kids, n - 1))
  }

  function Prune(items: seq<Item>, n: nat): (left: seq<Item>)
    decreases items, 1
  {
    if items == [] then []
    else
      var j := Pruned(items[0], n);
      (if j.Symbol? && j.kids == [] then [] else [j]) + Prune(items[1..], n)
  }

  lemma {:induction false} PrunedIsPart(i: Item, n: nat)
    requires Separate([i])
    ensures var j := Pruned(i, n); Below(j) <= Below(i) && j.node == i.node && Separate([j])
    decreases i, 0
  {
    var j := Pruned(i, n);
    if i.Symbol? && i.kids != [] {
      assert Sound(i) && Separate(i.kids);
      if n <= 1 { assert Foot(i.kids[1..]) <= Foot(i.kids); } else { PruneIsPart(i.kids, n - 1); }
      assert Foot(j.kids) <= Foot(i.kids) && Separate(j.kids);
      assert Sound(j);
    }
  }

  lemma {:induction false} PruneIsPart(items: seq<Item>, n: nat)
    requires Separate(items)
    ensures Foot(Prune(items, n)) <= Foot(items) && Separate(Prune(items, n))
    decreases items, 1
  {
    if items == [] {
    } else {
      var i := items[0];
      var j := Pruned(i, n);
      assert Separate([i]) by { assert [i][1..] == []; }
      PrunedIsPart(i, n);
      PruneIsPart(items[1..], n);
      assert items == [i] + items[1..];
      FootAppends([i], items[1..]);
      FootAppends([j], Prune(items[1..], n));
      assert Foot([j]) == {j.node} + Below(j) && Foot([i]) == {i.node} + Below(i) by {
        assert [i][1..] == [] && [j][1..] == [];
      }
      if j.Symbol? && j.kids == [] {
        assert Prune(items, n) == Prune(items[1..], n);
      } else {
        assert Prune(items, n) == [j] + Prune(items[1..], n);
      }
    }
  }

  /** An innermost list, under the names of the symbols that lead to it. */
  datatype Table = Table(names: seq<string>, values: seq<Item>)

  /** The innermost lists, in order. */
  function Tables(items: seq<Item>, n: nat, names: seq<string>): (ts: seq<Table>)
    decreases items, 1
  {
    if items == [] then [] else Own(items[0], n, names) + Tables(items[1..], n, names)
  }

  function Own(i: Item, n: nat, names: seq<string>): (ts: seq<Table>)
    decreases i, 0
  {
    if i.Value? then []
    else if n <= 1 then [Table(names + [i.name], i.kids)]
    else Tables(i.kids, n - 1, names + [i.name])
  }

  /** Each without its first value if that should always be returned and has been; empty ones are left out. */
  function DropSpent(ts: seq<Table>): (us: seq<Table>) {
    if ts == [] then []
    else
      var v := ts[0].values;
      var w := if v != [] && v[0].refcount < -1 then v[1..] else v;
      (if w == [] then [] else [ts[0].(values := w)]) + DropSpent(ts[1..])
  }

  lemma {:induction false} DropSpentAppends(a: seq<Table>, b: seq<Table>)
    ensures DropSpent(a + b) == DropSpent(a) + DropSpent(b)
  {
    if a == [] {
      assert a + b == b;
    } else {
      assert (a + b)[1..] == a[1..] + b;
      DropSpentAppends(a[1..], b);
    }
  }

  /** Lists of symbols are nested n deep. */
  ghost predicate Deep(items: seq<Item>, n: nat)
    decreases items
  {
    forall k | 0 <= k < |items| :: if n == 0 then items[k].Value? else items[k].Symbol? && Deep(items[k].kids, n - 1)
  }

  /** Pruning takes from every innermost list its spent first value, and nothing else: names, order and
      the other values stay.  The map is empty afterwards iff no innermost list had any other value. */
  lemma {:induction false} PruneDropsSpent(items: seq<Item>, n: nat, names: seq<string>)
    requires n >= 1 && Deep(items, n)
    ensures Tables(Prune(items, n), n, names) == DropSpent(Tables(items, n, names))
    ensures Prune(items, n) == [] <==> DropSpent(Tables(items, n, names)) == []
    decreases items, 1
  {
    if items == [] {
    } else {
      var j := Pruned(items[0], n);
      PrunedDropsSpent(items[0], n, names);
      PruneDropsSpent(items[1..], n, names);
      DropSpentAppends(Own(items[0], n, names), Tables(items[1..], n, names));
      hide Own, DropSpent, Pruned, Deep;
      if j.kids == [] {
        assert Prune(items, n) == Prune(items[1..], n);
      } else {
        assert Prune(items, n) == [j] + Prune(items[1..], n);
      }
    }
  }

  lemma {:induction false} PrunedDropsSpent(i: Item, n: nat, names: seq<string>)
    requires n >= 1 && i.Symbol? && Deep(i.kids, n - 1)
    ensures var j := Pruned(i, n);
            && (j.kids == [] <==> DropSpent(Own(i, n, names)) == [])
            && (j.kids != [] ==> Own(j, n, names) == DropSpent(Own(i, n, names)))
    decreases i, 0
  {
    if n == 1 {
      assert Own(i, n, names)[1..] == [];
    } else {
      PruneDropsSpent(i.kids, n - 1, names + [i.name]);
    }
  }

  // ---------------------------------------------------------------- lists in memory

  /** Nothing outside of s has changed. */
  ghost predicate Keeps(h: Mem, g: Mem, s: set<Ptr>) {
    forall p | p in h && p !in s :: p in g && g[p] == h[p]
  }

  /** A list whose item i is about to go. */
  ghost predicate Cut(h: Mem, head: Ptr, a: seq<Item>, i: Item, b: seq<Item>, n: nat) {
    ListAt(h, head, a + [i] + b, n) && Separate(a + [i] + b) && head !in Foot(a + [i] + b)
  }

  lemma ItemHolds(h: Mem, head: Ptr, items: seq<Item>, n: nat, k: nat)
    requires ListAt(h, head, items, n) && k < |items|
    ensures Cells(h, items[k], n)
  {
    assert Items(h, items, n);
  }

  lemma ItemsHold(h: Mem, head: Ptr, items: seq<Item>, n: nat)
    requires Ring(h, head, Nodes(items)) && forall k | 0 <= k < |items| :: Cells(h, items[k], n)
    ensures ListAt(h, head, items, n)
  {
    assert Items(h, items, n);
  }

  /** What lemmas about a cut need. */
  lemma CutParts(h: Mem, head: Ptr, a: seq<Item>, i: Item, b: seq<Item>, n: nat)
    requires Cut(h, head, a, i, b, n)
    ensures IsNode(h, head) && Cells(h, i, n)
    ensures Ring(h, head, Nodes(a) + [i.node] + Nodes(b)) && Distinct(Nodes(a) + [i.node] + Nodes(b))
    ensures head !in Nodes(a) + [i.node] + Nodes(b)
    ensures forall k | 0 <= k < |a| :: Cells(h, a[k], n)
    ensures forall k | 0 <= k < |b| :: Cells(h, b[k], n)
  {
    hide Foot, Below, Separate, Cells, Items, Chain, Distinct;
    var items := a + [i] + b;
    ChainEnds(LinksOf(h), head, Nodes(items), head);
    NodesAreDistinct(items);
    FootCuts(a, i, b);
    assert items[|a|] == i;
    ItemHolds(h, head, items, n, |a|);
    forall k | 0 <= k < |a| ensures Cells(h, a[k], n) {
      assert items[k] == a[k];
      ItemHolds(h, head, items, n, k);
    }
    forall k | 0 <= k < |b| ensures Cells(h, b[k], n) {
      assert items[|a| + 1 + k] == b[k];
      ItemHolds(h, head, items, n, |a| + 1 + k);
    }
  }

  lemma CutLinks(h: Mem, head: Ptr, a: seq<Item>, i: Item, b: seq<Item>, n: nat)
    requires Cut(h, head, a, i, b, n)
    ensures IsNode(h, head) && Cells(h, i, n)
    ensures Link(LinksOf(h), Left(head, Nodes(a)), i.node) && Link(LinksOf(h), i.node, Right(head, Nodes(b)))
  {
    hide Foot, Below, Separate, Cells, Items, Chain, Distinct;
    CutParts(h, head, a, i, b, n);
    RingCloses(LinksOf(h), LinksOf(h), head, Nodes(a), i.node, Nodes(b), Left(head, Nodes(a)), Right(head, Nodes(b)));
  }

  ghost predicate SameValues(h: Mem, g: Mem) {
    forall p | IsNode(h, p) :: IsNode(g, p) && g[p].value == h[p].value && g[p].refcount == h[p].refcount
  }

  /** Its neighbours joined, the list is the rest. */
  lemma CutCloses(h: Mem, g: Mem, head: Ptr, a: seq<Item>, i: Item, b: seq<Item>, n: nat)
    requires Cut(h, head, a, i, b, n) && Joined(LinksOf(h), LinksOf(g), Left(head, Nodes(a)), Right(head, Nodes(b)))
    requires SameValues(h, g) && Keeps(h, g, {Left(head, Nodes(a)), Right(head, Nodes(b))})
    ensures ListAt(g, head, a + b, n) && Cells(g, i, n)
    ensures Separate(a + b) && head !in Foot(a + b)
  {
    hide Foot, Below, Separate, Cells, Items, Chain, Distinct, Keeps;
    var (l, r) := (Left(head, Nodes(a)), Right(head, Nodes(b)));
    CutParts(h, head, a, i, b, n);
    FootCuts(a, i, b);
    FootAppends(a, b);
    RingCloses(LinksOf(h), LinksOf(g), head, Nodes(a), i.node, Nodes(b), l, r);
    var items := a + [i] + b;
    assert l in Nodes(items) + [head] && r in Nodes(items) + [head];
    assert items[|a|] == i;
    StillHolds(h, g, head, items, |a|, n, l, r);
    forall k | 0 <= k < |a + b| ensures Cells(g, (a + b)[k], n) {
      var m := if k < |a| then k else k + 1;
      assert items[m] == (a + b)[k];
      ItemHolds(h, head, items, n, m);
      StillHolds(h, g, head, items, m, n, l, r);
    }
    ItemsHold(g, head, a + b, n);
  }

  /** New neighbours leave an item as it is. */
  lemma StillHolds(h: Mem, g: Mem, head: Ptr, items: seq<Item>, k: nat, n: nat, l: Ptr, r: Ptr)
    requires Separate(items) && head !in Foot(items) && k < |items| && Cells(h, items[k], n)
    requires l in Nodes(items) + [head] && r in Nodes(items) + [head]
    requires SameValues(h, g) && Keeps(h, g, {l, r})
    ensures Cells(g, items[k], n)
  {
    NodesAreNotBelow(items, k);
    FootHas(items, k);
    assert IsNode(h, items[k].node);
    CellsFrame(h, g, items[k], n);
  }

  lemma {:induction false} NodesAreNotBelow(items: seq<Item>, k: nat)
    requires Separate(items) && k < |items|
    ensures forall p | p in Nodes(items) :: p !in Below(items[k])
  {
    assert Nodes(items) == [items[0].node] + Nodes(items[1..]);
    NodesAreDistinct(items[1..]);
    if k == 0 {
    } else {
      NodesAreNotBelow(items[1..], k - 1);
      FootHas(items[1..], k - 1);
    }
  }

  /** The list when what is below one of its items has changed. */
  lemma Replaced(h: Mem, g: Mem, head: Ptr, a: seq<Item>, i: Item, j: Item, b: seq<Item>, n: nat)
    requires Cut(h, head, a, i, b, n) && Keeps(h, g, Below(i))
    requires j.node == i.node && Below(j) <= Below(i) && Separate([j]) && Cells(g, j, n)
    ensures Cut(g, head, a, j, b, n)
  {
    hide Foot, Below, Separate, Cells, Items, Chain, Distinct;
    CutParts(h, head, a, i, b, n);
    FootCuts(a, i, b);
    FootCuts(a, j, b);
    var (items, after) := (a + [i] + b, a + [j] + b);
    assert items[|a|] == i;
    NodesAreNotBelow(items, |a|);
    ChainFrame(LinksOf(h), LinksOf(g), head, Nodes(items), head);
    forall k | 0 <= k < |after| ensures Cells(g, after[k], n) {
      if k < |a| {
        assert after[k] == a[k];
        FootHas(a, k);
        Untouched(h, g, a[k], n);
      } else if k > |a| {
        assert after[k] == b[k - |a| - 1];
        FootHas(b, k - |a| - 1);
        Untouched(h, g, b[k - |a| - 1], n);
      } else {
        assert after[k] == j;
      }
    }
    ItemsHold(g, head, after, n);
  }

  lemma Untouched(h: Mem, g: Mem, c: Item, n: nat)
    requires Cells(h, c, n) && Agree(h, g, {c.node} + Below(c))
    ensures Cells(g, c, n)
  {
    CellsFrame(h, g, c, n);
  }

  /** A list is empty when its head is its own successor. */
  lemma EmptyIff(h: Mem, head: Ptr, items: seq<Item>, n: nat)
    requires ListAt(h, head, items, n) && Separate(items) && head !in Foot(items)
    ensures IsNode(h, head) && (h[head].next == head <==> items == [])
    ensures items != [] ==> h[head].next == items[0].node && Cut(h, head, [], items[0], items[1..], n)
  {
    ChainEnds(LinksOf(h), head, Nodes(items), head);
    if items != [] {
      FootHas(items, 0);
      assert [] + [items[0]] + items[1..] == items;
    }
  }

  /** What list_remove does with the value. */
  datatype Cleanup = FreeValue | FreeSymbolMapValue(children: nat)

  /** The cleanup frees all that is below the node. */
  ghost predicate Suits(cleanup: Cleanup, i: Item, n: nat) {
    if cleanup.FreeValue? then i.Value? || i.kids == [] else n == cleanup.children + 1
  }

  lemma FreedList(h: Mem, g: Mem, head: Ptr, a: seq<Item>, i: Item, b: seq<Item>, n: nat)
    requires ListAt(h, head, a + b, n) && Separate(a + [i] + b) && head !in Foot(a + [i] + b)
    requires Keeps(h, g, {i.node} + Below(i))
    ensures ListAt(g, head, a + b, n) && Separate(a + b) && head !in Foot(a + b)
  {
    hide Below, Cells, Items, Chain, Separate;
    FootCuts(a, i, b);
    FootAppends(a, b);
    ListFrame(h, g, head, a + b, n);
  }

  class Mocks {
    var heap: Mem
    var out: seq<Print>

    // global_function_result_map_head, global_function_parameter_map_head and global_call_ordering_head
    const function_result_map_head: Ptr
    const function_parameter_map_head: Ptr
    const call_ordering_head: Ptr

    /** list_initialize of the three heads. */
    constructor (results: Ptr, parameters: Ptr, calls: Ptr)
      requires results != parameters && results != calls && parameters != calls
      ensures Globals([], [], []) && heap.Keys == {results, parameters, calls} && out == []
    {
      function_result_map_head, function_parameter_map_head, call_ordering_head := results, parameters, calls;
      heap := map p | p in {results, parameters, calls} :: ListNode(0, 1, p, p);
      out := [];
    }

    /** What the three global lists hold. */
    ghost predicate Globals(results: seq<Item>, parameters: seq<Item>, calls: seq<Item>)
      reads this`heap
    {
      var (r, p, c) := (function_result_map_head, function_parameter_map_head, call_ordering_head);
      && ListAt(heap, r, results, 1) && Separate(results) && r !in Foot(results)
      && ListAt(heap, p, parameters, 2) && Separate(parameters) && p !in Foot(parameters)
      && ListAt(heap, c, calls, 0) && Separate(calls) && c !in Foot(calls)
      && (Foot(results) + {r}) !! (Foot(parameters) + {p})
      && (Foot(results) + {r}) !! (Foot(calls) + {c})
      && (Foot(parameters) + {p}) !! (Foot(calls) + {c})
    }

    method ListRemove(node: Ptr, ghost head: Ptr, ghost a: seq<Item>, ghost i: Item, ghost b: seq<Item>, ghost n: nat)
      requires Cut(heap, head, a, i, b, n) && node == i.node
      modifies this`heap
      ensures ListAt(heap, head, a + b, n) && Cells(heap, i, n) && heap.Keys == old(heap.Keys)
      ensures Keeps(old(heap), heap, {Left(head, Nodes(a)), Right(head, Nodes(b))})
    {
      hide Foot, Below, Separate, Cells, Items, Chain, Distinct, Cut;
      CutLinks(heap, head, a, i, b, n);
      CutApart(heap, head, a, i, b, n);
      heap := heap[heap[node].prev := heap[heap[node].prev].(next := heap[node].next)];
      heap := heap[heap[node].next := heap[heap[node].next].(prev := heap[node].prev)];
      CutCloses(old(heap), heap, head, a, i, b, n);
    }

    /** free of a node or a value; a symbol takes its list head along. */
    method Free(p: Ptr)
      requires p in heap
      requires heap[p].SymbolMapValue? ==> heap[p].symbol_values_list_head in heap
      modifies this`heap
      ensures heap == old(heap) - FreedBy(old(heap), p)
    {
      heap := heap - FreedBy(heap, p);
    }

    /** free_value or free_symbol_map_value: all below a node is freed. */
    method CleanUp(value: Ptr, cleanup: Cleanup, ghost i: Item, ghost n: nat)
      requires Cells(heap, i, n) && Separate([i]) && value == i.value && Suits(cleanup, i, n)
      modifies this`heap
      ensures heap.Keys == old(heap.Keys) - Below(i) && Keeps(old(heap), heap, Below(i))
      decreases i, 0
    {
      hide Chain, Items, Distinct;
      assert i.Symbol? ==> Sound(i);
      if cleanup.FreeSymbolMapValue? {
        var head := heap[value].symbol_values_list_head;
        ListFree(head, if cleanup.children == 0 then FreeValue else FreeSymbolMapValue(cleanup.children - 1), i.kids,
                 n - 1);
        BelowIsLeft(old(heap), heap, i);
      } else if i.Symbol? {
        ChainEnds(LinksOf(heap), i.head, Nodes(i.kids), i.head);
      }
      Free(value);
    }

    /** list_remove_free: the node and all below it go. */
    method ListRemoveFree(node: Ptr, cleanup: Cleanup, ghost head: Ptr, ghost a: seq<Item>, ghost i: Item,
                          ghost b: seq<Item>, ghost n: nat)
      requires Cut(heap, head, a, i, b, n) && node == i.node && Suits(cleanup, i, n)
      modifies this`heap
      ensures ListAt(heap, head, a + b, n) && Separate(a + b) && head !in Foot(a + b)
      ensures heap.Keys == old(heap.Keys) - ({i.node} + Below(i))
      ensures Keeps(old(heap), heap, {Left(head, Nodes(a)), Right(head, Nodes(b)), i.node} + Below(i))
      decreases i, 1
    {
      hide Foot, Below, Separate, Cells, Items, Chain, Distinct, Cut, ListAt;
      CutOne(heap, head, a, i, b, n);
      ListRemove(node, head, a, i, b, n);
      ghost var unlinked := heap;
      NodeOf(heap, i, n);
      CleanUp(heap[node].value, cleanup, i, n);
      Free(node);
      FreedList(unlinked, heap, head, a, i, b, n);
    }

    /** list_free: every cell of the list is freed once, and nothing else. */
    method ListFree(head: Ptr, cleanup: Cleanup, ghost items: seq<Item>, ghost n: nat)
      requires ListAt(heap, head, items, n) && Separate(items) && head !in Foot(items)
      requires n == match cleanup case FreeValue => 0 case FreeSymbolMapValue(children) => children + 1
      modifies this`heap
      ensures ListAt(heap, head, [], n) && IsNode(heap, head)
      ensures heap.Keys == old(heap.Keys) - Foot(items) && Keeps(old(heap), heap, Foot(items) + {head})
      decreases items, 2
    {
      hide Below, Separate, Cells, Items, Chain, Distinct, Cut, ListAt, Ring, LinksOf, Nodes, Right, Left;
      ghost var k := 0;
      EmptyIff(heap, head, items, n);
      while heap[head].next != head
        invariant k <= |items| && ListAt(heap, head, items[k..], n) && Separate(items[k..]) && head !in Foot(items[k..])
        invariant IsNode(heap, head) && (heap[head].next == head <==> items[k..] == [])
        invariant heap.Keys == old(heap.Keys) - Foot(items[..k]) && Keeps(old(heap), heap, Foot(items) + {head})
        decreases |items| - k
      {
        ghost var i, rest := items[k], items[k + 1..];
        ghost var before := heap;
        FootAppends(items[..k], items[k..]);
        FootAppends(items[..k], [i]);
        assert items[..k] + items[k..] == items && items[..k] + [i] == items[..k + 1];
        EmptyIff(heap, head, items[k..], n);
        assert items[k..][0] == i && items[k..][1..] == rest && [] + rest == rest;
        AllSuit(heap, head, i, rest, cleanup, n);
        ListRemoveFree(heap[head].next, cleanup, head, [], i, rest, n);
        KeepsOn(old(heap), before, heap, head, i, rest, Foot(items) + {head});
        k := k + 1;
        EmptyIff(heap, head, items[k..], n);
      }
      assert items[..k] == items;
    }

    /** What remove_always_return_values does to the list of one symbol. */
    method PruneSymbol(child_list: Ptr, number_of_symbol_names: nat, ghost i: Item)
      requires number_of_symbol_names >= 1 && i.Symbol? && child_list == i.head
      requires Cells(heap, i, number_of_symbol_names) && Separate([i])
      modifies this`heap
      ensures Cells(heap, Pruned(i, number_of_symbol_names), number_of_symbol_names)
      ensures heap.Keys == old(heap.Keys) - (Below(i) - Below(Pruned(i, number_of_symbol_names)))
      ensures Keeps(old(heap), heap, Foot(i.kids) + {i.head})
      decreases i, 0
    {
      hide Items, Distinct, Cells, ListAt, LinksOf, Ring, Nodes;
      ghost var n := number_of_symbol_names;
      KidsOf(heap, i, n);
      if heap[child_list].next != child_list {
        if number_of_symbol_names == 1 {
          PruneFirst(child_list, i);
        } else {
          RemoveAlwaysReturnValues(child_list, number_of_symbol_names - 1, i.kids);
          PruneIsPart(i.kids, n - 1);
          KidsChanged(old(heap), heap, i, Prune(i.kids, n - 1), n);
        }
      }
    }

    /** An innermost list loses its first value if that has been returned more than once. */
    method PruneFirst(child_list: Ptr, ghost i: Item)
      requires i.Symbol? && i.kids != [] && child_list == i.head && Cells(heap, i, 1) && Separate([i])
      modifies this`heap
      ensures Cells(heap, Pruned(i, 1), 1)
      ensures heap.Keys == old(heap.Keys) - (Below(i) - Below(Pruned(i, 1)))
      ensures Keeps(old(heap), heap, Foot(i.kids) + {i.head})
      decreases i, 0
    {
      hide Items, Distinct, Cells, ListAt, LinksOf, Ring, Nodes, Keeps, Separate, Cut, Right, Left, Foot, Below;
      KidsOf(heap, i, 1);
      var child_node := heap[child_list].next;
      ghost var kid, rest := i.kids[0], i.kids[1..];
      CutLinks(heap, i.head, [], kid, rest, 0);
      CutOne(heap, i.head, [], kid, rest, 0);
      NodeOf(heap, kid, 0);
      KeepsAll(heap, Foot(i.kids) + {i.head});
      if heap[child_node].refcount < -1 {
        AllSuit(heap, i.head, kid, rest, FreeValue, 0);
        ListRemoveFree(child_node, FreeValue, i.head, [], kid, rest, 0);
        assert [] + rest == rest && [kid] + rest == i.kids;
        KeepsOn(old(heap), old(heap), heap, i.head, kid, rest, Foot(i.kids) + {i.head});
        FirstGone(i);
        KidsChanged(old(heap), heap, i, rest, 1);
      }
    }

    /** remove_always_return_values. */
    method RemoveAlwaysReturnValues(map_head: Ptr, number_of_symbol_names: nat, ghost items: seq<Item>)
      requires number_of_symbol_names >= 1
      requires ListAt(heap, map_head, items, number_of_symbol_names) && Separate(items) && map_head !in Foot(items)
      modifies this`heap
      ensures var (n, left) := (number_of_symbol_names, Prune(items, number_of_symbol_names));
              && ListAt(heap, map_head, left, n)
              && Tables(left, n, []) == DropSpent(Tables(items, n, []))
              && (left == [] <==> DropSpent(Tables(items, n, [])) == [])
      ensures heap.Keys == old(heap.Keys) - (Foot(items) - Foot(Prune(items, number_of_symbol_names)))
      ensures Keeps(old(heap), heap, Foot(items) + {map_head})
      decreases items, 1
    {
      hide Chain, Items, Distinct, Cells, ListAt, Pruned, Below, Separate, Prune, Foot, Keeps, Right, Deep, Tables;
      hide DropSpent;
      ghost var n, k, done := number_of_symbol_names, 0, [];
      PruneMeans(heap, map_head, items, n);
      assert [] + items == items && items[0..] == items && items[..0] == [];
      NextIs(heap, map_head, items, n);
      PruneNothing(n);
      KeepsAll(heap, Foot(items) + {map_head});
      var current := heap[map_head].next;
      while current != map_head
        invariant k <= |items| && current == Right(map_head, Nodes(items[k..])) && done == Prune(items[..k], n)
        invariant ListAt(heap, map_head, done + items[k..], n) && Separate(done + items[k..])
        invariant map_head !in Foot(done + items[k..])
        invariant Foot(done) <= Foot(items[..k]) && heap.Keys == old(heap.Keys) - (Foot(items[..k]) - Foot(done))
        invariant Keeps(old(heap), heap, Foot(items) + {map_head}) && map_head !in Foot(items)
        decreases |items| - k
      {
        ItemsGoOn(map_head, items[k..], done, n);
        ghost var i, rest := items[k], items[k + 1..];
        assert items[k..] == [i] + rest && done + items[k..] == done + [i] + rest;
        ghost var kept;
        PrunedPrefix(items, k, n, done);
        ghost var before := heap;
        current, kept := PruneRound(current, map_head, number_of_symbol_names, done, i, rest);
        KeysGo(old(heap).Keys, Foot(items[..k]), Foot(done), Foot([i]), Foot(kept));
        KeepsMore(old(heap), before, heap, Foot(done + [i] + rest) + {map_head}, Foot(items) + {map_head});
        k, done := k + 1, done + kept;
      }
      ItemsGoOn(map_head, items[k..], done, n);
      assert items[..k] == items && done + items[k..] == done;
    }

    /** One round of the loop of remove_always_return_values. */
    method PruneRound(current: Ptr, map_head: Ptr, number_of_symbol_names: nat,
                      ghost done: seq<Item>, ghost i: Item, ghost rest: seq<Item>)
      returns (next: Ptr, ghost kept: seq<Item>)
      requires number_of_symbol_names >= 1 && current == i.node
      requires Cut(heap, map_head, done, i, rest, number_of_symbol_names)
      modifies this`heap
      ensures next == Right(map_head, Nodes(rest)) && kept == Prune([i], number_of_symbol_names)
      ensures ListAt(heap, map_head, done + kept + rest, number_of_symbol_names)
      ensures Separate(done + kept + rest) && map_head !in Foot(done + kept + rest)
      ensures heap.Keys == old(heap.Keys) - (Foot([i]) - Foot(kept))
      ensures Keeps(old(heap), heap, Foot(done + [i] + rest) + {map_head})
      decreases i, 1
    {
      hide Chain, Items, Distinct, Cells, ListAt, Pruned, Below, Separate, Prune, Foot, Cut;
      ghost var n := number_of_symbol_names;
      CutLinks(heap, map_head, done, i, rest, n);
      CutOne(heap, map_head, done, i, rest, n);
      KidsOf(heap, i, n);
      next := heap[current].next;
      var child_list := heap[heap[current].value].symbol_values_list_head;
      ghost var j := Pruned(i, n);
      PruneSymbol(child_list, number_of_symbol_names, i);
      ghost var pruned := heap;
      PruneOne(i, n);
      WithinBelow(old(heap), heap, i);
      Replaced(old(heap), heap, map_head, done, i, j, rest, n);
      CutOne(heap, map_head, done, j, rest, n);
      KidsOf(heap, j, n);
      if heap[child_list].next == child_list {
        ListRemoveFree(current, FreeValue, map_head, done, j, rest, n);
        kept := [];
        assert done + kept + rest == done + rest;
      } else {
        kept := [j];
        CutIs(heap, map_head, done, j, rest, n);
      }
      RoundKeeps(old(heap), pruned, heap, map_head, done, i, j, rest);
    }

    /** check_for_leftover_values: what it prints, and the symbols it counts. */
    method CheckForLeftoverValues(map_head: Ptr, number_of_symbol_names: nat, ghost items: seq<Item>)
      returns (symbols_with_leftover_values: nat)
      requires number_of_symbol_names >= 1
      requires ListAt(heap, map_head, items, number_of_symbol_names) && Separate(items) && map_head !in Foot(items)
      modifies this`out
      ensures symbols_with_leftover_values == |WithValues(items)|
      ensures out == old(out) + Leftovers(items, number_of_symbol_names)
      decreases items, 1
    {
      hide Chain, Items, Distinct, Cells, ListAt, Below, Separate, Foot, Cut, Right, WithValues, Leftovers;
      ghost var n, k := number_of_symbol_names, 0;
      assert items[0..] == items && items[..0] == [];
      Step(heap, map_head, items, 0, n);
      LeftoversStep(items, 0, n);
      symbols_with_leftover_values := 0;
      var current := heap[map_head].next;
      while current != map_head
        invariant k <= |items| && current == Right(map_head, Nodes(items[k..]))
        invariant (current == map_head <==> k == |items|)
        invariant symbols_with_leftover_values == |WithValues(items[..k])|
        invariant out == old(out) + Leftovers(items[..k], n)
        decreases |items| - k
      {
        Step(heap, map_head, items, k, n);
        LeftoversStep(items, k, n);
        ghost var i := items[k];
        var name := heap[heap[current].value].symbol_name;
        var child_list := heap[heap[current].value].symbol_values_list_head;
        if heap[child_list].next != child_list {
          out := out + [Name(name)];
          if number_of_symbol_names == 1 {
            var printed := PrintDeclared(child_list, i.kids);
          } else {
            var count := CheckForLeftoverValues(child_list, number_of_symbol_names - 1, i.kids);
          }
          symbols_with_leftover_values := symbols_with_leftover_values + 1;
        }
        k := k + 1;
        Step(heap, map_head, items, k, n);
        current := heap[current].next;
      }
      assert items[..k] == items;
    }

    /** The loop over the values of one symbol, and check_for_leftover_values_list. */
    method PrintDeclared(child_list: Ptr, ghost items: seq<Item>) returns (leftover_count: nat)
      requires ListAt(heap, child_list, items, 0) && Separate(items) && child_list !in Foot(items)
      modifies this`out
      ensures out == old(out) + Declarations(items) && leftover_count == |items|
      ensures |out| == |old(out)| + |items|
      ensures forall k | 0 <= k < |items| ::
                items[k].node in heap && heap[items[k].node].ListNode?
                && out[|old(out)| + k] == Declared(heap[items[k].node].value)
    {
      hide Chain, Items, Distinct, Cells, ListAt, Below, Separate, Foot, Cut, Right;
      ghost var k := 0;
      assert items[0..] == items;
      Step(heap, child_list, items, 0, 0);
      leftover_count := 0;
      var child_node := heap[child_list].next;
      while child_node != child_list
        invariant k <= |items| && child_node == Right(child_list, Nodes(items[k..]))
        invariant (child_node == child_list <==> k == |items|)
        invariant out == old(out) + Declarations(items[..k]) && leftover_count == k
        decreases |items| - k
      {
        Step(heap, child_list, items, k, 0);
        assert items[..k + 1][..k] == items[..k];
        out := out + [Declared(heap[child_node].value)];
        k := k + 1;
        Step(heap, child_list, items, k, 0);
        child_node, leftover_count := heap[child_node].next, leftover_count + 1;
      }
      assert items[..k] == items;
      DeclaresEach(items);
      forall j | 0 <= j < |items|
        ensures items[j].node in heap && heap[items[j].node].ListNode? && heap[items[j].node].value == items[j].value
      {
        Step(heap, child_list, items, j, 0);
      }
    }

    /** remove_always_return_values_from_list. */
    method RemoveAlwaysReturnValuesFromList(map_head: Ptr, ghost items: seq<Item>)
      requires ListAt(heap, map_head, items, 0) && Separate(items) && map_head !in Foot(items)
      modifies this`heap
      ensures ListAt(heap, map_head, Unspent(items), 0) && Separate(Unspent(items)) && map_head !in Foot(Unspent(items))
      ensures heap.Keys == old(heap.Keys) - (Foot(items) - Foot(Unspent(items)))
      ensures Keeps(old(heap), heap, Foot(items) + {map_head})
    {
      hide Chain, Items, Distinct, Cells, ListAt, Below, Separate, Foot, Keeps, Right, Unspent, Ring, LinksOf, Nodes;
      ghost var k, done := 0, [];
      assert done + items == items && items[0..] == items && items[..0] == [];
      NextIs(heap, map_head, items, 0);
      UnspentStep(items, 0);
      KeepsAll(heap, Foot(items) + {map_head});
      var current := heap[map_head].next;
      while current != map_head
        invariant k <= |items| && current == Right(map_head, Nodes(items[k..])) && done == Unspent(items[..k])
        invariant ListAt(heap, map_head, done + items[k..], 0) && Separate(done + items[k..])
        invariant map_head !in Foot(done + items[k..])
        invariant Foot(done) <= Foot(items[..k]) && heap.Keys == old(heap.Keys) - (Foot(items[..k]) - Foot(done))
        invariant Keeps(old(heap), heap, Foot(items) + {map_head}) && map_head !in Foot(items)
        decreases |items| - k
      {
        ItemsGoOn(map_head, items[k..], done, 0);
        ghost var i, rest := items[k], items[k + 1..];
        assert items[k..] == [i] + rest && done + items[k..] == done + [i] + rest;
        UnspentStep(items, k);
        UnspentPrefix(items, k, done);
        ghost var before := heap;
        ghost var kept;
        current, kept := SpentRound(current, map_head, done, i, rest);
        FootOfOne(i);
        FootAppends(done, kept);
        KeysGo(old(heap).Keys, Foot(items[..k]), Foot(done), Foot([i]), Foot(kept));
        KeepsMore(old(heap), before, heap, Foot(done + [i] + rest) + {map_head}, Foot(items) + {map_head});
        k, done := k + 1, done + kept;
      }
      ItemsGoOn(map_head, items[k..], done, 0);
      assert items[..k] == items && done + items[k..] == done;
    }

    /** One round of that loop. */
    method SpentRound(current: Ptr, map_head: Ptr, ghost done: seq<Item>, ghost i: Item, ghost rest: seq<Item>)
      returns (next: Ptr, ghost kept: seq<Item>)
      requires current == i.node && Cut(heap, map_head, done, i, rest, 0)
      modifies this`heap
      ensures next == Right(map_head, Nodes(rest)) && kept == if i.refcount < -1 then [] else [i]
      ensures ListAt(heap, map_head, done + kept + rest, 0)
      ensures Separate(done + kept + rest) && map_head !in Foot(done + kept + rest)
      ensures heap.Keys == old(heap.Keys) - (Foot([i]) - Foot(kept))
      ensures Keeps(old(heap), heap, Foot(done + [i] + rest) + {map_head})
    {
      hide Chain, Items, Distinct, Cells, ListAt, Below, Separate, Foot, Keeps, Right, Cut;
      CutLinks(heap, map_head, done, i, rest, 0);
      NodeOf(heap, i, 0);
      FootOfOne(i);
      KeepsAll(heap, Foot(done + [i] + rest) + {map_head});
      next := heap[current].next;
      kept := [i];
      CutIs(heap, map_head, done, i, rest, 0);
      if heap[current].refcount < -1 {
        LeafSuits(heap, i);
        ListRemoveFree(current, FreeValue, map_head, done, i, rest, 0);
        LeafRound(old(heap), heap, map_head, done, i, rest);
        kept := [];
        assert done + kept + rest == done + rest;
      }
    }

    /** has_leftover_values. */
    method HasLeftoverValues(ghost results: seq<Item>, ghost parameters: seq<Item>, ghost calls: seq<Item>)
      returns (leftover_values: bool)
      requires Globals(results, parameters, calls)
      modifies this
      ensures Globals(Prune(results, 1), Prune(parameters, 2), Unspent(calls))
      ensures leftover_values <==> Prune(results, 1) != [] || Prune(parameters, 2) != [] || Unspent(calls) != []
      ensures out == old(out) + Leftovers(Prune(results, 1), 1) + Leftovers(Prune(parameters, 2), 2)
              + Declarations(Unspent(calls))
    {
      hide Chain, Items, Distinct, Cells, ListAt, Below, Separate, Foot, Keeps, Prune, Unspent, WithValues;
      hide Leftovers, Declarations;
      leftover_values := false;
      PrunedGlobal(heap, function_result_map_head, results, 1);
      RemoveAlwaysReturnValues(function_result_map_head, 1, results);
      assert Globals(Prune(results, 1), parameters, calls) by {
        PruneIsPart(results, 1);
        KeptList(old(heap), heap, function_parameter_map_head, parameters, 2,
                 Foot(results) + {function_result_map_head});
        KeptList(old(heap), heap, call_ordering_head, calls, 0, Foot(results) + {function_result_map_head});
      }
      var count := CheckForLeftoverValues(function_result_map_head, 1, Prune(results, 1));
      if count > 0 { leftover_values := true; }
      label second:
      PrunedGlobal(heap, function_parameter_map_head, parameters, 2);
      RemoveAlwaysReturnValues(function_parameter_map_head, 2, parameters);
      assert Globals(Prune(results, 1), Prune(parameters, 2), calls) by {
        PruneIsPart(parameters, 2);
        KeptList(old@second(heap), heap, function_result_map_head, Prune(results, 1), 1,
                 Foot(parameters) + {function_parameter_map_head});
        KeptList(old@second(heap), heap, call_ordering_head, calls, 0,
                 Foot(parameters) + {function_parameter_map_head});
      }
      count := CheckForLeftoverValues(function_parameter_map_head, 2, Prune(parameters, 2));
      if count > 0 { leftover_values := true; }
      label third:
      RemoveAlwaysReturnValuesFromList(call_ordering_head, calls);
      assert Globals(Prune(results, 1), Prune(parameters, 2), Unspent(calls)) by {
        UnspentIsPart(calls);
        KeptList(old@third(heap), heap, function_result_map_head, Prune(results, 1), 1,
                 Foot(calls) + {call_ordering_head});
        KeptList(old@third(heap), heap, function_parameter_map_head, Prune(parameters, 2), 2,
                 Foot(calls) + {call_ordering_head});
      }
      count := PrintDeclared(call_ordering_head, Unspent(calls));
      if count > 0 { leftover_values := true; }
    }

    /** teardown_testing: the three lists are empty, and each of their cells has been freed once. */
    method TeardownTesting(ghost results: seq<Item>, ghost parameters: seq<Item>, ghost calls: seq<Item>)
      requires Globals(results, parameters, calls)
      modifies this
      ensures Globals([], [], [])
      ensures heap.Keys == old(heap.Keys) - Foot(results) - Foot(parameters) - Foot(calls)
    {
      hide Chain, Items, Distinct, Cells, ListAt, Below, Separate, Foot, Keeps;
      Nothing();
      ListFree(function_result_map_head, FreeSymbolMapValue(0), results, 1);
      assert Globals([], parameters, calls) by {
        KeptList(old(heap), heap, function_parameter_map_head, parameters, 2,
                 Foot(results) + {function_result_map_head});
        KeptList(old(heap), heap, call_ordering_head, calls, 0, Foot(results) + {function_result_map_head});
      }
      label second:
      ListFree(function_parameter_map_head, FreeSymbolMapValue(1), parameters, 2);
      assert Globals([], [], calls) by {
        KeptList(old@second(heap), heap, function_result_map_head, [], 1,
                 Foot(parameters) + {function_parameter_map_head});
        KeptList(old@second(heap), heap, call_ordering_head, calls, 0,
                 Foot(parameters) + {function_parameter_map_head});
      }
      label third:
      ListFree(call_ordering_head, FreeValue, calls, 0);
      KeptList(old@third(heap), heap, function_result_map_head, [], 1, Foot(calls) + {call_ordering_head});
      KeptList(old@third(heap), heap, function_parameter_map_head, [], 2, Foot(calls) + {call_ordering_head});
    }
  }

  lemma Nothing()
    ensures Foot([]) == {} && Separate([])
  {
  }

  /** A list out of the frame stays. */
  lemma KeptList(h: Mem, g: Mem, head: Ptr, items: seq<Item>, n: nat, s: set<Ptr>)
    requires ListAt(h, head, items, n) && Keeps(h, g, s) && s !! (Foot(items) + {head})
    ensures ListAt(g, head, items, n)
  {
    ListFrame(h, g, head, items, n);
  }

  lemma {:induction false} UnspentIsPart(items: seq<Item>)
    requires Separate(items)
    ensures Foot(Unspent(items)) <= Foot(items) && Separate(Unspent(items))
  {
    if items == [] {
    } else {
      var (front, last) := (items[..|items| - 1], [items[|items| - 1]]);
      assert front + last == items;
      FootAppends(front, last);
      UnspentIsPart(front);
      FootAppends(Unspent(front), last);
      assert Unspent(front) + [] == Unspent(front);
    }
  }

  lemma PrunedGlobal(h: Mem, head: Ptr, items: seq<Item>, n: nat)
    requires n >= 1 && ListAt(h, head, items, n)
    ensures WithValues(Prune(items, n)) == Prune(items, n)
  {
    assert forall k | 0 <= k < |items| :: items[k].Symbol? by {
      forall k | 0 <= k < |items| ensures items[k].Symbol? { ItemHolds(h, head, items, n, k); }
    }
    NoneEmpty(items, n);
  }

  /** No symbol without values is left. */
  lemma {:induction false} NoneEmpty(items: seq<Item>, n: nat)
    requires forall k | 0 <= k < |items| :: items[k].Symbol?
    ensures WithValues(Prune(items, n)) == Prune(items, n)
  {
    if items == [] {
    } else {
      var (front, last) := (items[..|items| - 1], [items[|items| - 1]]);
      assert front + last == items;
      PruneAppends(front, last, n);
      NoneEmpty(front, n);
      assert last[1..] == [];
      var p := Prune(items, n);
      assert Prune(last, n) == [] ==> p == Prune(front, n);
      assert Prune(last, n) != [] ==> p[..|p| - 1] == Prune(front, n);
    }
  }

  /** The list without all values that should always be returned and have been: not only the first,
      as the function's own comment says. */
  function Unspent(items: seq<Item>): (left: seq<Item>) {
    if items == [] then []
    else Unspent(items[..|items| - 1]) + if items[|items| - 1].refcount < -1 then [] else [items[|items| - 1]]
  }

  /** What the comment promises: the list without its first spent value. */
  function DropFirstSpent(items: seq<Item>): (left: seq<Item>) {
    if items == [] then [] else if items[0].refcount < -1 then items[1..] else [items[0]] + DropFirstSpent(items[1..])
  }

  function SpentValues(items: seq<Item>): (n: nat) {
    if items == [] then 0 else (if items[0].refcount < -1 then 1 else 0) + SpentValues(items[1..])
  }

  lemma {:induction false} UnspentStarts(items: seq<Item>)
    requires items != []
    ensures Unspent(items) == (if items[0].refcount < -1 then [] else [items[0]]) + Unspent(items[1..])
  {
    if |items| == 1 {
      assert items[..0] == [] && items[1..] == [];
    } else {
      UnspentStarts(items[..|items| - 1]);
      assert items[..|items| - 1][1..] == items[1..][..|items| - 2];
    }
  }

  lemma {:induction false} UnspentSize(items: seq<Item>)
    ensures |Unspent(items)| == |items| - SpentValues(items)
  {
    if items == [] {
    } else {
      UnspentStarts(items);
      UnspentSize(items[1..]);
    }
  }

  /** The code does what its comment says iff the list has at most one spent value. */
  lemma {:induction false} DropsFirstSpentIff(items: seq<Item>)
    ensures Unspent(items) == DropFirstSpent(items) <==> SpentValues(items) <= 1
  {
    if items == [] {
      assert Unspent(items) == DropFirstSpent(items);
    } else {
      UnspentStarts(items);
      UnspentSize(items[1..]);
      if items[0].refcount < -1 {
        if SpentValues(items[1..]) == 0 { NothingSpent(items[1..]); }
      } else {
        DropsFirstSpentIff(items[1..]);
        assert Unspent(items) == DropFirstSpent(items) <==> Unspent(items[1..]) == DropFirstSpent(items[1..]) by {
          assert Unspent(items)[1..] == Unspent(items[1..]) && DropFirstSpent(items)[1..] == DropFirstSpent(items[1..]);
        }
      }
    }
  }

  lemma {:induction false} NothingSpent(items: seq<Item>)
    requires SpentValues(items) == 0
    ensures Unspent(items) == items
  {
    if items == [] {
    } else {
      UnspentStarts(items);
      NothingSpent(items[1..]);
    }
  }

  /** Two spent values: the comment keeps the second, the code removes both. */
  lemma TwoSpent(first: Ptr, second: Ptr, v: Ptr, w: Ptr)
    ensures var items := [Value(first, -2, v), Value(second, -2, w)];
            Unspent(items) == [] && DropFirstSpent(items) == [Value(second, -2, w)]
  {
    var items := [Value(first, -2, v), Value(second, -2, w)];
    UnspentStarts(items);
    assert items[1..] == [Value(second, -2, w)];
    UnspentStarts(items[1..]);
    assert items[1..][1..] == [];
  }

  lemma UnspentStep(items: seq<Item>, k: nat)
    requires k <= |items|
    ensures k == 0 ==> Unspent(items[..k]) == [] && Foot([]) == {}
    ensures k < |items| ==>
              Unspent(items[..k + 1]) == Unspent(items[..k]) + (if items[k].refcount < -1 then [] else [items[k]])
  {
    if k < |items| { assert items[..k + 1][..k] == items[..k]; }
  }

  lemma UnspentPrefix(items: seq<Item>, k: nat, done: seq<Item>)
    requires Separate(items) && k < |items| && Foot(done) <= Foot(items[..k])
    ensures Foot(done + [items[k]]) == Foot(done) + Foot([items[k]])
    ensures Foot([items[k]]) == {items[k].node} + Below(items[k])
    ensures Foot(items[..k + 1]) == Foot(items[..k]) + Foot([items[k]]) && Foot(items[..k]) !! Foot([items[k]])
    ensures Foot(done + [items[k]] + items[k + 1..]) <= Foot(items)
  {
    var (i, rest) := ([items[k]], items[k + 1..]);
    assert items[..k + 1] == items[..k] + i && items[..k] + i + rest == items;
    assert Foot(i) == {items[k].node} + Below(items[k]) by { assert i[1..] == []; }
    hide Foot, Separate;
    FootAppends(items[..k] + i, rest);
    FootAppends(items[..k], i);
    FootAppends(done + i, rest);
    FootAppends(done, i);
  }

  lemma FootOfOne(i: Item)
    ensures Foot([i]) == {i.node} + Below(i) && Foot([]) == {}
  {
    assert [i][1..] == [];
  }

  lemma LeafSuits(h: Mem, i: Item)
    requires Cells(h, i, 0)
    ensures Suits(FreeValue, i, 0)
  {
  }

  lemma LeafRound(h: Mem, g: Mem, head: Ptr, a: seq<Item>, i: Item, b: seq<Item>)
    requires Keeps(h, g, {Left(head, Nodes(a)), Right(head, Nodes(b)), i.node} + Below(i))
    ensures Keeps(h, g, Foot(a + [i] + b) + {head})
  {
    KeepsAll(h, Below(i));
    RoundKeeps(h, h, g, head, a, i, i, b);
  }

  datatype Print = Name(symbol_name: string) | Declared(location: Ptr)

  /** The symbols with values. */
  function WithValues(items: seq<Item>): (left: seq<Item>) {
    if items == [] then []
    else
      var last := items[|items| - 1];
      WithValues(items[..|items| - 1]) + if last.Symbol? && last.kids != [] then [last] else []
  }

  function Declarations(items: seq<Item>): (ps: seq<Print>) {
    if items == [] then [] else Declarations(items[..|items| - 1]) + [Declared(items[|items| - 1].value)]
  }

  /** One for every value, in order. */
  lemma {:induction false} DeclaresEach(items: seq<Item>)
    ensures |Declarations(items)| == |items|
    ensures forall k | 0 <= k < |items| :: Declarations(items)[k] == Declared(items[k].value)
  {
    if items == [] {
    } else {
      DeclaresEach(items[..|items| - 1]);
    }
  }

  /** What is printed for them. */
  function Leftovers(items: seq<Item>, n: nat): (ps: seq<Print>) {
    if items == [] then []
    else
      var i := items[|items| - 1];
      Leftovers(items[..|items| - 1], n)
      + if i.Symbol? && i.kids != [] then [Name(i.name)] + if n <= 1 then Declarations(i.kids)
        else Leftovers(i.kids, n - 1)
        else []
  }

  // What is printed, read back: every location with the name that was printed last before it.

  function LastName(ps: seq<Print>): string {
    if ps == [] then "" else if ps[|ps| - 1].Name? then ps[|ps| - 1].symbol_name else LastName(ps[..|ps| - 1])
  }

  function Read(ps: seq<Print>): (rs: seq<(string, Ptr)>) {
    if ps == [] then []
    else
      var (before, last) := (ps[..|ps| - 1], ps[|ps| - 1]);
      Read(before) + if last.Declared? then [(LastName(before), last.location)] else []
  }

  /** The values of the innermost lists, each with the name of its own symbol. */
  function Remaining(ts: seq<Table>): (rs: seq<(string, Ptr)>) {
    if ts == [] then [] else Named(ts[0]) + Remaining(ts[1..])
  }

  function Named(t: Table): (rs: seq<(string, Ptr)>) {
    seq(|t.values|, k requires 0 <= k < |t.values| => (if t.names == [] then "" else t.names[|t.names| - 1],
                                                       t.values[k].value))
  }

  lemma {:induction false} ReadAppends(a: seq<Print>, b: seq<Print>)
    requires b == [] || b[0].Name?
    ensures Read(a + b) == Read(a) + Read(b)
    ensures b != [] ==> LastName(a + b) == LastName(b)
    decreases |b|
  {
    if b == [] {
      assert a + b == a;
    } else {
      var front := b[..|b| - 1];
      assert (a + b)[..|a + b| - 1] == a + front;
      ReadAppends(a, front);
    }
  }

  lemma {:induction false} RemainingAppends(a: seq<Table>, b: seq<Table>)
    ensures Remaining(a + b) == Remaining(a) + Remaining(b)
  {
    if a == [] {
      assert a + b == b;
    } else {
      assert (a + b)[1..] == a[1..] + b;
      RemainingAppends(a[1..], b);
    }
  }

  lemma {:induction false} TablesAppend(a: seq<Item>, b: seq<Item>, n: nat, names: seq<string>)
    ensures Tables(a + b, n, names) == Tables(a, n, names) + Tables(b, n, names)
    decreases |a|
  {
    hide Own;
    if a == [] {
      assert a + b == b;
    } else {
      assert (a + b)[1..] == a[1..] + b;
      TablesAppend(a[1..], b, n, names);
    }
  }

  /** One symbol's values. */
  lemma {:induction false} DeclaredUnder(name: string, values: seq<Item>, names: seq<string>)
    ensures Read([Name(name)] + Declarations(values)) == Named(Table(names + [name], values))
    ensures LastName([Name(name)] + Declarations(values)) == name
    decreases |values|
  {
    var ps := [Name(name)] + Declarations(values);
    assert ps[..0] == [];
    if values == [] {
      assert ps == [Name(name)];
    } else {
      var front := values[..|values| - 1];
      DeclaredUnder(name, front, names);
      assert ps[..|ps| - 1] == [Name(name)] + Declarations(front);
      assert Named(Table(names + [name], values))
          == Named(Table(names + [name], front)) + [(name, values[|values| - 1].value)];
    }
  }

  /** All remaining values, at any depth, are reported, each under its symbol's name, and nothing else is. */
  lemma {:induction false} LeftoversTell(items: seq<Item>, n: nat, names: seq<string>)
    requires n >= 1 && Deep(items, n)
    ensures Read(Leftovers(items, n)) == Remaining(Tables(items, n, names))
    ensures Leftovers(items, n) != [] ==> Leftovers(items, n)[0].Name?
    decreases items, 1
  {
    if items == [] {
    } else {
      var (front, i) := (items[..|items| - 1], items[|items| - 1]);
      LeftoversTell(front, n, names);
      SymbolTells(i, n, names);
      hide Read, Remaining, Own, Deep;
      ReadAppends(Leftovers(front, n), Reports(i, n));
      assert front + [i] == items && [i][1..] == [];
      TablesAppend(front, [i], n, names);
      assert Tables([i], n, names) == Own(i, n, names);
      RemainingAppends(Tables(front, n, names), Own(i, n, names));
    }
  }

  function Reports(i: Item, n: nat): (ps: seq<Print>) {
    if i.Symbol? && i.kids != [] then
      [Name(i.name)] + if n <= 1 then Declarations(i.kids) else Leftovers(i.kids, n - 1)
    else []
  }

  lemma {:induction false} SymbolTells(i: Item, n: nat, names: seq<string>)
    requires n >= 1 && i.Symbol? && Deep(i.kids, n - 1)
    ensures Read(Reports(i, n)) == Remaining(Own(i, n, names))
    decreases i, 0
  {
    if n == 1 {
      assert Own(i, n, names)[1..] == [];
      if i.kids == [] {
        assert Named(Table(names + [i.name], i.kids)) == [];
      } else {
        DeclaredUnder(i.name, i.kids, names);
      }
    } else if i.kids != [] {
      LeftoversTell(i.kids, n - 1, names + [i.name]);
      ReadAppends([Name(i.name)], Leftovers(i.kids, n - 1));
      assert [Name(i.name)][..0] == [];
      assert Read([Name(i.name)]) == [];
    }
  }

  /** Where a walk along the list is, and what it finds there. */
  lemma Step(h: Mem, head: Ptr, items: seq<Item>, k: nat, n: nat)
    requires ListAt(h, head, items, n) && Separate(items) && head !in Foot(items) && k <= |items|
    ensures IsNode(h, head) && h[head].next == Right(head, Nodes(items))
    ensures Right(head, Nodes(items[k..])) == head <==> k == |items|
    ensures k < |items| ==>
              var i := items[k];
              && Right(head, Nodes(items[k..])) == i.node && IsNode(h, i.node) && h[i.node].value == i.value
              && h[i.node].next == Right(head, Nodes(items[k + 1..]))
              && h[i.node].refcount == i.refcount && Cells(h, i, n) && Separate([i])
              && (n > 0 ==>
                    && i.Symbol? && i.value in h && h[i.value] == SymbolMapValue(i.name, i.head)
                    && ListAt(h, i.head, i.kids, n - 1) && Separate(i.kids) && i.head !in Foot(i.kids)
                    && IsNode(h, i.head) && (h[i.head].next == i.head <==> i.kids == []))
  {
    hide Chain, Items, Distinct, Cells, ListAt, Below, Separate, Foot;
    NextIs(h, head, items, n);
    if k < |items| {
      var (i, rest) := (items[k], items[k + 1..]);
      assert items[..k] + [i] + rest == items;
      CutLinks(h, head, items[..k], i, rest, n);
      CutOne(h, head, items[..k], i, rest, n);
      FootHas(items, k);
      NodeOf(h, i, n);
      if n > 0 { KidsOf(h, i, n); }
    }
  }

  lemma LeftoversStep(items: seq<Item>, k: nat, n: nat)
    requires k <= |items|
    ensures k == 0 ==> Leftovers(items[..k], n) == [] && WithValues(items[..k]) == []
    ensures k < |items| ==>
              var i := items[k];
              && WithValues(items[..k + 1]) == WithValues(items[..k]) + (if i.Symbol? && i.kids != [] then [i] else [])
              && Leftovers(items[..k + 1], n)
                 == Leftovers(items[..k], n)
                    + (if i.Symbol? && i.kids != []
                       then [Name(i.name)] + (if n <= 1 then Declarations(i.kids) else Leftovers(i.kids, n - 1))
                       else [])
  {
    if k < |items| { assert items[..k + 1][..k] == items[..k]; }
  }

  lemma PruneMeans(h: Mem, head: Ptr, items: seq<Item>, n: nat)
    requires n >= 1 && ListAt(h, head, items, n)
    ensures Tables(Prune(items, n), n, []) == DropSpent(Tables(items, n, []))
    ensures Prune(items, n) == [] <==> DropSpent(Tables(items, n, [])) == []
  {
    hide Tables, DropSpent, Prune, Deep, ListAt;
    ListsAreDeep(h, head, items, n);
    PruneDropsSpent(items, n, []);
  }

  lemma {:induction false} ListsAreDeep(h: Mem, head: Ptr, items: seq<Item>, n: nat)
    requires ListAt(h, head, items, n)
    ensures Deep(items, n)
    decreases items
  {
    forall k | 0 <= k < |items|
      ensures if n == 0 then items[k].Value? else items[k].Symbol? && Deep(items[k].kids, n - 1)
    {
      ItemHolds(h, head, items, n, k);
      if n == 0 {
      } else {
        ListsAreDeep(h, items[k].head, items[k].kids, n - 1);
      }
    }
  }

  lemma NextIs(h: Mem, head: Ptr, items: seq<Item>, n: nat)
    requires ListAt(h, head, items, n) && Separate(items) && head !in Foot(items)
    ensures IsNode(h, head) && h[head].next == Right(head, Nodes(items))
  {
    EmptyIff(h, head, items, n);
  }

  lemma CutIs(h: Mem, head: Ptr, a: seq<Item>, i: Item, b: seq<Item>, n: nat)
    requires Cut(h, head, a, i, b, n)
    ensures ListAt(h, head, a + [i] + b, n) && Separate(a + [i] + b) && head !in Foot(a + [i] + b)
  {
  }

  lemma PruneNothing(n: nat)
    ensures Prune([], n) == []
  {
  }

  lemma PruneOne(i: Item, n: nat)
    requires i.Symbol? && Separate([i])
    ensures var j := Pruned(i, n);
            && j.Symbol? && j.node == i.node && j.value == i.value && j.head == i.head && Below(j) <= Below(i)
            && Separate([j])
            && Prune([i], n) == (if j.kids == [] then [] else [j])
            && Foot([i]) == {i.node} + Below(i) && Foot([j]) == {j.node} + Below(j) && Foot([]) == {}
            && i.node !in Below(i)
  {
    PrunedIsPart(i, n);
    assert [i][1..] == [] && [Pruned(i, n)][1..] == [];
  }

  lemma WithinBelow(h: Mem, g: Mem, i: Item)
    requires i.Symbol? && Keeps(h, g, Foot(i.kids) + {i.head})
    ensures Keeps(h, g, Below(i))
  {
  }

  lemma RoundKeeps(h: Mem, g: Mem, k: Mem, head: Ptr, a: seq<Item>, i: Item, j: Item, b: seq<Item>)
    requires Keeps(h, g, Below(i)) && j.node == i.node && Below(j) <= Below(i)
    requires k == g || Keeps(g, k, {Left(head, Nodes(a)), Right(head, Nodes(b)), j.node} + Below(j))
    ensures Keeps(h, k, Foot(a + [i] + b) + {head})
  {
    FootCuts(a, i, b);
    if a == [] {
    } else {
      FootHas(a, |a| - 1);
    }
    if b == [] {
    } else {
      FootHas(b, 0);
    }
  }

  /** One more item of the list is pruned. */
  lemma PrunedPrefix(items: seq<Item>, k: nat, n: nat, done: seq<Item>)
    requires Separate(items) && k < |items| && done == Prune(items[..k], n)
    ensures var kept := Prune([items[k]], n);
            && Prune(items[..k + 1], n) == done + kept && Foot(done + kept) == Foot(done) + Foot(kept)
            && Foot(kept) <= Foot([items[k]])
    ensures Foot(items[..k + 1]) == Foot(items[..k]) + Foot([items[k]]) && Foot(items[..k]) !! Foot([items[k]])
    ensures Foot(done) <= Foot(items[..k]) && Foot(done + [items[k]] + items[k + 1..]) <= Foot(items)
  {
    hide Foot, Prune, Separate;
    var (i, rest) := ([items[k]], items[k + 1..]);
    assert items[..k + 1] == items[..k] + i && items[..k] + i + rest == items;
    PruneAppends(items[..k], i, n);
    FootAppends(items[..k] + i, rest);
    FootAppends(items[..k], i);
    PruneIsPart(items[..k], n);
    PruneIsPart(i, n);
    FootAppends(done, Prune(i, n));
    FootAppends(done + i, rest);
    FootAppends(done, i);
  }

  lemma KeysGo(all: set<Ptr>, f: set<Ptr>, d: set<Ptr>, i: set<Ptr>, kept: set<Ptr>)
    requires d <= f && kept <= i && f !! i
    ensures all - (f - d) - (i - kept) == all - ((f + i) - (d + kept))
  {
  }

  lemma KeepsAll(h: Mem, s: set<Ptr>)
    ensures Keeps(h, h, s)
  {
  }

  lemma KeepsMore(h: Mem, g: Mem, k: Mem, s: set<Ptr>, t: set<Ptr>)
    requires Keeps(h, g, t) && Keeps(g, k, s) && s <= t
    ensures Keeps(h, k, t)
  {
  }

  lemma ItemsGoOn(head: Ptr, items: seq<Item>, done: seq<Item>, n: nat)
    requires head !in Foot(done + items)
    ensures Right(head, Nodes(items)) == head <==> items == []
    ensures items != [] ==> Right(head, Nodes(items)) == items[0].node
  {
    if items != [] {
      FootAppends(done, items);
      FootHas(items, 0);
    }
  }

  lemma {:induction false} PruneAppends(a: seq<Item>, b: seq<Item>, n: nat)
    ensures Prune(a + b, n) == Prune(a, n) + Prune(b, n)
    decreases a
  {
    if a == [] {
      assert a + b == b;
    } else {
      assert (a + b)[1..] == a[1..] + b;
      PruneAppends(a[1..], b, n);
    }
  }

  lemma KidsOf(h: Mem, i: Item, n: nat)
    requires n >= 1 && Cells(h, i, n) && Separate([i])
    ensures i.Symbol? && ListAt(h, i.head, i.kids, n - 1) && Separate(i.kids) && i.head !in Foot(i.kids)
    ensures IsNode(h, i.head) && (h[i.head].next == i.head <==> i.kids == [])
    ensures i.kids != [] ==> h[i.head].next == i.kids[0].node && Cut(h, i.head, [], i.kids[0], i.kids[1..], n - 1)
    ensures IsNode(h, i.node) && h[i.node].value == i.value && i.value in h
    ensures h[i.value] == SymbolMapValue(i.name, i.head)
  {
    assert Sound(i);
    EmptyIff(h, i.head, i.kids, n - 1);
  }

  /** The cells of the first value are all that a list loses with it. */
  lemma FirstGone(i: Item)
    requires i.Symbol? && i.kids != [] && Separate([i])
    ensures Below(i) - Below(i.(kids := i.kids[1..])) == {i.kids[0].node} + Below(i.kids[0])
    ensures Foot(i.kids[1..]) <= Foot(i.kids)
  {
    assert Sound(i) && Separate(i.kids);
    var (first, rest) := ({i.kids[0].node} + Below(i.kids[0]), Foot(i.kids[1..]));
    assert Below(i) == {i.value, i.head} + (first + rest) && Below(i.(kids := i.kids[1..])) == {i.value, i.head} + rest;
    assert first !! rest && first !! {i.value, i.head};
  }

  lemma KidsChanged(h: Mem, g: Mem, i: Item, kids: seq<Item>, n: nat)
    requires n >= 1 && i.Symbol? && Cells(h, i, n) && Separate([i])
    requires ListAt(g, i.head, kids, n - 1) && Foot(kids) <= Foot(i.kids)
    requires Keeps(h, g, Foot(i.kids) + {i.head})
    ensures Cells(g, i.(kids := kids), n)
    ensures Foot(i.kids) - Foot(kids) == Below(i) - Below(i.(kids := kids))
  {
    assert Sound(i);
  }

  lemma AllSuit(h: Mem, head: Ptr, i: Item, rest: seq<Item>, cleanup: Cleanup, n: nat)
    requires Cut(h, head, [], i, rest, n)
    requires n == match cleanup case FreeValue => 0 case FreeSymbolMapValue(children) => children + 1
    ensures Suits(cleanup, i, n)
  {
    CutParts(h, head, [], i, rest, n);
  }

  /** The frame of one round within that of the loop. */
  lemma KeepsOn(h: Mem, g: Mem, k: Mem, head: Ptr, i: Item, rest: seq<Item>, s: set<Ptr>)
    requires Keeps(h, g, s) && Keeps(g, k, {Left(head, []), Right(head, Nodes(rest)), i.node} + Below(i))
    requires Foot([i] + rest) + {head} <= s
    ensures Keeps(h, k, s)
  {
    FootAppends([i], rest);
    assert Foot([i]) == {i.node} + Below(i) by { assert [i][1..] == []; }
    if rest == [] {
    } else {
      FootHas(rest, 0);
    }
  }

  function FreedBy(h: Mem, p: Ptr): set<Ptr>
    requires p in h
  {
    if h[p].SymbolMapValue? then {p, h[p].symbol_values_list_head} else {p}
  }

  lemma BelowIsLeft(h: Mem, g: Mem, i: Item)
    requires i.Symbol? && Sound(i) && i.value in h && Keeps(h, g, Foot(i.kids) + {i.head})
    ensures i.value in g && g[i.value] == h[i.value]
  {
  }

  lemma NodeOf(h: Mem, i: Item, n: nat)
    requires Cells(h, i, n)
    ensures IsNode(h, i.node) && h[i.node].value == i.value && h[i.node].refcount == i.refcount
  {
  }

  lemma CutOne(h: Mem, head: Ptr, a: seq<Item>, i: Item, b: seq<Item>, n: nat)
    requires Cut(h, head, a, i, b, n)
    ensures Separate([i]) && i.node !in Below(i)
    ensures Separate(a + [i] + b) && head !in Foot(a + [i] + b)
  {
    FootCuts(a, i, b);
  }

  lemma CutApart(h: Mem, head: Ptr, a: seq<Item>, i: Item, b: seq<Item>, n: nat)
    requires Cut(h, head, a, i, b, n)
    ensures i.node != Left(head, Nodes(a)) && i.node != Right(head, Nodes(b))
    ensures Left(head, Nodes(a)) in Foot(a) + {head} && Right(head, Nodes(b)) in Foot(b) + {head}
  {
    FootCuts(a, i, b);
    if a == [] {
    } else {
      FootHas(a, |a| - 1);
    }
    if b == [] {
    } else {
      FootHas(b, 0);
    }
  }
}
