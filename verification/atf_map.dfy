/** The list with two sentinels of ATF, and the insertion-ordered map on top of it. */
module AtfMap {
  import opened DoublyLinked

  const NULL: Ptr := 0

  datatype Cell =
    | ListEntry(m_prev: Ptr, m_next: Ptr, m_object: Ptr, m_managed: bool)
    | MapEntry(m_key: Ptr, m_value: Ptr, m_managed: bool)
    | Text(text: string)

  type Mem = map<Ptr, Cell>

  ghost predicate IsEntry(h: Mem, p: Ptr) { p in h && h[p].ListEntry? }

  ghost function LinksOf(h: Mem): (links: LinkMap)
    ensures forall p :: p in links <==> IsEntry(h, p)
    ensures forall p | IsEntry(h, p) :: links[p] == Links(h[p].m_next, h[p].m_prev)
  {
    map p | p in h && h[p].ListEntry? :: Links(h[p].m_next, h[p].m_prev)
  }

  // ---------------------------------------------------------------- the list

  /** An element: its list entry, and what that holds. */
  datatype Node = Node(le: Ptr, obj: Ptr, managed: bool)

  function Entries(nodes: seq<Node>): (ps: seq<Ptr>)
    ensures |ps| == |nodes|
  {
    seq(|nodes|, k requires 0 <= k < |nodes| => nodes[k].le)
  }

  ghost predicate Holds(h: Mem, n: Node) {
    IsEntry(h, n.le) && h[n.le].m_object == n.obj && h[n.le].m_managed == n.managed
  }

  /** Between the sentinels, m_next and m_prev lead through the elements and back. */
  ghost predicate List(h: Mem, begin: Ptr, nodes: seq<Node>, end: Ptr) {
    && Chain(LinksOf(h), begin, Entries(nodes), end)
    && Distinct(Entries(nodes)) && begin !in Entries(nodes) && end !in Entries(nodes) && begin != end
    && (forall k | 0 <= k < |nodes| :: Holds(h, nodes[k]))
    && Holds(h, Node(begin, NULL, false)) && Holds(h, Node(end, NULL, false))
    && h[begin].m_prev == NULL && h[end].m_next == NULL && NULL !in h
  }

  /** A list depends on its entries only. */
  lemma ListFrame(h: Mem, g: Mem, begin: Ptr, nodes: seq<Node>, end: Ptr)
    requires List(h, begin, nodes, end) && NULL !in g
    requires forall p | p in h && (p == begin || p == end || p in Entries(nodes)) :: p in g && g[p] == h[p]
    ensures List(g, begin, nodes, end)
  {
    ChainFrame(LinksOf(h), LinksOf(g), begin, Entries(nodes), end);
    forall k | 0 <= k < |nodes| ensures Holds(g, nodes[k]) {
      assert Holds(h, nodes[k]) && Entries(nodes)[k] == nodes[k].le;
    }
  }

  /** new_entry_and_link between prev and the end sentinel. */
  ghost function Appended(h: Mem, n: Node, prev: Ptr, end: Ptr): (g: Mem)
    requires IsEntry(h, prev) && IsEntry(h, end)
  {
    var g := h[n.le := ListEntry(prev, end, n.obj, n.managed)];
    var g := g[prev := h[prev].(m_next := n.le)];
    g[end := g[end].(m_prev := n.le)]
  }

  lemma AppendedIsList(h: Mem, begin: Ptr, nodes: seq<Node>, end: Ptr, n: Node)
    requires List(h, begin, nodes, end) && n.le !in h && n.le != NULL
    ensures var prev := Left(begin, Entries(nodes));
            && IsEntry(h, prev) && IsEntry(h, end) && h[end].m_prev == prev && prev != end
            && List(Appended(h, n, prev, end), begin, nodes + [n], end)
  {
    var prev := Left(begin, Entries(nodes));
    LastIs(LinksOf(h), begin, Entries(nodes), end);
    var g := Appended(h, n, prev, end);
    assert Entries(nodes + [n]) == Entries(nodes) + [n.le];
    EntriesAreLive(h, begin, nodes, end);
    DistinctAppends(Entries(nodes), n.le);
    ChainAppends(LinksOf(h), LinksOf(g), begin, Entries(nodes), n.le, end, prev);
    forall k | 0 <= k < |nodes + [n]| ensures Holds(g, (nodes + [n])[k]) {
      if k < |nodes| { assert Holds(h, nodes[k]) && Entries(nodes)[k] == nodes[k].le; }
    }
  }

  lemma EntriesAreLive(h: Mem, begin: Ptr, nodes: seq<Node>, end: Ptr)
    requires List(h, begin, nodes, end)
    ensures begin in h && end in h && forall p | p in Entries(nodes) :: p in h
  {
    forall p | p in Entries(nodes) ensures p in h {
      var k :| 0 <= k < |nodes| && Entries(nodes)[k] == p;
      assert Holds(h, nodes[k]);
    }
  }

  // ---- freeing

  /** The k-th cell of a list, sentinels included, and the object freed with it. */
  function EntryAt(begin: Ptr, nodes: seq<Node>, end: Ptr, k: nat): Ptr {
    if k == 0 then begin else if k <= |nodes| then nodes[k - 1].le else end
  }

  function ObjectAt(nodes: seq<Node>, k: nat): set<Ptr> {
    if 1 <= k <= |nodes| && nodes[k - 1].managed then {nodes[k - 1].obj} else {}
  }

  function Gone(begin: Ptr, nodes: seq<Node>, end: Ptr, k: nat): set<Ptr> {
    if k == 0 then {} else Gone(begin, nodes, end, k - 1) + {EntryAt(begin, nodes, end, k - 1)} + ObjectAt(nodes, k - 1)
  }

  ghost predicate Block(h: Mem, p: Ptr) { p in h && !h[p].ListEntry? }

  /** Managed objects are blocks of their own. */
  ghost predicate Objects(h: Mem, nodes: seq<Node>) {
    && (forall k | 0 <= k < |nodes| :: nodes[k].managed ==> Block(h, nodes[k].obj))
    && forall j, k | 0 <= j < k < |nodes| :: nodes[j].managed && nodes[k].managed ==> nodes[j].obj != nodes[k].obj
  }

  lemma EntriesDiffer(h: Mem, begin: Ptr, nodes: seq<Node>, end: Ptr, j: nat, k: nat)
    requires List(h, begin, nodes, end) && j < k <= |nodes| + 1
    ensures IsEntry(h, EntryAt(begin, nodes, end, j)) && EntryAt(begin, nodes, end, j) != EntryAt(begin, nodes, end, k)
  {
    if 1 <= j <= |nodes| { assert Holds(h, nodes[j - 1]) && nodes[j - 1].le == Entries(nodes)[j - 1]; }
    if 1 <= k <= |nodes| { assert Holds(h, nodes[k - 1]) && nodes[k - 1].le == Entries(nodes)[k - 1]; }
    if 1 <= j && k <= |nodes| { DistinctAt(Entries(nodes), j - 1, k - 1); }
  }

  /** No cell or object is freed twice. */
  lemma {:induction false} NotGone(h: Mem, begin: Ptr, nodes: seq<Node>, end: Ptr, j: nat, k: nat)
    requires List(h, begin, nodes, end) && Objects(h, nodes) && j <= k <= |nodes| + 1
    ensures EntryAt(begin, nodes, end, k) !in Gone(begin, nodes, end, j) + ObjectAt(nodes, k)
    ensures ObjectAt(nodes, k) !! Gone(begin, nodes, end, j)
    ensures IsEntry(h, EntryAt(begin, nodes, end, k)) && forall p | p in ObjectAt(nodes, k) :: Block(h, p)
    decreases j
  {
    if 1 <= k <= |nodes| { assert Holds(h, nodes[k - 1]); }
    if j == 0 {
    } else {
      NotGone(h, begin, nodes, end, j - 1, k);
      EntriesDiffer(h, begin, nodes, end, j - 1, k);
    }
  }

  // ---------------------------------------------------------------- insertion-ordered maps

  /** What atf_map_insert means: a new key goes to the end, a known one keeps its place. */
  function Put<V>(kvs: seq<(string, V)>, k: string, v: V): (r: seq<(string, V)>) {
    if kvs == [] then [(k, v)]
    else if kvs[0].0 == k then [(k, v)] + kvs[1..]
    else [kvs[0]] + Put(kvs[1..], k, v)
  }

  function PutAll<V>(more: seq<(string, V)>): (r: seq<(string, V)>) {
    if more == [] then [] else var n := |more| - 1; Put(PutAll(more[..n]), more[n].0, more[n].1)
  }

  function Keys<V>(kvs: seq<(string, V)>): (ks: seq<string>)
    ensures |ks| == |kvs|
  {
    seq(|kvs|, i requires 0 <= i < |kvs| => kvs[i].0)
  }

  ghost predicate Unique(ks: seq<string>) { forall i, j | 0 <= i < j < |ks| :: ks[i] != ks[j] }

  /** The finite map that a list of bindings stands for, the first binding of a key counting. */
  function Meaning<V>(kvs: seq<(string, V)>): (m: map<string, V>) {
    if kvs == [] then map[] else Meaning(kvs[1..])[kvs[0].0 := kvs[0].1]
  }

  /** Insertion updates the map, keeps the keys distinct and their order. */
  lemma PutMeans<V>(kvs: seq<(string, V)>, k: string, v: V)
    ensures Meaning(Put(kvs, k, v)) == Meaning(kvs)[k := v]
    ensures Keys(Put(kvs, k, v)) == if k in Keys(kvs) then Keys(kvs) else Keys(kvs) + [k]
    ensures Unique(Keys(kvs)) ==> Unique(Keys(Put(kvs, k, v)))
  {
    hide Meaning, Keys, Put;
    PutMeaning(kvs, k, v);
    PutKeys(kvs, k, v);
  }

  lemma {:induction false} PutMeaning<V>(kvs: seq<(string, V)>, k: string, v: V)
    ensures Meaning(Put(kvs, k, v)) == Meaning(kvs)[k := v]
  {
    if kvs == [] {
    } else {
      if kvs[0].0 == k {
        assert Put(kvs, k, v)[1..] == kvs[1..];
      } else {
        PutMeaning(kvs[1..], k, v);
        assert Put(kvs, k, v)[1..] == Put(kvs[1..], k, v);
      }
    }
  }

  lemma {:induction false} PutKeys<V>(kvs: seq<(string, V)>, k: string, v: V)
    ensures Keys(Put(kvs, k, v)) == if k in Keys(kvs) then Keys(kvs) else Keys(kvs) + [k]
  {
    if kvs == [] {
    } else {
      KeysCons(kvs[0], kvs[1..]);
      assert kvs == [kvs[0]] + kvs[1..];
      if kvs[0].0 == k {
        KeysCons((k, v), kvs[1..]);
      } else {
        PutKeys(kvs[1..], k, v);
        KeysCons(kvs[0], Put(kvs[1..], k, v));
      }
    }
  }

  lemma KeysCons<V>(kv: (string, V), rest: seq<(string, V)>)
    ensures Keys([kv] + rest) == [kv.0] + Keys(rest)
  {
  }

  /** The keys in the order of their first appearance. */
  function FirstKeys(ks: seq<string>): (r: seq<string>) {
    if ks == [] then []
    else
      var n := |ks| - 1;
      FirstKeys(ks[..n]) + if ks[n] in ks[..n] then [] else [ks[n]]
  }

  /** The last binding of a key counts. */
  function Latest<V>(kvs: seq<(string, V)>): (m: map<string, V>) {
    if kvs == [] then map[] else var n := |kvs| - 1; Latest(kvs[..n])[kvs[n].0 := kvs[n].1]
  }

  /** A run of insertions: every key where it was first inserted, with the value inserted last. */
  lemma {:induction false} RunOfInsertions<V>(more: seq<(string, V)>)
    ensures Keys(PutAll(more)) == FirstKeys(Keys(more)) && Unique(Keys(PutAll(more)))
    ensures Meaning(PutAll(more)) == Latest(more)
    ensures forall k :: k in Keys(PutAll(more)) <==> k in Keys(more)
  {
    if more == [] {
    } else {
      var n := |more| - 1;
      RunOfInsertions(more[..n]);
      PutMeans(PutAll(more[..n]), more[n].0, more[n].1);
      assert Keys(more) == Keys(more[..n]) + [more[n].0];
      assert Keys(more)[..n] == Keys(more[..n]);
    }
  }

  lemma {:induction false} PutNew<V>(kvs: seq<(string, V)>, k: string, v: V)
    requires k !in Keys(kvs)
    ensures Put(kvs, k, v) == kvs + [(k, v)]
  {
    if kvs == [] {
    } else {
      assert Keys(kvs) == [kvs[0].0] + Keys(kvs[1..]);
      PutNew(kvs[1..], k, v);
    }
  }

  /** Inserting the bindings of a map gives the same map, in the same order. */
  lemma {:induction false} PutAllSame<V>(kvs: seq<(string, V)>)
    ensures Unique(Keys(kvs)) <==> PutAll(kvs) == kvs
  {
    RunOfInsertions(kvs);
    if kvs == [] || !Unique(Keys(kvs)) {
    } else {
      var n := |kvs| - 1;
      assert Keys(kvs) == Keys(kvs[..n]) + [kvs[n].0];
      forall i, j | 0 <= i < j < n ensures Keys(kvs[..n])[i] != Keys(kvs[..n])[j] {
        assert Keys(kvs)[i] == Keys(kvs[..n])[i] && Keys(kvs)[j] == Keys(kvs[..n])[j];
      }
      forall i | 0 <= i < n ensures Keys(kvs[..n])[i] != kvs[n].0 {
        assert Keys(kvs)[i] == Keys(kvs[..n])[i] && Keys(kvs)[n] == kvs[n].0;
      }
      PutAllSame(kvs[..n]);
      PutNew(kvs[..n], kvs[n].0, kvs[n].1);
    }
  }

  // ---------------------------------------------------------------- the map in memory

  datatype Value = Value(p: Ptr, managed: bool)

  /** An element of the map, with the blocks it is made of. */
  datatype Pair = Pair(le: Ptr, me: Ptr, key: Ptr, name: string, value: Value)

  function Nodes(pairs: seq<Pair>): (nodes: seq<Node>)
    ensures |nodes| == |pairs|
  {
    seq(|pairs|, k requires 0 <= k < |pairs| => Node(pairs[k].le, pairs[k].me, false))
  }

  function Bindings(pairs: seq<Pair>): (kvs: seq<(string, Value)>)
    ensures |kvs| == |pairs|
  {
    seq(|pairs|, k requires 0 <= k < |pairs| => (pairs[k].name, pairs[k].value))
  }

  /** The blocks the map frees with an element, its list entry excepted. */
  function Owned(e: Pair): set<Ptr> { {e.me, e.key} + if e.value.managed then {e.value.p} else {} }

  function Foot(pairs: seq<Pair>): (s: set<Ptr>) {
    if pairs == [] then {} else Foot(pairs[..|pairs| - 1]) + Owned(pairs[|pairs| - 1])
  }

  ghost predicate Whole(e: Pair) { e.me != e.key && (e.value.managed ==> e.value.p != e.me && e.value.p != e.key) }

  /** No block belongs to two elements. */
  ghost predicate Separate(pairs: seq<Pair>) {
    pairs != [] ==>
      var (front, last) := (pairs[..|pairs| - 1], pairs[|pairs| - 1]);
      Separate(front) && Whole(last) && Owned(last) !! Foot(front)
  }

  ghost predicate Element(h: Mem, e: Pair) {
    && e.me != NULL && e.me in h && h[e.me] == MapEntry(e.key, e.value.p, e.value.managed)
    && e.key in h && h[e.key] == Text(e.name)
    && (e.value.managed ==> Block(h, e.value.p))
  }

  ghost predicate Elements(h: Mem, pairs: seq<Pair>) { forall k | 0 <= k < |pairs| :: Element(h, pairs[k]) }

  ghost predicate MapAt(h: Mem, begin: Ptr, pairs: seq<Pair>, end: Ptr) {
    List(h, begin, Nodes(pairs), end) && Elements(h, pairs) && Separate(pairs) && Unique(Keys(Bindings(pairs)))
  }

  lemma {:induction false} FootHas(pairs: seq<Pair>, k: nat)
    requires k < |pairs|
    ensures Owned(pairs[k]) <= Foot(pairs) && (Separate(pairs) ==> Whole(pairs[k]))
  {
    if k == |pairs| - 1 {
    } else {
      FootHas(pairs[..|pairs| - 1], k);
    }
  }

  lemma {:induction false} FootIsLive(h: Mem, pairs: seq<Pair>)
    requires Elements(h, pairs)
    ensures forall p | p in Foot(pairs) :: Block(h, p)
  {
    if pairs == [] {
    } else {
      FootIsLive(h, pairs[..|pairs| - 1]);
      assert Element(h, pairs[|pairs| - 1]);
    }
  }

  // ---- insertion of a new key

  /** A new element's blocks are none of those in use. */
  ghost predicate Unused(h: Mem, pairs: seq<Pair>, e: Pair) {
    && e.le !in h && e.me !in h && e.key !in h && NULL !in {e.le, e.me, e.key}
    && e.le != e.me && e.le != e.key && e.me != e.key
    && (e.value.managed ==> Block(h, e.value.p) && e.value.p !in Foot(pairs))
  }

  ghost function Inserted(h: Mem, e: Pair, prev: Ptr, end: Ptr): (g: Mem)
    requires IsEntry(h, prev) && IsEntry(h, end) && e.me !in h && e.key !in h
  {
    Appended(h[e.key := Text(e.name)][e.me := MapEntry(e.key, e.value.p, e.value.managed)], Node(e.le, e.me, false),
      prev, end)
  }

  lemma MapAppends(h: Mem, begin: Ptr, pairs: seq<Pair>, end: Ptr, e: Pair)
    requires MapAt(h, begin, pairs, end) && e.name !in Keys(Bindings(pairs)) && Unused(h, pairs, e)
    ensures var prev := Left(begin, Entries(Nodes(pairs)));
            && IsEntry(h, prev) && IsEntry(h, end) && h[end].m_prev == prev
            && MapAt(Inserted(h, e, prev, end), begin, pairs + [e], end)
    ensures Bindings(pairs + [e]) == Put(Bindings(pairs), e.name, e.value)
    ensures Foot(pairs + [e]) == Foot(pairs) + Owned(e)
  {
    hide List, Left, Entries, Nodes, Put, Keys, Unique, Foot, Elements, Separate, Bindings, Appended;
    var g := h[e.key := Text(e.name)][e.me := MapEntry(e.key, e.value.p, e.value.managed)];
    var prev := Left(begin, Entries(Nodes(pairs)));
    ListAppends(h, g, begin, pairs, end, e);
    BindingsAppend(pairs, e);
    FootIsLive(h, pairs);
    SeparateAppends(h, pairs, e);
    ElementsAppend(h, Inserted(h, e, prev, end), pairs, e, prev, end);
  }

  lemma BindingsAppend(pairs: seq<Pair>, e: Pair)
    requires e.name !in Keys(Bindings(pairs)) && Unique(Keys(Bindings(pairs)))
    ensures Bindings(pairs + [e]) == Put(Bindings(pairs), e.name, e.value) && Unique(Keys(Bindings(pairs + [e])))
  {
    hide Keys, Unique;
    PutNew(Bindings(pairs), e.name, e.value);
    PutMeans(Bindings(pairs), e.name, e.value);
    assert Bindings(pairs + [e]) == Bindings(pairs) + [(e.name, e.value)];
  }

  lemma SeparateAppends(h: Mem, pairs: seq<Pair>, e: Pair)
    requires Separate(pairs) && Unused(h, pairs, e) && forall p | p in Foot(pairs) :: p in h
    ensures Separate(pairs + [e]) && Foot(pairs + [e]) == Foot(pairs) + Owned(e)
  {
    assert (pairs + [e])[..|pairs|] == pairs;
  }

  lemma ElementsAppend(h: Mem, g: Mem, pairs: seq<Pair>, e: Pair, prev: Ptr, end: Ptr)
    requires Elements(h, pairs) && Unused(h, pairs, e) && IsEntry(h, prev) && IsEntry(h, end)
    requires g == Inserted(h, e, prev, end)
    ensures Elements(g, pairs + [e])
  {
    forall j | 0 <= j < |pairs + [e]| ensures Element(g, (pairs + [e])[j]) {
      if j < |pairs| {
        assert Element(h, pairs[j]);
        ElementStays(h, g, pairs[j]);
      }
    }
  }

  lemma ListAppends(h: Mem, g: Mem, begin: Ptr, pairs: seq<Pair>, end: Ptr, e: Pair)
    requires List(h, begin, Nodes(pairs), end) && Unused(h, pairs, e)
    requires g == h[e.key := Text(e.name)][e.me := MapEntry(e.key, e.value.p, e.value.managed)]
    ensures var prev := Left(begin, Entries(Nodes(pairs)));
            && IsEntry(h, prev) && IsEntry(h, end) && IsEntry(g, prev) && IsEntry(g, end) && h[end].m_prev == prev
            && List(Appended(g, Node(e.le, e.me, false), prev, end), begin, Nodes(pairs + [e]), end)
  {
    EntriesAreLive(h, begin, Nodes(pairs), end);
    ListFrame(h, g, begin, Nodes(pairs), end);
    AppendedIsList(g, begin, Nodes(pairs), end, Node(e.le, e.me, false));
    assert Nodes(pairs + [e]) == Nodes(pairs) + [Node(e.le, e.me, false)];
  }

  /** An element does not depend on list entries. */
  lemma ElementStays(h: Mem, g: Mem, e: Pair)
    requires Element(h, e)
    requires forall p | Block(h, p) :: p in g && g[p] == h[p]
    ensures Element(g, e)
  {
  }

  // ---- a new value for a known key

  lemma {:induction false} PutKnown<V>(kvs: seq<(string, V)>, k: nat, v: V)
    requires k < |kvs| && Unique(Keys(kvs))
    ensures Put(kvs, kvs[k].0, v) == kvs[k := (kvs[k].0, v)]
  {
    assert Keys(kvs) == [kvs[0].0] + Keys(kvs[1..]);
    if k == 0 {
    } else {
      assert Keys(kvs)[0] != Keys(kvs)[k];
      forall i, j | 0 <= i < j < |kvs[1..]| ensures Keys(kvs[1..])[i] != Keys(kvs[1..])[j] {
        assert Keys(kvs)[i + 1] != Keys(kvs)[j + 1];
      }
      PutKnown(kvs[1..], k - 1, v);
    }
  }

  lemma {:induction false} SeparatePair(pairs: seq<Pair>, j: nat, k: nat)
    requires Separate(pairs) && j < k < |pairs|
    ensures Owned(pairs[j]) !! Owned(pairs[k])
  {
    if k == |pairs| - 1 {
      assert pairs[..k][j] == pairs[j];
      FootHas(pairs[..k], j);
    } else {
      SeparatePair(pairs[..|pairs| - 1], j, k);
    }
  }

  lemma {:induction false} SeparateUpdates(pairs: seq<Pair>, k: nat, e: Pair)
    requires Separate(pairs) && k < |pairs| && Whole(e) && (Owned(e) - Owned(pairs[k])) !! Foot(pairs)
    ensures Separate(pairs[k := e]) && Foot(pairs[k := e]) == Foot(pairs) - Owned(pairs[k]) + Owned(e)
  {
    hide Owned, Whole;
    var (front, last) := (pairs[..|pairs| - 1], pairs[|pairs| - 1]);
    if k == |pairs| - 1 {
      assert pairs[k := e][..k] == front;
    } else {
      FootHas(front, k);
      assert front[k] == pairs[k];
      SeparateUpdates(front, k, e);
      assert pairs[k := e][..|pairs| - 1] == front[k := e];
    }
  }

  /** The heap when the k-th element has a new value; the old one is freed if the map owns it. */
  function Updated(h: Mem, e: Pair, v: Value): (g: Mem) {
    (h - if e.value.managed then {e.value.p} else {})[e.me := MapEntry(e.key, v.p, v.managed)]
  }

  lemma ElementsUpdate(h: Mem, pairs: seq<Pair>, k: nat, v: Value)
    requires Elements(h, pairs) && Separate(pairs) && k < |pairs|
    requires v.managed ==> Block(h, v.p) && v.p !in Foot(pairs)
    ensures Elements(Updated(h, pairs[k], v), pairs[k := pairs[k].(value := v)])
  {
    hide Separate, Foot;
    var g := Updated(h, pairs[k], v);
    var after := pairs[k := pairs[k].(value := v)];
    FootHas(pairs, k);
    assert Element(h, pairs[k]);
    forall j | 0 <= j < |pairs| ensures Element(g, after[j]) {
      assert Element(h, pairs[j]);
      if j < k { SeparatePair(pairs, j, k); } else if j > k { SeparatePair(pairs, k, j); }
    }
  }

  lemma MapUpdates(h: Mem, begin: Ptr, pairs: seq<Pair>, end: Ptr, k: nat, v: Value)
    requires MapAt(h, begin, pairs, end) && k < |pairs|
    requires v.managed ==> Block(h, v.p) && v.p !in Foot(pairs)
    ensures var after := pairs[k := pairs[k].(value := v)];
            && MapAt(Updated(h, pairs[k], v), begin, after, end)
            && Bindings(after) == Put(Bindings(pairs), pairs[k].name, v)
            && Foot(after) == Foot(pairs) - Owned(pairs[k]) + Owned(pairs[k].(value := v))
  {
    hide List, Put, Keys, Unique, Foot, Elements, Separate;
    var e := pairs[k].(value := v);
    var after := pairs[k := e];
    FootHas(pairs, k);
    SeparateUpdates(pairs, k, e);
    ElementsUpdate(h, pairs, k, v);
    PutKnown(Bindings(pairs), k, v);
    PutMeans(Bindings(pairs), pairs[k].name, v);
    assert Bindings(after) == Bindings(pairs)[k := (e.name, v)];
    assert Nodes(after) == Nodes(pairs);
    assert Element(h, pairs[k]) by { ElementAt(h, pairs, k); }
    OwnedKept(h, Updated(h, pairs[k], v), begin, pairs, end, pairs[k]);
  }

  lemma ElementAt(h: Mem, pairs: seq<Pair>, k: nat)
    requires Elements(h, pairs) && k < |pairs|
    ensures Element(h, pairs[k])
  {
  }

  /** The list stays when only blocks that are not list entries change. */
  lemma OwnedKept(h: Mem, g: Mem, begin: Ptr, pairs: seq<Pair>, end: Ptr, e: Pair)
    requires List(h, begin, Nodes(pairs), end) && Element(h, e) && g.Keys <= h.Keys
    requires forall p | p in h && p !in Owned(e) :: p in g && g[p] == h[p]
    ensures List(g, begin, Nodes(pairs), end)
  {
    forall p | p in h && (p == begin || p == end || p in Entries(Nodes(pairs))) ensures IsEntry(h, p) {
      if p in Entries(Nodes(pairs)) {
        var j :| 0 <= j < |pairs| && Entries(Nodes(pairs))[j] == p;
        assert Holds(h, Nodes(pairs)[j]);
      }
    }
    ListFrame(h, g, begin, Nodes(pairs), end);
  }

  // ---- walking

  lemma {:induction false} WalkStep(links: LinkMap, begin: Ptr, ps: seq<Ptr>, end: Ptr, k: nat)
    requires Chain(links, begin, ps, end) && k <= |ps|
    ensures begin in links && links[begin].next == Right(end, ps)
    ensures k < |ps| ==> ps[k] in links && links[ps[k]].next == Right(end, ps[k + 1..])
    decreases ps
  {
    if 0 < k < |ps| {
      WalkStep(links, ps[0], ps[1..], end, k - 1);
      assert ps[1..][k..] == ps[k + 1..];
    } else if ps != [] {
      WalkStep(links, ps[0], ps[1..], end, 0);
    }
  }

  /** Where an iterator is after k steps, and what it finds there. */
  lemma Step(h: Mem, begin: Ptr, nodes: seq<Node>, end: Ptr, k: nat)
    requires List(h, begin, nodes, end) && k <= |nodes|
    ensures IsEntry(h, begin) && h[begin].m_next == Right(end, Entries(nodes)) && Entries(nodes)[0..] == Entries(nodes)
    ensures Right(end, Entries(nodes)[k..]) == end <==> k == |nodes|
    ensures k < |nodes| ==>
              var le := nodes[k].le;
              Right(end, Entries(nodes)[k..]) == le && Holds(h, nodes[k])
                && h[le].m_next == Right(end, Entries(nodes)[k + 1..])
  {
    WalkStep(LinksOf(h), begin, Entries(nodes), end, k);
  }

  // ---------------------------------------------------------------- the map object

  /** atf_map_iter and atf_map_citer, without the map they belong to. */
  datatype Iter = Iter(m_entry: Ptr, m_listiter: Ptr)

  datatype CharPtr = Null | Str(text: string)

  class Map {
    var mem: Mem
    var m_begin: Ptr
    var m_end: Ptr
    var m_size: nat

    ghost var pairs: seq<Pair>

    ghost predicate Valid()
      reads this
    {
      MapAt(mem, m_begin, pairs, m_end) && m_size == |pairs|
    }

    ghost function Contents(): seq<(string, Value)>
      reads this`pairs
    {
      Bindings(pairs)
    }

    /** The blocks that are the map's. */
    ghost function Blocks(): set<Ptr>
      reads this
    {
      Foot(pairs) + EntrySet(pairs) + {m_begin, m_end}
    }

    method Malloc(cell: Cell) returns (p: Ptr)
      modifies this`mem
      ensures p != NULL && p !in old(mem) && mem == old(mem)[p := cell]
    {
      ghost var q := Unallocated(mem);
      p :| p != NULL && p !in mem;
      mem := mem[p := cell];
    }

    method Free(p: Ptr)
      requires p in mem
      modifies this`mem
      ensures mem == old(mem) - {p}
    {
      mem := mem - {p};
    }

    /** atf_map_init, in a heap that may hold other blocks. */
    constructor (heap: Mem)
      requires NULL !in heap
      ensures Valid() && Contents() == [] && m_begin !in heap && m_end !in heap
      ensures mem.Keys == heap.Keys + {m_begin, m_end} && forall p | p in heap :: mem[p] == heap[p]
    {
      mem, pairs, m_size := heap, [], 0;
      new;
      var lebeg := Malloc(ListEntry(NULL, NULL, NULL, false));
      var leend := Malloc(ListEntry(NULL, NULL, NULL, false));
      mem := mem[lebeg := mem[lebeg].(m_next := leend, m_prev := NULL)];
      mem := mem[leend := mem[leend].(m_next := NULL, m_prev := lebeg)];
      m_begin, m_end := lebeg, leend;
    }

    /** atf_map_find. */
    method Find(key: string) returns (iter: Iter, ghost k: nat)
      requires Valid()
      ensures k <= |pairs| && (iter.m_entry == NULL <==> key !in Keys(Contents()))
      ensures if iter.m_entry == NULL then k == |pairs| && iter.m_listiter == m_end
              else k < |pairs| && pairs[k].name == key && iter == Iter(pairs[k].me, pairs[k].le)
    {
      hide Chain, Separate, Unique, Entries, Right;
      k := 0;
      Step(mem, m_begin, Nodes(pairs), m_end, 0);
      var le := mem[m_begin].m_next;
      while le != m_end
        invariant k <= |pairs| && le == Right(m_end, Entries(Nodes(pairs))[k..]) && (le == m_end <==> k == |pairs|)
        invariant forall j | 0 <= j < k :: pairs[j].name != key
        decreases |pairs| - k
      {
        Step(mem, m_begin, Nodes(pairs), m_end, k);
        assert Element(mem, pairs[k]);
        var me := mem[le].m_object;
        if mem[mem[me].m_key].text == key {
          assert Keys(Contents())[k] == key;
          return Iter(me, le), k;
        }
        k := k + 1;
        Step(mem, m_begin, Nodes(pairs), m_end, k);
        le := mem[le].m_next;
      }
      return Iter(NULL, m_end), k;
    }

    /** atf_map_insert.  No other block of the heap changes, and none is lost. */
    method Insert(key: string, value: Ptr, managed: bool)
      requires Valid() && (managed ==> Block(mem, value) && value !in Foot(pairs))
      modifies this
      ensures Valid() && Contents() == Put(old(Contents()), key, Value(value, managed))
      ensures forall p | Block(old(mem), p) && p !in old(Foot(pairs)) :: p in mem && mem[p] == old(mem[p])
      ensures TextsStay(old(mem), mem)
      ensures mem.Keys - Blocks() == old(mem.Keys - Blocks()) - if managed then {value} else {}
    {
      hide MapAt, EntrySet, Foot, Put, Bindings, Keys;
      var iter, k := Find(key);
      if iter.m_entry == NULL {
        Append(key, value, managed);
      } else {
        ghost var e := pairs[k];
        ElementOf(mem, m_begin, pairs, m_end, k);
        MapUpdates(mem, m_begin, pairs, m_end, k, Value(value, managed));
        var me := iter.m_entry;
        if mem[me].m_managed { Free(mem[me].m_value); }
        mem := mem[me := mem[me].(m_value := value, m_managed := managed)];
        assert mem == Updated(old(mem), e, Value(value, managed));
        pairs := pairs[k := e.(value := Value(value, managed))];
        SameEntries(old(pairs), k, e.(value := Value(value, managed)));
      }
    }

    /** The insertion of a new key. */
    method Append(key: string, value: Ptr, managed: bool)
      requires Valid() && key !in Keys(Contents()) && (managed ==> Block(mem, value) && value !in Foot(pairs))
      modifies this
      ensures Valid() && Contents() == Put(old(Contents()), key, Value(value, managed))
      ensures forall p | Block(old(mem), p) && p !in old(Foot(pairs)) :: p in mem && mem[p] == old(mem[p])
      ensures TextsStay(old(mem), mem)
      ensures mem.Keys - Blocks() == old(mem.Keys - Blocks()) - if managed then {value} else {}
    {
      hide MapAt, EntrySet, Foot, Put, Bindings, Keys, Block, Entries, Nodes, Left, Appended;
      EndIsEntry(mem, m_begin, pairs, m_end);
      var me := NewEntry(key, value, managed);
      ghost var m_key := mem[me].m_key;
      var le := ListAppend(me, false);
      ghost var e := Pair(le, me, m_key, key, Value(value, managed));
      ghost var prev := old(mem)[m_end].m_prev;
      MapAppends(old(mem), m_begin, pairs, m_end, e);
      InsertedKeeps(old(mem), e, prev, m_end);
      MoreEntries(pairs, e);
      pairs := pairs + [e];
    }

    /** atf_detail_map_new_entry, with its strdup. */
    method NewEntry(key: string, value: Ptr, managed: bool) returns (me: Ptr)
      requires NULL !in mem
      modifies this`mem
      ensures me !in old(mem) && me in mem && mem[me].MapEntry?
      ensures var k := mem[me].m_key;
              k !in old(mem) && me != k && NULL !in {me, k}
                && mem == old(mem)[k := Text(key)][me := MapEntry(k, value, managed)]
    {
      var m_key := Malloc(Text(key));
      me := Malloc(MapEntry(m_key, value, managed));
    }

    /** atf_list_append. */
    method ListAppend(data: Ptr, managed: bool) returns (le: Ptr)
      requires IsEntry(mem, m_end) && IsEntry(mem, mem[m_end].m_prev) && mem[m_end].m_prev != m_end
      modifies this`mem, this`m_size
      ensures le !in old(mem) && le != NULL && m_size == old(m_size) + 1
      ensures mem == Appended(old(mem), Node(le, data, managed), old(mem[m_end].m_prev), m_end)
    {
      var next := m_end;
      var prev := mem[next].m_prev;
      le := Malloc(ListEntry(NULL, NULL, data, managed));
      mem := mem[le := mem[le].(m_prev := prev, m_next := next)];
      mem := mem[prev := mem[prev].(m_next := le)];
      mem := mem[next := mem[next].(m_prev := le)];
      m_size := m_size + 1;
    }

    /** atf_list_fini: m_size + 2 entries are freed, with the managed objects and nothing else. */
    method ListFini(ghost nodes: seq<Node>) returns (freed: nat)
      requires List(mem, m_begin, nodes, m_end) && Objects(mem, nodes) && m_size == |nodes|
      modifies this`mem
      ensures freed == m_size + 2
      ensures mem == old(mem) - Gone(m_begin, nodes, m_end, m_size + 2)
    {
      hide List, Objects, Gone, ObjectAt, EntryAt;
      var le := m_begin;
      freed := 0;
      FirstEntry(m_begin, nodes, m_end);
      NextEntry(mem, m_begin, nodes, m_end, 0);
      while le != NULL
        invariant freed <= m_size + 2 && mem == old(mem) - Gone(m_begin, nodes, m_end, freed)
        invariant if freed == m_size + 2 then le == NULL else le == EntryAt(m_begin, nodes, m_end, freed) && le != NULL
        decreases m_size + 2 - freed
      {
        NextEntry(old(mem), m_begin, nodes, m_end, freed);
        NotGone(old(mem), m_begin, nodes, m_end, freed, freed);
        var lenext := mem[le].m_next;
        if mem[le].m_managed { Free(mem[le].m_object); }
        Free(le);
        le := lenext;
        freed := freed + 1;
        GoneGrows(m_begin, nodes, m_end, freed);
        if freed < m_size + 2 { NextEntry(old(mem), m_begin, nodes, m_end, freed); }
      }
    }

    /** atf_map_fini: every block of the map is freed once, and nothing else. */
    method Fini()
      requires Valid()
      modifies this`mem
      ensures mem.Keys == old(mem.Keys - Blocks()) && forall p | p in mem :: mem[p] == old(mem[p])
    {
      hide List, Elements, Separate, Foot, Keys, Bindings, Nodes, Right, Entries, Holds;
      ghost var k := 0;
      FootOne(pairs, 0);
      Step(mem, m_begin, Nodes(pairs), m_end, 0);
      var le := mem[m_begin].m_next;
      while le != m_end
        invariant k <= |pairs| && le == Right(m_end, Entries(Nodes(pairs))[k..]) && (le == m_end <==> k == |pairs|)
        invariant mem == old(mem) - Foot(pairs[..k])
        decreases |pairs| - k
      {
        MapStep(old(mem), m_begin, pairs, m_end, k);
        FootOne(pairs, k);
        FootIsNoEntry(old(mem), m_begin, pairs, m_end, k);
        var me := mem[le].m_object;
        if mem[me].m_managed { Free(mem[me].m_value); }
        Free(mem[me].m_key);
        Free(me);
        MapStep(old(mem), m_begin, pairs, m_end, k + 1);
        le := mem[le].m_next;
        k := k + 1;
      }
      assert pairs[..k] == pairs;
      ListLeft(old(mem), mem, m_begin, pairs, m_end);
      var freed := ListFini(Nodes(pairs));
      GoneIs(m_begin, pairs, m_end, |pairs| + 2);
    }

    /** The keys and values, which are strings. */
    ghost function Strings(): seq<(string, string)>
      reads this
      requires AllText(mem, Contents())
    {
      TextsOf(mem, Contents())
    }

    /** atf_map_to_charpp. */
    method ToCharpp() returns (a: array<CharPtr>)
      requires Valid() && AllText(mem, Contents())
      ensures fresh(a) && a[..] == CharPtrs(Flat(Strings())) + [Null]
    {
      hide MapAt, AllText, Element, Keys, Nodes, Right, Entries, Flat, TextsOf, Bindings;
      ghost var strings := Strings();
      a := new CharPtr[m_size * 2 + 1](_ => Null);
      ghost var k := 0;
      var i := 0;
      IterStep(mem, m_begin, pairs, m_end, 0);
      FlatGrows(strings, 0);
      var iter := Iter(mem[mem[m_begin].m_next].m_object, mem[m_begin].m_next);
      while iter.m_entry != NULL
        invariant k <= |pairs| == |strings| && i == 2 * k && iter.m_listiter == Right(m_end, Entries(Nodes(pairs))[k..])
        invariant iter.m_listiter in mem && mem[iter.m_listiter].ListEntry?
        invariant iter.m_entry == mem[iter.m_listiter].m_object
        invariant iter.m_entry == NULL <==> k == |pairs|
        invariant a[..i] == CharPtrs(Flat(strings[..k]))
        decreases |pairs| - k
      {
        IterStep(mem, m_begin, pairs, m_end, k);
        FlatGrows(strings, k);
        a[i] := Str(mem[mem[iter.m_entry].m_key].text);
        a[i + 1] := Str(mem[mem[iter.m_entry].m_value].text);
        assert a[..i + 2] == a[..i] + [a[i], a[i + 1]];
        i := i + 2;
        k := k + 1;
        IterStep(mem, m_begin, pairs, m_end, k);
        var le := mem[iter.m_listiter].m_next;
        iter := Iter(mem[le].m_object, le);
      }
      a[i] := Null;
      assert strings[..k] == strings;
      assert a[..] == a[..i] + [Null];
    }

    /** strdup. */
    method Strdup(text: string) returns (p: Ptr)
      requires Valid()
      modifies this`mem
      ensures Valid() && p !in old(mem) && p !in Foot(pairs) && mem == old(mem)[p := Text(text)]
      ensures mem.Keys - Blocks() == old(mem.Keys - Blocks()) + {p}
    {
      hide MapAt, Foot, EntrySet;
      p := Malloc(Text(text));
      MapExtends(old(mem), m_begin, pairs, m_end, p, Text(text));
    }

    /** One key and its value, as in atf_map_init_charpp. */
    method InsertText(key: string, value: string)
      requires Valid() && AllManaged(Contents()) && AllText(mem, Contents())
      modifies this
      ensures Valid() && AllManaged(Contents()) && AllText(mem, Contents())
      ensures Strings() == Put(old(Strings()), key, value)
      ensures mem.Keys - Blocks() == old(mem.Keys - Blocks())
      ensures forall p | Block(old(mem), p) && p !in old(Foot(pairs)) :: p in mem && mem[p] == old(mem[p])
    {
      hide MapAt, Foot, EntrySet, Put, AllText, AllManaged, Bindings, TextsOf;
      ghost var kvs := Contents();
      var p := Strdup(value);
      ghost var h := mem;
      TextsKept(old(mem), h, kvs);
      Insert(key, p, true);
      ManagedAreLive(mem, m_begin, pairs, m_end);
      TextsPut(h, mem, kvs, key, Value(p, true), value);
    }
  }

  ghost predicate AllManaged(kvs: seq<(string, Value)>) {
    forall i | 0 <= i < |kvs| :: kvs[i].1.managed
  }

  lemma MapExtends(h: Mem, begin: Ptr, pairs: seq<Pair>, end: Ptr, p: Ptr, cell: Cell)
    requires MapAt(h, begin, pairs, end) && p !in h && p != NULL
    ensures MapAt(h[p := cell], begin, pairs, end)
    ensures p !in Foot(pairs) && p !in EntrySet(pairs) && p != begin && p != end
  {
    EntriesAreLive(h, begin, Nodes(pairs), end);
    ListFrame(h, h[p := cell], begin, Nodes(pairs), end);
    FootIsLive(h, pairs);
    forall k | 0 <= k < |pairs| ensures Element(h[p := cell], pairs[k]) { assert Element(h, pairs[k]); }
  }

  lemma ManagedAreLive(h: Mem, begin: Ptr, pairs: seq<Pair>, end: Ptr)
    requires MapAt(h, begin, pairs, end)
    ensures forall i | 0 <= i < |pairs| && Bindings(pairs)[i].1.managed :: Bindings(pairs)[i].1.p in h
  {
    forall i | 0 <= i < |pairs| && Bindings(pairs)[i].1.managed ensures Bindings(pairs)[i].1.p in h {
      assert Element(h, pairs[i]);
    }
  }

  lemma TextsKept(h: Mem, g: Mem, kvs: seq<(string, Value)>)
    requires AllText(h, kvs) && forall p | p in h :: p in g && g[p] == h[p]
    ensures AllText(g, kvs) && TextsOf(g, kvs) == TextsOf(h, kvs)
  {
  }

  /** Insertion, seen through the strings the values point to. */
  lemma {:induction false} TextsPut(h: Mem, g: Mem, kvs: seq<(string, Value)>, k: string, v: Value, t: string)
    requires AllText(h, kvs) && AllManaged(kvs) && TextsStay(h, g) && v.managed && v.p in g && g[v.p] == Text(t)
    requires forall i | 0 <= i < |Put(kvs, k, v)| && Put(kvs, k, v)[i].1.managed :: Put(kvs, k, v)[i].1.p in g
    ensures AllManaged(Put(kvs, k, v)) && AllText(g, Put(kvs, k, v))
    ensures TextsOf(g, Put(kvs, k, v)) == Put(TextsOf(h, kvs), k, t)
  {
    var r := Put(kvs, k, v);
    if kvs == [] {
    } else {
      assert TextsOf(h, kvs) == [(kvs[0].0, h[kvs[0].1.p].text)] + TextsOf(h, kvs[1..]);
      if kvs[0].0 != k {
        assert r[1..] == Put(kvs[1..], k, v);
        forall i | 0 <= i < |r[1..]| && r[1..][i].1.managed ensures r[1..][i].1.p in g { assert r[1..][i] == r[i + 1]; }
        TextsPut(h, g, kvs[1..], k, v, t);
        forall i | 0 <= i < |r| ensures r[i].1.managed && r[i].1.p in g && g[r[i].1.p].Text? {
          if i == 0 { assert r[0] == kvs[0]; } else { assert r[i] == r[1..][i - 1]; }
        }
        assert TextsOf(g, r) == [(r[0].0, g[r[0].1.p].text)] + TextsOf(g, r[1..]);
      } else {
        forall i | 0 <= i < |r| ensures r[i].1.managed && r[i].1.p in g && g[r[i].1.p].Text? {
          if i > 0 { assert r[i] == kvs[i]; }
        }
        assert TextsOf(g, r) == [(k, t)] + TextsOf(h, kvs[1..]);
      }
    }
  }

  /** Where a map iterator is, and the strings it finds there. */
  lemma IterStep(h: Mem, begin: Ptr, pairs: seq<Pair>, end: Ptr, k: nat)
    requires MapAt(h, begin, pairs, end) && AllText(h, Bindings(pairs)) && k <= |pairs|
    ensures IsEntry(h, begin) && h[begin].m_next == Right(end, Entries(Nodes(pairs))[0..])
    ensures |TextsOf(h, Bindings(pairs))| == |pairs|
    ensures var le := Right(end, Entries(Nodes(pairs))[k..]);
            && IsEntry(h, le) && (h[le].m_object == NULL <==> k == |pairs|)
            && (k < |pairs| ==>
                  var me := h[le].m_object;
                  && h[le].m_next == Right(end, Entries(Nodes(pairs))[k + 1..])
                  && me in h && h[me].MapEntry? && h[me].m_key in h && h[h[me].m_key].Text? && h[me].m_value in h
                  && h[h[me].m_value].Text?
                  && TextsOf(h, Bindings(pairs))[k] == (h[h[me].m_key].text, h[h[me].m_value].text))
  {
    hide Chain, Separate, Unique, Keys;
    Step(h, begin, Nodes(pairs), end, 0);
    MapStep(h, begin, pairs, end, k);
    if k < |pairs| { assert Bindings(pairs)[k].1 == pairs[k].value; }
  }

  lemma FirstEntry(begin: Ptr, nodes: seq<Node>, end: Ptr)
    ensures EntryAt(begin, nodes, end, 0) == begin && Gone(begin, nodes, end, 0) == {}
  {
  }

  lemma GoneGrows(begin: Ptr, nodes: seq<Node>, end: Ptr, k: nat)
    requires k > 0
    ensures Gone(begin, nodes, end, k)
            == Gone(begin, nodes, end, k - 1) + {EntryAt(begin, nodes, end, k - 1)} + ObjectAt(nodes, k - 1)
  {
  }

  lemma NextEntry(h: Mem, begin: Ptr, nodes: seq<Node>, end: Ptr, k: nat)
    requires List(h, begin, nodes, end) && k <= |nodes| + 1
    ensures var le := EntryAt(begin, nodes, end, k);
            && IsEntry(h, le) && le != NULL
            && h[le].m_next == (if k == |nodes| + 1 then NULL else EntryAt(begin, nodes, end, k + 1))
            && ObjectAt(nodes, k) == if h[le].m_managed then {h[le].m_object} else {}
  {
    if k <= |nodes| {
      Step(h, begin, nodes, end, k);
      if k > 0 { Step(h, begin, nodes, end, k - 1); }
      if k < |nodes| { assert Entries(nodes)[k..][0] == nodes[k].le; }
    }
  }

  lemma FootOne(pairs: seq<Pair>, k: nat)
    requires k <= |pairs|
    ensures k == 0 ==> Foot(pairs[..k]) == {}
    ensures k < |pairs| ==> Foot(pairs[..k + 1]) == Foot(pairs[..k]) + Owned(pairs[k])
    ensures k < |pairs| && Separate(pairs) ==> Foot(pairs[..k]) !! Owned(pairs[k]) && Whole(pairs[k])
  {
    FootNone();
    hide Foot, Separate, Whole, Owned;
    assert k == 0 ==> pairs[..k] == [];
    if k < |pairs| {
      var q := pairs[..k + 1];
      assert q[..|q| - 1] == pairs[..k] && q[|q| - 1] == pairs[k];
      FootLast(q);
      if Separate(pairs) { SeparatePrefix(pairs, k + 1); }
    }
  }

  lemma FootNone()
    ensures Foot([]) == {}
  {
  }

  lemma FootLast(q: seq<Pair>)
    requires q != []
    ensures Foot(q) == Foot(q[..|q| - 1]) + Owned(q[|q| - 1])
    ensures Separate(q) ==> Foot(q[..|q| - 1]) !! Owned(q[|q| - 1]) && Whole(q[|q| - 1])
  {
  }

  lemma {:induction false} SeparatePrefix(pairs: seq<Pair>, k: nat)
    requires Separate(pairs) && k <= |pairs|
    ensures Separate(pairs[..k])
  {
    if k < |pairs| {
      SeparatePrefix(pairs[..|pairs| - 1], k);
      assert pairs[..|pairs| - 1][..k] == pairs[..k];
    } else {
      assert pairs[..k] == pairs;
    }
  }

  /** Where a walk along the map is. */
  lemma MapStep(h: Mem, begin: Ptr, pairs: seq<Pair>, end: Ptr, k: nat)
    requires MapAt(h, begin, pairs, end) && k <= |pairs|
    ensures Right(end, Entries(Nodes(pairs))[k..]) == end <==> k == |pairs|
    ensures k < |pairs| ==>
              var e := pairs[k];
              && Right(end, Entries(Nodes(pairs))[k..]) == e.le && IsEntry(h, e.le) && h[e.le].m_object == e.me
              && Element(h, e)
              && h[e.le].m_next == Right(end, Entries(Nodes(pairs))[k + 1..])
  {
    Step(h, begin, Nodes(pairs), end, k);
    if k < |pairs| { assert Element(h, pairs[k]); }
  }

  lemma FootIsNoEntry(h: Mem, begin: Ptr, pairs: seq<Pair>, end: Ptr, k: nat)
    requires MapAt(h, begin, pairs, end) && k < |pairs|
    ensures pairs[k].le !in Foot(pairs[..k]) && pairs[k].le !in Owned(pairs[k])
  {
    MapStep(h, begin, pairs, end, k);
    FootIsLive(h, pairs[..k]);
  }

  lemma ListLeft(h: Mem, g: Mem, begin: Ptr, pairs: seq<Pair>, end: Ptr)
    requires MapAt(h, begin, pairs, end) && g == h - Foot(pairs)
    ensures List(g, begin, Nodes(pairs), end) && Objects(g, Nodes(pairs))
  {
    FootIsLive(h, pairs);
    forall p | p in h && (p == begin || p == end || p in Entries(Nodes(pairs))) ensures IsEntry(h, p) {
      if p in Entries(Nodes(pairs)) {
        var j :| 0 <= j < |pairs| && Entries(Nodes(pairs))[j] == p;
        assert Holds(h, Nodes(pairs)[j]);
      }
    }
    ListFrame(h, g, begin, Nodes(pairs), end);
  }

  lemma {:induction false} GoneIs(begin: Ptr, pairs: seq<Pair>, end: Ptr, k: nat)
    requires k <= |pairs| + 2
    ensures Gone(begin, Nodes(pairs), end, k)
            == (if k > 0 then {begin} else {}) + (if k == |pairs| + 2 then {end} else {})
               + EntrySet(pairs[..if k == 0 then 0 else if k > |pairs| + 1 then |pairs| else k - 1])
  {
    if k > 0 { GoneIs(begin, pairs, end, k - 1); }
    if k <= 1 || k > |pairs| + 1 {
    } else {
      assert pairs[..k - 1] == pairs[..k - 2] + [pairs[k - 2]];
      MoreEntries(pairs[..k - 2], pairs[k - 2]);
    }
  }

  ghost predicate AllText(h: Mem, kvs: seq<(string, Value)>) {
    forall i | 0 <= i < |kvs| :: kvs[i].1.p in h && h[kvs[i].1.p].Text?
  }

  ghost function TextsOf(h: Mem, kvs: seq<(string, Value)>): (r: seq<(string, string)>)
    requires AllText(h, kvs)
  {
    seq(|kvs|, i requires 0 <= i < |kvs| => (kvs[i].0, h[kvs[i].1.p].text))
  }

  function CharPtrs(s: seq<string>): (r: seq<CharPtr>)
    ensures |r| == |s|
  {
    seq(|s|, i requires 0 <= i < |s| => Str(s[i]))
  }

  /** Keys and values in turn. */
  function Flat(kvs: seq<(string, string)>): (s: seq<string>) {
    if kvs == [] then [] else Flat(kvs[..|kvs| - 1]) + [kvs[|kvs| - 1].0, kvs[|kvs| - 1].1]
  }

  lemma FlatGrows(kvs: seq<(string, string)>, k: nat)
    requires k <= |kvs|
    ensures k == 0 ==> Flat(kvs[..k]) == []
    ensures k < |kvs| ==> Flat(kvs[..k + 1]) == Flat(kvs[..k]) + [kvs[k].0, kvs[k].1]
  {
    if k < |kvs| { assert kvs[..k + 1][..k] == kvs[..k]; }
  }

  lemma EndIsEntry(h: Mem, begin: Ptr, pairs: seq<Pair>, end: Ptr)
    requires MapAt(h, begin, pairs, end)
    ensures IsEntry(h, end) && IsEntry(h, h[end].m_prev) && h[end].m_prev != end && NULL !in h
  {
    EntriesAreLive(h, begin, Nodes(pairs), end);
    LastIs(LinksOf(h), begin, Entries(Nodes(pairs)), end);
  }

  /** Strings are not changed before they are freed. */
  ghost predicate TextsStay(h: Mem, g: Mem) {
    forall p | p in h && h[p].Text? && p in g :: g[p] == h[p]
  }

  lemma InsertedKeeps(h: Mem, e: Pair, prev: Ptr, end: Ptr)
    requires IsEntry(h, prev) && IsEntry(h, end) && e.me !in h && e.key !in h && e.le !in h
    ensures var g := Inserted(h, e, prev, end);
            && g.Keys == h.Keys + {e.le, e.me, e.key} && TextsStay(h, g)
            && forall p | Block(h, p) :: p in g && g[p] == h[p]
  {
  }

  ghost function EntrySet(pairs: seq<Pair>): set<Ptr> { set p | p in Entries(Nodes(pairs)) }

  lemma MoreEntries(pairs: seq<Pair>, e: Pair)
    ensures EntrySet(pairs + [e]) == EntrySet(pairs) + {e.le}
  {
    assert Entries(Nodes(pairs + [e])) == Entries(Nodes(pairs)) + [e.le];
  }

  lemma SameEntries(pairs: seq<Pair>, k: nat, e: Pair)
    requires k < |pairs| && e.le == pairs[k].le && e.me == pairs[k].me
    ensures EntrySet(pairs[k := e]) == EntrySet(pairs)
  {
    assert Entries(Nodes(pairs[k := e])) == Entries(Nodes(pairs));
  }

  lemma ElementOf(h: Mem, begin: Ptr, pairs: seq<Pair>, end: Ptr, k: nat)
    requires MapAt(h, begin, pairs, end) && k < |pairs|
    ensures Element(h, pairs[k]) && Owned(pairs[k]) <= Foot(pairs) && Whole(pairs[k])
    ensures begin in h && end in h && forall p | p in Foot(pairs) :: Block(h, p)
    ensures IsEntry(h, begin) && IsEntry(h, end) && forall p | p in EntrySet(pairs) :: IsEntry(h, p)
  {
    FootHas(pairs, k);
    FootIsLive(h, pairs);
    forall p | p in EntrySet(pairs) ensures IsEntry(h, p) {
      var j :| 0 <= j < |pairs| && Entries(Nodes(pairs))[j] == p;
      assert Holds(h, Nodes(pairs)[j]);
    }
  }

  ghost function Unallocated(h: Mem): (p: Ptr)
    ensures p != NULL && p !in h
  {
    Bound(h.Keys)
  }

  ghost function Bound(s: set<Ptr>): (b: Ptr)
    ensures b != NULL && forall p | p in s :: p < b
  {
    if exists p :: p in s then
      var p :| p in s;
      var b := Bound(s - {p});
      assert forall q | q in s :: q == p || q in s - {p};
      if p < b then b else p + 1
    else 1
  }

  // ---------------------------------------------------------------- string arrays

  /** The strings of an array, two by two. */
  function PairsOf(strings: seq<string>): (kvs: seq<(string, string)>) {
    seq(|strings| / 2, i requires 0 <= i < |strings| / 2 => (strings[2 * i], strings[2 * i + 1]))
  }

  lemma {:induction false} FlatIs(kvs: seq<(string, string)>)
    ensures |Flat(kvs)| == 2 * |kvs| && PairsOf(Flat(kvs)) == kvs
    ensures forall k | 0 <= k < |kvs| :: Flat(kvs)[2 * k] == kvs[k].0 && Flat(kvs)[2 * k + 1] == kvs[k].1
  {
    if kvs == [] {
    } else {
      var n := |kvs| - 1;
      FlatIs(kvs[..n]);
      assert PairsOf(Flat(kvs)) == PairsOf(Flat(kvs[..n])) + [kvs[n]];
    }
  }

  lemma PairsGrow(strings: seq<string>, i: nat)
    requires 2 * i + 1 < |strings|
    ensures PairsOf(strings[..2 * i + 2]) == PairsOf(strings[..2 * i]) + [(strings[2 * i], strings[2 * i + 1])]
    ensures PutAll(PairsOf(strings[..2 * i + 2]))
          == Put(PutAll(PairsOf(strings[..2 * i])), strings[2 * i], strings[2 * i + 1])
  {
    var (a, b) := (PairsOf(strings[..2 * i + 2]), PairsOf(strings[..2 * i]));
    assert a == b + [(strings[2 * i], strings[2 * i + 1])];
    assert a[..|a| - 1] == b;
  }

  /** atf_map_init_charpp.  It fails for an odd number of strings, and then nothing is left allocated. */
  method InitCharpp(heap: Mem, a: array?<CharPtr>, ghost strings: seq<string>) returns (m: Map, ok: bool)
    requires NULL !in heap
    requires if a == null then strings == [] else CharPtrs(strings) + [Null] <= a[..]
    ensures fresh(m) && (ok <==> |strings| % 2 == 0)
    ensures ok ==> m.Valid() && AllText(m.mem, m.Contents()) && m.Strings() == PutAll(PairsOf(strings))
    ensures m.mem.Keys - (if ok then m.Blocks() else {}) == heap.Keys
  {
    hide Put, PutAll, TextsOf, Foot, EntrySet, MapAt;
    m := new Map(heap);
    ok := true;
    EmptyMap(m.mem, m.m_begin, m.m_end);
    if a != null {
      ghost var i := 0;
      var ptr := 0;
      while ok && a[ptr] != Null
        invariant m.Valid() && AllManaged(m.Contents()) && AllText(m.mem, m.Contents())
        invariant m.mem.Keys - m.Blocks() == heap.Keys
        invariant 2 * i <= |strings| && ptr == if ok then 2 * i else |strings|
        invariant m.Strings() == PutAll(PairsOf(strings[..2 * i]))
        invariant ok || |strings| == 2 * i + 1
        decreases |strings| - 2 * i, ok
      {
        assert a[ptr] == (CharPtrs(strings) + [Null])[ptr];
        var key := a[ptr].text;
        ptr := ptr + 1;
        var value := a[ptr];
        assert a[ptr] == (CharPtrs(strings) + [Null])[ptr];
        if value == Null {
          ok := false;
        } else {
          ptr := ptr + 1;
          m.InsertText(key, value.text);
          PairsGrow(strings, i);
          i := i + 1;
        }
      }
      assert strings[..2 * i] == strings || |strings| == 2 * i + 1;
      if ok { assert a[ptr] == (CharPtrs(strings) + [Null])[ptr]; }
    }
    if !ok { m.Fini(); }
  }

  lemma EmptyMap(h: Mem, begin: Ptr, end: Ptr)
    ensures AllText(h, Bindings([])) && TextsOf(h, Bindings([])) == PutAll(PairsOf([])) == []
    ensures AllManaged(Bindings([]))
    ensures Foot([]) == {} && EntrySet([]) == {}
  {
  }

  /** A map of strings, written to an array and read back, is the same map in the same order. */
  method RoundTrip(m: Map) returns (copy: Map)
    requires m.Valid() && AllText(m.mem, m.Contents())
    ensures fresh(copy) && copy.Valid() && AllText(copy.mem, copy.Contents()) && copy.Strings() == m.Strings()
  {
    var a := m.ToCharpp();
    var ok;
    FlatIs(m.Strings());
    copy, ok := InitCharpp(map[], a, Flat(m.Strings()));
    assert Keys(m.Strings()) == Keys(m.Contents());
    PutAllSame(m.Strings());
  }
}
