/** Doubly linked chains of cells, as maps from addresses to links. */
module DoublyLinked {
  type Ptr = nat

  datatype Links = Links(next: Ptr, prev: Ptr)

  type LinkMap = map<Ptr, Links>

  ghost predicate Link(h: LinkMap, p: Ptr, q: Ptr) {
    p in h && q in h && h[p].next == q && h[q].prev == p
  }

  /** The nodes ps lead from p to q, and back. */
  ghost predicate Chain(h: LinkMap, p: Ptr, ps: seq<Ptr>, q: Ptr)
    decreases ps
  {
    if ps == [] then Link(h, p, q) else Link(h, p, ps[0]) && Chain(h, ps[0], ps[1..], q)
  }

  ghost predicate Distinct(ps: seq<Ptr>) {
    ps != [] ==> ps[0] !in ps[1..] && Distinct(ps[1..])
  }

  lemma {:induction false} ChainSplits(h: LinkMap, p: Ptr, a: seq<Ptr>, x: Ptr, b: seq<Ptr>, q: Ptr)
    ensures Chain(h, p, a + [x] + b, q) <==> Chain(h, p, a, x) && Chain(h, x, b, q)
    decreases a
  {
    if a == [] {
      assert a + [x] + b == [x] + b;
      assert ([x] + b)[1..] == b;
    } else {
      assert (a + [x] + b)[1..] == a[1..] + [x] + b;
      ChainSplits(h, a[0], a[1..], x, b, q);
    }
  }

  /** What a chain depends on: next of its start, prev of its end, and both between. */
  lemma {:induction false} ChainFrame(h: LinkMap, g: LinkMap, p: Ptr, ps: seq<Ptr>, q: Ptr)
    requires Chain(h, p, ps, q)
    requires p in h && q in h && p in g && q in g && g[p].next == h[p].next && g[q].prev == h[q].prev
    requires forall r | r in ps && r in h :: r in g && g[r].next == h[r].next && g[r].prev == h[r].prev
    ensures Chain(g, p, ps, q)
    decreases ps
  {
    if ps == [] {
    } else {
      assert ps[0] in ps;
      assert ps[0] in h by { if ps[1..] == [] {} }
      ChainFrame(h, g, ps[0], ps[1..], q);
    }
  }

  lemma {:induction false} DistinctSplits(a: seq<Ptr>, b: seq<Ptr>)
    requires Distinct(a + b)
    ensures Distinct(a) && Distinct(b) && forall p | p in a :: p !in b
  {
    if a == [] {
      assert a + b == b;
    } else {
      assert (a + b)[1..] == a[1..] + b;
      DistinctSplits(a[1..], b);
    }
  }

  lemma {:induction false} DistinctAppends(a: seq<Ptr>, x: Ptr)
    requires Distinct(a) && x !in a
    ensures Distinct(a + [x])
  {
    if a == [] {
    } else {
      assert (a + [x])[1..] == a[1..] + [x];
      DistinctAppends(a[1..], x);
    }
  }

  lemma {:induction false} DistinctAt(a: seq<Ptr>, j: nat, k: nat)
    requires Distinct(a) && j < k < |a|
    ensures a[j] != a[k]
  {
    if j > 0 { DistinctAt(a[1..], j - 1, k - 1); } else { assert a[1..][k - 1] == a[k]; }
  }

  /** The cell before the end of a chain. */
  lemma LastIs(h: LinkMap, p: Ptr, a: seq<Ptr>, q: Ptr)
    requires Chain(h, p, a, q)
    ensures Link(h, Left(p, a), q)
  {
    if a != [] {
      assert a[..|a| - 1] + [a[|a| - 1]] + [] == a;
      ChainSplits(h, p, a[..|a| - 1], a[|a| - 1], [], q);
    }
  }

  /** g is h but for the two assignments that make l and r neighbours. */
  ghost predicate Joined(h: LinkMap, g: LinkMap, l: Ptr, r: Ptr) {
    && g.Keys == h.Keys && Link(g, l, r)
    && forall p | p in h :: p in g && (p != l ==> g[p].next == h[p].next) && (p != r ==> g[p].prev == h[p].prev)
  }

  lemma LeftPart(h: LinkMap, g: LinkMap, head: Ptr, a: seq<Ptr>, x: Ptr, l: Ptr, r: Ptr)
    requires Chain(h, head, a, x) && a != [] && l == a[|a| - 1] && Joined(h, g, l, r)
    requires Distinct(a) && head !in a && r !in a
    ensures Link(h, l, x) && Chain(g, head, a[..|a| - 1], l)
  {
    assert a[..|a| - 1] + [l] + [] == a;
    ChainSplits(h, head, a[..|a| - 1], l, [], x);
    assert Distinct(a[..|a| - 1] + [l]) by { assert a[..|a| - 1] + [l] == a; }
    DistinctSplits(a[..|a| - 1], [l]);
    ChainEnds(h, head, a[..|a| - 1], l);
    ChainFrame(h, g, head, a[..|a| - 1], l);
  }

  lemma RightPart(h: LinkMap, g: LinkMap, head: Ptr, x: Ptr, b: seq<Ptr>, l: Ptr, r: Ptr)
    requires Chain(h, x, b, head) && b != [] && r == b[0] && Joined(h, g, l, r)
    requires Distinct(b) && head !in b && l !in b
    ensures Link(h, x, r) && Chain(g, r, b[1..], head)
  {
    ChainEnds(h, r, b[1..], head);
    ChainFrame(h, g, r, b[1..], head);
  }

  lemma {:induction false} ChainEnds(h: LinkMap, p: Ptr, ps: seq<Ptr>, q: Ptr)
    requires Chain(h, p, ps, q)
    ensures p in h && q in h
    decreases ps
  {
    if ps == [] {
    } else {
      ChainEnds(h, ps[0], ps[1..], q);
    }
  }

  /** Neighbours joined, the ring closes without x. */
  lemma RingCloses(h: LinkMap, g: LinkMap, head: Ptr, a: seq<Ptr>, x: Ptr, b: seq<Ptr>, l: Ptr, r: Ptr)
    requires Chain(h, head, a + [x] + b, head) && Distinct(a + [x] + b) && head !in a + [x] + b
    requires l == Left(head, a) && r == Right(head, b)
    ensures Link(h, l, x) && Link(h, x, r)
    ensures Joined(h, g, l, r) ==> Chain(g, head, a + b, head)
  {
    ChainSplits(h, head, a, x, b, head);
    DistinctSplits(a + [x], b);
    DistinctSplits(a, [x]);
    assert forall p | p in a :: p in a + [x];
    if a != [] {
      assert a[..|a| - 1] + [l] + [] == a;
      ChainSplits(h, head, a[..|a| - 1], l, [], x);
    }
    if Joined(h, g, l, r) {
      if a != [] { LeftPart(h, g, head, a, x, l, r); }
      if b != [] { RightPart(h, g, head, x, b, l, r); }
      Rejoin(g, head, a, b, l, r);
    }
  }

  function Left(head: Ptr, a: seq<Ptr>): Ptr { if a == [] then head else a[|a| - 1] }
  function Right(head: Ptr, b: seq<Ptr>): Ptr { if b == [] then head else b[0] }

  lemma Rejoin(g: LinkMap, head: Ptr, a: seq<Ptr>, b: seq<Ptr>, l: Ptr, r: Ptr)
    requires Link(g, l, r)
    requires if a == [] then l == head else l == a[|a| - 1] && Chain(g, head, a[..|a| - 1], l)
    requires if b == [] then r == head else r == b[0] && Chain(g, r, b[1..], head)
    ensures Chain(g, head, a + b, head)
  {
    assert Chain(g, l, b, head);
    if a == [] {
      assert a + b == b;
    } else {
      assert a[..|a| - 1] + [l] + b == a + b;
      ChainSplits(g, head, a[..|a| - 1], l, b, head);
    }
  }

  /** A new cell before the end of a chain. */
  lemma ChainAppends(h: LinkMap, g: LinkMap, p: Ptr, a: seq<Ptr>, x: Ptr, q: Ptr, l: Ptr)
    requires Chain(h, p, a, q) && l == Left(p, a) && Distinct(a) && p != q && p !in a && q !in a && x !in h
    requires Link(g, l, x) && Link(g, x, q)
    requires forall r | r in h :: r in g && (r != l ==> g[r].next == h[r].next) && (r != q ==> g[r].prev == h[r].prev)
    ensures Chain(g, p, a + [x], q)
  {
    if a != [] {
      var b := a[..|a| - 1];
      assert b + [l] + [] == a;
      ChainSplits(h, p, b, l, [], q);
      assert b + [l] == a;
      DistinctSplits(b, [l]);
      ChainEnds(h, p, b, l);
      ChainFrame(h, g, p, b, l);
      ChainSplits(g, p, b, l, [], x);
    }
    assert a + [x] + [] == a + [x];
    ChainSplits(g, p, a, x, [], q);
  }
}
