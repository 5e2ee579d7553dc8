/** alignalloc: aligned storage inside a malloc block, with the way back to the block hidden before it. */
module Alignalloc {
  type byte = x: int | 0 <= x < 256

  datatype Option<+T> = None | Some(value: T)

  const UCHAR_MAX := 255
  const SIZE_MAX := 0xFFFF_FFFF_FFFF_FFFF
  const SIZEOF_VOIDP := 8
  const ALIGNOF_VOIDP := 8

  // ---------------------------------------------------------------- powers of two

  function Pow2(k: nat): (p: nat)
    ensures p > 0
  {
    if k == 0 then 1 else 2 * Pow2(k - 1)
  }

  ghost predicate PowerOfTwo(a: nat) { exists k: nat :: a == Pow2(k) }

  /** The & of two numbers. */
  function And(x: nat, y: nat): (z: nat) {
    if x == 0 || y == 0 then 0 else And(x / 2, y / 2) * 2 + (if x % 2 == 1 && y % 2 == 1 then 1 else 0)
  }

  lemma {:induction false} AndUnfolds(x: nat, k: nat)
    requires k > 0
    ensures And(x, Pow2(k) - 1) == 2 * And(x / 2, Pow2(k - 1) - 1) + x % 2
  {
    var (p, h) := (Pow2(k), Pow2(k - 1));
    assert p == 2 * h;
    HalfMask(h);
    if p == 2 { assert And(x / 2, 0) == 0; }
  }

  lemma HalfMask(h: nat)
    requires h > 0
    ensures (2 * h - 1) / 2 == h - 1 && (2 * h - 1) % 2 == 1
  {
  }

  /** Masking with a power of two less one leaves the remainder. */
  lemma {:induction false} AndMasks(x: nat, k: nat) returns (q: nat)
    ensures And(x, Pow2(k) - 1) < Pow2(k) && x == q * Pow2(k) + And(x, Pow2(k) - 1)
  {
    if k == 0 {
      q := x;
    } else {
      q := AndMasks(x / 2, k - 1);
      AndUnfolds(x, k);
      var h := Pow2(k - 1);
      assert q * Pow2(k) == 2 * (q * h) by { Doubles(q, h); }
    }
  }

  lemma Doubles(q: nat, h: nat)
    ensures q * (2 * h) == 2 * (q * h)
  {
  }

  ghost predicate MultipleOf(x: int, a: nat) { exists q: int :: x == q * a }

  /** yalibct_internal_alignalloc_align_down, on addresses. */
  function AlignDown(p: nat, alignment: nat): (r: int)
    requires alignment > 0
  {
    p - And(p, alignment - 1)
  }

  /** The greatest multiple of a power of two that is not above p. */
  lemma AlignDownIs(p: nat, alignment: nat)
    requires PowerOfTwo(alignment)
    ensures p - alignment < AlignDown(p, alignment) <= p && MultipleOf(AlignDown(p, alignment), alignment)
  {
    var k: nat :| alignment == Pow2(k);
    var q := AndMasks(p, k);
    assert AlignDown(p, alignment) == q * alignment;
  }

  // ---------------------------------------------------------------- memory

  /** A pointer as its bytes, least significant first. */
  function Encode(p: nat, n: nat): (s: seq<byte>)
    ensures |s| == n
  {
    if n == 0 then [] else [p % 256] + Encode(p / 256, n - 1)
  }

  function Decode(s: seq<byte>): (p: nat) {
    if s == [] then 0 else s[0] + 256 * Decode(s[1..])
  }

  function Pow256(n: nat): nat { if n == 0 then 1 else 256 * Pow256(n - 1) }

  lemma {:induction false} DecodeEncode(p: nat, n: nat)
    requires p < Pow256(n)
    ensures Decode(Encode(p, n)) == p
  {
    if n == 0 {
    } else {
      assert Encode(p, n)[1..] == Encode(p / 256, n - 1);
      DecodeEncode(p / 256, n - 1);
    }
  }

  type Bytes = int -> byte

  function Load(mem: Bytes, a: nat, n: nat): (s: seq<byte>)
    decreases n
  {
    if n == 0 then [] else [mem(a)] + Load(mem, a + 1, n - 1)
  }

  function Store(mem: Bytes, a: int, s: seq<byte>): (m: Bytes) {
    x => if a <= x < a + |s| then s[x - a] else mem(x)
  }

  lemma {:induction false} LoadFrame(mem: Bytes, m: Bytes, a: nat, n: nat)
    requires forall x | a <= x < a + n :: m(x) == mem(x)
    ensures Load(m, a, n) == Load(mem, a, n)
    decreases n
  {
    if n == 0 {
    } else {
      LoadFrame(mem, m, a + 1, n - 1);
    }
  }

  lemma {:induction false} LoadStored(m: Bytes, a: nat, s: seq<byte>)
    requires forall x | a <= x < a + |s| :: m(x) == s[x - a]
    ensures Load(m, a, |s|) == s
    decreases |s|
  {
    if s == [] {
    } else {
      LoadStored(m, a + 1, s[1..]);
    }
  }

  // ---------------------------------------------------------------- the hidden header

  /** Where the pointer to the malloc block is, if the offset is too big for a byte. */
  function AddressOfPointer(r: nat): int
    requires r > 1 + SIZEOF_VOIDP
  {
    AlignDown(r - 1 - SIZEOF_VOIDP, ALIGNOF_VOIDP)
  }

  /** The slot lies below r - 1 and at most UCHAR_MAX below it. */
  lemma SlotIs(r: nat)
    requires r > UCHAR_MAX
    ensures var a := AddressOfPointer(r);
            r - 1 - UCHAR_MAX <= a && a + SIZEOF_VOIDP <= r - 1 && a >= 0 && MultipleOf(a, ALIGNOF_VOIDP)
  {
    assert Pow2(3) == ALIGNOF_VOIDP by { assert Pow2(1) == 2 && Pow2(2) == 4; }
    AlignDownIs(r - 1 - SIZEOF_VOIDP, ALIGNOF_VOIDP);
  }

  /** alignfree's way from r to the malloc block. */
  function BaseOf(mem: Bytes, r: nat): int
    requires r > 0 && (mem(r - 1) == 0 ==> r > UCHAR_MAX)
  {
    var offset := mem(r - 1);
    if offset != 0 then r - offset
    else
      SlotIs(r);
      Decode(Load(mem, AddressOfPointer(r), SIZEOF_VOIDP))
  }

  /** The header that alignalloc leaves between q and r. */
  ghost predicate Header(mem: Bytes, q: nat, r: nat) {
    && 0 < q < r && (mem(r - 1) == 0 ==> r > UCHAR_MAX + q) && BaseOf(mem, r) == q
  }

  /** The header depends on the bytes between q and r only. */
  lemma HeaderFrame(mem: Bytes, m: Bytes, q: nat, r: nat)
    requires Header(mem, q, r) && forall x | q <= x < r :: m(x) == mem(x)
    ensures Header(m, q, r)
  {
    if mem(r - 1) == 0 {
      SlotIs(r);
      LoadFrame(mem, m, AddressOfPointer(r), SIZEOF_VOIDP);
    }
  }

  // ---------------------------------------------------------------- allocation

  /** Storage handed out, inside the malloc block at `base`. */
  datatype Region = Region(base: nat, alignment: nat, size: nat)

  ghost predicate Apart(blocks: map<nat, nat>, q: nat, n: nat) {
    forall p | p in blocks :: p + blocks[p] <= q || q + n <= p
  }

  /** Storage r of region g: aligned, within the block, with its header below it. */
  ghost predicate Placed(mem: Bytes, blocks: map<nat, nat>, r: nat, g: Region) {
    && g.base in blocks && blocks[g.base] == g.alignment + g.size
    && g.base < r <= g.base + g.alignment && MultipleOf(r, g.alignment) && Header(mem, g.base, r)
  }

  /** Blocks do not overlap, and every storage handed out is placed in a block of its own. */
  ghost predicate Good(mem: Bytes, blocks: map<nat, nat>, live: map<nat, Region>) {
    && (forall p, q | p in blocks && q in blocks && p < q :: p + blocks[p] <= q)
    && (forall r | r in live :: Placed(mem, blocks, r, live[r]))
    && (forall r, s | r in live && s in live && r != s :: live[r].base != live[s].base)
  }

  class Memory {
    var mem: Bytes
    var blocks: map<nat, nat>           // the blocks malloc has handed out, and their sizes
    ghost var live: map<nat, Region>    // what alignalloc has handed out

    ghost predicate Valid()
      reads this
    {
      Good(mem, blocks, live)
    }

    constructor (mem: Bytes)
      ensures Valid() && live == map[] && blocks == map[]
    {
      this.mem, blocks, live := mem, map[], map[];
    }

    method Free(q: nat)
      requires q in blocks
      modifies this`blocks
      ensures blocks == old(blocks) - {q}
    {
      blocks := blocks - {q};
    }

    /** alignalloc.  What malloc answers is a parameter: nothing, or a block apart from all others. */
    method AlignAlloc(alignment: nat, size: nat, malloced: Option<nat>) returns (ptr: Option<nat>)
      requires Valid() && PowerOfTwo(alignment)
      requires malloced.Some? ==>
                 var q := malloced.value;
                 q > 0 && Apart(blocks, q, alignment + size) && q + alignment + size <= SIZE_MAX
      modifies this
      ensures Valid()
      ensures ptr.None? <==> size + alignment > SIZE_MAX || malloced.None?
      ensures ptr.None? ==> mem == old(mem) && blocks == old(blocks) && live == old(live)
      ensures ptr.Some? ==>
                var (r, q) := (ptr.value, malloced.value);
                && r !in old(live) && live == old(live)[r := Region(q, alignment, size)]
                && MultipleOf(r, alignment) && q < r && r + size <= q + (alignment + size)
                && blocks == old(blocks)[q := alignment + size]
                && forall x | !(q <= x < r) :: mem(x) == old(mem)(x)
    {
      hide MultipleOf, Header, PowerOfTwo, Good, Apart, Placed;
      if size + alignment > SIZE_MAX || malloced.None? { return None; }
      var q := malloced.value;
      blocks := blocks[q := size + alignment];
      AlignDownIs(q + alignment, alignment);
      var r := AlignDown(q + alignment, alignment);
      WriteHeader(q, r);
      StaysGood(old(mem), mem, old(blocks), old(live), q, r, Region(q, alignment, size));
      live := live[r := Region(q, alignment, size)];
      return Some(r);
    }

    method WriteHeader(q: nat, r: nat)
      requires 0 < q < r <= SIZE_MAX
      modifies this`mem
      ensures Header(mem, q, r) && forall x | !(q <= x < r) :: mem(x) == old(mem)(x)
    {
      var offset := r - q;
      if offset <= UCHAR_MAX {
        mem := Store(mem, r - 1, [offset]);
      } else {
        mem := Store(mem, r - 1, [0]);
        mem := Store(mem, AddressOfPointer(r), Encode(q, SIZEOF_VOIDP));
      }
      HeaderMade(old(mem), mem, q, r);
    }

    /** alignfree: the block that is freed is the one that holds the storage. */
    method AlignFree(ptr: Option<nat>)
      requires Valid() && (ptr.Some? ==> ptr.value in live)
      modifies this
      ensures Valid() && mem == old(mem)
      ensures ptr.None? ==> blocks == old(blocks) && live == old(live)
      ensures ptr.Some? ==> blocks == old(blocks) - {old(live)[ptr.value].base} && live == old(live) - {ptr.value}
    {
      hide Good;
      if ptr.Some? {
        var r := ptr.value;
        FreeIsGood(mem, blocks, live, r);
        var offset := mem(r - 1);
        var q;
        if offset != 0 {
          q := r - offset;
        } else {
          SlotIs(r);
          q := Decode(Load(mem, AddressOfPointer(r), SIZEOF_VOIDP));
        }
        Free(q);
        live := live - {r};
      }
    }

    /** What a client may do with its storage. */
    method ClientWrite(ghost r: nat, a: nat, b: byte)
      requires Valid() && r in live && r <= a < r + live[r].size
      modifies this`mem
      ensures Valid() && mem == Store(old(mem), a, [b])
    {
      hide MultipleOf, Header;
      mem := Store(mem, a, [b]);
      assert Good(old(mem), blocks, live);
      forall s | s in live ensures Placed(mem, blocks, s, live[s]) {
        assert Placed(old(mem), blocks, s, live[s]) && Placed(old(mem), blocks, r, live[r]);
        HeaderFrame(old(mem), mem, live[s].base, s);
      }
    }
  }

  lemma HeaderMade(mem: Bytes, m: Bytes, q: nat, r: nat)
    requires 0 < q < r <= SIZE_MAX
    requires r > UCHAR_MAX + q || m == Store(mem, r - 1, [r - q])
    requires r > UCHAR_MAX + q ==> m == Store(Store(mem, r - 1, [0]), AddressOfPointer(r), Encode(q, SIZEOF_VOIDP))
    ensures Header(m, q, r) && forall x | !(q <= x < r) :: m(x) == mem(x)
  {
    if r > UCHAR_MAX + q {
      SlotIs(r);
      LoadStored(m, AddressOfPointer(r), Encode(q, SIZEOF_VOIDP));
      assert q < Pow256(8) by { assert Pow256(4) == 0x1_0000_0000; }
      DecodeEncode(q, SIZEOF_VOIDP);
    }
  }

  lemma StaysGood(mem: Bytes, m: Bytes, blocks: map<nat, nat>, live: map<nat, Region>, q: nat, r: nat, g: Region)
    requires Good(mem, blocks, live) && Apart(blocks, q, g.alignment + g.size)
    requires g.base == q && q < r <= q + g.alignment && MultipleOf(r, g.alignment) && Header(m, q, r)
    requires forall x | !(q <= x < r) :: m(x) == mem(x)
    ensures r !in live && Good(m, blocks[q := g.alignment + g.size], live[r := g])
  {
    hide MultipleOf, Header;
    var more := blocks[q := g.alignment + g.size];
    forall s | s in live ensures s != r && live[s].base != q && Placed(m, more, s, live[s]) {
      assert Placed(mem, blocks, s, live[s]);
      HeaderFrame(mem, m, live[s].base, s);
    }
    assert Placed(m, more, r, g);
  }

  lemma FreeIsGood(mem: Bytes, blocks: map<nat, nat>, live: map<nat, Region>, r: nat)
    requires Good(mem, blocks, live) && r in live
    ensures var q := live[r].base;
            && q in blocks && Header(mem, q, r) && Good(mem, blocks - {q}, live - {r})
  {
    hide MultipleOf, Header;
    assert Placed(mem, blocks, r, live[r]);
    var (less, rest) := (blocks - {live[r].base}, live - {r});
    forall s | s in rest ensures Placed(mem, less, s, rest[s]) { assert Placed(mem, blocks, s, live[s]); }
  }
}
