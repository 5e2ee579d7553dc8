/** psnip_builtin_popcount and psnip_builtin_parity of an unsigned long long (and of an unsigned long
    of 64 bits): the same macros with twice as many lanes and one more fold. */
module BitCount64 {
  function Bit(x: bv64): nat { if x & 1 == 1 then 1 else 0 }

  /** The number of bits set among the lowest n. */
  function BitSum(x: bv64, n: nat): nat {
    if n == 0 then 0 else Bit(x) + BitSum(x >> 1, n - 1)
  }

  // The sum falls apart at these places.

  lemma Split2(x: bv64, n: nat)
    ensures BitSum(x, 2 + n) == BitSum(x, 2) + BitSum(x >> 2, n)
    ensures BitSum(x, 2) == Bit(x) + Bit(x >> 1)
  {
    hide Bit;
    assert (x >> 1) >> 1 == x >> 2;
    assert BitSum(x >> 1, 1) == Bit(x >> 1) + BitSum(x >> 2, 0);
  }

  lemma Split4(x: bv64, n: nat)
    ensures BitSum(x, 4 + n) == BitSum(x, 4) + BitSum(x >> 4, n)
  {
    hide BitSum;
    assert (x >> 2) >> 2 == x >> 4;
    Split2(x, 2);
    Split2(x, 2 + n);
    Split2(x >> 2, n);
  }

  lemma Split8(x: bv64, n: nat)
    ensures BitSum(x, 8 + n) == BitSum(x, 8) + BitSum(x >> 8, n)
  {
    hide BitSum;
    assert (x >> 4) >> 4 == x >> 8;
    Split4(x, 4);
    Split4(x, 4 + n);
    Split4(x >> 4, n);
  }

  lemma Split16(x: bv64, n: nat)
    ensures BitSum(x, 16 + n) == BitSum(x, 16) + BitSum(x >> 16, n)
  {
    hide BitSum;
    assert (x >> 8) >> 8 == x >> 16;
    Split8(x, 8);
    Split8(x, 8 + n);
    Split8(x >> 8, n);
  }

  lemma Split32(x: bv64, n: nat)
    ensures BitSum(x, 32 + n) == BitSum(x, 32) + BitSum(x >> 32, n)
  {
    hide BitSum;
    assert (x >> 16) >> 16 == x >> 32;
    Split16(x, 16);
    Split16(x, 16 + n);
    Split16(x >> 16, n);
  }

  // ---------------------------------------------------------------- popcount

  /** The first three stages of psnip_builtin_popcount: pairs of bits, nibbles, octets. */
  function Pairs(x: bv64): bv64 { x - ((x >> 1) & 0x5555_5555_5555_5555) }

  function Nibbles(x: bv64): bv64 { (x & 0x3333_3333_3333_3333) + ((x >> 2) & 0x3333_3333_3333_3333) }

  function Halves(x: bv64): bv64 { (x + (x >> 4)) & 0x0F0F_0F0F_0F0F_0F0F }

  function Octets(x: bv64): bv64 { Halves(Nibbles(Pairs(x))) }

  function Total(x: bv64): bv64 { (x * 0x0101_0101_0101_0101) >> 56 }

  function Popcount(x: bv64): bv64 { Total(Octets(x)) }

  function Ones(y: bv64): bv64 {
    (y & 1) + ((y >> 1) & 1) + ((y >> 2) & 1) + ((y >> 3) & 1) + ((y >> 4) & 1) + ((y >> 5) & 1) + ((y >> 6) & 1)
      + ((y >> 7) & 1)
  }

  // Every octet holds the number of its bits.

  lemma Octet0(x: bv64)
    ensures Octets(x) & 0xFF == Ones(x)
  {}

  // The octets are counted apart.

  /** The pairs of bits by their carries and sums. */
  function Adders(x: bv64): bv64 {
    (((x >> 1) & x & 0x5555_5555_5555_5555) << 1) | ((x ^ (x >> 1)) & 0x5555_5555_5555_5555)
  }

  lemma PairsAdd2(x: bv64)
    ensures Pairs(x) == Adders(x)
  {}

  lemma AddersShift(x: bv64)
    ensures Adders(x) >> 8 == Adders(x >> 8)
  {}

  lemma PairsShift(x: bv64)
    ensures Pairs(x) >> 8 == Pairs(x >> 8)
  {
    hide Pairs, Adders;
    PairsAdd2(x);
    PairsAdd2(x >> 8);
    AddersShift(x);
  }

  lemma NibblesShift(x: bv64)
    ensures Nibbles(x) >> 8 == Nibbles(x >> 8) && Nibbles(x) & 0x8888_8888_8888_8888 == 0
  {}

  lemma HalvesShift(x: bv64)
    requires x & 0x8888_8888_8888_8888 == 0
    ensures Halves(x) >> 8 == Halves(x >> 8)
  {}

  lemma OctetsShift(x: bv64)
    ensures Octets(x) >> 8 == Octets(x >> 8)
  {
    hide Pairs, Nibbles, Halves;
    PairsShift(x);
    NibblesShift(Pairs(x));
    HalvesShift(Nibbles(Pairs(x)));
  }

  // The multiplication adds the octets: first two, then four, then all eight.

  predicate Twice8(t: bv64, w: bv64) { t == w + (w << 8) }

  predicate Twice16(t: bv64, w: bv64) { t == w + (w << 16) }

  predicate Twice32(t: bv64, w: bv64) { t == w + (w << 32) }

  /** A multiplication by 2^16 + 1 or 2^32 + 1 is a shift and an addition. */
  lemma Shifts()
    ensures forall t: bv64, w: bv64 {:trigger Twice16(t, w)} :: t == w + w * 0x1_0000 ==> Twice16(t, w)
    ensures forall t: bv64, w: bv64 {:trigger Twice32(t, w)} :: t == w + w * 0x1_0000_0000 ==> Twice32(t, w)
  {}

  lemma FirstProduct(w: bv64)
    ensures Twice8(w * 0x0101, w)
  {}

  lemma SecondProduct(w: bv64)
    ensures Twice16(w * 0x0101_0101, w * 0x0101)
  {
    hide Twice16;
    Shifts();
  }

  lemma LastProduct(w: bv64)
    ensures Twice32(w * 0x0101_0101_0101_0101, w * 0x0101_0101)
  {
    hide Twice32;
    Shifts();
  }

  /** No octet is above 8. */
  predicate Octetwise(w: bv64) {
    w & 0xF0F0_F0F0_F0F0_F0F0 == 0 && (w + 0x7777_7777_7777_7777) & 0x8080_8080_8080_8080 == 0
  }

  /** No octet is above 31, and the odd ones are not above 16. */
  predicate Pairwise(t: bv64) {
    && t & 0xE0E0_E0E0_E0E0_E0E0 == 0
    && (t >> 8) & 0xFF <= 16 && (t >> 24) & 0xFF <= 16 && (t >> 40) & 0xFF <= 16 && (t >> 56) & 0xFF <= 16
  }

  /** No octet is above 63, and the fourth and the last are not above 32. */
  predicate Fourwise(t: bv64) {
    t & 0xC0C0_C0C0_C0C0_C0C0 == 0 && (t >> 24) & 0xFF <= 32 && (t >> 56) & 0xFF <= 32
  }

  lemma PairsAdd(t: bv64, w: bv64)
    requires Twice8(t, w) && Octetwise(w)
    ensures Pairwise(t)
    ensures (t >> 8) & 0xFF == ((w >> 8) & 0xFF) + (w & 0xFF)
    ensures (t >> 24) & 0xFF == ((w >> 24) & 0xFF) + ((w >> 16) & 0xFF)
    ensures (t >> 40) & 0xFF == ((w >> 40) & 0xFF) + ((w >> 32) & 0xFF)
    ensures (t >> 56) & 0xFF == ((w >> 56) & 0xFF) + ((w >> 48) & 0xFF)
  {}

  lemma FoursAdd(t: bv64, w: bv64)
    requires Twice16(t, w) && Pairwise(w)
    ensures Fourwise(t)
    ensures (t >> 24) & 0xFF == ((w >> 24) & 0xFF) + ((w >> 8) & 0xFF)
    ensures (t >> 56) & 0xFF == ((w >> 56) & 0xFF) + ((w >> 40) & 0xFF)
  {}

  lemma AllAdd(t: bv64, w: bv64)
    requires Twice32(t, w) && Fourwise(w)
    ensures t >> 56 == ((w >> 56) & 0xFF) + ((w >> 24) & 0xFF)
  {}

  // The same with numbers.

  function Small(x: bv64): nat
    requires x <= 64
  {
    x as bv7 as nat
  }

  lemma SmallAdd(a: bv64, b: bv64)
    requires a <= 32 && b <= 32
    ensures a + b <= 64 && Small(a + b) == Small(a) + Small(b)
  {
    SmallAdd7(a as bv7, b as bv7);
    assert (a + b) as bv7 == (a as bv7) + (b as bv7);
  }

  lemma SmallAdd7(a: bv7, b: bv7)
    requires a <= 32 && b <= 32
    ensures (a + b) as nat == a as nat + b as nat
  {}

  /** The octet from bit k on. */
  function Octet(x: bv64, k: bv7): nat
    requires k <= 56
  {
    if (x >> k) & 0xFF <= 64 then Small((x >> k) & 0xFF) else 0
  }

  lemma PairAt8(t: bv64, w: bv64)
    requires Twice8(t, w) && Octetwise(w)
    ensures Octet(t, 8) == Octet(w, 8) + Octet(w, 0)
  {
    hide Small, Twice8, Pairwise;
    PairsAdd(t, w);
    SmallAdd((w >> 8) & 0xFF, w & 0xFF);
  }

  lemma PairAt24(t: bv64, w: bv64)
    requires Twice8(t, w) && Octetwise(w)
    ensures Octet(t, 24) == Octet(w, 24) + Octet(w, 16)
  {
    hide Small, Twice8, Pairwise;
    PairsAdd(t, w);
    SmallAdd((w >> 24) & 0xFF, (w >> 16) & 0xFF);
  }

  lemma PairAt40(t: bv64, w: bv64)
    requires Twice8(t, w) && Octetwise(w)
    ensures Octet(t, 40) == Octet(w, 40) + Octet(w, 32)
  {
    hide Small, Twice8, Pairwise;
    PairsAdd(t, w);
    SmallAdd((w >> 40) & 0xFF, (w >> 32) & 0xFF);
  }

  lemma PairAt56(t: bv64, w: bv64)
    requires Twice8(t, w) && Octetwise(w)
    ensures Octet(t, 56) == Octet(w, 56) + Octet(w, 48)
  {
    hide Small, Twice8, Pairwise;
    PairsAdd(t, w);
    SmallAdd((w >> 56) & 0xFF, (w >> 48) & 0xFF);
  }

  lemma PairsAre(t: bv64, w: bv64)
    requires Twice8(t, w) && Octetwise(w)
    ensures Pairwise(t)
    ensures Octet(t, 8) == Octet(w, 8) + Octet(w, 0) && Octet(t, 24) == Octet(w, 24) + Octet(w, 16)
    ensures Octet(t, 40) == Octet(w, 40) + Octet(w, 32) && Octet(t, 56) == Octet(w, 56) + Octet(w, 48)
  {
    hide Octet, Twice8, Octetwise, Pairwise;
    PairsAdd(t, w);
    PairAt8(t, w);
    PairAt24(t, w);
    PairAt40(t, w);
    PairAt56(t, w);
  }

  lemma FoursAre(t: bv64, w: bv64)
    requires Twice16(t, w) && Pairwise(w)
    ensures Fourwise(t)
    ensures Octet(t, 24) == Octet(w, 24) + Octet(w, 8) && Octet(t, 56) == Octet(w, 56) + Octet(w, 40)
  {
    hide Small, Twice16, Fourwise;
    FoursAdd(t, w);
    SmallAdd((w >> 24) & 0xFF, (w >> 8) & 0xFF);
    SmallAdd((w >> 56) & 0xFF, (w >> 40) & 0xFF);
  }

  lemma AllAre(t: bv64, w: bv64)
    requires Twice32(t, w) && Fourwise(w)
    ensures t >> 56 <= 64 && Small(t >> 56) == Octet(w, 56) + Octet(w, 24)
  {
    hide Small, Twice32;
    AllAdd(t, w);
    SmallAdd((w >> 56) & 0xFF, (w >> 24) & 0xFF);
  }

  lemma TotalIs(w: bv64)
    requires Octetwise(w)
    ensures Total(w) <= 64
    ensures Small(Total(w)) == Octet(w, 0) + Octet(w, 8) + Octet(w, 16) + Octet(w, 24)
                               + Octet(w, 32) + Octet(w, 40) + Octet(w, 48) + Octet(w, 56)
  {
    hide Small, Octet, Twice8, Twice16, Twice32, Octetwise, Pairwise, Fourwise;
    FirstProduct(w);
    SecondProduct(w);
    LastProduct(w);
    PairsAre(w * 0x0101, w);
    FoursAre(w * 0x0101_0101, w * 0x0101);
    AllAre(w * 0x0101_0101_0101_0101, w * 0x0101_0101);
  }

  // Every octet's ones are the bits of the sum.

  lemma OnesAre(y: bv64)
    ensures Ones(y) <= 8 && Small(Ones(y)) == BitSum(y, 8)
  {
    hide BitSum, Ones, Small, Nibble;
    Split4(y, 4);
    FourBits(y);
    FourBits(y >> 4);
    OnesAreBits(y);
  }

  /** The number of bits set in the lowest nibble. */
  function Nibble(y: bv64): nat { Bit(y) + Bit(y >> 1) + Bit(y >> 2) + Bit(y >> 3) }

  lemma FourBits(y: bv64)
    ensures BitSum(y, 4) == Nibble(y)
  {
    hide BitSum, Bit;
    Split2(y, 2);
    Split2(y >> 2, 0);
    assert (y >> 2) >> 1 == y >> 3;
  }

  lemma OnesAreBits(y: bv64)
    ensures Ones(y) <= 8 && Small(Ones(y)) == Nibble(y) + Nibble(y >> 4)
  {}

  lemma LowestOctet(x: bv64)
    ensures Octet(Octets(x), 0) == BitSum(x, 8)
  {
    hide Octets, Ones, Small, BitSum;
    Octet0(x);
    OnesAre(x);
  }

  lemma NextOctet(w: bv64, k: bv7)
    requires 8 <= k <= 56
    ensures Octet(w, k) == Octet(w >> 8, k - 8)
  {
    hide Small;
    assert w >> k == (w >> 8) >> (k - 8);
  }

  lemma OctetsSmall(x: bv64)
    ensures Octetwise(Octets(x))
  {}

  /** The sum of the lowest n octets. */
  function OctetSum(w: bv64, n: nat): nat
    requires n <= 8
  {
    if n == 0 then 0 else OctetSum(w, n - 1) + Octet(w, (8 * n - 8) as bv7)
  }

  lemma Position(n: nat)
    requires n <= 8
    ensures n > 1 ==> 8 <= (8 * n - 8) as bv7 <= 56 && (8 * n - 8) as bv7 - 8 == (8 * (n - 1) - 8) as bv7
  {
    assert n == 0 || n == 1 || n == 2 || n == 3 || n == 4 || n == 5 || n == 6 || n == 7 || n == 8;
  }

  lemma {:induction false} OctetSumStarts(w: bv64, n: nat)
    requires 1 <= n <= 8
    ensures OctetSum(w, n) == Octet(w, 0) + OctetSum(w >> 8, n - 1)
  {
    hide Octet;
    if n == 1 {
    } else {
      OctetSumStarts(w, n - 1);
      Position(n);
      NextOctet(w, (8 * n - 8) as bv7);
    }
  }

  /** The octets of x are the bits of x, counted. */
  lemma {:induction false} OctetsCount(x: bv64, n: nat)
    requires n <= 8
    ensures OctetSum(Octets(x), n) == BitSum(x, 8 * n)
    decreases n
  {
    hide Octets, Octet;
    if n == 0 {
    } else {
      hide BitSum, OctetSum;
      OctetSumStarts(Octets(x), n);
      LowestOctet(x);
      OctetsShift(x);
      OctetsCount(x >> 8, n - 1);
      Split8(x, 8 * (n - 1));
    }
  }

  lemma AllOctets(w: bv64)
    ensures OctetSum(w, 8) == Octet(w, 0) + Octet(w, 8) + Octet(w, 16) + Octet(w, 24)
                              + Octet(w, 32) + Octet(w, 40) + Octet(w, 48) + Octet(w, 56)
  {
    hide Octet;
    assert OctetSum(w, 1) == Octet(w, 0);
    assert OctetSum(w, 2) == OctetSum(w, 1) + Octet(w, 8);
    assert OctetSum(w, 3) == OctetSum(w, 2) + Octet(w, 16);
    assert OctetSum(w, 4) == OctetSum(w, 3) + Octet(w, 24);
    assert OctetSum(w, 5) == OctetSum(w, 4) + Octet(w, 32);
    assert OctetSum(w, 6) == OctetSum(w, 5) + Octet(w, 40);
    assert OctetSum(w, 7) == OctetSum(w, 6) + Octet(w, 48);
    assert OctetSum(w, 8) == OctetSum(w, 7) + Octet(w, 56);
  }

  /** popcount is the number of bits set. */
  lemma PopcountIs(x: bv64)
    ensures Popcount(x) <= 64 && Small(Popcount(x)) == BitSum(x, 64)
  {
    hide Small, BitSum, Octets, Total, Octet, Octetwise, OctetSum;
    OctetsSmall(x);
    TotalIs(Octets(x));
    AllOctets(Octets(x));
    OctetsCount(x, 8);
  }

  // ---------------------------------------------------------------- parity

  /** psnip_builtin_parity. */
  method Parity(x: bv64) returns (p: bv64)
    ensures p == if BitSum(x, 64) % 2 == 1 then 1 else 0
  {
    hide BitSum, FoldBy, Folded;
    var v := x;
    var i: bv7 := 32;
    NotFolded(x);
    while i > 2
      invariant Folded(x, v, i)
      decreases i
    {
      FoldStep(x, v, i);
      v := FoldBy(v, i);
      i := i / 2;
    }
    FoldedNibble(x, v, i);
    v := v & 0xF;
    return ((0x6996 as bv64) >> (v as bv7)) & 1;
  }

  function FoldBy(v: bv64, i: bv7): bv64
    requires i <= 64
  {
    v ^ (v >> i)
  }

  /** The lowest 2 * i bits of v have the parity of x. */
  ghost predicate Folded(x: bv64, v: bv64, i: bv7) {
    || (i == 32 && v == x)
    || (i == 16 && BitSum(v, 32) % 2 == BitSum(x, 64) % 2)
    || (i == 8 && BitSum(v, 16) % 2 == BitSum(x, 64) % 2)
    || (i == 4 && BitSum(v, 8) % 2 == BitSum(x, 64) % 2)
    || (i == 2 && BitSum(v, 4) % 2 == BitSum(x, 64) % 2)
  }

  lemma NotFolded(x: bv64)
    ensures Folded(x, x, 32)
  {
  }

  lemma FoldStep(x: bv64, v: bv64, i: bv7)
    requires Folded(x, v, i) && i > 2
    ensures 0 < i <= 32 && Folded(x, FoldBy(v, i), i / 2) && i / 2 < i
  {
    hide BitSum, FoldBy;
    if i == 32 { Fold32(v); } else if i == 16 { Fold16(v); } else if i == 8 { Fold8(v); } else { Fold4(v); }
  }

  lemma FoldedNibble(x: bv64, v: bv64, i: bv7)
    requires Folded(x, v, i) && i <= 2
    ensures v & 0xF <= 0xF && ((0x6996 as bv64) >> ((v & 0xF) as bv7)) & 1 == if BitSum(x, 64) % 2 == 1 then 1 else 0
  {
    hide BitSum;
    LastNibble(v);
  }

  /** Whether the number of bits is odd. */
  ghost predicate Odd(x: bv64, n: nat) {
    n > 0 && Lowest(x) != Odd(Half(x), n - 1)
  }

  predicate Lowest(x: bv64) { x & 1 == 1 }
  function Half(x: bv64): bv64 { x >> 1 }
  predicate IsXor(a: bv64, b: bv64, c: bv64) { c == a ^ b }

  lemma {:induction false} OddIs(x: bv64, n: nat)
    ensures Odd(x, n) <==> BitSum(x, n) % 2 == 1
  {
    if n == 0 {
    } else {
      OddIs(x >> 1, n - 1);
    }
  }

  lemma {:induction false} XorOdd(a: bv64, b: bv64, c: bv64, n: nat)
    requires IsXor(a, b, c)
    ensures Odd(c, n) <==> Odd(a, n) != Odd(b, n)
    decreases n
  {
    hide IsXor, Lowest, Half;
    if n == 0 {
    } else {
      XorShift(a, b, c);
      XorOdd(Half(a), Half(b), Half(c), n - 1);
    }
  }

  lemma XorShift(a: bv64, b: bv64, c: bv64)
    requires IsXor(a, b, c)
    ensures IsXor(Half(a), Half(b), Half(c)) && (Lowest(c) <==> Lowest(a) != Lowest(b))
  {
  }

  lemma XorSum(a: bv64, b: bv64, c: bv64, n: nat)
    requires IsXor(a, b, c)
    ensures BitSum(c, n) % 2 == (BitSum(a, n) + BitSum(b, n)) % 2
  {
    hide BitSum, Odd, IsXor;
    XorOdd(a, b, c, n);
    OddIs(a, n);
    OddIs(b, n);
    OddIs(c, n);
    OddSum(BitSum(a, n), BitSum(b, n), BitSum(c, n));
  }

  lemma OddSum(p: nat, q: nat, r: nat)
    requires r % 2 == 1 <==> (p % 2 == 1) != (q % 2 == 1)
    ensures r % 2 == (p + q) % 2
  {
  }

  // Each round leaves the parity of twice as many bits in half of them.

  lemma FoldIsXor(v: bv64, i: bv7)
    requires i <= 64
    ensures IsXor(v, v >> i, FoldBy(v, i))
  {
  }

  lemma Fold32(v: bv64)
    ensures BitSum(FoldBy(v, 32), 32) % 2 == BitSum(v, 64) % 2
  {
    hide BitSum, FoldBy, IsXor;
    Split32(v, 32);
    FoldIsXor(v, 32);
    XorSum(v, v >> 32, FoldBy(v, 32), 32);
  }

  lemma Fold16(v: bv64)
    ensures BitSum(FoldBy(v, 16), 16) % 2 == BitSum(v, 32) % 2
  {
    hide BitSum, FoldBy, IsXor;
    Split16(v, 16);
    FoldIsXor(v, 16);
    XorSum(v, v >> 16, FoldBy(v, 16), 16);
  }

  lemma Fold8(v: bv64)
    ensures BitSum(FoldBy(v, 8), 8) % 2 == BitSum(v, 16) % 2
  {
    hide BitSum, FoldBy, IsXor;
    Split8(v, 8);
    FoldIsXor(v, 8);
    XorSum(v, v >> 8, FoldBy(v, 8), 8);
  }

  lemma Fold4(v: bv64)
    ensures BitSum(FoldBy(v, 4), 4) % 2 == BitSum(v, 8) % 2
  {
    hide BitSum, FoldBy, IsXor;
    Split4(v, 4);
    FoldIsXor(v, 4);
    XorSum(v, v >> 4, FoldBy(v, 4), 4);
  }

  /** The sixteen nibbles. */
  lemma LastNibble(v: bv64)
    ensures ((0x6996 as bv64) >> ((v & 0xF) as bv7)) & 1 == if BitSum(v, 4) % 2 == 1 then 1 else 0
  {
    hide BitSum, Nibble;
    FourBits(v);
    NibbleTable(v);
  }

  lemma NibbleTable(v: bv64)
    ensures ((0x6996 as bv64) >> ((v & 0xF) as bv7)) & 1 == if Nibble(v) % 2 == 1 then 1 else 0
  {
  }

  /** Parity is the lowest bit of popcount. */
  lemma ParityOfPopcount(x: bv64)
    ensures Popcount(x) & 1 == if BitSum(x, 64) % 2 == 1 then 1 else 0
  {
    hide Popcount, BitSum, Small;
    PopcountIs(x);
    LowBit(Popcount(x));
  }

  lemma LowBit(p: bv64)
    requires p <= 64
    ensures p & 1 == if Small(p) % 2 == 1 then 1 else 0
  {
  }
}
