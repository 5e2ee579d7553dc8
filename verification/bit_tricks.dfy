/** The portable bit tricks of portable-snippets. */
module BitTricks {
  // ---------------------------------------------------------------- leading and trailing zeros

  const CLZ32: seq<nat> := [
    0,  9,  1, 10, 13, 21,  2, 29, 11, 14, 16, 18, 22, 25,  3, 30,
    8, 12, 20, 28, 15, 17, 24,  7, 19, 27, 23,  6, 26,  5,  4, 31]

  const CLZ64: seq<nat> :=
    [0, 47,  1, 56, 48, 27,  2, 60, 57, 49, 41, 37, 28, 16,  3, 61]
    + [54, 58, 35, 52, 50, 42, 21, 44, 38, 32, 29, 23, 17, 11,  4, 62]
    + [46, 55, 26, 59, 40, 36, 15, 53, 34, 51, 20, 43, 31, 22, 10, 45]
    + [25, 39, 14, 33, 19, 30,  9, 24, 13, 18,  8, 12,  7,  6,  5, 63]

  const CTZ32: seq<nat> := [
     0,  1, 28,  2, 29, 14, 24,  3, 30, 22, 20, 15, 25, 17,  4,  8,
    31, 27, 13, 23, 21, 19, 16,  7, 26, 12, 18,  6, 11,  5, 10,  9]

  const CTZ64: seq<nat> :=
    [0,  1, 56,  2, 57, 49, 28,  3, 61, 58, 42, 50, 38, 29, 17,  4]
    + [62, 47, 59, 36, 45, 43, 51, 22, 53, 39, 33, 30, 24, 18, 12,  5]
    + [63, 55, 48, 27, 60, 41, 37, 16, 46, 35, 44, 21, 52, 32, 23, 11]
    + [54, 26, 40, 15, 34, 20, 31, 10, 25, 14, 19,  9, 13,  8,  7,  6]

  function Smear32(v: bv32): bv32 {
    var v := v | (v >> 1);
    var v := v | (v >> 2);
    var v := v | (v >> 4);
    var v := v | (v >> 8);
    v | (v >> 16)
  }

  function Smear64(v: bv64): bv64 {
    var v := v | (v >> 1);
    var v := v | (v >> 2);
    var v := v | (v >> 4);
    var v := v | (v >> 8);
    var v := v | (v >> 16);
    v | (v >> 32)
  }

  lemma TopBits32(v: bv32)
    ensures v >> 27 < 32
  {
  }

  lemma TopBits64(v: bv64)
    ensures v >> 58 < 64
  {
  }

  function ClzEntry32(s: bv32): nat {
    var h := s * 0x07C4ACDD;
    TopBits32(h);
    CLZ32[(h >> 27) as bv5 as nat]
  }

  function ClzEntry64(s: bv64): nat {
    var h := s * 0x03F79D71B4CB0A89;
    TopBits64(h);
    CLZ64[(h >> 58) as bv6 as nat]
  }

  function CtzEntry32(s: bv32): nat {
    var h := s * 0x077CB531;
    TopBits32(h);
    CTZ32[(h >> 27) as bv5 as nat]
  }

  function CtzEntry64(s: bv64): nat {
    var h := s * 0x03F79D71B4CA8B09;
    TopBits64(h);
    CTZ64[(h >> 58) as bv6 as nat]
  }

  /** psnip_builtin_clz32 and the others. */
  function Clz32(v: bv32): int { 31 - ClzEntry32(Smear32(v)) }
  function Clz64(v: bv64): int { 63 - ClzEntry64(Smear64(v)) }
  function Ctz32(v: bv32): int { CtzEntry32(v & (0 - v)) }
  function Ctz64(v: bv64): int { CtzEntry64(v & (0 - v)) }

  /** Bit k is the highest, or the lowest, that is set. */
  ghost predicate Highest32(v: bv32, k: bv6) { k < 32 && v >> k == 1 }
  ghost predicate Highest64(v: bv64, k: bv7) { k < 64 && v >> k == 1 }
  ghost predicate Lowest32(v: bv32, k: bv6) { k < 32 && Set32(v, k) && Clear32(v, k) }
  ghost predicate Lowest64(v: bv64, k: bv7) { k < 64 && Set64(v, k) && Clear64(v, k) }

  ghost predicate Set32(v: bv32, k: bv6)
    requires k < 32
  {
    (v >> k) & 1 == 1
  }

  ghost predicate Clear32(v: bv32, k: bv6)
    requires k < 32
  {
    v & (((1 as bv32) << k) - 1) == 0
  }

  ghost predicate Set64(v: bv64, k: bv7)
    requires k < 64
  {
    (v >> k) & 1 == 1
  }

  ghost predicate Clear64(v: bv64, k: bv7)
    requires k < 64
  {
    v & (((1 as bv64) << k) - 1) == 0
  }

  /** Smearing sets all bits below the highest; v & -v keeps the lowest. */
  lemma Smeared32(v: bv32, k: bv6)
    requires Highest32(v, k)
    ensures Smear32(v) == ((2 as bv32) << k) - 1
  {
    if k < 16 { SmearedLow32(v, k); } else { SmearedHigh32(v, k); }
  }

  lemma SmearedLow32(v: bv32, k: bv6)
    requires Highest32(v, k) && k < 16
    ensures Smear32(v) == ((2 as bv32) << k) - 1
  {
  }

  lemma SmearedHigh32(v: bv32, k: bv6)
    requires Highest32(v, k) && k >= 16
    ensures Smear32(v) == ((2 as bv32) << k) - 1
  {
  }

  lemma Smeared64(v: bv64, k: bv7)
    requires Highest64(v, k)
    ensures Smear64(v) == ((2 as bv64) << k) - 1
  {
    if k < 16 {
      Smeared64To16(v, k);
    } else if k < 32 {
      Smeared64To32(v, k);
    } else if k < 48 {
      Smeared64To48(v, k);
    } else {
      Smeared64To64(v, k);
    }
  }

  lemma Smeared64To16(v: bv64, k: bv7)
    requires Highest64(v, k) && 0 <= k < 16
    ensures Smear64(v) == ((2 as bv64) << k) - 1
  {
  }

  lemma Smeared64To32(v: bv64, k: bv7)
    requires Highest64(v, k) && 16 <= k < 32
    ensures Smear64(v) == ((2 as bv64) << k) - 1
  {
  }

  lemma Smeared64To48(v: bv64, k: bv7)
    requires Highest64(v, k) && 32 <= k < 48
    ensures Smear64(v) == ((2 as bv64) << k) - 1
  {
  }

  lemma Smeared64To64(v: bv64, k: bv7)
    requires Highest64(v, k) && 48 <= k < 64
    ensures Smear64(v) == ((2 as bv64) << k) - 1
  {
  }

  lemma Isolated32(v: bv32, k: bv6)
    requires Lowest32(v, k)
    ensures v & (0 - v) == (1 as bv32) << k
  {
  }

  lemma Isolated64(v: bv64, k: bv7)
    requires Lowest64(v, k)
    ensures v & (0 - v) == (1 as bv64) << k
  {
  }

  // The multipliers are de Bruijn sequences, and the tables their inverses.

  lemma TableClz32(k: bv6)
    requires 0 <= k < 32
    ensures ClzEntry32(((2 as bv32) << k) - 1) == k as nat
  {
    assert k == 0 || k == 1 || k == 2 || k == 3 || k == 4 || k == 5 || k == 6 || k == 7 || k == 8 || k == 9 ||
      k == 10 || k == 11 || k == 12 || k == 13 || k == 14 || k == 15 || k == 16 || k == 17 || k == 18 ||
      k == 19 || k == 20 || k == 21 || k == 22 || k == 23 || k == 24 || k == 25 || k == 26 || k == 27 ||
      k == 28 || k == 29 || k == 30 || k == 31;
  }

  lemma TableClz64Low(k: bv7)
    requires 0 <= k < 32
    ensures ClzEntry64(((2 as bv64) << k) - 1) == k as nat
  {
    assert k == 0 || k == 1 || k == 2 || k == 3 || k == 4 || k == 5 || k == 6 || k == 7 || k == 8 || k == 9 ||
      k == 10 || k == 11 || k == 12 || k == 13 || k == 14 || k == 15 || k == 16 || k == 17 || k == 18 ||
      k == 19 || k == 20 || k == 21 || k == 22 || k == 23 || k == 24 || k == 25 || k == 26 || k == 27 ||
      k == 28 || k == 29 || k == 30 || k == 31;
  }

  lemma TableClz64High(k: bv7)
    requires 32 <= k < 64
    ensures ClzEntry64(((2 as bv64) << k) - 1) == k as nat
  {
    assert k == 32 || k == 33 || k == 34 || k == 35 || k == 36 || k == 37 || k == 38 || k == 39 || k == 40 ||
      k == 41 || k == 42 || k == 43 || k == 44 || k == 45 || k == 46 || k == 47 || k == 48 || k == 49 ||
      k == 50 || k == 51 || k == 52 || k == 53 || k == 54 || k == 55 || k == 56 || k == 57 || k == 58 ||
      k == 59 || k == 60 || k == 61 || k == 62 || k == 63;
  }

  lemma TableCtz32(k: bv6)
    requires 0 <= k < 32
    ensures CtzEntry32((1 as bv32) << k) == k as nat
  {
    assert k == 0 || k == 1 || k == 2 || k == 3 || k == 4 || k == 5 || k == 6 || k == 7 || k == 8 || k == 9 ||
      k == 10 || k == 11 || k == 12 || k == 13 || k == 14 || k == 15 || k == 16 || k == 17 || k == 18 ||
      k == 19 || k == 20 || k == 21 || k == 22 || k == 23 || k == 24 || k == 25 || k == 26 || k == 27 ||
      k == 28 || k == 29 || k == 30 || k == 31;
  }

  lemma TableCtz64Low(k: bv7)
    requires 0 <= k < 32
    ensures CtzEntry64((1 as bv64) << k) == k as nat
  {
    assert k == 0 || k == 1 || k == 2 || k == 3 || k == 4 || k == 5 || k == 6 || k == 7 || k == 8 || k == 9 ||
      k == 10 || k == 11 || k == 12 || k == 13 || k == 14 || k == 15 || k == 16 || k == 17 || k == 18 ||
      k == 19 || k == 20 || k == 21 || k == 22 || k == 23 || k == 24 || k == 25 || k == 26 || k == 27 ||
      k == 28 || k == 29 || k == 30 || k == 31;
  }

  lemma TableCtz64High(k: bv7)
    requires 32 <= k < 64
    ensures CtzEntry64((1 as bv64) << k) == k as nat
  {
    assert k == 32 || k == 33 || k == 34 || k == 35 || k == 36 || k == 37 || k == 38 || k == 39 || k == 40 ||
      k == 41 || k == 42 || k == 43 || k == 44 || k == 45 || k == 46 || k == 47 || k == 48 || k == 49 ||
      k == 50 || k == 51 || k == 52 || k == 53 || k == 54 || k == 55 || k == 56 || k == 57 || k == 58 ||
      k == 59 || k == 60 || k == 61 || k == 62 || k == 63;
  }

  lemma Clz32Is(v: bv32, k: bv6)
    requires Highest32(v, k)
    ensures Clz32(v) == 31 - k as int
  {
    Smeared32(v, k);
    TableClz32(k);
  }

  lemma Clz64Is(v: bv64, k: bv7)
    requires Highest64(v, k)
    ensures Clz64(v) == 63 - k as int
  {
    Smeared64(v, k);
    if k < 32 { TableClz64Low(k); } else { TableClz64High(k); }
  }

  lemma Ctz32Is(v: bv32, k: bv6)
    requires Lowest32(v, k)
    ensures Ctz32(v) == k as int
  {
    Isolated32(v, k);
    TableCtz32(k);
  }

  lemma Ctz64Is(v: bv64, k: bv7)
    requires Lowest64(v, k)
    ensures Ctz64(v) == k as int
  {
    Isolated64(v, k);
    if k < 32 { TableCtz64Low(k); } else { TableCtz64High(k); }
  }

  lemma HighestFrom32(v: bv32, m: bv6) returns (k: bv6)
    requires v != 0 && m < 32 && v >> (m + 1) == 0
    ensures Highest32(v, k)
    decreases m
  {
    if v >> m == 1 { k := m; } else { k := HighestFrom32(v, m - 1); }
  }

  lemma HighestFrom64(v: bv64, m: bv7) returns (k: bv7)
    requires v != 0 && m < 64 && v >> (m + 1) == 0
    ensures Highest64(v, k)
    decreases m
  {
    hide Highest64;
    NextHighest64(v, m);
    if v >> m == 1 { k := m; } else { k := HighestFrom64(v, m - 1); }
  }

  lemma NextHighest64(v: bv64, m: bv7)
    requires v != 0 && m < 64 && v >> (m + 1) == 0
    ensures if v >> m == 1 then Highest64(v, m) else m > 0 && v >> m == 0
  {}

  lemma LowestFrom32(v: bv32, m: bv6) returns (k: bv6)
    requires v != 0 && m < 32 && Clear32(v, m)
    ensures Lowest32(v, k)
    decreases 32 - m
  {
    hide Set32, Clear32;
    if Set32(v, m) {
      k := m;
    } else {
      NotLowest32(v, m);
      k := LowestFrom32(v, m + 1);
    }
  }

  lemma NotLowest32(v: bv32, m: bv6)
    requires v != 0 && m < 32 && Clear32(v, m) && !Set32(v, m)
    ensures m < 31 && Clear32(v, m + 1)
  {
  }

  lemma LowestFrom64(v: bv64, m: bv7) returns (k: bv7)
    requires v != 0 && m < 64 && Clear64(v, m)
    ensures Lowest64(v, k)
    decreases 64 - m
  {
    hide Set64, Clear64;
    if Set64(v, m) {
      k := m;
    } else {
      NotLowest64(v, m);
      k := LowestFrom64(v, m + 1);
    }
  }

  lemma NotLowest64(v: bv64, m: bv7)
    requires v != 0 && m < 64 && Clear64(v, m) && !Set64(v, m)
    ensures m < 63 && Clear64(v, m + 1)
  {
  }

  // ---------------------------------------------------------------- reversal

  function Bswap16(v: bv16): bv16 { ((v & 0xFF00) >> 8) | ((v & 0x00FF) << 8) }

  function Bswap32(v: bv32): bv32 {
    ((v & 0xFF00_0000) >> 24) | ((v & 0x00FF_0000) >> 8) | ((v & 0x0000_FF00) << 8) | ((v & 0x0000_00FF) << 24)
  }

  function Bswap64(v: bv64): bv64 {
    ((v & 0xFF00_0000_0000_0000) >> 56) | ((v & 0x00FF_0000_0000_0000) >> 40)
    | ((v & 0x0000_FF00_0000_0000) >> 24) | ((v & 0x0000_00FF_0000_0000) >> 8)
    | ((v & 0x0000_0000_FF00_0000) << 8) | ((v & 0x0000_0000_00FF_0000) << 24)
    | ((v & 0x0000_0000_0000_FF00) << 40) | ((v & 0x0000_0000_0000_00FF) << 56)
  }

  function Bitreverse16(v: bv16): bv16 {
    var v := ((v & 0xF0F0) >> 4) | ((v & 0x0F0F) << 4);
    var v := ((v & 0xCCCC) >> 2) | ((v & 0x3333) << 2);
    var v := ((v & 0xAAAA) >> 1) | ((v & 0x5555) << 1);
    Bswap16(v)
  }

  function SwapNibbles32(v: bv32): bv32 { ((v & 0xF0F0_F0F0) >> 4) | ((v & 0x0F0F_0F0F) << 4) }

  function SwapPairs32(v: bv32): bv32 { ((v & 0xCCCC_CCCC) >> 2) | ((v & 0x3333_3333) << 2) }

  function SwapBits32(v: bv32): bv32 { ((v & 0xAAAA_AAAA) >> 1) | ((v & 0x5555_5555) << 1) }

  function Bitreverse32(v: bv32): bv32 { Bswap32(SwapBits32(SwapPairs32(SwapNibbles32(v)))) }

  function SwapNibbles64(v: bv64): bv64 { ((v & 0xF0F0_F0F0_F0F0_F0F0) >> 4) | ((v & 0x0F0F_0F0F_0F0F_0F0F) << 4) }

  function SwapPairs64(v: bv64): bv64 { ((v & 0xCCCC_CCCC_CCCC_CCCC) >> 2) | ((v & 0x3333_3333_3333_3333) << 2) }

  function SwapBits64(v: bv64): bv64 { ((v & 0xAAAA_AAAA_AAAA_AAAA) >> 1) | ((v & 0x5555_5555_5555_5555) << 1) }

  function Bitreverse64(v: bv64): bv64 { Bswap64(SwapBits64(SwapPairs64(SwapNibbles64(v)))) }

  /** The bits in the opposite order, and twice the number itself. */
  lemma Reverses16(v: bv16, i: bv5)
    requires i < 16
    ensures (Bitreverse16(v) >> i) & 1 == (v >> (15 - i)) & 1
  {
  }

  lemma Involution16(v: bv16)
    ensures Bitreverse16(Bitreverse16(v)) == v
  {
  }

  predicate BitAt32(v: bv32, i: bv6)
    requires i <= 32
  {
    (v >> i) & 1 == 1
  }

  lemma SwapNibblesAt32(v: bv32, i: bv6)
    requires i < 32
    ensures i ^ 4 < 32 && (BitAt32(SwapNibbles32(v), i) <==> BitAt32(v, i ^ 4))
  {}

  lemma SwapPairsAt32(v: bv32, i: bv6)
    requires i < 32
    ensures i ^ 2 < 32 && (BitAt32(SwapPairs32(v), i) <==> BitAt32(v, i ^ 2))
  {}

  lemma SwapBitsAt32(v: bv32, i: bv6)
    requires i < 32
    ensures i ^ 1 < 32 && (BitAt32(SwapBits32(v), i) <==> BitAt32(v, i ^ 1))
  {}

  lemma BswapAt32(v: bv32, i: bv6)
    requires i < 32
    ensures i ^ 24 < 32 && (BitAt32(Bswap32(v), i) <==> BitAt32(v, i ^ 24))
  {}

  lemma Positions32(i: bv6)
    requires i < 32
    ensures i ^ 24 < 32 && i ^ 24 ^ 1 < 32 && i ^ 24 ^ 1 ^ 2 < 32 && i ^ 24 ^ 1 ^ 2 ^ 4 == 31 - i
  {}

  lemma Reverses32(v: bv32, i: bv6)
    requires i < 32
    ensures BitAt32(Bitreverse32(v), i) <==> BitAt32(v, 31 - i)
  {
    hide BitAt32, Bswap32, SwapBits32, SwapPairs32, SwapNibbles32;
    Positions32(i);
    var v1 := SwapNibbles32(v);
    var v2 := SwapPairs32(v1);
    var v3 := SwapBits32(v2);
    BswapAt32(v3, i);
    SwapBitsAt32(v2, i ^ 24);
    SwapPairsAt32(v1, i ^ 24 ^ 1);
    SwapNibblesAt32(v, i ^ 24 ^ 1 ^ 2);
  }

  lemma Involution32(v: bv32)
    ensures Bitreverse32(Bitreverse32(v)) == v
  {
  }

  predicate BitAt64(v: bv64, i: bv7)
    requires i <= 64
  {
    (v >> i) & 1 == 1
  }

  lemma SwapNibblesAt64(v: bv64, i: bv7)
    requires i < 64
    ensures i ^ 4 < 64 && (BitAt64(SwapNibbles64(v), i) <==> BitAt64(v, i ^ 4))
  {}

  lemma SwapPairsAt64(v: bv64, i: bv7)
    requires i < 64
    ensures i ^ 2 < 64 && (BitAt64(SwapPairs64(v), i) <==> BitAt64(v, i ^ 2))
  {}

  lemma SwapBitsAt64(v: bv64, i: bv7)
    requires i < 64
    ensures i ^ 1 < 64 && (BitAt64(SwapBits64(v), i) <==> BitAt64(v, i ^ 1))
  {}

  lemma BswapAt64(v: bv64, i: bv7)
    requires i < 64
    ensures i ^ 56 < 64 && (BitAt64(Bswap64(v), i) <==> BitAt64(v, i ^ 56))
  {}

  lemma Positions64(i: bv7)
    requires i < 64
    ensures i ^ 56 < 64 && i ^ 56 ^ 1 < 64 && i ^ 56 ^ 1 ^ 2 < 64 && i ^ 56 ^ 1 ^ 2 ^ 4 == 63 - i
  {}

  lemma Reverses64(v: bv64, i: bv7)
    requires i < 64
    ensures BitAt64(Bitreverse64(v), i) <==> BitAt64(v, 63 - i)
  {
    hide BitAt64, Bswap64, SwapBits64, SwapPairs64, SwapNibbles64;
    Positions64(i);
    var v1 := SwapNibbles64(v);
    var v2 := SwapPairs64(v1);
    var v3 := SwapBits64(v2);
    BswapAt64(v3, i);
    SwapBitsAt64(v2, i ^ 56);
    SwapPairsAt64(v1, i ^ 56 ^ 1);
    SwapNibblesAt64(v, i ^ 56 ^ 1 ^ 2);
  }

  lemma Involution64(v: bv64)
    ensures Bitreverse64(Bitreverse64(v)) == v
  {
  }

  /** Reversal swaps highest and lowest. */
  lemma ReversedLowest32(v: bv32, k: bv6)
    requires Lowest32(v, k)
    ensures Highest32(Bitreverse32(v), 31 - k)
  {
  }

  lemma ReversedLowest64(v: bv64, k: bv7)
    requires Lowest64(v, k)
    ensures Highest64(Bitreverse64(v), 63 - k)
  {
  }

  /** clz and ctz of every number but 0: where its highest and lowest bits are, and how reversal relates them. */
  lemma Zeros32(v: bv32)
    requires v != 0
    ensures 0 <= Clz32(v) < 32 && Highest32(v, (31 - Clz32(v)) as bv6)
    ensures 0 <= Ctz32(v) < 32 && Lowest32(v, Ctz32(v) as bv6)
    ensures Ctz32(v) == Clz32(Bitreverse32(v))
  {
    hide Clz32, Ctz32, Bitreverse32, Highest32, Lowest32;
    Bounds32(v);
    var h := HighestFrom32(v, 31);
    var l := LowestFrom32(v, 0);
    Clz32Is(v, h);
    Ctz32Is(v, l);
    InRange32(v, h, l);
    ReversedLowest32(v, l);
    Clz32Is(Bitreverse32(v), 31 - l);
  }

  lemma Bounds32(v: bv32)
    ensures v >> 32 == 0 && Clear32(v, 0)
  {
  }

  lemma InRange32(v: bv32, h: bv6, l: bv6)
    requires Highest32(v, h) && Lowest32(v, l)
    ensures h < 32 && l < 32 && (31 - l) as int == 31 - l as int && h as int < 32 && l as int < 32
    ensures (h as int) as bv6 == h && (l as int) as bv6 == l
  {
  }

  lemma Zeros64(v: bv64)
    requires v != 0
    ensures 0 <= Clz64(v) < 64 && Highest64(v, (63 - Clz64(v)) as bv7)
    ensures 0 <= Ctz64(v) < 64 && Lowest64(v, Ctz64(v) as bv7)
    ensures Ctz64(v) == Clz64(Bitreverse64(v))
  {
    hide Clz64, Ctz64, Bitreverse64, Highest64, Lowest64;
    Bounds64(v);
    var h := HighestFrom64(v, 63);
    var l := LowestFrom64(v, 0);
    Clz64Is(v, h);
    Ctz64Is(v, l);
    InRange64(v, h, l);
    ReversedLowest64(v, l);
    Clz64Is(Bitreverse64(v), 63 - l);
  }

  lemma Bounds64(v: bv64)
    ensures v >> 64 == 0 && Clear64(v, 0)
  {
  }

  lemma InRange64(v: bv64, h: bv7, l: bv7)
    requires Highest64(v, h) && Lowest64(v, l)
    ensures h < 64 && l < 64 && (63 - l) as int == 63 - l as int && h as int < 64 && l as int < 64
    ensures (h as int) as bv7 == h && (l as int) as bv7 == l
  {
  }

  // ---------------------------------------------------------------- counting bits

  function Bit(x: bv32): nat { if x & 1 == 1 then 1 else 0 }

  /** The number of bits set among the lowest n. */
  function BitSum(x: bv32, n: nat): nat {
    if n == 0 then 0 else Bit(x) + BitSum(x >> 1, n - 1)
  }

  // The sum falls apart at these places.

  lemma Split2(x: bv32, n: nat)
    ensures BitSum(x, 2 + n) == BitSum(x, 2) + BitSum(x >> 2, n)
    ensures BitSum(x, 2) == Bit(x) + Bit(x >> 1)
  {
    hide Bit;
    assert (x >> 1) >> 1 == x >> 2;
    assert BitSum(x >> 1, 1) == Bit(x >> 1) + BitSum(x >> 2, 0);
  }

  lemma Split4(x: bv32, n: nat)
    ensures BitSum(x, 4 + n) == BitSum(x, 4) + BitSum(x >> 4, n)
  {
    hide BitSum;
    assert (x >> 2) >> 2 == x >> 4;
    Split2(x, 2);
    Split2(x, 2 + n);
    Split2(x >> 2, n);
  }

  lemma Split8(x: bv32, n: nat)
    ensures BitSum(x, 8 + n) == BitSum(x, 8) + BitSum(x >> 8, n)
  {
    hide BitSum;
    assert (x >> 4) >> 4 == x >> 8;
    Split4(x, 4);
    Split4(x, 4 + n);
    Split4(x >> 4, n);
  }

  lemma Split16(x: bv32, n: nat)
    ensures BitSum(x, 16 + n) == BitSum(x, 16) + BitSum(x >> 16, n)
  {
    hide BitSum;
    assert (x >> 8) >> 8 == x >> 16;
    Split8(x, 8);
    Split8(x, 8 + n);
    Split8(x >> 8, n);
  }

  /** The first three stages of psnip_builtin_popcount of an unsigned int, and the last. */
  function Octets(x: bv32): bv32 {
    var x := x - ((x >> 1) & 0x5555_5555);
    var x := (x & 0x3333_3333) + ((x >> 2) & 0x3333_3333);
    (x + (x >> 4)) & 0x0F0F_0F0F
  }

  function Total(x: bv32): bv32 { (x * 0x0101_0101) >> 24 }

  function Popcount(x: bv32): bv32 { Total(Octets(x)) }

  function Ones(y: bv32): bv32 {
    (y & 1) + ((y >> 1) & 1) + ((y >> 2) & 1) + ((y >> 3) & 1) + ((y >> 4) & 1) + ((y >> 5) & 1) + ((y >> 6) & 1)
      + ((y >> 7) & 1)
  }

  /** Every octet holds the number of its bits. */
  lemma OctetsAre(x: bv32)
    ensures var (w, y) := (Octets(x), x >> 16);
            && w & 0xFF == Ones(x) && (w >> 8) & 0xFF == Ones(x >> 8)
            && (w >> 16) & 0xFF == Ones(y) && (w >> 24) & 0xFF == Ones(y >> 8)
            && w & 0xF0F0_F0F0 == 0
  {
    hide Ones, Octets;
    LowOctets(x);
    HighOctets(x);
  }

  lemma LowOctets(x: bv32)
    ensures Octets(x) & 0xFF == Ones(x) && (Octets(x) >> 8) & 0xFF == Ones(x >> 8) && Octets(x) & 0xF0F0_F0F0 == 0
  {
  }

  lemma HighOctets(x: bv32)
    ensures var y := x >> 16; (Octets(x) >> 16) & 0xFF == Ones(y) && (Octets(x) >> 24) & 0xFF == Ones(y >> 8)
  {
  }

  /** The multiplication adds the octets. */
  lemma OctetsAdd(w: bv32, a: bv32, b: bv32, c: bv32, d: bv32)
    requires w & 0xF0F0_F0F0 == 0
    requires w & 0xFF == a && (w >> 8) & 0xFF == b && (w >> 16) & 0xFF == c && (w >> 24) & 0xFF == d
    ensures Total(w) == (a + b) + (c + d)
  {
  }

  lemma OnesAre(y: bv32)
    ensures Ones(y) <= 8 && Small(Ones(y)) == BitSum(y, 8)
  {
    hide BitSum, Ones, Small, Nibble;
    Split4(y, 4);
    FourBits(y);
    FourBits(y >> 4);
    OnesAreBits(y);
  }

  /** The number of bits set in the lowest nibble. */
  function Nibble(y: bv32): nat { Bit(y) + Bit(y >> 1) + Bit(y >> 2) + Bit(y >> 3) }

  lemma FourBits(y: bv32)
    ensures BitSum(y, 4) == Nibble(y)
  {
    hide BitSum, Bit;
    Split2(y, 2);
    Split2(y >> 2, 0);
    assert (y >> 2) >> 1 == y >> 3;
  }

  lemma OnesAreBits(y: bv32)
    ensures Ones(y) <= 8
    ensures Small(Ones(y)) == Nibble(y) + Nibble(y >> 4)
  {
  }

  function Small(x: bv32): nat
    requires x <= 32
  {
    x as bv6 as nat
  }

  lemma SmallAdd(a: bv32, b: bv32)
    requires a <= 16 && b <= 16
    ensures a + b <= 32 && Small(a + b) == Small(a) + Small(b)
  {
    SmallAdd6(a as bv6, b as bv6);
    assert (a + b) as bv6 == (a as bv6) + (b as bv6);
  }

  lemma SmallAdd6(a: bv6, b: bv6)
    requires a <= 16 && b <= 16
    ensures (a + b) as nat == a as nat + b as nat
  {
  }

  lemma AddUp(a: bv32, b: bv32, c: bv32, d: bv32)
    requires a <= 8 && b <= 8 && c <= 8 && d <= 8
    ensures (a + b) + (c + d) <= 32 && Small((a + b) + (c + d)) == Small(a) + Small(b) + Small(c) + Small(d)
  {
    hide Small;
    assert a + b <= 16 && c + d <= 16;
    SmallAdd(a, b);
    SmallAdd(c, d);
    SmallAdd(a + b, c + d);
  }

  /** popcount is the number of bits set. */
  lemma PopcountIs(x: bv32)
    ensures Popcount(x) <= 32 && Small(Popcount(x)) == BitSum(x, 32)
  {
    hide Ones, Small, BitSum, Octets, Total;
    var y := x >> 16;
    OctetsAre(x);
    HalfCounts(x);
    HalfCounts(y);
    TotalIs(Octets(x), Ones(x), Ones(x >> 8), Ones(y), Ones(y >> 8));
    Split16(x, 16);
  }

  lemma TotalIs(w: bv32, a: bv32, b: bv32, c: bv32, d: bv32)
    requires w & 0xF0F0_F0F0 == 0 && a <= 8 && b <= 8 && c <= 8 && d <= 8
    requires w & 0xFF == a && (w >> 8) & 0xFF == b && (w >> 16) & 0xFF == c && (w >> 24) & 0xFF == d
    ensures Total(w) <= 32 && Small(Total(w)) == Small(a) + Small(b) + Small(c) + Small(d)
  {
    hide Small, Total;
    OctetsAdd(w, a, b, c, d);
    AddUp(a, b, c, d);
  }

  lemma HalfCounts(x: bv32)
    ensures Ones(x) <= 8 && Ones(x >> 8) <= 8 && BitSum(x, 16) == Small(Ones(x)) + Small(Ones(x >> 8))
  {
    hide Ones, Small, BitSum;
    Split8(x, 8);
    OnesAre(x);
    OnesAre(x >> 8);
  }

  // ---------------------------------------------------------------- parity

  /** psnip_builtin_parity of an unsigned int. */
  method Parity(x: bv32) returns (p: bv32)
    ensures p == if BitSum(x, 32) % 2 == 1 then 1 else 0
  {
    hide BitSum, FoldBy, Folded;
    var v := x;
    var i: bv6 := 16;
    NotFolded(x);
    while i > 2
      invariant Folded(x, v, i)
      decreases i
    {
      FoldStep(x, v, i);
      v := FoldBy(v, i);
      i := i / 2;
    }
    FoldedNibble(x, v, i);
    v := v & 0xF;
    return ((0x6996 as bv32) >> (v as bv6)) & 1;
  }

  function FoldBy(v: bv32, i: bv6): bv32
    requires i <= 32
  {
    v ^ (v >> i)
  }

  /** The lowest 2 * i bits of v have the parity of x. */
  ghost predicate Folded(x: bv32, v: bv32, i: bv6) {
    || (i == 16 && v == x)
    || (i == 8 && BitSum(v, 16) % 2 == BitSum(x, 32) % 2)
    || (i == 4 && BitSum(v, 8) % 2 == BitSum(x, 32) % 2)
    || (i == 2 && BitSum(v, 4) % 2 == BitSum(x, 32) % 2)
  }

  lemma NotFolded(x: bv32)
    ensures Folded(x, x, 16)
  {
  }

  lemma FoldStep(x: bv32, v: bv32, i: bv6)
    requires Folded(x, v, i) && i > 2
    ensures 0 < i <= 16 && Folded(x, FoldBy(v, i), i / 2) && i / 2 < i
  {
    hide BitSum, FoldBy;
    if i == 16 { Fold16(v); } else if i == 8 { Fold8(v); } else { Fold4(v); }
  }

  lemma FoldedNibble(x: bv32, v: bv32, i: bv6)
    requires Folded(x, v, i) && i <= 2
    ensures v & 0xF <= 0xF && ((0x6996 as bv32) >> ((v & 0xF) as bv6)) & 1 == if BitSum(x, 32) % 2 == 1 then 1 else 0
  {
    hide BitSum;
    LastNibble(v);
  }

  /** Whether the number of bits is odd. */
  ghost predicate Odd(x: bv32, n: nat) {
    n > 0 && Lowest(x) != Odd(Half(x), n - 1)
  }

  predicate Lowest(x: bv32) { x & 1 == 1 }
  function Half(x: bv32): bv32 { x >> 1 }
  predicate IsXor(a: bv32, b: bv32, c: bv32) { c == a ^ b }

  lemma {:induction false} OddIs(x: bv32, n: nat)
    ensures Odd(x, n) <==> BitSum(x, n) % 2 == 1
  {
    if n == 0 {
    } else {
      OddIs(x >> 1, n - 1);
    }
  }

  lemma {:induction false} XorOdd(a: bv32, b: bv32, c: bv32, n: nat)
    requires IsXor(a, b, c)
    ensures Odd(c, n) <==> Odd(a, n) != Odd(b, n)
    decreases n
  {
    hide IsXor, Lowest, Half;
    if n == 0 {
    } else {
      XorShift(a, b, c);
      XorOdd(Half(a), Half(b), Half(c), n - 1);
    }
  }

  lemma XorShift(a: bv32, b: bv32, c: bv32)
    requires IsXor(a, b, c)
    ensures IsXor(Half(a), Half(b), Half(c)) && (Lowest(c) <==> Lowest(a) != Lowest(b))
  {
  }

  lemma XorSum(a: bv32, b: bv32, c: bv32, n: nat)
    requires IsXor(a, b, c)
    ensures BitSum(c, n) % 2 == (BitSum(a, n) + BitSum(b, n)) % 2
  {
    hide BitSum, Odd, IsXor;
    XorOdd(a, b, c, n);
    OddIs(a, n);
    OddIs(b, n);
    OddIs(c, n);
    OddSum(BitSum(a, n), BitSum(b, n), BitSum(c, n));
  }

  lemma OddSum(p: nat, q: nat, r: nat)
    requires r % 2 == 1 <==> (p % 2 == 1) != (q % 2 == 1)
    ensures r % 2 == (p + q) % 2
  {
  }

  // Each round leaves the parity of twice as many bits in half of them.

  lemma FoldIsXor(v: bv32, i: bv6)
    requires i <= 32
    ensures IsXor(v, v >> i, FoldBy(v, i))
  {
  }

  lemma Fold16(v: bv32)
    ensures BitSum(FoldBy(v, 16), 16) % 2 == BitSum(v, 32) % 2
  {
    hide BitSum, FoldBy, IsXor;
    Split16(v, 16);
    FoldIsXor(v, 16);
    XorSum(v, v >> 16, FoldBy(v, 16), 16);
  }

  lemma Fold8(v: bv32)
    ensures BitSum(FoldBy(v, 8), 8) % 2 == BitSum(v, 16) % 2
  {
    hide BitSum, FoldBy, IsXor;
    Split8(v, 8);
    FoldIsXor(v, 8);
    XorSum(v, v >> 8, FoldBy(v, 8), 8);
  }

  lemma Fold4(v: bv32)
    ensures BitSum(FoldBy(v, 4), 4) % 2 == BitSum(v, 8) % 2
  {
    hide BitSum, FoldBy, IsXor;
    Split4(v, 4);
    FoldIsXor(v, 4);
    XorSum(v, v >> 4, FoldBy(v, 4), 4);
  }

  /** The sixteen nibbles. */
  lemma LastNibble(v: bv32)
    ensures ((0x6996 as bv32) >> ((v & 0xF) as bv6)) & 1 == if BitSum(v, 4) % 2 == 1 then 1 else 0
  {
    hide BitSum, Nibble;
    FourBits(v);
    NibbleTable(v);
  }

  lemma NibbleTable(v: bv32)
    ensures ((0x6996 as bv32) >> ((v & 0xF) as bv6)) & 1 == if Nibble(v) % 2 == 1 then 1 else 0
  {
  }

  /** Parity is the lowest bit of popcount. */
  lemma ParityOfPopcount(x: bv32)
    ensures Popcount(x) & 1 == if BitSum(x, 32) % 2 == 1 then 1 else 0
  {
    hide Popcount, BitSum, Small;
    PopcountIs(x);
    LowBit(Popcount(x));
  }

  lemma LowBit(p: bv32)
    requires p <= 32
    ensures p & 1 == if Small(p) % 2 == 1 then 1 else 0
  {
  }
}
