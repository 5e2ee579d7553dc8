/** memchr_inv: the first byte that is not the given one, a word at a time. */
module MemchrInv {
  type Bytes = seq<bv8>

  /** The position of the first byte other than value, or -1 for a null pointer. */
  function FirstOther(m: Bytes, value: bv8): (k: int)
    ensures -1 <= k < |m|
    ensures k == -1 ==> forall i | 0 <= i < |m| :: m[i] == value
    ensures k >= 0 ==> m[k] != value && forall i | 0 <= i < k :: m[i] == value
  {
    if m == [] then -1
    else if m[0] != value then 0
    else
      var k := FirstOther(m[1..], value);
      assert forall i | 0 < i < |m| :: m[i] == m[1..][i - 1];
      if k == -1 then -1 else k + 1
  }

  lemma FirstOtherIs(m: Bytes, value: bv8, k: int)
    requires -1 <= k < |m|
    requires k == -1 ==> forall i | 0 <= i < |m| :: m[i] == value
    requires k >= 0 ==> m[k] != value && forall i | 0 <= i < k :: m[i] == value
    ensures FirstOther(m, value) == k
  {
  }

  /** __real_memchr_inv_check_bytes8, from position `start` of the buffer m. */
  method CheckBytes8(m: Bytes, start: nat, value: bv8, bytes: nat) returns (p: int)
    requires start + bytes <= |m|
    ensures p == -1 ==> forall i | start <= i < start + bytes :: m[i] == value
    ensures p != -1 ==> start <= p < start + bytes && m[p] != value && forall i | start <= i < p :: m[i] == value
  {
    var (s, b) := (start, bytes);
    while b > 0
      invariant 0 <= b && s + b == start + bytes && start <= s
      invariant forall i | start <= i < s :: m[i] == value
    {
      if m[s] != value { return s; }
      s := s + 1;
      b := b - 1;
    }
    return -1;
  }

  /** What a uint64_t at position s holds, least significant byte first. */
  function Word(m: Bytes, s: nat): (w: bv64)
    requires s + 8 <= |m|
  {
    Pack(m[s], m[s + 1], m[s + 2], m[s + 3], m[s + 4], m[s + 5], m[s + 6], m[s + 7])
  }

  function Pack(b0: bv8, b1: bv8, b2: bv8, b3: bv8, b4: bv8, b5: bv8, b6: bv8, b7: bv8): (w: bv64) {
    (b0 as bv64) | ((b1 as bv64) << 8) | ((b2 as bv64) << 16) | ((b3 as bv64) << 24)
    | ((b4 as bv64) << 32) | ((b5 as bv64) << 40) | ((b6 as bv64) << 48) | ((b7 as bv64) << 56)
  }

  /** value64 where BITS_PER_LONG is not 64. */
  function Spread(value: bv8): (w: bv64) {
    var value64 := (value as bv64) * 0x01010101;
    value64 | (value64 << 32)
  }

  lemma PackIsSpread(b0: bv8, b1: bv8, b2: bv8, b3: bv8, b4: bv8, b5: bv8, b6: bv8, b7: bv8, v: bv8)
    ensures Pack(b0, b1, b2, b3, b4, b5, b6, b7) == Spread(v)
            <==> b0 == v && b1 == v && b2 == v && b3 == v && b4 == v && b5 == v && b6 == v && b7 == v
  {
  }

  lemma WordIsSpread(m: Bytes, s: nat, v: bv8)
    requires s + 8 <= |m|
    ensures Word(m, s) == Spread(v) <==> forall i | s <= i < s + 8 :: m[i] == v
  {
    PackIsSpread(m[s], m[s + 1], m[s + 2], m[s + 3], m[s + 4], m[s + 5], m[s + 6], m[s + 7], v);
  }

  const UINT_RANGE := 0x1_0000_0000

  /** The bytes before the first aligned address. */
  function Prefix(address: nat): (n: nat)
    ensures n < 8 && (address + n) % 8 == 0
  {
    if address % 8 == 0 then 0 else 8 - address % 8
  }

  /** The bytes that are looked at: the number of words is kept in an unsigned int. */
  function Examined(address: nat, bytes: nat): (n: nat)
    ensures n <= bytes
  {
    if bytes <= 16 then bytes
    else
      var rest := bytes - Prefix(address);
      Prefix(address) + rest / 8 % UINT_RANGE * 8 + rest % 8
  }

  /** __real_memchr_inv of the |m| bytes at `address`; the result is a position in m, or -1.  Every word is read
      at an aligned address within m. */
  method RealMemchrInv(m: Bytes, address: nat, c: int) returns (p: int)
    ensures p == FirstOther(m[..Examined(address, |m|)], (c % 256) as bv8)
  {
    ghost var n := Examined(address, |m|);
    var value := (c % 256) as bv8;
    var bytes := |m|;
    if bytes <= 16 {
      p := CheckBytes8(m, 0, value, bytes);
      FirstOtherIs(m[..n], value, p);
      return;
    }
    var value64 := Spread(value);
    var start := 0;
    var prefix := address % 8;
    if prefix > 0 {
      prefix := 8 - prefix;
      p := CheckBytes8(m, 0, value, prefix);
      if p != -1 {
        FirstOtherIs(m[..n], value, p);
        return;
      }
      start := prefix;
      bytes := bytes - prefix;
    }
    var words := bytes / 8 % UINT_RANGE;
    while words > 0
      invariant 0 <= words && start + words * 8 + bytes % 8 == n && 0 <= start && (address + start) % 8 == 0
      invariant forall i | 0 <= i < start :: m[i] == value
    {
      WordIsSpread(m, start, value);
      if Word(m, start) != value64 {
        p := CheckBytes8(m, start, value, 8);
        FirstOtherIs(m[..n], value, p);
        return;
      }
      start := start + 8;
      words := words - 1;
    }
    p := CheckBytes8(m, start, value, bytes % 8);
    FirstOtherIs(m[..n], value, p);
  }

  /** What is not looked at is a whole number of 2^35 bytes, as many as there are behind the aligned address. */
  lemma Overlooked(address: nat, bytes: nat) returns (k: nat)
    ensures bytes == Examined(address, bytes) + k * 0x8_0000_0000
    ensures bytes > 16 ==> Prefix(address) <= Examined(address, bytes) < Prefix(address) + 0x8_0000_0000
    ensures bytes <= 16 ==> k == 0
  {
    k := 0;
    if bytes > 16 {
      var words := (bytes - Prefix(address)) / 8;
      k := words / UINT_RANGE;
      assert words == k * UINT_RANGE + words % UINT_RANGE;
    }
  }

  /** The bytewise answer is given for all contents iff the number of words fits an unsigned int. */
  lemma AgreesIff(address: nat, bytes: nat, value: bv8)
    ensures (forall m: Bytes | |m| == bytes :: FirstOther(m[..Examined(address, bytes)], value) == FirstOther(m, value))
            <==> bytes <= 16 || (bytes - Prefix(address)) / 8 < UINT_RANGE
  {
    var n := Examined(address, bytes);
    if bytes <= 16 || (bytes - Prefix(address)) / 8 < UINT_RANGE {
      assert n == bytes;
      forall m: Bytes | |m| == bytes ensures FirstOther(m[..n], value) == FirstOther(m, value) { assert m[..n] == m; }
    } else {
      var other: bv8 := if value == 0 then 1 else 0;
      var m := seq(bytes, i => if i < bytes - 1 then value else other);
      assert n < bytes;
      FirstOtherIs(m, value, bytes - 1);
      FirstOtherIs(m[..n], value, -1);
    }
  }

  /** One byte more than 2^35 at an aligned address: the number of words is 0 in an unsigned int, and a difference in
      the last byte goes unseen. */
  lemma LastByteUnseen(m: Bytes, value: bv8)
    requires |m| == 0x8_0000_0001 && m[|m| - 1] != value && forall i | 0 <= i < |m| - 1 :: m[i] == value
    ensures Examined(0, |m|) == 1 && FirstOther(m[..1], value) == -1 && FirstOther(m, value) == 0x8_0000_0000
  {
    FirstOtherIs(m[..1], value, -1);
    FirstOtherIs(m, value, |m| - 1);
  }

  /** For any one buffer it is the bytewise answer iff that lies within the bytes looked at. */
  lemma AgreesFor(m: Bytes, address: nat, value: bv8)
    ensures var n := Examined(address, |m|);
            FirstOther(m[..n], value) == FirstOther(m, value) <==> FirstOther(m, value) < n
  {
    var n := Examined(address, |m|);
    var k := FirstOther(m, value);
    if k < n {
      FirstOtherIs(m[..n], value, k);
    }
  }
}
