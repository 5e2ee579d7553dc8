/** Addition and subtraction with carry of portable-snippets, for a type with m values. */
module CarryChain {
  /** psnip_builtin_addc of a type with m values: the sum and the carry. */
  function Addc(x: nat, y: nat, ci: nat, m: nat): (r: (nat, nat))
    requires x < m && y < m && ci < m
  {
    var max := m - 1;
    var r := (x + y) % m;
    var co := if x > max - y then 1 else 0;
    if ci != 0 then ((r + ci) % m, if r == max then 1 else co) else (r, co)
  }

  /** A sum below twice the modulus. */
  lemma Wraps(s: nat, m: nat)
    requires 0 < m && s < 2 * m
    ensures s % m == if s < m then s else s - m
  {
    if s >= m {
      var t := s - m;
      assert s % m == t % m by { AddsModulus(t, m); }
    }
  }

  lemma AddsModulus(t: nat, m: nat)
    requires 0 < m && t < m
    ensures (t + m) % m == t
  {
  }

  /** The result with its carry is the sum iff the carry in overflows at most where the test looks for it; a carry
      in of 0 or 1 always does. */
  lemma AddcIs(x: nat, y: nat, ci: nat, m: nat)
    requires x < m && y < m && ci < m
    ensures var (r, co) := Addc(x, y, ci, m);
            && r < m && co <= 1
            && (x + y + ci == co * m + r <==> ci == 0 || (x + y) % m == m - 1 || (x + y) % m + ci < m)
    ensures ci <= 1 ==> ci == 0 || (x + y) % m == m - 1 || (x + y) % m + ci < m
  {
    Wraps(x + y, m);
    Wraps((x + y) % m + ci, m);
    var (r, co) := Addc(x, y, ci, m);
    assert co == 0 || co == 1;
    assert co * m == if co == 0 then 0 else m;
  }

  /** Limbs, the least significant first. */
  function Number(limbs: seq<nat>, m: nat): nat {
    if limbs == [] then 0 else limbs[0] + m * Number(limbs[1..], m)
  }

  function Power(m: nat, n: nat): nat { if n == 0 then 1 else m * Power(m, n - 1) }

  ghost predicate Limbs(a: seq<nat>, m: nat) { forall i | 0 <= i < |a| :: a[i] < m }

  lemma LimbsTail(a: seq<nat>, m: nat)
    requires Limbs(a, m) && a != []
    ensures a[0] < m && Limbs(a[1..], m)
  {
  }

  /** Chained addition with carry. */
  ghost function AddLimbs(a: seq<nat>, b: seq<nat>, ci: nat, m: nat): (r: (seq<nat>, nat))
    requires |a| == |b| && ci <= 1 && m >= 2 && Limbs(a, m) && Limbs(b, m)
    decreases |a|
  {
    if a == [] then ([], ci)
    else
      LimbsTail(a, m);
      LimbsTail(b, m);
      AddcIs(a[0], b[0], ci, m);
      var (s, co) := Addc(a[0], b[0], ci, m);
      var (rest, c) := AddLimbs(a[1..], b[1..], co, m);
      ([s] + rest, c)
  }

  /** The chain computes the sum, for any number of limbs. */
  lemma {:induction false} AddLimbsIs(a: seq<nat>, b: seq<nat>, ci: nat, m: nat)
    requires |a| == |b| && ci <= 1 && m >= 2 && Limbs(a, m) && Limbs(b, m)
    ensures var (s, c) := AddLimbs(a, b, ci, m);
            && |s| == |a| && c <= 1 && Limbs(s, m)
            && Number(s, m) + c * Power(m, |a|) == Number(a, m) + Number(b, m) + ci
    decreases |a|
  {
    hide Addc;
    if a == [] {
    } else {
      LimbsTail(a, m);
      LimbsTail(b, m);
      AddcIs(a[0], b[0], ci, m);
      var (s, co) := Addc(a[0], b[0], ci, m);
      var (rest, c) := AddLimbs(a[1..], b[1..], co, m);
      AddLimbsIs(a[1..], b[1..], co, m);
      assert ([s] + rest)[1..] == rest;
      var (n, p, q, e) := (Number(rest, m), Number(a[1..], m), Number(b[1..], m), Power(m, |a| - 1));
      hide Number, Power;
      CarryOn(m, s, a[0], b[0], ci, co, n, p, q, c, e);
    }
  }

  /** One limb and the rest of the sum. */
  lemma CarryOn(m: nat, s: nat, x: nat, y: nat, ci: nat, co: nat, n: nat, p: nat, q: nat, c: nat, e: nat)
    requires s + co * m == x + y + ci && n + c * e == p + q + co
    ensures (s + m * n) + c * (m * e) == (x + m * p) + (y + m * q) + ci
  {
    Distribute(m, n, c * e, p, q, co);
    Swap(m, c, e);
  }

  lemma Distribute(m: nat, n: nat, e: nat, p: nat, q: nat, co: nat)
    requires n + e == p + q + co
    ensures m * n + m * e == m * p + m * q + m * co
  {
    assert m * (n + e) == m * (p + q + co);
  }

  lemma Swap(m: nat, c: nat, p: nat)
    ensures m * (c * p) == c * (m * p)
  {
  }

  /** psnip_builtin_subc: the difference and the borrow. */
  function Subc(x: nat, y: nat, ci: nat, m: nat): (r: (nat, nat))
    requires x < m && y < m && ci < m
  {
    var r := (x - y) % m;
    var co := if x < y then 1 else 0;
    if ci != 0 then ((r - 1) % m, if (r - 1) % m == 0 then 1 else co) else (r, co)
  }

  /** With a borrow in, the result is the difference iff the operands differ by neither 0 nor 1: the test for the
      borrow looks at the wrong value. */
  lemma SubcIs(x: nat, y: nat, ci: nat, m: nat)
    requires x < m && y < m && ci < m
    ensures var (r, co) := Subc(x, y, ci, m);
            x - y - ci == r - co * m <==> ci == 0 || (ci == 1 && x != y && x != y + 1)
  {
    var (r, co) := Subc(x, y, ci, m);
    var d := if x < y then x - y + m else x - y;
    assert (x - y) % m == d by { Remainder(x - y, m); }
    Remainder(d - 1, m);
    assert co * m == if co == 0 then 0 else m;
  }

  lemma Remainder(d: int, m: nat)
    requires 0 < m && 0 <= d + m && d < m
    ensures d % m == if d < 0 then d + m else d
  {
  }

  /** Two families of wrong borrows: equal operands with a borrow in lose theirs, and operands one apart gain one. */
  lemma SubcMisses(x: nat, y: nat, m: nat)
    requires x < m && y + 1 < m
    ensures Subc(x, x, 1, m) == (m - 1, 0) && x - x - 1 != m - 1
    ensures Subc(y + 1, y, 1, m) == (0, 1) && (y + 1) - y - 1 != 0 - m
  {
    Remainder(0, m);
    Remainder(-1, m);
    Remainder(1, m);
  }
}
