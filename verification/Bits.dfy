/**
  Unsigned machine words as natural numbers: powers of two, exclusive or and inclusive or,
  with the algebra the CRC, varint and histogram proofs rest on.
 */
module Bits {

  type byte = x: nat | x < 0x100
  type uint32 = x: nat | x < 0x1_0000_0000
  type uint64 = x: nat | x < 0x1_0000_0000_0000_0000

  function Pow2(n: nat): (r: nat)
    ensures r >= 1
  {
    if n == 0 then 1 else 2 * Pow2(n - 1)
  }

  lemma Pow2Double(n: nat)
    ensures Pow2(n + 1) == 2 * Pow2(n)
  {}

  lemma {:induction false} Pow2Add(m: nat, n: nat)
    ensures Pow2(m + n) == Pow2(m) * Pow2(n)
  {
    if m != 0 {
      Pow2Add(m - 1, n);
      assert Pow2(m + n) == 2 * Pow2(m - 1 + n);
      MulAssoc(2, Pow2(m - 1), Pow2(n));
    }
  }

  lemma {:induction false} Pow2Monotone(m: nat, n: nat)
    requires m <= n
    ensures Pow2(m) <= Pow2(n)
  {
    if m < n {
      Pow2Monotone(m, n - 1);
    }
  }

  /** Bitwise exclusive or. */
  function Xor(a: nat, b: nat): nat
    decreases a + b
  {
    if a == 0 then b
    else if b == 0 then a
    else (if a % 2 == b % 2 then 0 else 1) + 2 * Xor(a / 2, b / 2)
  }

  /** The defining recursion, without the shortcuts for zero operands. */
  lemma {:induction false} XorBits(a: nat, b: nat)
    ensures Xor(a, b) % 2 == (if a % 2 == b % 2 then 0 else 1)
    ensures Xor(a, b) / 2 == Xor(a / 2, b / 2)
  {
    BitPlus(if a % 2 == b % 2 then 0 else 1, Xor(a / 2, b / 2));
  }

  lemma BitPlus(d: nat, z: nat)
    requires d < 2
    ensures (d + 2 * z) % 2 == d && (d + 2 * z) / 2 == z
  {}

  lemma {:induction false} XorZero(a: nat)
    ensures Xor(a, 0) == a && Xor(0, a) == a
  {}

  lemma {:induction false} XorSelf(a: nat)
    ensures Xor(a, a) == 0
  {
    if a != 0 {
      XorSelf(a / 2);
    }
  }

  lemma {:induction false} XorComm(a: nat, b: nat)
    ensures Xor(a, b) == Xor(b, a)
    decreases a + b
  {
    if a != 0 && b != 0 {
      XorComm(a / 2, b / 2);
    }
  }

  /** Two numbers with the same low bit and the same other bits are equal. */
  lemma SameBits(x: nat, y: nat)
    requires x % 2 == y % 2 && x / 2 == y / 2
    ensures x == y
  {}

  lemma {:induction false} XorAssoc(a: nat, b: nat, c: nat)
    ensures Xor(Xor(a, b), c) == Xor(a, Xor(b, c))
    decreases a + b + c
  {
    if a != 0 && b != 0 && c != 0 {
      XorAssoc(a / 2, b / 2, c / 2);
      XorBits(a, b);
      XorBits(b, c);
      XorBits(Xor(a, b), c);
      XorBits(a, Xor(b, c));
      SameBits(Xor(Xor(a, b), c), Xor(a, Xor(b, c)));
    }
  }

  lemma {:induction false} XorBound(a: nat, b: nat, n: nat)
    requires a < Pow2(n) && b < Pow2(n)
    ensures Xor(a, b) < Pow2(n)
  {
    if n != 0 && a != 0 && b != 0 {
      XorBound(a / 2, b / 2, n - 1);
    }
  }

  lemma MulAssoc(a: nat, b: nat, c: nat)
    ensures a * (b * c) == (a * b) * c
  {}

  lemma Halve(a: nat, z: nat)
    ensures (a + 2 * z) % 2 == a % 2 && (a + 2 * z) / 2 == a / 2 + z
  {}

  lemma Twice(p: nat, q: nat, b: nat)
    requires q == 2 * p
    ensures q * b == 2 * (p * b)
  {}

  /** Exclusive or acts separately on the low `k` bits and on the rest. */
  lemma {:induction false} XorSplit(a: nat, b: nat, c: nat, d: nat, k: nat)
    requires a < Pow2(k) && c < Pow2(k)
    ensures Xor(a + Pow2(k) * b, c + Pow2(k) * d) == Xor(a, c) + Pow2(k) * Xor(b, d)
  {
    hide Xor;
    if k == 0 {
      XorSelf(0);
    } else {
      var p, q := Pow2(k - 1), Pow2(k);
      XorSplit(a / 2, b, c / 2, d, k - 1);
      XorDouble(a, p * b, c, p * d, p * Xor(b, d));
      Twice(p, q, b);
      Twice(p, q, d);
      Twice(p, q, Xor(b, d));
      assert q * b == 2 * (p * b) && q * d == 2 * (p * d);
    }
  }

  lemma XorDouble(a: nat, y: nat, c: nat, z: nat, w: nat)
    requires Xor(a / 2 + y, c / 2 + z) == Xor(a / 2, c / 2) + w
    ensures Xor(a + 2 * y, c + 2 * z) == Xor(a, c) + 2 * w
  {
    hide Xor;
    Halve(a, y);
    Halve(c, z);
    Halve(Xor(a, c), w);
    XorBits(a + 2 * y, c + 2 * z);
    XorBits(a, c);
    SameBits(Xor(a + 2 * y, c + 2 * z), Xor(a, c) + 2 * w);
  }

  lemma XorSwap(a: nat, b: nat, c: nat, d: nat)
    ensures Xor(Xor(a, b), Xor(c, d)) == Xor(Xor(a, c), Xor(b, d))
  {
    hide Xor;
    calc {
      Xor(Xor(a, b), Xor(c, d));
      { XorAssoc(a, b, Xor(c, d)); XorAssoc(b, c, d); XorComm(b, c); XorAssoc(c, b, d); }
      Xor(a, Xor(c, Xor(b, d)));
      { XorAssoc(a, c, Xor(b, d)); }
      Xor(Xor(a, c), Xor(b, d));
    }
  }

  lemma Pow2Values()
    ensures Pow2(8) == 0x100 && Pow2(16) == 0x1_0000 && Pow2(24) == 0x100_0000
    ensures Pow2(32) == 0x1_0000_0000
  {
    Pow2Add(8, 8);
    Pow2Add(8, 16);
    Pow2Add(16, 16);
  }

  function Xor32(a: uint32, b: uint32): uint32 {
    Pow2Values();
    XorBound(a, b, 32);
    Xor(a, b)
  }

  /** Bitwise inclusive or. */
  function Or(a: nat, b: nat): nat
    decreases a + b
  {
    if a == 0 then b
    else if b == 0 then a
    else (if a % 2 == 1 || b % 2 == 1 then 1 else 0) + 2 * Or(a / 2, b / 2)
  }

  lemma {:induction false} OrBits(a: nat, b: nat)
    ensures Or(a, b) % 2 == (if a % 2 == 1 || b % 2 == 1 then 1 else 0)
    ensures Or(a, b) / 2 == Or(a / 2, b / 2)
  {
    BitPlus(if a % 2 == 1 || b % 2 == 1 then 1 else 0, Or(a / 2, b / 2));
  }

  /** Or of disjoint bit ranges is addition. */
  lemma {:induction false} OrDisjoint(a: nat, b: nat, k: nat)
    requires a < Pow2(k)
    ensures Or(a, Pow2(k) * b) == a + Pow2(k) * b
  {
    if k != 0 {
      hide Or;
      var p, q := Pow2(k - 1), Pow2(k);
      Twice(p, q, b);
      OrDisjoint(a / 2, b, k - 1);
      OrDouble(a, p * b);
    }
  }

  lemma OrDouble(a: nat, y: nat)
    requires Or(a / 2, y) == a / 2 + y
    ensures Or(a, 2 * y) == a + 2 * y
  {
    hide Or;
    OrBits(a, 2 * y);
    SameBits(Or(a, 2 * y), a + 2 * y);
  }

  // ------------------------------------------------------------------ division

  lemma ModScale(p: nat, d: nat, q: nat)
    requires p > 0 && q > 0
    ensures p * q > 0 && p * d % (p * q) == p * (d % q)
  {
    ModSum(0, p, d, q);
  }

  /** Quotient and remainder are unique. */
  lemma DivUnique(n: nat, a: nat, r: nat, b: nat, s: nat)
    requires r < n && s < n && n * a + r == n * b + s
    ensures a == b && r == s
  {
    MulStep(n, a, b);
    MulStep(n, b, a);
  }

  lemma MulStep(n: nat, a: nat, b: nat)
    ensures a > b ==> n * a >= n * b + n
  {
    if a > b {
      var k := a - b - 1;
      assert n * (b + 1 + k) == n * b + n + n * k;
    }
  }

  lemma ModUnique(n: nat, m: nat, r: nat)
    requires r < n
    ensures (n * m + r) % n == r
  {
    var x := n * m + r;
    DivUnique(n, x / n, x % n, m, r);
  }

  lemma ModSum(num: nat, p: nat, d: nat, q: nat)
    requires num < p && q > 0
    ensures p * q > 0 && (num + p * d) % (p * q) == num + p * (d % q)
  {
    var m, r := d / q, d % q;
    Positive(p, q);
    Regroup(num, p, q, m, r, d);
    BelowProduct(num, p, q, r);
    ModUnique(p * q, m, num + p * r);
  }

  lemma Positive(p: nat, q: nat)
    requires p > 0 && q > 0
    ensures p * q > 0
  {}

  lemma Regroup(num: nat, p: nat, q: nat, m: nat, r: nat, d: nat)
    requires d == q * m + r
    ensures num + p * d == (p * q) * m + (num + p * r)
  {
    MulAssoc(p, q, m);
    assert p * (q * m + r) == p * (q * m) + p * r;
  }

  lemma BelowProduct(num: nat, p: nat, q: nat, r: nat)
    requires num < p && r < q
    ensures num + p * r < p * q
  {
    assert p * q == p * (q - 1) + p;
    assert p * r <= p * (q - 1);
  }

  lemma SmallMod(r: nat, n: nat)
    requires r < n
    ensures r % n == r
  {}
}
