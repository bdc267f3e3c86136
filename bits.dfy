/** Python's integer bit operators on non-negative, unbounded integers.
    `a << 1` is `2 * a`; `&`, `|` and `^` are defined bit by bit from the
    least significant end, and the lemmas below give them their usual
    arithmetic meaning (masking is a remainder, a one-bit `&` tests a bit). */
module Bits {

  /** 2 to the power n, i.e. `1 << n`. */
  function Pow2(n: nat): (r: nat)
    ensures r >= 1
  {
    if n == 0 then 1 else 2 * Pow2(n - 1)
  }

  /** A mask of n one-bits, `(1 << n) - 1`. */
  function Mask(n: nat): nat
  {
    Pow2(n) - 1
  }

  /** Bit i of x (bit 0 is the least significant one). */
  predicate Bit(x: nat, i: nat)
  {
    if i == 0 then x % 2 == 1 else Bit(x / 2, i - 1)
  }

  /** `a & b` */
  function And(a: nat, b: nat): nat
  {
    if a == 0 || b == 0 then 0
    else 2 * And(a / 2, b / 2) + (if a % 2 == 1 && b % 2 == 1 then 1 else 0)
  }

  /** `a | b` */
  function Or(a: nat, b: nat): nat
  {
    if a == 0 then b
    else if b == 0 then a
    else 2 * Or(a / 2, b / 2) + (if a % 2 == 1 || b % 2 == 1 then 1 else 0)
  }

  /** `a ^ b` */
  function Xor(a: nat, b: nat): nat
  {
    if a == 0 then b
    else if b == 0 then a
    else 2 * Xor(a / 2, b / 2) + (if a % 2 == b % 2 then 0 else 1)
  }

  // ---------------------------------------------------------------------
  // Euclidean division facts used by the bit lemmas

  lemma MulAtLeast(m: int, d: int)
    requires m > 0 && d >= 1
    ensures m * d >= m
  {
  }

  /** Division and remainder are determined by any decomposition a == m*k + t with 0 <= t < m. */
  lemma DivModUnique(a: int, m: int, k: int, t: int)
    requires m > 0 && 0 <= t < m && a == m * k + t
    ensures a / m == k && a % m == t
  {
    var q, r := a / m, a % m;
    assert m * q + r == m * k + t;
    assert m * (q - k) == t - r;
    if q > k {
      MulAtLeast(m, q - k);
    } else if q < k {
      MulAtLeast(m, k - q);
    }
  }

  /** A value below m is its own remainder. */
  lemma SmallMod(x: nat, m: nat)
    requires x < m
    ensures x % m == x
  {
    DivModUnique(x, m, 0, x);
  }

  /** Removing the low bit, then reducing modulo p, is reducing modulo 2p, then removing the low bit. */
  lemma ModDouble(a: nat, p: nat)
    requires p >= 1
    ensures a % (2 * p) == 2 * ((a / 2) % p) + a % 2
  {
    var q, r := a / 2, a % 2;
    var k, s := q / p, q % p;
    assert a == (2 * p) * k + (2 * s + r) by {
      assert q == p * k + s;
    }
    DivModUnique(a, 2 * p, k, 2 * s + r);
  }

  // ---------------------------------------------------------------------
  // The operators' meaning

  /** `(m << 1) | 1` appends a one-bit: this is how the mask is built. */
  lemma ShiftOrOne(m: nat)
    ensures Or(2 * m, 1) == 2 * m + 1
  {
    if m != 0 {
      assert (2 * m) / 2 == m && 1 / 2 == 0;
    }
  }

  /** Masking with n one-bits keeps exactly the value modulo 2^n. */
  lemma {:induction false} AndMask(a: nat, n: nat)
    ensures And(a, Mask(n)) == a % Pow2(n)
  {
    if n == 0 {
    } else if a == 0 {
    } else {
      var p := Pow2(n - 1);
      assert Mask(n) == 2 * Mask(n - 1) + 1;
      assert Mask(n) / 2 == Mask(n - 1) && Mask(n) % 2 == 1;
      AndMask(a / 2, n - 1);
      ModDouble(a, p);
    }
  }

  /** `a & (1 << i)` is either 0 or `1 << i`, according to bit i of a. */
  lemma {:induction false} AndPow2(a: nat, i: nat)
    ensures And(a, Pow2(i)) == if Bit(a, i) then Pow2(i) else 0
  {
    if a == 0 {
      assert !Bit(a, i) by { ZeroHasNoBits(i); }
    } else if i == 0 {
    } else {
      assert Pow2(i) / 2 == Pow2(i - 1) && Pow2(i) % 2 == 0;
      AndPow2(a / 2, i - 1);
    }
  }

  lemma {:induction false} ZeroHasNoBits(i: nat)
    ensures !Bit(0, i)
  {
    if i > 0 {
      ZeroHasNoBits(i - 1);
    }
  }

  /** Bit i of x is the remainder of x / 2^i modulo 2. */
  lemma {:induction false} BitAsDiv(x: nat, i: nat)
    ensures Bit(x, i) <==> (x / Pow2(i)) % 2 == 1
  {
    if i > 0 {
      BitAsDiv(x / 2, i - 1);
      var p := Pow2(i - 1);
      var q, r := x / 2, x % 2;
      assert x == (2 * p) * (q / p) + (2 * (q % p) + r) by {
        assert q == p * (q / p) + q % p;
      }
      DivModUnique(x, 2 * p, q / p, 2 * (q % p) + r);
    }
  }

  /** Bits below n are unaffected by reduction modulo 2^n. */
  lemma {:induction false} BitMod(a: nat, n: nat, i: nat)
    requires i < n
    ensures Bit(a % Pow2(n), i) == Bit(a, i)
  {
    var p := Pow2(n - 1);
    ModDouble(a, p);
    if i > 0 {
      assert (a % Pow2(n)) / 2 == (a / 2) % p;
      BitMod(a / 2, n - 1, i - 1);
    }
  }

  /** `^` commutes with reduction modulo 2^n: the low n bits of a ^ b come
      from the low n bits of a and b only. */
  lemma {:induction false} XorMod(a: nat, b: nat, n: nat)
    ensures Xor(a, b) % Pow2(n) == Xor(a % Pow2(n), b % Pow2(n))
  {
    if n == 0 {
    } else {
      var p := Pow2(n - 1);
      var m := Pow2(n);
      ModDouble(a, p);
      ModDouble(b, p);
      ModDouble(Xor(a, b), p);
      XorMod(a / 2, b / 2, n - 1);
      XorHalves(a, b);
      XorHalves(a % m, b % m);
      assert (a % m) / 2 == (a / 2) % p && (a % m) % 2 == a % 2;
      assert (b % m) / 2 == (b / 2) % p && (b % m) % 2 == b % 2;
    }
  }

  /** The recursion of Xor, stated for every pair of operands (also when one is zero). */
  lemma XorHalves(a: nat, b: nat)
    ensures Xor(a, b) / 2 == Xor(a / 2, b / 2)
    ensures Xor(a, b) % 2 == (if a % 2 == b % 2 then 0 else 1)
  {
    if a == 0 {
      assert Xor(0, b / 2) == b / 2;
    } else if b == 0 {
      assert Xor(a / 2, 0) == a / 2;
    }
  }

  /** Bit i of `a ^ b` is set exactly when bits i of a and b differ. */
  lemma {:induction false} XorBit(a: nat, b: nat, i: nat)
    ensures Bit(Xor(a, b), i) <==> Bit(a, i) != Bit(b, i)
  {
    XorHalves(a, b);
    if i > 0 {
      XorBit(a / 2, b / 2, i - 1);
    }
  }

  /** Bit i of `a & b` is set exactly when bits i of a and b are both set. */
  lemma {:induction false} AndBit(a: nat, b: nat, i: nat)
    ensures Bit(And(a, b), i) <==> Bit(a, i) && Bit(b, i)
  {
    if a == 0 || b == 0 {
      ZeroHasNoBits(i);
    } else if i > 0 {
      AndBit(a / 2, b / 2, i - 1);
    }
  }

  /** `x ^ 0 == x` */
  lemma XorZero(x: nat)
    ensures Xor(x, 0) == x
  {
  }

  /** Reducing twice: (a mod 2p) mod p == a mod p. */
  lemma ModModDouble(a: nat, p: nat)
    requires p >= 1
    ensures (a % (2 * p)) % p == a % p
  {
    var k, s := a / (2 * p), a % (2 * p);
    var k', s' := s / p, s % p;
    assert s == p * k' + s';
    assert a == p * (2 * k + k') + s';
    DivModUnique(a, p, 2 * k + k', s');
  }
}
