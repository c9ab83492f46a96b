/** Bitwise operations on non-negative integers and the 32-bit two's-complement
    view of Java's `int`, stated arithmetically so that the field tables can be
    reasoned about with ordinary integers. */
module Bits {

  /** n is 2^k for some k >= 0. */
  predicate IsPowerOfTwo(n: int)
    decreases n
  {
    n == 1 || (n >= 2 && n % 2 == 0 && IsPowerOfTwo(n / 2))
  }

  /** Bitwise exclusive or: the low bit is the parity of the two low bits,
      the higher bits are the exclusive or of the halves. */
  function Xor(a: nat, b: nat): nat
    decreases a + b
  {
    if a == 0 && b == 0 then 0 else 2 * Xor(a / 2, b / 2) + (a + b) % 2
  }

  /** Bitwise and. */
  function And(a: nat, b: nat): nat
    decreases a + b
  {
    if a == 0 || b == 0 then 0
    else 2 * And(a / 2, b / 2) + (if a % 2 == 1 && b % 2 == 1 then 1 else 0)
  }

  // ---------------------------------------------------------------------
  // Division facts used below

  /** A positive multiple of d is at least d. */
  lemma {:induction false} MulAtLeast(d: int, k: int)
    requires d > 0 && k >= 1
    ensures d * k >= d
    decreases k
  {
    if k > 1 {
      MulAtLeast(d, k - 1);
      assert d * k == d * (k - 1) + d;
    }
  }

  /** Euclidean division has exactly one quotient and remainder. */
  lemma DivModUnique(y: int, d: int, q: int, m: int)
    requires 0 < d && 0 <= m < d && y == d * q + m
    ensures y / d == q && y % d == m
  {
    var q0, m0 := y / d, y % d;
    assert d * q0 + m0 == y;
    if q > q0 {
      assert d * q == d * q0 + d * (q - q0);
      MulAtLeast(d, q - q0);
      assert false;
    } else if q < q0 {
      assert d * q0 == d * q + d * (q0 - q);
      MulAtLeast(d, q0 - q);
      assert false;
    }
  }

  /** Reducing modulo 2h keeps the low bit and reduces the upper bits modulo h. */
  lemma ModDouble(y: nat, h: int)
    requires h >= 1
    ensures y % (2 * h) == 2 * ((y / 2) % h) + y % 2
  {
    var q, r := y / 2, y % 2;
    var t, s := q / h, q % h;
    assert y == (2 * h) * t + (2 * s + r) by {
      assert q == h * t + s;
      assert y == 2 * q + r;
    }
    DivModUnique(y, 2 * h, t, 2 * s + r);
  }

  /** Parity of a sum depends only on the parities of its terms. */
  lemma SumParity(x: int, y: int, u: int, v: int)
    requires x % 2 == u % 2 && y % 2 == v % 2
    ensures (x + y) % 2 == (u + v) % 2
  {
  }

  /** A power of two other than 1 is twice a power of two. */
  lemma HalfOfPowerOfTwo(n: int)
    requires IsPowerOfTwo(n) && n != 1
    ensures n >= 2 && n == 2 * (n / 2) && IsPowerOfTwo(n / 2)
  {
  }

  // ---------------------------------------------------------------------
  // Exclusive or

  /** The defining recurrence of Xor holds for all arguments, 0 and 0 included. */
  lemma XorHalves(a: nat, b: nat)
    ensures Xor(a, b) == 2 * Xor(a / 2, b / 2) + (a + b) % 2
  {
    if a == 0 && b == 0 {
      assert Xor(0, 0) == 0;
    }
  }

  /** The low bit of a ^ b is the parity of a + b; the upper bits are the
      exclusive or of the upper bits. */
  lemma XorLowBit(a: nat, b: nat)
    ensures Xor(a, b) % 2 == (a + b) % 2
    ensures Xor(a, b) / 2 == Xor(a / 2, b / 2)
  {
    XorHalves(a, b);
    DivModUnique(Xor(a, b), 2, Xor(a / 2, b / 2), (a + b) % 2);
  }

  lemma {:induction false} XorCommutes(a: nat, b: nat)
    ensures Xor(a, b) == Xor(b, a)
    decreases a + b
  {
    if a != 0 || b != 0 {
      XorCommutes(a / 2, b / 2);
    }
  }

  lemma {:induction false} XorZero(a: nat)
    ensures Xor(a, 0) == a
    decreases a
  {
    if a != 0 {
      XorZero(a / 2);
    }
  }

  lemma {:induction false} XorSelf(a: nat)
    ensures Xor(a, a) == 0
    decreases a
  {
    if a != 0 {
      XorSelf(a / 2);
    }
  }

  /** Exclusive or with the same value twice is the identity. */
  lemma {:induction false} XorCancel(a: nat, b: nat)
    ensures Xor(Xor(a, b), b) == a
    decreases a + b
  {
    if a != 0 || b != 0 {
      XorCancel(a / 2, b / 2);
      XorCancelStep(a, b);
    }
  }

  /** One bit of XorCancel: if cancelling works on the upper bits, it works on a and b. */
  lemma XorCancelStep(a: nat, b: nat)
    requires Xor(Xor(a / 2, b / 2), b / 2) == a / 2
    ensures Xor(Xor(a, b), b) == a
  {
    var w := Xor(a, b);
    var x := Xor(a / 2, b / 2);
    XorHalves(a, b);
    ParityStep(w, x, a, b);
    XorHalves(w, b);
  }

  /** Arithmetic core of XorCancelStep, free of Xor terms: w = 2x + (a + b) % 2
      has upper half x, and adding b back restores the parity of a. */
  lemma ParityStep(w: int, x: int, a: int, b: int)
    requires w == 2 * x + (a + b) % 2
    ensures w / 2 == x && (w + b) % 2 == a % 2
  {
    DivModUnique(w, 2, x, (a + b) % 2);
  }

  /** The exclusive or of two numbers below a power of two stays below it. */
  lemma {:induction false} XorBound(a: nat, b: nat, n: int)
    requires IsPowerOfTwo(n) && a < n && b < n
    ensures Xor(a, b) < n
    decreases n
  {
    if n != 1 {
      HalfOfPowerOfTwo(n);
      XorBound(a / 2, b / 2, n / 2);
    }
  }

  /** Exclusive or commutes with reduction modulo a power of two (it acts bit by bit). */
  lemma {:induction false} XorMod(a: nat, b: nat, n: int)
    requires IsPowerOfTwo(n)
    ensures Xor(a, b) % n == Xor(a % n, b % n)
    decreases n
  {
    if n != 1 {
      HalfOfPowerOfTwo(n);
      var h := n / 2;
      var a', b' := a % n, b % n;
      var ah, bh := (a / 2) % h, (b / 2) % h;
      XorMod(a / 2, b / 2, h);
      XorLowBit(a, b);
      ModDouble(Xor(a, b), h);
      ModDouble(a, h);
      ModDouble(b, h);
      DivModUnique(a', 2, ah, a % 2);
      DivModUnique(b', 2, bh, b % 2);
      SumParity(a', b', a, b);
      calc {
        Xor(a, b) % n;
        2 * (Xor(a / 2, b / 2) % h) + (a + b) % 2;
        2 * Xor(ah, bh) + (a + b) % 2;
        { if a' == 0 && b' == 0 { assert ah == 0 && bh == 0; } }
        Xor(a', b');
      }
    }
  }

  // ---------------------------------------------------------------------
  // And with a mask

  /** Masking with n - 1 keeps the residue modulo a power of two n. */
  lemma {:induction false} MaskIsMod(y: nat, n: int)
    requires IsPowerOfTwo(n)
    ensures And(y, n - 1) == y % n
    decreases n
  {
    if n != 1 && y != 0 {
      HalfOfPowerOfTwo(n);
      var h := n / 2;
      MaskIsMod(y / 2, h);
      assert (n - 1) / 2 == h - 1 && (n - 1) % 2 == 1;
      ModDouble(y, h);
    }
  }

  // ---------------------------------------------------------------------
  // Java int (32-bit two's complement)

  const IntMin := -0x8000_0000
  const IntMax := 0x7fff_ffff
  const TwoTo31 := 0x8000_0000
  const TwoTo32 := 0x1_0000_0000

  predicate IsInt(a: int) {
    IntMin <= a <= IntMax
  }

  /** The 32-bit pattern of a Java int, read as an unsigned number. */
  function ToUnsigned(a: int): (u: nat)
    requires IsInt(a)
    ensures u < TwoTo32
    ensures 0 <= a ==> u == a
  {
    if a < 0 then a + TwoTo32 else a
  }

  /** The Java int whose 32-bit pattern is u. */
  function ToSigned(u: nat): (a: int)
    requires u < TwoTo32
    ensures IsInt(a) && ToUnsigned(a) == u
    ensures u < TwoTo31 ==> a == u
  {
    if u < TwoTo31 then u else u - TwoTo32
  }

  /** Twice a power of two is a power of two. */
  lemma DoublePowerOfTwo(x: int)
    requires IsPowerOfTwo(x)
    ensures IsPowerOfTwo(2 * x)
  {
    assert x >= 1;
    assert (2 * x) / 2 == x && (2 * x) % 2 == 0;
  }

  /** 2^31 and 2^32 are powers of two. */
  lemma Int32Widths()
    ensures IsPowerOfTwo(TwoTo31) && IsPowerOfTwo(TwoTo32)
  {
    assert IsPowerOfTwo(0x1_0000);
    DoublePowerOfTwo(0x10000);
    DoublePowerOfTwo(0x20000);
    DoublePowerOfTwo(0x40000);
    DoublePowerOfTwo(0x80000);
    DoublePowerOfTwo(0x100000);
    DoublePowerOfTwo(0x200000);
    DoublePowerOfTwo(0x400000);
    DoublePowerOfTwo(0x800000);
    DoublePowerOfTwo(0x1000000);
    DoublePowerOfTwo(0x2000000);
    DoublePowerOfTwo(0x4000000);
    DoublePowerOfTwo(0x8000000);
    DoublePowerOfTwo(0x10000000);
    DoublePowerOfTwo(0x20000000);
    DoublePowerOfTwo(0x40000000);
    DoublePowerOfTwo(0x80000000);
  }
}
