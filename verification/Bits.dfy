/** Bit arithmetic on natural numbers: exclusive or, powers of two and bit length.
    The source works on `u8`, `u16` and `u32`; each is a natural number below a power of two here. */
module Bits {

  type Byte = n: nat | n < 256

  function Pow2(n: nat): (r: nat)
    ensures r > 0
  {
    if n == 0 then 1 else 2 * Pow2(n - 1)
  }

  function Xor(a: nat, b: nat): nat
    decreases a + b
  {
    if a == 0 && b == 0 then 0
    else 2 * Xor(a / 2, b / 2) + (if a % 2 == b % 2 then 0 else 1)
  }

  /** Bit `i` of `a`, counted from the least significant one. */
  predicate Bit(a: nat, i: nat) {
    if i == 0 then a % 2 == 1 else Bit(a / 2, i - 1)
  }

  /** The number of bits needed to write `v`; zero for zero. */
  function BitLen(v: nat): nat {
    if v == 0 then 0 else 1 + BitLen(v / 2)
  }

  /** Bit `i` stands between `i` lower bits and the rest of the number. */
  lemma {:induction false} BitIs(a: nat, i: nat) returns (high: nat, low: nat)
    ensures low < Pow2(i) && a == (2 * high + if Bit(a, i) then 1 else 0) * Pow2(i) + low
    decreases i
  {
    if i == 0 {
      high, low := a / 2, 0;
    } else {
      high, low := BitIs(a / 2, i - 1);
      OneMoreBit(a, 2 * high + if Bit(a, i) then 1 else 0, Pow2(i - 1), low);
      low := 2 * low + a % 2;
    }
  }

  lemma {:induction false} OneMoreBit(a: nat, x: nat, p: nat, low: nat)
    requires a / 2 == x * p + low && low < p
    ensures a == x * (2 * p) + (2 * low + a % 2) && 2 * low + a % 2 < 2 * p
  {
    assert x * (2 * p) == 2 * (x * p);
  }

  // ---------- Exclusive or ----------

  /** `Xor` is the bitwise operator: it agrees with exclusive or on every single bit. */
  lemma {:induction false} XorBit(a: nat, b: nat, i: nat)
    ensures Bit(Xor(a, b), i) <==> (Bit(a, i) != Bit(b, i))
    decreases i
  {
    XorHalves(a, b);
    hide Xor;
    if i == 0 {
    } else {
      XorBit(a / 2, b / 2, i - 1);
    }
  }

  lemma {:induction false} XorHalves(a: nat, b: nat)
    ensures Xor(a, b) / 2 == Xor(a / 2, b / 2) && Xor(a, b) % 2 == if a % 2 == b % 2 then 0 else 1
  {
  }

  lemma {:induction false} XorComm(a: nat, b: nat)
    ensures Xor(a, b) == Xor(b, a)
    decreases a + b
  {
    if a != 0 || b != 0 {
      XorComm(a / 2, b / 2);
    }
  }

  lemma {:induction false} XorAssoc(a: nat, b: nat, c: nat)
    ensures Xor(Xor(a, b), c) == Xor(a, Xor(b, c))
    decreases a + b + c
  {
    hide Xor;
    if a == 0 && b == 0 && c == 0 {
      XorZero(0);
    } else {
      XorAssoc(a / 2, b / 2, c / 2);
      XorHalves(a, b);
      XorHalves(b, c);
      XorHalves(Xor(a, b), c);
      XorHalves(a, Xor(b, c));
      SameHalves(Xor(Xor(a, b), c), Xor(a, Xor(b, c)));
    }
  }

  lemma {:induction false} SameHalves(x: nat, y: nat)
    requires x / 2 == y / 2 && x % 2 == y % 2
    ensures x == y
  {
  }

  lemma {:induction false} XorZero(a: nat)
    ensures Xor(a, 0) == a && Xor(0, a) == a
  {
    if a != 0 {
      XorZero(a / 2);
    }
  }

  lemma {:induction false} XorSelf(a: nat)
    ensures Xor(a, a) == 0
  {
    if a != 0 {
      XorSelf(a / 2);
    }
  }

  lemma {:induction false} XorZeroOnlyIfEqual(a: nat, b: nat)
    requires Xor(a, b) == 0
    ensures a == b
    decreases a + b
  {
    if a != 0 || b != 0 {
      XorZeroOnlyIfEqual(a / 2, b / 2);
    }
  }

  lemma {:induction false} XorCancel(a: nat, b: nat)
    ensures Xor(a, Xor(a, b)) == b
  {
    XorAssoc(a, a, b);
    XorSelf(a);
    XorZero(b);
  }

  lemma {:induction false} XorAtMostSum(a: nat, b: nat)
    ensures Xor(a, b) <= a + b
    decreases a + b
  {
    if a != 0 || b != 0 {
      XorAtMostSum(a / 2, b / 2);
    }
  }

  /** Two legs through a common point. */
  lemma {:induction false} XorVia(s: nat, a: nat, b: nat)
    ensures Xor(a, b) == Xor(Xor(s, a), Xor(s, b))
  {
    XorComm(s, a);
    XorAssoc(a, s, Xor(s, b));
    XorCancel(s, b);
  }

  lemma {:induction false} XorBelow(a: nat, b: nat, k: nat)
    requires a < Pow2(k) && b < Pow2(k)
    ensures Xor(a, b) < Pow2(k)
    decreases k
  {
    if k > 0 && (a != 0 || b != 0) {
      XorBelow(a / 2, b / 2, k - 1);
    }
  }

  lemma {:induction false} XorStep(a: nat, p: nat, b: nat, q: nat)
    requires p < 2 && q < 2
    ensures Xor(2 * a + p, 2 * b + q) == 2 * Xor(a, b) + (if p == q then 0 else 1)
  {
    assert (2 * a + p) / 2 == a && (2 * b + q) / 2 == b;
  }

  function Shl(h: nat, k: nat): nat {
    if k == 0 then h else 2 * Shl(h, k - 1)
  }

  lemma {:induction false} NoBits(h1: nat, x: nat, h2: nat, y: nat)
    requires x < Pow2(0) && y < Pow2(0)
    ensures Xor(Shl(h1, 0) + x, Shl(h2, 0) + y) == Shl(Xor(h1, h2), 0) + Xor(x, y)
  {
  }

  lemma {:induction false} ShlStep(h: nat, k: nat)
    requires k > 0
    ensures Shl(h, k) == 2 * Shl(h, k - 1) && Pow2(k) == 2 * Pow2(k - 1)
  {
  }

  lemma {:induction false} XorAppendBit(a: nat, b: nat, c: nat, x: nat, p: nat, y: nat, q: nat)
    requires p < 2 && q < 2 && Xor(a + x, b + y) == c + Xor(x, y)
    ensures Xor(2 * a + (2 * x + p), 2 * b + (2 * y + q)) == 2 * c + Xor(2 * x + p, 2 * y + q)
  {
    hide Xor;
    XorStep(a + x, p, b + y, q);
    XorStep(x, p, y, q);
    assert 2 * (a + x) + p == 2 * a + (2 * x + p) && 2 * (b + y) + q == 2 * b + (2 * y + q);
  }

  lemma {:induction false} XorAppendBits(h1: nat, x: nat, h2: nat, y: nat, k: nat)
    requires x < Pow2(k) && y < Pow2(k)
    ensures Xor(Shl(h1, k) + x, Shl(h2, k) + y) == Shl(Xor(h1, h2), k) + Xor(x, y)
    decreases k
  {
    hide *;
    if k == 0 {
      NoBits(h1, x, h2, y);
    } else {
      var x2, x1, y2, y1 := x / 2, x % 2, y / 2, y % 2;
      ShlStep(h1, k);
      ShlStep(h2, k);
      ShlStep(Xor(h1, h2), k);
      XorAppendBits(h1, x2, h2, y2, k - 1);
      XorAppendBit(Shl(h1, k - 1), Shl(h2, k - 1), Shl(Xor(h1, h2), k - 1), x2, x1, y2, y1);
    }
  }

  lemma {:induction false} ShlByte(h: nat)
    ensures Shl(h, 8) == 256 * h
  {
    assert Shl(h, 1) == 2 * h;
    assert Shl(h, 3) == 8 * h;
    assert Shl(h, 5) == 32 * h;
    assert Shl(h, 7) == 128 * h;
  }

  /** Exclusive or works on the last byte and on what stands before it separately. */
  lemma {:induction false} XorAppendByte(h1: nat, x: Byte, h2: nat, y: Byte)
    ensures Xor(256 * h1 + x, 256 * h2 + y) == 256 * Xor(h1, h2) + Xor(x, y)
  {
    ShlByte(h1);
    ShlByte(h2);
    ShlByte(Xor(h1, h2));
    assert Pow2(8) == 256;
    XorAppendBits(h1, x, h2, y, 8);
  }

  // ---------- Bit length ----------

  lemma {:induction false} Pow2Monotone(i: nat, j: nat)
    requires i <= j
    ensures Pow2(i) <= Pow2(j)
    decreases j
  {
    if i < j {
      Pow2Monotone(i, j - 1);
    }
  }

  lemma {:induction false} BitLenBounds(v: nat)
    requires v > 0
    ensures BitLen(v) > 0 && Pow2(BitLen(v) - 1) <= v < Pow2(BitLen(v))
  {
    if v > 1 {
      BitLenBounds(v / 2);
    }
  }

  lemma {:induction false} BitLenUnique(v: nat, i: nat)
    requires Pow2(i) <= v < Pow2(i + 1)
    ensures BitLen(v) == i + 1
    decreases i
  {
    if i > 0 {
      BitLenUnique(v / 2, i - 1);
    }
  }

  lemma {:induction false} BitLenAtMost(v: nat, k: nat)
    requires v < Pow2(k)
    ensures BitLen(v) <= k
    decreases k
  {
    if v > 0 {
      BitLenAtMost(v / 2, k - 1);
    }
  }

  /** Appending a byte below a non-zero number adds eight bits. */
  lemma {:induction false} BitLenAppendByte(v: nat, x: Byte)
    requires v > 0
    ensures BitLen(256 * v + x) == BitLen(v) + 8
  {
    hide BitLen;
    var w := 256 * v + x;
    BitLenHalve4(w);
    BitLenHalve4(w / 16);
    assert w / 16 / 16 == v;
  }

  lemma {:induction false} BitLenHalve4(w: nat)
    requires w >= 16
    ensures BitLen(w) == 4 + BitLen(w / 16)
  {
    hide BitLen;
    BitLenHalve(w);
    BitLenHalve(w / 2);
    BitLenHalve(w / 4);
    BitLenHalve(w / 8);
    assert w / 2 / 2 == w / 4 && w / 4 / 2 == w / 8 && w / 8 / 2 == w / 16;
  }

  lemma {:induction false} BitLenHalve(v: nat)
    requires v > 0
    ensures BitLen(v) == 1 + BitLen(v / 2)
  {
  }

  /** The top bit of an exclusive or: the higher of two different top bits survives, equal ones cancel. */
  lemma {:induction false} XorTopBit(x: nat, y: nat)
    ensures BitLen(x) < BitLen(y) ==> BitLen(Xor(x, y)) == BitLen(y)
    ensures BitLen(x) > BitLen(y) ==> BitLen(Xor(x, y)) == BitLen(x)
    ensures BitLen(x) == BitLen(y) && x > 0 ==> BitLen(Xor(x, y)) < BitLen(x)
    decreases x + y
  {
    hide Xor;
    XorHalves(x, y);
    XorZero(0);
    if x == 0 || y == 0 {
      XorZero(x);
      XorZero(y);
    } else {
      XorTopBit(x / 2, y / 2);
    }
  }
}
