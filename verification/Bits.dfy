/** Powers of two, shifts and bitwise operations on natural numbers. */
module Bits {

  function Pow2(n: nat): (p: nat)
    ensures p > 0
  {
    if n == 0 then 1 else 2 * Pow2(n - 1)
  }

  function Shr(x: nat, n: nat): nat {
    hide Pow2;
    x / Pow2(n)
  }

  /** A left shift of a 32-bit word. */
  function Shl32(x: nat, n: nat): (r: nat)
    ensures r < 0x1_0000_0000
  {
    (x * Pow2(n)) % 0x1_0000_0000
  }

  function Or(x: nat, y: nat): nat
    decreases x + y
  {
    if x == 0 then y else if y == 0 then x else
    (if x % 2 == 1 || y % 2 == 1 then 1 else 0) + 2 * Or(x / 2, y / 2)
  }

  function And(x: nat, y: nat): nat
    decreases x + y
  {
    if x == 0 || y == 0 then 0 else
    (if x % 2 == 1 && y % 2 == 1 then 1 else 0) + 2 * And(x / 2, y / 2)
  }

  function Xor(x: nat, y: nat): nat
    decreases x + y
  {
    if x == 0 then y else if y == 0 then x else
    (x + y) % 2 + 2 * Xor(x / 2, y / 2)
  }

  /** The `count` bits of `x` that start at bit `offset`. */
  function Field(x: nat, offset: nat, count: nat): nat {
    (x / Pow2(offset)) % Pow2(count)
  }

  lemma {:induction false} Pow2Add(a: nat, b: nat)
    ensures Pow2(a + b) == Pow2(a) * Pow2(b)
  {
    if a > 0 {
      Pow2Add(a - 1, b);
      assert Pow2(a + b) == 2 * Pow2(a - 1 + b);
    }
  }

  lemma Pow2Mono(a: nat, b: nat)
    requires a <= b
    ensures Pow2(a) <= Pow2(b)
  {
    if a < b {
      Pow2Mono(a, b - 1);
    }
  }

  lemma Pow2Values()
    ensures Pow2(8) == 0x100 && Pow2(32) == 0x1_0000_0000 && Pow2(64) == 0x1_0000_0000_0000_0000
  {
    assert Pow2(8) == 0x100;
    Pow2Add(8, 8);
    Pow2Add(16, 16);
    Pow2Add(32, 32);
  }

  lemma Pow2Even(n: nat)
    requires n > 0
    ensures Pow2(n) % 2 == 0 && Pow2(n) == 2 * Pow2(n - 1)
  {
  }

  /** The range of 256-bit numbers. */
  lemma Pow2Wide()
    ensures Pow2(256) == 0x1_00000000_00000000_00000000_00000000_00000000_00000000_00000000_00000000
    ensures Pow2(256) == 2 * Pow2(255)
  {
    Pow2Even(256);
    Pow2Values();
    hide Pow2;
    Pow2Add(64, 64);
    Pow2Add(128, 128);
  }

  lemma MulStep(x: int, y: int, m: int)
    requires x < y && m > 0
    ensures x * m + m <= y * m
  {
    var d := y - x - 1;
    assert d * m >= 0;
    assert y * m == (x + 1 + d) * m == x * m + m + d * m;
  }

  lemma DivModUnique(x: int, m: int, q: int, r: int)
    requires m > 0 && x == q * m + r && 0 <= r < m
    ensures x / m == q && x % m == r
  {
    var q', r' := x / m, x % m;
    assert q' * m + r' == q * m + r;
    if q > q' {
      MulStep(q', q, m);
    } else if q < q' {
      MulStep(q, q', m);
    }
  }

  lemma DivDiv(x: nat, a: nat, b: nat)
    requires a > 0 && b > 0
    ensures a * b > 0 && x / (a * b) == (x / a) / b
  {
    var q, r := x / a, x % a;
    var q', r' := q / b, q % b;
    assert a * b > 0;
    assert x == q' * (a * b) + (r' * a + r);
    assert r' * a <= (b - 1) * a;
    assert r' * a >= 0;
    DivModUnique(x, a * b, q', r' * a + r);
  }

  lemma ModOfSum(x: int, k: int, m: int)
    requires m > 0
    ensures (x + k * m) % m == x % m && (x + k * m) / m == x / m + k
  {
    assert x + k * m == (x / m + k) * m + x % m;
    DivModUnique(x + k * m, m, x / m + k, x % m);
  }

  lemma IgnoresHigh(x: nat, h: nat, s: nat, c: nat, k: nat)
    requires s > 0 && c > 0
    ensures ((x + h * (k * (s * c))) / s) % c == (x / s) % c
  {
    assert h * (k * (s * c)) == ((h * k) * c) * s;
    ModOfSum(x, (h * k) * c, s);
    ModOfSum(x / s, h * k, c);
  }

  lemma LowPartSuffices(x: nat, w: nat, s: nat, c: nat, k: nat)
    requires s > 0 && c > 0 && k > 0 && w == k * (s * c)
    ensures w > 0 && (x / s) % c == ((x % w) / s) % c
  {
    assert w > 0;
    IgnoresHigh(x % w, x / w, s, c, k);
    assert x % w + (x / w) * w == x;
  }

  /** A field inside the low `width` bits does not see what lies above them. */
  lemma FieldIgnoresHigh(x: nat, width: nat, offset: nat, count: nat)
    requires offset + count <= width
    ensures Field(x, offset, count) == Field(x % Pow2(width), offset, count)
  {
    hide Pow2;
    var rest := width - offset - count;
    Pow2Add(rest, offset + count);
    Pow2Add(offset, count);
    LowPartSuffices(x, Pow2(width), Pow2(offset), Pow2(count), Pow2(rest));
  }

  /** Or is addition when the low operand ends below the high one's lowest bit. */
  lemma {:induction false} OrDisjoint(lo: nat, hi: nat, n: nat)
    requires lo < Pow2(n)
    ensures Or(lo, hi * Pow2(n)) == lo + hi * Pow2(n)
  {
    if n > 0 && lo > 0 && hi * Pow2(n) > 0 {
      var p := Pow2(n - 1);
      assert hi * Pow2(n) == 2 * (hi * p);
      OrDisjoint(lo / 2, hi, n - 1);
    }
  }

  lemma HalveDivMod(x: nat, p: nat)
    requires p > 0
    ensures x % (2 * p) == 2 * ((x / 2) % p) + x % 2
  {
    var q, r := (x / 2) / p, (x / 2) % p;
    assert x == q * (2 * p) + (2 * r + x % 2);
    DivModUnique(x, 2 * p, q, 2 * r + x % 2);
  }

  lemma AndStep(x: nat, p: nat)
    requires x > 0 && p > 0
    ensures And(x, 2 * p - 1) == x % 2 + 2 * And(x / 2, p - 1)
  {
    assert (2 * p - 1) % 2 == 1 && (2 * p - 1) / 2 == p - 1;
  }

  lemma {:induction false} AndMask(x: nat, n: nat)
    ensures And(x, Pow2(n) - 1) == x % Pow2(n)
  {
    if n == 0 {
    } else if x == 0 {
      hide Pow2;
    } else {
      var p := Pow2(n - 1);
      assert Pow2(n) == 2 * p;
      hide And, Pow2;
      AndMask(x / 2, n - 1);
      AndStep(x, p);
      HalveDivMod(x, p);
    }
  }

  /** An and of numbers below 2^n is all ones only when both are. */
  lemma {:induction false} AndFull(x: nat, y: nat, n: nat)
    requires x < Pow2(n) && y < Pow2(n)
    ensures And(x, y) < Pow2(n)
    ensures And(x, y) == Pow2(n) - 1 <==> x == Pow2(n) - 1 && y == Pow2(n) - 1
  {
    if n > 0 {
      AndFull(x / 2, y / 2, n - 1);
    }
  }

  lemma {:induction false} XorFull(x: nat, y: nat, n: nat)
    requires x < Pow2(n) && y < Pow2(n)
    ensures Xor(x, y) < Pow2(n)
    ensures Xor(x, y) == Pow2(n) - 1 <==> x + y == Pow2(n) - 1
  {
    if n > 0 {
      XorFull(x / 2, y / 2, n - 1);
    }
  }

  lemma OrZero(x: nat, y: nat)
    ensures Or(x, y) == 0 <==> x == 0 && y == 0
  {
  }

  lemma BitAbove(x: nat, i: nat)
    ensures Field(x, i + 1, 1) == Field(x / 2, i, 1)
  {
    Pow2Even(i + 1);
    hide Pow2;
    DivDiv(x, 2, Pow2(i));
  }

  lemma LowBit(x: nat)
    ensures Field(x, 0, 1) == x % 2
  {
    assert Pow2(0) == 1 && Pow2(1) == 2;
  }

  /** Bit i of an exclusive or is the sum of the bits modulo 2. */
  lemma {:induction false} XorBit(x: nat, y: nat, i: nat)
    ensures Field(Xor(x, y), i, 1) == (Field(x, i, 1) + Field(y, i, 1)) % 2
  {
    XorHalves(x, y);
    hide Xor, Field;
    if i == 0 {
      LowBit(x);
      LowBit(y);
      LowBit(Xor(x, y));
    } else {
      BitAbove(x, i - 1);
      BitAbove(y, i - 1);
      BitAbove(Xor(x, y), i - 1);
      XorBit(x / 2, y / 2, i - 1);
    }
  }

  lemma XorHalves(x: nat, y: nat)
    ensures Xor(x, y) == (x + y) % 2 + 2 * Xor(x / 2, y / 2)
  {
  }

  /** Bit i of an and is the product of the bits. */
  lemma {:induction false} AndBit(x: nat, y: nat, i: nat)
    ensures Field(And(x, y), i, 1) == if Field(x, i, 1) == 1 && Field(y, i, 1) == 1 then 1 else 0
  {
    AndHalves(x, y);
    hide And, Field;
    if i == 0 {
      LowBit(x);
      LowBit(y);
      LowBit(And(x, y));
    } else {
      BitAbove(x, i - 1);
      BitAbove(y, i - 1);
      BitAbove(And(x, y), i - 1);
      AndBit(x / 2, y / 2, i - 1);
    }
  }

  lemma AndHalves(x: nat, y: nat)
    ensures And(x, y) == (if x % 2 == 1 && y % 2 == 1 then 1 else 0) + 2 * And(x / 2, y / 2)
  {
  }

  /** Bit i of an or is set when either bit is. */
  lemma {:induction false} OrBit(x: nat, y: nat, i: nat)
    ensures Field(Or(x, y), i, 1) == if Field(x, i, 1) == 1 || Field(y, i, 1) == 1 then 1 else 0
  {
    OrHalves(x, y);
    hide Or, Field;
    if i == 0 {
      LowBit(x);
      LowBit(y);
      LowBit(Or(x, y));
    } else {
      BitAbove(x, i - 1);
      BitAbove(y, i - 1);
      BitAbove(Or(x, y), i - 1);
      OrBit(x / 2, y / 2, i - 1);
    }
  }

  lemma OrHalves(x: nat, y: nat)
    ensures Or(x, y) == (if x % 2 == 1 || y % 2 == 1 then 1 else 0) + 2 * Or(x / 2, y / 2)
  {
  }

  lemma ShrBit(x: nat, n: nat, i: nat)
    ensures Field(Shr(x, n), i, 1) == Field(x, i + n, 1)
  {
    Pow2Add(n, i);
    hide Pow2;
    DivDiv(x, Pow2(n), Pow2(i));
  }

  /** Numbers below 2^n with the same n bits are equal. */
  lemma {:induction false} SameBits(x: nat, y: nat, n: nat)
    requires x < Pow2(n) && y < Pow2(n) && forall i :: 0 <= i < n ==> Field(x, i, 1) == Field(y, i, 1)
    ensures x == y
  {
    if n > 0 {
      Pow2Even(n);
      hide Field, Pow2;
      LowBit(x);
      LowBit(y);
      forall i | 0 <= i < n - 1
        ensures Field(x / 2, i, 1) == Field(y / 2, i, 1)
      {
        BitAbove(x, i);
        BitAbove(y, i);
      }
      SameBits(x / 2, y / 2, n - 1);
    } else {
      assert Pow2(0) == 1;
    }
  }
}
