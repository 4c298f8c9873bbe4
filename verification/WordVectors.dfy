/** Words as bit vectors, on which the functions of SHA-256 can be evaluated. */
module WordVectors {
  import opened Bits
  import opened Fips180
  import opened Words
  import Sha256Laws

  ghost function Bit(x: bv32): nat {
    if x & 1 == 1 then 1 else 0
  }

  ghost function Half(x: bv32): bv32 {
    x >> 1
  }

  /** The number of the low n bits. */
  ghost function Low(x: bv32, n: nat): nat {
    if n == 0 then 0 else Bit(x) + 2 * Low(Half(x), n - 1)
  }

  ghost function Number(x: bv32): Word {
    LowWord(x);
    Low(x, 32)
  }

  lemma LowNext(x: bv32, n: nat)
    requires n > 0
    ensures Low(x, n) == Bit(x) + 2 * Low(Half(x), n - 1)
  {
    hide Bit, Half;
  }

  lemma LowNone(x: bv32)
    ensures Low(x, 0) == 0
  {
  }

  lemma {:induction false} LowRange(x: bv32, n: nat)
    ensures Low(x, n) < Pow2(n)
    decreases n
  {
    hide Half;
    if n > 0 {
      LowRange(Half(x), n - 1);
    }
  }

  lemma LowWord(x: bv32)
    ensures Low(x, 32) < 0x1_0000_0000
  {
    Pow2Values();
    hide Low, Pow2;
    LowRange(x, 32);
  }

  ghost function Xored(x: bv32, y: bv32): bv32 {
    x ^ y
  }

  ghost function Anded(x: bv32, y: bv32): bv32 {
    x & y
  }

  /** The sums without and with a carry. */
  ghost function Sum0(x: bv32, y: bv32): bv32 {
    x + y
  }

  ghost function Sum1(x: bv32, y: bv32): bv32 {
    x + y + 1
  }

  lemma XorStep(x: bv32, y: bv32)
    ensures Half(Xored(x, y)) == Xored(Half(x), Half(y)) && Bit(Xored(x, y)) == (Bit(x) + Bit(y)) % 2
  {
    assert (x ^ y) & 1 == (x & 1) ^ (y & 1);
  }

  lemma {:induction false} LowXor(x: bv32, y: bv32, n: nat)
    ensures Low(Xored(x, y), n) == Xor(Low(x, n), Low(y, n))
    decreases n
  {
    hide *;
    LowNone(x);
    LowNone(y);
    LowNone(Xored(x, y));
    XorZero();
    if n > 0 {
      LowNext(x, n);
      LowNext(y, n);
      LowNext(Xored(x, y), n);
      XorStep(x, y);
      LowXor(Half(x), Half(y), n - 1);
      BitRange(x);
      BitRange(y);
      XorJoin(Bit(x), Bit(y), Low(Half(x), n - 1), Low(Half(y), n - 1));
    }
  }

  lemma XorJoin(b: nat, d: nat, x: nat, y: nat)
    requires b <= 1 && d <= 1
    ensures Xor(b + 2 * x, d + 2 * y) == (b + d) % 2 + 2 * Xor(x, y)
  {
    hide *;
    XorHalves(b + 2 * x, d + 2 * y);
    Joined(b, x);
    Joined(d, y);
    Parity(b + d, x + y);
  }

  lemma Joined(b: nat, x: nat)
    requires b <= 1
    ensures (b + 2 * x) / 2 == x
  {
  }

  lemma Parity(b: nat, x: nat)
    ensures (b + 2 * x) % 2 == b % 2
  {
  }

  lemma XorZero()
    ensures Xor(0, 0) == 0 && And(0, 0) == 0
  {
  }

  lemma BitRange(x: bv32)
    ensures Bit(x) <= 1
  {
  }

  lemma AndStep(x: bv32, y: bv32)
    ensures Half(Anded(x, y)) == Anded(Half(x), Half(y))
    ensures Bit(Anded(x, y)) == if Bit(x) == 1 && Bit(y) == 1 then 1 else 0
  {
  }

  lemma {:induction false} LowAnd(x: bv32, y: bv32, n: nat)
    ensures Low(Anded(x, y), n) == And(Low(x, n), Low(y, n))
    decreases n
  {
    hide *;
    LowNone(x);
    LowNone(y);
    LowNone(Anded(x, y));
    XorZero();
    if n > 0 {
      LowNext(x, n);
      LowNext(y, n);
      LowNext(Anded(x, y), n);
      AndStep(x, y);
      LowAnd(Half(x), Half(y), n - 1);
      BitRange(x);
      BitRange(y);
      AndHalves(Low(x, n), Low(y, n));
    }
  }

  /** All of the low n bits of `m` are set. */
  ghost predicate Covers(m: bv32, n: nat) {
    n == 0 || (m & 1 == 1 && Covers(Half(m), n - 1))
  }

  ghost predicate Agree(x: bv32, y: bv32, m: bv32) {
    x & m == y & m
  }

  lemma AgreeHalf(x: bv32, y: bv32, m: bv32)
    requires Agree(x, y, m)
    ensures Agree(Half(x), Half(y), Half(m)) && (m & 1 == 1 ==> Bit(x) == Bit(y))
  {
  }

  /** What lies above the low n bits does not matter. */
  lemma {:induction false} LowIgnores(x: bv32, y: bv32, m: bv32, n: nat)
    requires Covers(m, n) && Agree(x, y, m)
    ensures Low(x, n) == Low(y, n)
    decreases n
  {
    hide Agree, Bit, Half;
    if n > 0 {
      AgreeHalf(x, y, m);
      LowIgnores(Half(x), Half(y), Half(m), n - 1);
    }
  }

  const BELOW: bv32 := 0x7fffffff

  ghost function Even(x: bv32): bv32 {
    2 * x
  }

  ghost function Odd(x: bv32): bv32 {
    2 * x + 1
  }

  lemma EvenParts(z: bv32)
    ensures Bit(Even(z)) == 0 && Agree(Half(Even(z)), z, BELOW)
  {
  }

  lemma OddParts(z: bv32)
    ensures Bit(Odd(z)) == 1 && Agree(Half(Odd(z)), z, BELOW)
  {
  }

  lemma EvenOrOdd(x: bv32)
    ensures if Bit(x) == 0 then x == Even(Half(x)) else Bit(x) == 1 && x == Odd(Half(x))
  {
  }

  lemma EvenIs(z: bv32)
    ensures Even(z) == 2 * z
  {
  }

  lemma OddIs(z: bv32)
    ensures Odd(z) == 2 * z + 1
  {
  }

  lemma EvenEvenSum(a: bv32, b: bv32)
    ensures Sum0(2 * a, 2 * b) == Even(a + b)
  {
  }

  lemma Sum0Is(a: bv32, b: bv32)
    ensures Sum0(a, b) == a + b
  {
  }

  lemma EvenEven(a: bv32, b: bv32)
    ensures Sum0(Even(a), Even(b)) == Even(Sum0(a, b))
  {
    hide *;
    EvenIs(a);
    EvenIs(b);
    Sum0Is(a, b);
    EvenEvenSum(a, b);
  }

  lemma OddEven(a: bv32, b: bv32)
    ensures Sum0(2 * a + 1, 2 * b) == Odd(a + b)
  {
  }

  lemma EvenOdd(a: bv32, b: bv32)
    ensures Sum0(2 * a, 2 * b + 1) == 2 * Sum0(a, b) + 1
  {
  }

  lemma OddOdd(a: bv32, b: bv32)
    ensures Sum0(2 * a + 1, 2 * b + 1) == 2 * Sum1(a, b)
  {
  }

  lemma EvenEven1(a: bv32, b: bv32)
    ensures Sum1(2 * a, 2 * b) == 2 * Sum0(a, b) + 1
  {
  }

  lemma OddEven1(a: bv32, b: bv32)
    ensures Sum1(2 * a + 1, 2 * b) == 2 * Sum1(a, b)
  {
  }

  lemma EvenOdd1(a: bv32, b: bv32)
    ensures Sum1(2 * a, 2 * b + 1) == 2 * Sum1(a, b)
  {
  }

  lemma OddOdd1(a: bv32, b: bv32)
    ensures Sum1(2 * a + 1, 2 * b + 1) == 2 * Sum1(a, b) + 1
  {
  }

  /** Sums of doubles, with and without a carry, are doubles of sums. */
  lemma SumOfDoubles(a: bv32, b: bv32)
    ensures Sum0(Even(a), Even(b)) == Even(Sum0(a, b)) && Sum0(Odd(a), Odd(b)) == Even(Sum1(a, b))
    ensures Sum0(Odd(a), Even(b)) == Sum0(Even(a), Odd(b)) == Odd(Sum0(a, b))
  {
    hide *;
    EvenEven(a, b);
    EvenOdd(a, b);
    OddEven(a, b);
    Sum0Is(a, b);
    OddOdd(a, b);
    EvenIs(a);
    EvenIs(b);
    OddIs(a);
    OddIs(b);
    EvenIs(Sum0(a, b));
    OddIs(Sum0(a, b));
    EvenIs(Sum1(a, b));
  }

  lemma SumOfDoubles1(a: bv32, b: bv32)
    ensures Sum1(Even(a), Even(b)) == Odd(Sum0(a, b)) && Sum1(Odd(a), Odd(b)) == Odd(Sum1(a, b))
    ensures Sum1(Odd(a), Even(b)) == Sum1(Even(a), Odd(b)) == Even(Sum1(a, b))
  {
    hide *;
    EvenEven1(a, b);
    EvenOdd1(a, b);
    OddEven1(a, b);
    OddOdd1(a, b);
    EvenIs(a);
    EvenIs(b);
    OddIs(a);
    OddIs(b);
    OddIs(Sum0(a, b));
    EvenIs(Sum1(a, b));
    OddIs(Sum1(a, b));
  }

  lemma CoversNext(m: bv32, h: bv32, n: nat)
    requires n > 0 && m & 1 == 1 && m >> 1 == h && Covers(h, n - 1)
    ensures Covers(m, n)
  {
  }

  lemma CoversFour(m: bv32, a: bv32, b: bv32, c: bv32, h: bv32, n: nat)
    requires n >= 4 && m & 1 == 1 && m >> 1 == a && a & 1 == 1 && a >> 1 == b
    requires b & 1 == 1 && b >> 1 == c && c & 1 == 1 && c >> 1 == h && Covers(h, n - 4)
    ensures Covers(m, n)
  {
    hide *;
    CoversNext(c, h, n - 3);
    CoversNext(b, c, n - 2);
    CoversNext(a, b, n - 1);
    CoversNext(m, a, n);
  }

  lemma CoversBelow()
    ensures Covers(BELOW, 31)
  {
    CoversNext(0x1, 0, 1);
    CoversNext(0x3, 0x1, 2);
    CoversNext(0x7, 0x3, 3);
    hide Covers;
    CoversFour(0x7f, 0x3f, 0x1f, 0xf, 0x7, 7);
    CoversFour(0x7ff, 0x3ff, 0x1ff, 0xff, 0x7f, 11);
    CoversFour(0x7fff, 0x3fff, 0x1fff, 0xfff, 0x7ff, 15);
    CoversFour(0x7ffff, 0x3ffff, 0x1ffff, 0xffff, 0x7fff, 19);
    CoversFour(0x7fffff, 0x3fffff, 0x1fffff, 0xfffff, 0x7ffff, 23);
    CoversFour(0x7ffffff, 0x3ffffff, 0x1ffffff, 0xffffff, 0x7fffff, 27);
    CoversFour(0x7fffffff, 0x3fffffff, 0x1fffffff, 0xfffffff, 0x7ffffff, 31);
  }

  lemma {:induction false} CoversFewer(m: bv32, n: nat, k: nat)
    requires Covers(m, n) && k <= n
    ensures Covers(m, k)
    decreases n
  {
    hide Half;
    if k > 0 {
      CoversFewer(Half(m), n - 1, k - 1);
    }
  }

  lemma SumJoin(t: nat, x: nat, y: nat, p: nat)
    requires p > 0
    ensures (t + 2 * (x + y)) % (2 * p) == t % 2 + 2 * ((x + y + t / 2) % p)
  {
    var v := t + 2 * (x + y);
    assert v / 2 == x + y + t / 2 && v % 2 == t % 2;
    HalveDivMod(v, p);
  }

  /** Addition is addition of numbers modulo 2^n, without and with a carry. */
  lemma {:induction false} LowSum(x: bv32, y: bv32, n: nat)
    requires n <= 32
    ensures Pow2(n) > 0 && Low(Sum0(x, y), n) == (Low(x, n) + Low(y, n)) % Pow2(n)
    ensures Low(Sum1(x, y), n) == (Low(x, n) + Low(y, n) + 1) % Pow2(n)
    decreases n
  {
    hide *;
    if n == 0 {
      LowEmpty(x, y);
    } else {
      LowSum(Half(x), Half(y), n - 1);
      LowSumNext(x, y, n);
      LowSumNext1(x, y, n);
    }
  }

  lemma LowEmpty(x: bv32, y: bv32)
    ensures Pow2(0) == 1 && Low(x, 0) == Low(y, 0) == Low(Sum0(x, y), 0) == Low(Sum1(x, y), 0) == 0
  {
    hide Sum0, Sum1;
  }

  lemma LowSumNext(x: bv32, y: bv32, n: nat)
    requires 0 < n <= 32 && Pow2(n - 1) > 0
    requires Low(Sum0(Half(x), Half(y)), n - 1) == (Low(Half(x), n - 1) + Low(Half(y), n - 1)) % Pow2(n - 1)
    requires Low(Sum1(Half(x), Half(y)), n - 1) == (Low(Half(x), n - 1) + Low(Half(y), n - 1) + 1) % Pow2(n - 1)
    ensures Pow2(n) > 0 && Low(Sum0(x, y), n) == (Low(x, n) + Low(y, n)) % Pow2(n)
  {
    hide *;
    var a, b, s := Half(x), Half(y), Sum0(x, y);
    EvenOrOdd(x);
    EvenOrOdd(y);
    SumOfDoubles(a, b);
    EvenParts(Sum0(a, b));
    OddParts(Sum0(a, b));
    EvenParts(Sum1(a, b));
    LowAgrees(Half(s), if Bit(x) + Bit(y) < 2 then Sum0(a, b) else Sum1(a, b), n - 1);
    LowNext(x, n);
    LowNext(y, n);
    LowNext(s, n);
    BitRange(x);
    BitRange(y);
    Pow2Even(n);
    SumJoin(Bit(x) + Bit(y), Low(a, n - 1), Low(b, n - 1), Pow2(n - 1));
  }

  lemma LowSumNext1(x: bv32, y: bv32, n: nat)
    requires 0 < n <= 32 && Pow2(n - 1) > 0
    requires Low(Sum0(Half(x), Half(y)), n - 1) == (Low(Half(x), n - 1) + Low(Half(y), n - 1)) % Pow2(n - 1)
    requires Low(Sum1(Half(x), Half(y)), n - 1) == (Low(Half(x), n - 1) + Low(Half(y), n - 1) + 1) % Pow2(n - 1)
    ensures Pow2(n) > 0 && Low(Sum1(x, y), n) == (Low(x, n) + Low(y, n) + 1) % Pow2(n)
  {
    hide *;
    var a, b, s := Half(x), Half(y), Sum1(x, y);
    EvenOrOdd(x);
    EvenOrOdd(y);
    SumOfDoubles1(a, b);
    OddParts(Sum0(a, b));
    EvenParts(Sum1(a, b));
    OddParts(Sum1(a, b));
    LowAgrees(Half(s), if Bit(x) + Bit(y) < 1 then Sum0(a, b) else Sum1(a, b), n - 1);
    LowNext(x, n);
    LowNext(y, n);
    LowNext(s, n);
    BitRange(x);
    BitRange(y);
    Pow2Even(n);
    SumJoin(Bit(x) + Bit(y) + 1, Low(a, n - 1), Low(b, n - 1), Pow2(n - 1));
  }

  lemma LowAgrees(s: bv32, h: bv32, n: nat)
    requires n < 32 && Agree(s, h, BELOW)
    ensures Low(s, n) == Low(h, n)
  {
    hide *;
    CoversBelow();
    CoversFewer(BELOW, 31, n);
    LowIgnores(s, h, BELOW, n);
  }


  /** The low four bits. */
  ghost function Digit(x: bv32): nat {
    (if x & 1 != 0 then 1 else 0) + (if x & 2 != 0 then 2 else 0) + (if x & 4 != 0 then 4 else 0) +
    (if x & 8 != 0 then 8 else 0)
  }

  ghost function Quarter(x: bv32): bv32 {
    x >> 4
  }

  /** The number of four groups of four bits. */
  ghost function FourDigits(x: bv32): nat {
    Digit(x) + 0x10 * Digit(Quarter(x)) + 0x100 * Digit(Quarter(Quarter(x))) +
    0x1000 * Digit(Quarter(Quarter(Quarter(x))))
  }

  ghost function Digits(x: bv32): nat {
    FourDigits(x) + 0x1_0000 * FourDigits(Quarter(Quarter(Quarter(Quarter(x)))))
  }

  lemma DigitBits(x: bv32)
    ensures Digit(x) == Bit(x) + 2 * (Bit(Half(x)) + 2 * (Bit(Half(Half(x))) + 2 * Bit(Half(Half(Half(x))))))
  {
  }

  lemma QuarterIs(x: bv32)
    ensures Quarter(x) == Half(Half(Half(Half(x))))
  {
  }

  lemma LowFour(x: bv32, n: nat)
    requires n >= 4
    ensures Low(x, n) == Digit(x) + 16 * Low(Quarter(x), n - 4)
  {
    hide *;
    DigitBits(x);
    QuarterIs(x);
    LowNext(x, n);
    LowNext(Half(x), n - 1);
    LowNext(Half(Half(x)), n - 2);
    LowNext(Half(Half(Half(x))), n - 3);
  }

  lemma LowSixteen(x: bv32, n: nat)
    requires n >= 16
    ensures Low(x, n) == FourDigits(x) + 0x1_0000 * Low(Quarter(Quarter(Quarter(Quarter(x)))), n - 16)
  {
    hide Low, Digit, Quarter;
    var b := Quarter(x);
    var c := Quarter(b);
    var d := Quarter(c);
    LowFour(x, n);
    LowFour(b, n - 4);
    LowFour(c, n - 8);
    LowFour(d, n - 12);
  }

  /** A word is evaluated four bits at a time. */
  lemma NumberDigits(x: bv32)
    ensures Number(x) == Digits(x)
  {
    hide Low, FourDigits, Quarter;
    var y := Quarter(Quarter(Quarter(Quarter(x))));
    LowSixteen(x, 32);
    LowSixteen(y, 16);
    LowNone(Quarter(Quarter(Quarter(Quarter(y)))));
  }

  lemma NumberXor(x: bv32, y: bv32)
    ensures Number(Xored(x, y)) == Xor(Number(x), Number(y))
  {
    hide Low, Xor, Xored;
    LowXor(x, y, 32);
  }

  lemma NumberAnd(x: bv32, y: bv32)
    ensures Number(Anded(x, y)) == And(Number(x), Number(y))
  {
    hide Low, And, Anded;
    LowAnd(x, y, 32);
  }

  lemma NumberSum(x: bv32, y: bv32)
    ensures Number(Sum0(x, y)) == Low32(Number(x) + Number(y))
  {
    Pow2Values();
    hide Low, Pow2, Sum0;
    LowSum(x, y, 32);
  }

  ghost function Inverse(x: bv32): bv32 {
    !x
  }

  lemma Inverted(x: bv32)
    ensures Sum0(Inverse(x), x) == 0xffffffff
  {
  }

  lemma NumberNot(x: bv32)
    ensures Number(Inverse(x)) == Not(Number(x), 32)
  {
    Pow2Values();
    hide Number, Pow2, Inverse, Sum0;
    Inverted(x);
    NumberSum(Inverse(x), x);
    assert Number(0xffffffff) == 0xffffffff by {
      NumberDigits(0xffffffff);
    }
  }

  /** The word without its low n bits. */
  ghost function Halved(x: bv32, n: nat): bv32 {
    if n == 0 then x else Halved(Half(x), n - 1)
  }

  lemma {:induction false} LowTop(x: bv32, n: nat)
    ensures Low(x, n + 1) == Low(x, n) + Pow2(n) * Bit(Halved(x, n))
    decreases n
  {
    hide *;
    LowNext(x, n + 1);
    LowNone(x);
    LowNone(Half(x));
    HalvedNext(x, n);
    if n > 0 {
      LowNext(x, n);
      Pow2Even(n);
      LowTop(Half(x), n - 1);
      TopBit(Bit(x), Low(Half(x), n - 1), Pow2(n - 1), Bit(Halved(x, n)));
    }
  }

  lemma TopBit(b: nat, v: nat, p: nat, t: nat)
    ensures b + 2 * (v + p * t) == (b + 2 * v) + (2 * p) * t
  {
  }

  lemma HalvedNext(x: bv32, n: nat)
    ensures if n == 0 then Halved(x, n) == x && Pow2(n) == 1 else Halved(x, n) == Halved(Half(x), n - 1)
  {
  }

  lemma HalvedFour(x: bv32, n: nat)
    requires n >= 4
    ensures Halved(x, n) == Halved(Quarter(x), n - 4)
  {
    hide *;
    QuarterIs(x);
    HalvedNext(x, n);
    HalvedNext(Half(x), n - 1);
    HalvedNext(Half(Half(x)), n - 2);
    HalvedNext(Half(Half(Half(x))), n - 3);
  }

  /** The highest bit. */
  ghost function Top(x: bv32): bv32 {
    Half(Half(Half(Quarter(Quarter(Quarter(Quarter(Quarter(Quarter(Quarter(x))))))))))
  }

  lemma HalvedTop(x: bv32)
    ensures Halved(x, 31) == Top(x)
  {
    hide Half, Quarter, Halved;
    var b := Quarter(x);
    var c := Quarter(b);
    var d := Quarter(c);
    var e := Quarter(d);
    var f := Quarter(e);
    var g := Quarter(f);
    var h := Quarter(g);
    HalvedFour(x, 31);
    HalvedFour(b, 27);
    HalvedFour(c, 23);
    HalvedFour(d, 19);
    HalvedFour(e, 15);
    HalvedFour(f, 11);
    HalvedFour(g, 7);
    HalvedNext(h, 3);
    HalvedNext(Half(h), 2);
    HalvedNext(Half(Half(h)), 1);
    HalvedNext(Half(Half(Half(h))), 0);
  }

  /** The rotation by one bit. */
  ghost function Rotated(x: bv32): bv32 {
    Ored(Half(x), Lifted(x))
  }

  ghost function Ored(h: bv32, t: bv32): bv32 {
    h | t
  }

  ghost function Lifted(x: bv32): bv32 {
    x << 31
  }

  ghost predicate OnlyTop(t: bv32) {
    t & BELOW == 0
  }

  lemma TopOfHalf(x: bv32)
    ensures Bit(Top(Half(x))) == 0
  {
  }

  lemma TopOfRotated(x: bv32)
    ensures Bit(Top(Rotated(x))) == Bit(x)
  {
  }

  lemma LiftedTop(x: bv32)
    ensures OnlyTop(Lifted(x))
  {
  }

  lemma AgreeSplit(h: bv32, t: bv32)
    requires OnlyTop(t)
    ensures Agree(Ored(h, t), h, BELOW)
  {
  }

  lemma RotatedIs(x: bv32)
    ensures Rotated(x) == Ored(Half(x), Lifted(x))
  {
    hide Ored, Half, Lifted;
  }

  lemma LowRotated(x: bv32)
    ensures Low(Rotated(x), 31) == Low(Half(x), 31)
  {
    hide *;
    RotatedIs(x);
    LiftedTop(x);
    AgreeSplit(Half(x), Lifted(x));
    LowAgrees(Rotated(x), Half(x), 31);
  }

  lemma NumberParts(x: bv32)
    ensures Number(x) == Bit(x) + 2 * Low(Half(x), 31) && Number(x) == Low(x, 31) + 0x8000_0000 * Bit(Top(x))
  {
    hide Low, Bit, Half, Top;
    Pow2Values();
    Pow2Even(32);
    hide Pow2;
    LowNext(x, 32);
    LowTop(x, 31);
    HalvedTop(x);
  }

  lemma NumberHalf(x: bv32)
    ensures Number(Half(x)) == Number(x) / 2 && Number(x) % 2 == Bit(x)
  {
    hide *;
    NumberParts(x);
    NumberParts(Half(x));
    TopOfHalf(x);
    BitRange(x);
  }

  lemma NumberRotated(x: bv32)
    ensures Number(Rotated(x)) == Rotr(Number(x), 1)
  {
    hide *;
    NumberHalf(x);
    NumberParts(x);
    NumberParts(Half(x));
    NumberParts(Rotated(x));
    TopOfHalf(x);
    TopOfRotated(x);
    LowRotated(x);
    RotrOne(Number(x));
  }

  lemma RotrOne(v: Word)
    ensures Rotr(v, 1) == v / 2 + v % 2 * 0x8000_0000
  {
    hide Rotr;
    Sha256Laws.RotrIs(v, 1);
    Pow2Values();
    Pow2Even(32);
    assert Pow2(1) == 2;
  }
}
