/** The exponentiation chains behind field inversion, field square roots and scalar inversion. */
module PowerChains {
  import opened Bits
  import opened Fermat
  import opened FieldElement
  import opened Magnitudes
  import opened Modular
  import opened Scalars
  import FieldLimbs
  import Scalar

  const P: int := FieldLimbs.P
  const N: int := Scalar.N

  /** `x` represents `a` to the power `e`. */
  ghost predicate PowerOf(x: int, a: int, e: nat, m: int)
    requires m > 0
  {
    Cong(x, Pow(a, e), m)
  }

  lemma ProductPower(r: int, x: int, y: int, m: int, a: int, d: nat, e: nat)
    requires m > 0 && PowerOf(x, a, d, m) && PowerOf(y, a, e, m) && Cong(r, x * y, m)
    ensures PowerOf(r, a, d + e, m)
  {
    hide Cong, Pow;
    MulCong(x, Pow(a, d), y, Pow(a, e), m);
    PowAdd(a, d, e);
    Trans(r, x * y, Pow(a, d + e), m);
  }

  /** One field multiplication, which adds exponents. */
  method FieldTimes(x: Element, y: Element, ghost a: int, ghost d: nat, ghost e: nat) returns (r: Element, ghost f: nat)
    requires PowerOf(Val(x), a, d, P) && PowerOf(Val(y), a, e, P)
    ensures f == d + e && PowerOf(Val(r), a, f, P) && Magnitude(r, 1)
  {
    hide Cong, PowerOf, Val, Magnitude;
    r := FeMul(x, y);
    f := d + e;
    ProductPower(Val(r), Val(x), Val(y), P, a, d, e);
  }

  /** A loop of `n` squarings, which doubles the exponent `n` times. */
  method SqrTimes(x: Element, n: nat, ghost a: int, ghost e: nat) returns (r: Element, ghost f: nat)
    requires PowerOf(Val(x), a, e, P)
    ensures f == e * Pow2(n) && PowerOf(Val(r), a, f, P)
  {
    hide PowerOf, Cong, Val, Magnitude;
    r, f := x, e;
    var j := 0;
    while j < n
      invariant 0 <= j <= n && f == e * Pow2(j)
      invariant PowerOf(Val(r), a, f, P)
    {
      var s := FeSqr(r);
      ProductPower(Val(s), Val(r), Val(r), P, a, f, f);
      r, f := s, f + f;
      j := j + 1;
      assert f == e * Pow2(j);
    }
  }

  /** A loop of `n` squarings of `x` and a multiplication by `y`. */
  method SqrMul(x: Element, n: nat, y: Element, ghost a: int, ghost d: nat, ghost e: nat)
    returns (r: Element, ghost f: nat)
    requires PowerOf(Val(x), a, d, P) && PowerOf(Val(y), a, e, P)
    ensures f == d * Pow2(n) + e && PowerOf(Val(r), a, f, P) && Magnitude(r, 1)
  {
    hide PowerOf, Val, Magnitude;
    r, f := SqrTimes(x, n, a, d);
    r, f := FieldTimes(r, y, a, f, e);
  }

  lemma FirstPower(a: int, m: int)
    requires m > 0
    ensures PowerOf(a, a, 1, m)
  {
    assert Pow(a, 1) == a * Pow(a, 0);
    Refl(a, m);
  }

  /** The powers of two that the loops of squarings multiply exponents by. */
  lemma LoopPowers()
    ensures Pow2(11) == 0x800 && Pow2(14) == 0x4000 && Pow2(22) == 0x40_0000 && Pow2(23) == 0x80_0000
    ensures Pow2(28) == 0x1000_0000 && Pow2(44) == 0x1000_0000_0000 && Pow2(56) == 0x100_0000_0000_0000
    ensures Pow2(88) == 0x100_0000_0000_0000_0000_0000
  {
    assert Pow2(1) == 2 && Pow2(11) == 0x800 && Pow2(7) == 0x80;
    Pow2Add(7, 7);
    Pow2Add(14, 14);
    Pow2Add(28, 28);
    Pow2Add(11, 11);
    Pow2Add(22, 1);
    Pow2Add(22, 22);
    Pow2Add(44, 44);
  }

  /** The part that the chains for P - 2 and for (P + 1) / 4 share: two blocks of ones and the zero between them. */
  method CommonChain(a: Element) returns (x2: Element, t1: Element, ghost e: nat)
    ensures PowerOf(Val(x2), Val(a), 3, P)
    ensures e == P / 0x400 && PowerOf(Val(t1), Val(a), e, P)
  {
    hide PowerOf, Val, Magnitude;
    LoopPowers();
    FirstPower(Val(a), P);
    var x3, x6, x9, x11, x22, x44, x88, x176, x220, x223;
    ghost var e2, e3, e6, e9, e11, e22, e44, e88, e176, e220, e223;
    x2, e2 := SqrMul(a, 1, a, Val(a), 1, 1);
    x3, e3 := SqrMul(x2, 1, a, Val(a), e2, 1);
    x6, e6 := SqrMul(x3, 3, x3, Val(a), e3, e3);
    x9, e9 := SqrMul(x6, 3, x3, Val(a), e6, e3);
    x11, e11 := SqrMul(x9, 2, x2, Val(a), e9, e2);
    x22, e22 := SqrMul(x11, 11, x11, Val(a), e11, e11);
    x44, e44 := SqrMul(x22, 22, x22, Val(a), e22, e22);
    x88, e88 := SqrMul(x44, 44, x44, Val(a), e44, e44);
    x176, e176 := SqrMul(x88, 88, x88, Val(a), e88, e88);
    x220, e220 := SqrMul(x176, 44, x44, Val(a), e176, e44);
    x223, e223 := SqrMul(x220, 3, x3, Val(a), e220, e3);
    t1, e := SqrMul(x223, 23, x22, Val(a), e223, e22);
  }

  /** The exponentiation by P - 2. */
  method Inv(a: Element) returns (r: Element)
    ensures PowerOf(Val(r), Val(a), P - 2, P) && Magnitude(r, 1)
  {
    hide PowerOf, Val, Magnitude;
    FirstPower(Val(a), P);
    var x2, t1;
    ghost var e;
    x2, t1, e := CommonChain(a);
    t1, e := SqrMul(t1, 5, a, Val(a), e, 1);
    t1, e := SqrMul(t1, 3, x2, Val(a), e, 3);
    t1, e := SqrMul(t1, 2, a, Val(a), e, 1);
    r := t1;
  }

  /** The exponentiation by (P + 1) / 4. */
  method SqrtPower(a: Element) returns (r: Element)
    ensures PowerOf(Val(r), Val(a), (P + 1) / 4, P) && Magnitude(r, 1)
  {
    hide PowerOf, Cong, Val, Magnitude;
    var x2, t1;
    ghost var e;
    x2, t1, e := CommonChain(a);
    t1, e := SqrMul(t1, 6, x2, Val(a), e, 3);
    var s := FeSqr(t1);
    ProductPower(Val(s), Val(t1), Val(t1), P, Val(a), e, e);
    r := FeSqr(s);
    ProductPower(Val(r), Val(s), Val(s), P, Val(a), e + e, e + e);
  }

  /** One scalar multiplication, which adds exponents. */
  method ScalarTimes(x: Limbs, y: Limbs, ghost a: int, ghost d: nat, ghost e: nat) returns (r: Limbs, ghost f: nat)
    requires PowerOf(Scalar.Value(x), a, d, N) && PowerOf(Scalar.Value(y), a, e, N)
    ensures f == d + e && PowerOf(Scalar.Value(r), a, f, N) && Scalar.Value(r) < N
  {
    hide Cong, PowerOf, Scalar.Value;
    r := Product(x, y);
    f := d + e;
    ModCong(Scalar.Value(x) * Scalar.Value(y), N);
    ProductPower(Scalar.Value(r), Scalar.Value(x), Scalar.Value(y), N, a, d, e);
  }

  /** A loop of `n` scalar squarings. */
  method ScalarSqrTimes(x: Limbs, n: nat, ghost a: int, ghost e: nat) returns (r: Limbs, ghost f: nat)
    requires PowerOf(Scalar.Value(x), a, e, N)
    ensures f == e * Pow2(n) && PowerOf(Scalar.Value(r), a, f, N)
  {
    hide PowerOf, Cong, Scalar.Value;
    r, f := x, e;
    var j := 0;
    while j < n
      invariant 0 <= j <= n && f == e * Pow2(j)
      invariant PowerOf(Scalar.Value(r), a, f, N)
    {
      var s := Square(r);
      ModCong(Scalar.Value(r) * Scalar.Value(r), N);
      ProductPower(Scalar.Value(s), Scalar.Value(r), Scalar.Value(r), N, a, f, f);
      r, f := s, f + f;
      j := j + 1;
      assert f == e * Pow2(j);
    }
  }

  /** A loop of `n` scalar squarings of `x` and a multiplication by `y`. */
  method ScalarSqrMul(x: Limbs, n: nat, y: Limbs, ghost a: int, ghost d: nat, ghost e: nat)
    returns (r: Limbs, ghost f: nat)
    requires PowerOf(Scalar.Value(x), a, d, N) && PowerOf(Scalar.Value(y), a, e, N)
    ensures f == d * Pow2(n) + e && PowerOf(Scalar.Value(r), a, f, N) && Scalar.Value(r) < N
  {
    hide PowerOf, Cong, Scalar.Value;
    r, f := ScalarSqrTimes(x, n, a, d);
    r, f := ScalarTimes(r, y, a, f, e);
  }

  /** The small powers that the chain for N - 2 uses, and the block of 126 ones at its front. */
  method InversePowers(x: Limbs) returns (x2: Limbs, x3: Limbs, x6: Limbs, x8: Limbs, u5: Limbs, u9: Limbs, u11: Limbs,
      u13: Limbs, t: Limbs)
    ensures var a := Scalar.Value(x);
      && PowerOf(Scalar.Value(x2), a, 3, N) && PowerOf(Scalar.Value(x3), a, 7, N) && PowerOf(Scalar.Value(x6), a, 63, N)
      && PowerOf(Scalar.Value(x8), a, 255, N) && PowerOf(Scalar.Value(u5), a, 5, N)
      && PowerOf(Scalar.Value(u9), a, 9, N) && PowerOf(Scalar.Value(u11), a, 11, N)
      && PowerOf(Scalar.Value(u13), a, 13, N) && PowerOf(Scalar.Value(t), a, (N - 2) / BLOCK, N)
  {
    hide PowerOf, Cong, Scalar.Value;
    LoopPowers();
    ghost var a := Scalar.Value(x);
    FirstPower(a, N);
    ghost var e14, e28, e56, e112, e;
    var u2 := Square(x);
    ModCong(a * a, N);
    ProductPower(Scalar.Value(u2), a, a, N, a, 1, 1);
    x2, e := ScalarTimes(u2, x, a, 2, 1);
    u5, e := ScalarTimes(u2, x2, a, 2, 3);
    x3, e := ScalarTimes(u5, u2, a, 5, 2);
    u9, e := ScalarTimes(x3, u2, a, 7, 2);
    u11, e := ScalarTimes(u9, u2, a, 9, 2);
    u13, e := ScalarTimes(u11, u2, a, 11, 2);
    x6, e := ScalarSqrMul(u13, 2, u11, a, 13, 11);
    x8, e := ScalarSqrMul(x6, 2, x2, a, 63, 3);
    var x14, x28, x56, x112;
    x14, e14 := ScalarSqrMul(x8, 6, x6, a, 255, 63);
    x28, e28 := ScalarSqrMul(x14, 14, x14, a, e14, e14);
    x56, e56 := ScalarSqrMul(x28, 28, x28, a, e28, e28);
    x112, e112 := ScalarSqrMul(x56, 56, x56, a, e56, e56);
    t, e := ScalarSqrMul(x112, 14, x14, a, e112, e14);
  }

  /** 2^130, the weight of the lowest bit of the block of ones. */
  const BLOCK: int := 0x4_00000000_00000000_00000000_00000000

  /** The exponentiation by N - 2. */
  method ScalarInverse(x: Limbs) returns (r: Limbs)
    ensures PowerOf(Scalar.Value(r), Scalar.Value(x), N - 2, N) && Scalar.Value(r) < N
  {
    hide PowerOf, Cong, Scalar.Value;
    ghost var a := Scalar.Value(x);
    FirstPower(a, N);
    var x2, x3, x6, x8, u5, u9, u11, u13, t := InversePowers(x);
    ghost var e := (N - 2) / BLOCK;
    t, e := ScalarSqrMul(t, 3, u5, a, e, 5);
    t, e := ScalarSqrMul(t, 4, x3, a, e, 7);
    t, e := ScalarSqrMul(t, 4, u5, a, e, 5);
    t, e := ScalarSqrMul(t, 5, u11, a, e, 11);
    t, e := ScalarSqrMul(t, 4, u11, a, e, 11);
    t, e := ScalarSqrMul(t, 4, x3, a, e, 7);
    t, e := ScalarSqrMul(t, 5, x3, a, e, 7);
    t, e := ScalarSqrMul(t, 6, u13, a, e, 13);
    t, e := ScalarSqrMul(t, 4, u5, a, e, 5);
    t, e := ScalarSqrMul(t, 3, x3, a, e, 7);
    t, e := ScalarSqrMul(t, 5, u9, a, e, 9);
    t, e := ScalarSqrMul(t, 6, u5, a, e, 5);
    t, e := ScalarSqrMul(t, 10, x3, a, e, 7);
    t, e := ScalarSqrMul(t, 4, x3, a, e, 7);
    r := InverseTail(x, t, x2, u9, u11, u13, x6, x8, a, e);
  }

  /** The last ten steps of the exponentiation by N - 2. */
  method InverseTail(x: Limbs, start: Limbs, x2: Limbs, u9: Limbs, u11: Limbs, u13: Limbs, x6: Limbs, x8: Limbs,
      ghost a: int, ghost d: nat)
    returns (r: Limbs)
    requires PowerOf(Scalar.Value(x), a, 1, N) && PowerOf(Scalar.Value(start), a, d, N)
    requires PowerOf(Scalar.Value(x2), a, 3, N) && PowerOf(Scalar.Value(u9), a, 9, N)
    requires PowerOf(Scalar.Value(u11), a, 11, N) && PowerOf(Scalar.Value(u13), a, 13, N)
    requires PowerOf(Scalar.Value(x6), a, 63, N) && PowerOf(Scalar.Value(x8), a, 255, N)
    requires d == (N - 2) / 0x8000_0000_0000_0000
    ensures PowerOf(Scalar.Value(r), a, N - 2, N) && Scalar.Value(r) < N
  {
    hide PowerOf, Cong, Scalar.Value;
    var t := start;
    ghost var e := d;
    t, e := ScalarSqrMul(t, 9, x8, a, e, 255);
    t, e := ScalarSqrMul(t, 5, u9, a, e, 9);
    t, e := ScalarSqrMul(t, 6, u11, a, e, 11);
    t, e := ScalarSqrMul(t, 4, u13, a, e, 13);
    t, e := ScalarSqrMul(t, 5, x2, a, e, 3);
    t, e := ScalarSqrMul(t, 6, u13, a, e, 13);
    t, e := ScalarSqrMul(t, 10, u13, a, e, 13);
    t, e := ScalarSqrMul(t, 4, u9, a, e, 9);
    t, e := ScalarSqrMul(t, 6, x, a, e, 1);
    r, e := ScalarSqrMul(t, 8, x6, a, e, 63);
  }

  /** Inversion is what it says: for a unit modulo a prime, the power m - 2 is the inverse. */
  lemma PowerIsInverse(x: int, a: int, m: int)
    requires Prime(m) && m > 2 && PowerOf(x, a, m - 2, m) && !Cong(a, 0, m)
    ensures Cong(a * x, 1, m)
  {
    LittleTheorem(a, m);
    assert Pow(a, m - 1) == a * Pow(a, m - 2);
    hide Cong, Prime, Pow;
    Refl(a, m);
    MulCong(a, a, x, Pow(a, m - 2), m);
    Trans(a * x, Pow(a, m - 1), 1, m);
  }

  /** The square of a^((P + 1) / 4) for a square a. */
  lemma {:induction false} RootOfSquare(s: int, a: int, r: int)
    requires Prime(P) && Cong(s * s, a, P) && PowerOf(r, a, (P + 1) / 4, P)
    ensures Cong(r * r, a, P)
  {
    hide Prime, Pow, Cong;
    var h := (P + 1) / 4;
    MulCong(r, Pow(a, h), r, Pow(a, h), P);
    PowAdd(a, h, h);
    Sym(s * s, a, P);
    PowCong(a, s * s, h + h, P);
    Trans(r * r, Pow(a, h + h), Pow(s * s, h + h), P);
    SquarePower(s, h + h);
    HalfwaySquare(s);
    Trans(r * r, Pow(s, P + 1), s * s, P);
    Trans(r * r, s * s, a, P);
  }

  lemma SquarePower(s: int, e: nat)
    ensures Pow(s * s, e) == Pow(s, 2 * e)
  {
    assert Pow(s, 2) == s * Pow(s, 1) && Pow(s, 1) == s * Pow(s, 0);
    PowMul(s, 2, e);
  }

  /** s^(P + 1) is s^2 modulo P. */
  lemma HalfwaySquare(s: int)
    requires Prime(P)
    ensures Cong(Pow(s, P + 1), s * s, P)
  {
    assert Pow(s, P + 1) == s * Pow(s, P);
    assert Pow(s, P) == s * Pow(s, P - 1);
    hide Prime, Pow;
    if Cong(s, 0, P) {
      hide Cong;
      Refl(Pow(s, P), P);
      MulCong(s, 0, Pow(s, P), Pow(s, P), P);
      MulCong(s, 0, s, 0, P);
      Sym(s * s, 0, P);
      Trans(Pow(s, P + 1), 0, s * s, P);
    } else {
      LittleTheorem(s, P);
      hide Cong;
      Refl(s, P);
      MulCong(s, s, Pow(s, P - 1), 1, P);
      MulCong(s, s, Pow(s, P), s, P);
    }
  }

  /** Squares that agree come from numbers that agree up to sign. */
  lemma RootsOpposite(r: int, s: int, p: int)
    requires Prime(p) && Cong(r * r, s * s, p)
    ensures Cong(r, s, p) || Cong(r, -s, p)
  {
    hide Cong, Prime;
    PrimePositive(p);
    Refl(s * s, p);
    AddCong(r * r, s * s, s * s, s * s, p);
    assert r * r - s * s == (r - s) * (r + s);
    Euclid(r - s, r + s, p);
    if Cong(r - s, 0, p) {
      FromDifference(r, s, p);
    } else {
      FromDifference(r, -s, p);
    }
  }

  /** Euler's criterion: half the power of the little theorem is 1 or -1. */
  lemma HalfPower(a: int)
    requires Prime(P) && !Cong(a, 0, P)
    ensures var e := Pow(a, (P - 1) / 2); Cong(e, 1, P) || Cong(e, -1, P)
  {
    LittleTheorem(a, P);
    hide Cong, Prime, Pow;
    PowAdd(a, (P - 1) / 2, (P - 1) / 2);
    RootsOpposite(Pow(a, (P - 1) / 2), 1, P);
  }

  /** The square of a^((P + 1) / 4) is a or -a, for every a. */
  lemma RootUpToSign(a: int, r: int)
    requires Prime(P) && PowerOf(r, a, (P + 1) / 4, P)
    ensures Cong(r * r, a, P) || Cong(r * r, -a, P)
  {
    var h, k := (P + 1) / 4, (P - 1) / 2;
    assert Pow(a, k + 1) == a * Pow(a, k);
    hide Cong, Prime, Pow;
    MulCong(r, Pow(a, h), r, Pow(a, h), P);
    PowAdd(a, h, h);
    assert Cong(r * r, a * Pow(a, k), P);
    Refl(a, P);
    if Cong(a, 0, P) {
      Refl(Pow(a, k), P);
      MulCong(a, 0, Pow(a, k), Pow(a, k), P);
      Trans(r * r, a * Pow(a, k), 0, P);
      Sym(a, 0, P);
      Trans(r * r, 0, a, P);
    } else {
      HalfPower(a);
      var sign := if Cong(Pow(a, k), 1, P) then 1 else -1;
      MulCong(a, a, Pow(a, k), sign, P);
      Trans(r * r, a * Pow(a, k), a * sign, P);
    }
  }

  /** A root a^((P + 1) / 4) is a square. */
  lemma RootIsSquare(a: int, r: int)
    requires PowerOf(r, a, (P + 1) / 4, P)
    ensures exists t :: Cong(t * t, r, P)
  {
    hide Cong, Pow;
    var h := (P + 1) / 8;
    var t := Pow(a, h);
    PowAdd(a, h, h);
    Sym(r, t * t, P);
  }

  /** -1 is no square modulo P, since P leaves 3 modulo 4: opposite squares vanish. */
  lemma OppositeSquares(t: int, u: int)
    requires Prime(P) && Cong(t * t, -(u * u), P)
    ensures Cong(t, 0, P)
  {
    hide Cong, Prime, Pow;
    var k := (P - 1) / 2;
    if !Cong(t, 0, P) {
      if Cong(u, 0, P) {
        MulCong(u, 0, -u, -u, P) by {
          Refl(-u, P);
        }
        Trans(t * t, -(u * u), 0, P);
        Euclid(t, t, P);
      } else {
        PowCong(t * t, -(u * u), k, P);
        SquarePower(t, k);
        SquarePower(u, k);
        OddPower(u * u, (k - 1) / 2);
        OppositeOnes(Pow(t, P - 1), Pow(u, P - 1), t, u);
      }
    }
  }

  lemma OppositeOnes(x: int, y: int, t: int, u: int)
    requires Prime(P) && !Cong(t, 0, P) && !Cong(u, 0, P)
    requires x == Pow(t, P - 1) && y == Pow(u, P - 1)
    ensures !Cong(x, -y, P)
  {
    LittleTheorem(t, P);
    LittleTheorem(u, P);
    hide Cong, Prime, Pow;
    if Cong(x, -y, P) {
      Sym(x, 1, P);
      Trans(1, x, -y, P);
      AddCong(1, -y, 1, y, P) by {
        Sym(y, 1, P);
      }
      UnitBelow(2, P);
    }
  }

  /** An odd power keeps the sign. */
  lemma {:induction false} OddPower(x: int, k: nat)
    ensures Pow(-x, 2 * k + 1) == -Pow(x, 2 * k + 1)
  {
    if k == 0 {
      assert Pow(-x, 0) == 1 && Pow(x, 0) == 1;
    } else {
      OddPower(x, k - 1);
      var e := 2 * (k - 1) + 1;
      assert Pow(-x, e + 2) == -x * Pow(-x, e + 1) && Pow(-x, e + 1) == -x * Pow(-x, e);
      assert Pow(x, e + 2) == x * Pow(x, e + 1) && Pow(x, e + 1) == x * Pow(x, e);
      hide Pow;
      SignsCancel(x, Pow(x, e));
    }
  }

  lemma SignsCancel(x: int, y: int)
    ensures -x * (-x * -y) == -(x * (x * y))
  {
  }

  /** The root that is itself a square is the only such root. */
  lemma SquareRootUnique(r: int, s: int, t: int, u: int)
    requires Prime(P) && Cong(r * r, s * s, P) && Cong(t * t, r, P) && Cong(u * u, s, P)
    ensures Cong(r, s, P)
  {
    hide Cong, Prime;
    RootsOpposite(r, s, P);
    if !Cong(r, s, P) {
      Trans(t * t, r, -s, P);
      Sym(u * u, s, P);
      Negated(s, u * u);
      Trans(t * t, -s, -(u * u), P);
      OppositeSquares(t, u);
      VanishingRoots(t, r, s);
    }
  }

  lemma Negated(a: int, b: int)
    requires Cong(a, b, P)
    ensures Cong(-a, -b, P)
  {
    hide Cong;
    Refl(0, P);
    AddCong(0, 0, a, b, P);
  }

  lemma VanishingRoots(t: int, r: int, s: int)
    requires Cong(t, 0, P) && Cong(t * t, r, P) && Cong(r, -s, P)
    ensures Cong(r, s, P)
  {
    hide Cong;
    MulCong(t, 0, t, 0, P);
    Sym(t * t, r, P);
    Trans(r, t * t, 0, P);
    Negated(r, 0);
    Negated(r, -s);
    Sym(-r, s, P);
    Sym(-r, 0, P);
    Trans(r, 0, -r, P);
    Trans(r, -r, s, P) by {
      Sym(s, -r, P);
    }
  }

  /** The square root, with the check that one was found: always a square, and the root of -a if there is none of a. */
  method Sqrt(a: Element) returns (r: Element, found: bool)
    requires Prime(P)
    ensures Magnitude(r, 1)
    ensures found <==> exists s :: Cong(s * s, Val(a), P)
    ensures found ==> Cong(Val(r) * Val(r), Val(a), P)
    ensures !found ==> Cong(Val(r) * Val(r), -Val(a), P)
    ensures exists t :: Cong(t * t, Val(r), P)
  {
    hide Prime, PowerOf, Cong, Val, Magnitude;
    r := SqrtPower(a);
    RootIsSquare(Val(a), Val(r));
    RootUpToSign(Val(a), Val(r));
    var t1 := FeSqr(r);
    found := FeEqual(t1, a);
    if found {
      Sym(Val(t1), Val(r) * Val(r), P);
      Trans(Val(r) * Val(r), Val(t1), Val(a), P);
    }
    forall s | Cong(s * s, Val(a), P)
      ensures found
    {
      RootOfSquare(s, Val(a), Val(r));
      Trans(Val(t1), Val(r) * Val(r), Val(a), P);
    }
  }
}
