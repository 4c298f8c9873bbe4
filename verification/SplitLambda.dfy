/** The rounded high product of two scalars, and the split of a scalar into two halves of half the length. */
module SplitLambda {
  import opened Bits
  import opened Modular
  import opened Scalar
  import opened ScalarBits
  import opened ScalarMul
  import opened Words
  import Wnaf

  lemma {:induction false} OrBound(x: nat, y: nat, n: nat)
    requires x < Pow2(n) && y < Pow2(n)
    ensures Or(x, y) < Pow2(n)
  {
    if n > 0 {
      OrBound(x / 2, y / 2, n - 1);
    }
  }

  lemma ShrBound(x: nat, n: nat)
    ensures Shr(x, n) <= x
  {
    hide Pow2;
    assert (x / Pow2(n)) * Pow2(n) <= x;
    MulMono(1, Pow2(n), x / Pow2(n));
  }

  /** A right shift of a limb, joined with bits that come down from above. */
  function Joined(x: Word, up: Word, low: nat): (z: Word)
    ensures z == Or(Shr(x, low), up)
  {
    Pow2Values();
    ShrBound(x, low);
    OrBound(Shr(x, low), up, 32);
    Or(Shr(x, low), up)
  }

  /** Limb j of a product shifted right: the conditions keep the reads inside the product. */
  function ShiftedAt(l: seq<Word>, shift: nat, j: nat): (z: Word)
    requires |l| == 16 && 256 <= shift <= 512 && j < 8
  {
    var shiftlimbs, shiftlow := shift / 32, shift % 32;
    var shifthigh := 32 - shiftlow;
    if shift < 512 - 32 * j then
      var high := if shift < 480 - 32 * j && shiftlow != 0 then Shl32(l[1 + j + shiftlimbs], shifthigh) else 0;
      Joined(l[j + shiftlimbs], high, shiftlow)
    else 0
  }

  /** Eight limbs of the product from limb q on, with zeros beyond its end. */
  ghost function Slice(l: seq<Word>, q: nat): (d: seq<Word>)
    requires |l| == 16
    ensures |d| == 8 && forall i :: 0 <= i < 8 ==> d[i] == if i + q < 16 then l[i + q] else 0
  {
    seq(8, i requires 0 <= i < 8 => if i + q < 16 then l[i + q] else 0)
  }

  lemma JoinedLimb(x: Word, y: Word, n: nat)
    requires 0 < n < 32
    ensures Joined(x, Shl32(y, 32 - n), n) == ShiftLimb(x, y, n)
    ensures Joined(x, 0, n) == ShiftLimb(x, 0, n)
  {
    StraddlingField(x, y, n, 0);
    LeftShift(y, n);
    LeftShift(0, n);
    hide Pow2;
    OrDisjoint(Shr(x, n), y % Pow2(n), 32 - n);
    OrZeroRight(Shr(x, n));
  }

  lemma OrZeroRight(x: nat)
    ensures Or(x, 0) == x
  {
  }

  lemma ZeroLimb(n: nat)
    requires 0 < n < 32
    ensures ShiftLimb(0, 0, n) == 0
  {
    LeftShift(0, n);
    hide Pow2;
  }

  lemma ShrZero(x: nat)
    ensures Shr(x, 0) == x
  {
    assert Pow2(0) == 1;
  }

  lemma ShiftedLimbAt(l: seq<Word>, shift: nat, j: nat)
    requires |l| == 16 && 256 <= shift <= 512 && j < 8
    ensures var d, s := Slice(l, shift / 32), shift % 32;
      ShiftedAt(l, shift, j) ==
      if s == 0 then d[j] else ShiftLimb(d[j], if j == 7 then 0 else d[j + 1], s)
  {
    hide Or, Shr, Shl32, ShiftLimb, Pow2;
    var q, s := shift / 32, shift % 32;
    var d := Slice(l, q);
    if shift < 512 - 32 * j {
      ShrZero(l[j + q]);
      OrZeroRight(l[j + q]);
      if s != 0 {
        JoinedLimb(l[j + q], if j + 1 + q < 16 then l[j + 1 + q] else 0, s);
      }
    } else if s != 0 {
      ZeroLimb(s);
    }
  }

  lemma {:induction false} SliceTail(l: seq<Word>, q: nat, i: nat)
    requires |l| == 16 && 8 <= q <= 16 && i <= 8
    ensures Tail(Slice(l, q), i) == if q - 8 + i < 8 then Tail(l[8..], q - 8 + i) else 0
    decreases 8 - i
  {
    if i < 8 {
      SliceTail(l, q, i + 1);
    }
  }

  lemma HighHalf(l: seq<Word>)
    requires |l| == 16
    ensures Value16(l) >= 0 && Value16(l) / R256 == Value(l[8..])
  {
    ValueRange(l[..8]);
    ValueRange(l[8..]);
    hide Value;
    DivModUnique(Value16(l), R256, Value(l[8..]), Value(l[..8]));
  }

  /** The slice is the product shifted by whole limbs. */
  lemma SliceValue(l: seq<Word>, q: nat)
    requires |l| == 16 && 8 <= q <= 16
    ensures Value16(l) >= 0 && Value(Slice(l, q)) == Value16(l) / Pow2(32 * q)
  {
    HighHalf(l);
    hide Value, Value16, Tail, Pow2, Slice;
    var h := l[8..];
    SliceTail(l, q, 0);
    WholeTail(Slice(l, q));
    TailShifts(h, q - 8);
    TailEnd(h);
    Pow2Wide();
    Pow2Add(256, 32 * (q - 8));
    DivDiv(Value16(l), R256, Pow2(32 * (q - 8)));
  }

  lemma TailEnd(h: seq<int>)
    requires |h| == 8
    ensures Tail(h, 8) == 0
  {
  }

  lemma QuotientOfQuotient(v: nat, a: nat, b: nat, d: nat, z: nat, x: nat)
    requires a > 0 && b > 0 && d == v / a && d == z * b + x % b
    ensures a * b > 0 && z == v / (a * b)
  {
    DivModUnique(d, b, z, x % b);
    DivDiv(v, a, b);
  }

  lemma SliceShifted(l: seq<Word>, q: nat, s: nat, z: seq<Word>)
    requires |l| == 16 && |z| == 8 && 8 <= q <= 16 && 0 < s < 32
    requires var d := Slice(l, q);
      (forall j :: 0 <= j < 7 ==> z[j] == ShiftLimb(d[j], d[j + 1], s)) && z[7] == ShiftLimb(d[7], 0, s)
    ensures Value16(l) >= 0 && Value(z) == Value16(l) / Pow2(32 * q + s)
  {
    var d := Slice(l, q);
    hide Value, Value16, Pow2, ShiftLimb, Slice;
    SliceValue(l, q);
    ValueRange(z);
    ValueRange(d);
    ShiftedValue(d, z, s);
    Pow2Add(32 * q, s);
    QuotientOfQuotient(Value16(l), Pow2(32 * q), Pow2(s), Value(d), Value(z), d[0]);
  }

  /** Limb by limb, the shifted product is the product divided by the power of two. */
  lemma ShiftedProduct(l: seq<Word>, shift: nat, z: seq<Word>)
    requires |l| == 16 && |z| == 8 && 256 <= shift <= 512
    requires forall j :: 0 <= j < 8 ==> z[j] == ShiftedAt(l, shift, j)
    ensures Value16(l) >= 0 && Value(z) == Value16(l) / Pow2(shift)
  {
    hide Value, Value16, Pow2, ShiftedAt, ShiftLimb;
    var q, s := shift / 32, shift % 32;
    var d := Slice(l, q);
    forall j {:trigger z[j]} | 0 <= j < 8
      ensures z[j] == if s == 0 then d[j] else ShiftLimb(d[j], if j == 7 then 0 else d[j + 1], s)
    {
      ShiftedLimbAt(l, shift, j);
    }
    if s == 0 {
      SliceValue(l, q);
      assert z == d;
    } else {
      SliceShifted(l, q, s, z);
    }
  }

  /** Rounding by the highest bit that is shifted out. */
  lemma RoundUp(v: nat, p: nat)
    requires p > 0
    ensures v / (2 * p) + (v / p) % 2 == (v + p) / (2 * p)
  {
    var q, r := v / (2 * p), v % (2 * p);
    assert v == q * (2 * p) + r;
    var b := if r >= p then 1 else 0;
    DivModUnique(v, p, 2 * q + b, r - b * p);
    assert (2 * q + b) % 2 == b;
    DivModUnique(v + p, 2 * p, q + b, r + p - b * (2 * p));
  }

  lemma RoundShift(v: nat, shift: nat)
    requires shift > 0
    ensures v / Pow2(shift) + Field(v, shift - 1, 1) == (v + Pow2(shift - 1)) / Pow2(shift)
  {
    Pow2Even(shift);
    Wnaf.PowOne();
    hide Pow2;
    RoundUp(v, Pow2(shift - 1));
  }

  lemma FieldOfHigh(v: nat, offset: nat)
    requires offset >= 256
    ensures Field(v, offset, 1) == Field(v / R256, offset - 256, 1)
  {
    Pow2Wide();
    hide Pow2;
    Pow2Add(256, offset - 256);
    DivDiv(v, R256, Pow2(offset - 256));
  }

  lemma LowHalf(l: seq<Word>)
    requires |l| == 16
    ensures Value16(l) >= 0 && Value16(l) % R256 == Value(l[..8])
  {
    ValueRange(l[..8]);
    ValueRange(l[8..]);
    hide Value;
    DivModUnique(Value16(l), R256, Value(l[8..]), Value(l[..8]));
  }

  lemma BitOfEight(d: seq<Word>, offset: nat)
    requires |d| == 8 && offset < 256
    ensures Value(d) >= 0 && Field(Value(d), offset, 1) == Field(d[offset / 32], offset % 32, 1)
  {
    hide Value, Tail, Field;
    FieldInTail(d, offset, 1);
    TailLow(d, offset / 32, offset % 32, 1);
  }

  lemma BitOfLimb(x: nat, n: nat)
    ensures And(Shr(x, n), 1) == Field(x, n, 1)
  {
    Wnaf.PowOne();
    AndMask(Shr(x, n), 1);
    hide And, Pow2;
  }

  lemma BitOfSixteen(l: seq<Word>, offset: nat)
    requires |l| == 16 && offset < 512
    ensures Value16(l) >= 0 && Field(l[offset / 32], offset % 32, 1) == Field(Value16(l), offset, 1)
  {
    hide Value, Value16, Field, Pow2;
    HighHalf(l);
    LowHalf(l);
    if offset < 256 {
      Pow2Wide();
      FieldIgnoresHigh(Value16(l), 256, offset, 1);
      BitOfEight(l[..8], offset);
    } else {
      FieldOfHigh(Value16(l), offset);
      BitOfEight(l[8..], offset - 256);
      HighIndex(offset);
    }
  }

  lemma HighIndex(offset: nat)
    requires offset >= 256
    ensures (offset - 256) / 32 == offset / 32 - 8 && (offset - 256) % 32 == offset % 32
  {
  }

  /** One bit of the product is one bit of one of its limbs. */
  lemma BitOfProduct(l: seq<Word>, offset: nat)
    requires |l| == 16 && offset < 512
    ensures Value16(l) >= 0 && And(Shr(l[offset / 32], offset % 32), 1) == Field(Value16(l), offset, 1)
  {
    hide *;
    BitOfSixteen(l, offset);
    BitOfLimb(l[offset / 32], offset % 32);
  }

  /** The shifted product leaves room for the rounding bit. */
  lemma RoomToRound(a: seq<Word>, b: seq<Word>, shift: nat)
    requires |a| == |b| == 8 && shift >= 256
    ensures Value(a) * Value(b) >= 0 && Value(a) * Value(b) / Pow2(shift) + 1 < R256
  {
    ValueRange(a);
    ValueRange(b);
    hide Value;
    Pow2Wide();
    Pow2Mono(256, shift);
    hide Pow2;
    ProductQuotient(Value(a), Value(b), R256, Pow2(shift));
  }

  lemma ProductQuotient(a: nat, b: nat, r: nat, p: nat)
    requires a < r && b < r && 1 < r <= p
    ensures a * b >= 0 && a * b / p + 1 < r
  {
    MulMono(a, r - 1, b);
    MulMono(b, p - 1, r - 1);
    assert (p - 1) * (r - 1) == (r - 1) * p - (r - 1);
    QuotientBelow(a * b, r - 1, p);
  }

  lemma QuotientBelow(x: nat, k: nat, p: nat)
    requires p > 0 && x < k * p
    ensures x / p < k
  {
    assert (x / p) * p <= x;
    if x / p >= k {
      MulMono(k, x / p, p);
    }
  }

  /** r := a * b / 2^shift, rounded to the nearest integer. */
  method MulShiftVar(r: array<Word>, a: seq<Word>, b: seq<Word>, shift: nat)
    requires r.Length == 8 && |a| == |b| == 8 && 256 <= shift <= 512
    modifies r
    ensures Value(a) * Value(b) >= 0
    ensures Value(r[..]) == (Value(a) * Value(b) + Pow2(shift - 1)) / Pow2(shift)
  {
    hide Value, Value16, Pow2, ShiftedAt, And, Shr, Field;
    var l := Mul512(a, b);
    Store(r, [ShiftedAt(l, shift, 0), ShiftedAt(l, shift, 1), ShiftedAt(l, shift, 2), ShiftedAt(l, shift, 3),
              ShiftedAt(l, shift, 4), ShiftedAt(l, shift, 5), ShiftedAt(l, shift, 6), ShiftedAt(l, shift, 7)]);
    ShiftedProduct(l, shift, r[..]);
    BitOfProduct(l, shift - 1);
    RoundShift(Value16(l), shift);
    RoomToRound(a, b, shift);
    Wnaf.PowOne();
    Wnaf.FieldBound(Value16(l), shift - 1, 1);
    CaddBit(r, 0, And(Shr(l[(shift - 1) / 32], (shift - 1) % 32), 1) != 0);
  }

  const LAMBDA: int := 0x5363AD4C_C05C30E0_A5261C02_8812645A_122E22EA_20816678_DF02967C_1B23BD72
  const A1: int := 0x3086D221_A7D46BCD_E86C90E4_9284EB15
  const MINUS_B1: int := 0xE4437ED6_010E8828_6F547FA9_0ABFE4C3
  const A2: int := 0x1_14CA50F7_A8E2F3F6_57C1108D_9D44CFD8
  const B2: int := 0x3086D221_A7D46BCD_E86C90E4_9284EB15
  const G1: int := 0x3086_D221A7D4_6BCDE86C_90E49284_EB153DAB
  const G2: int := 0xE443_7ED6010E_88286F54_7FA90ABF_E4C42212

  /** A cube root of one modulo the order, and not one itself. */
  lemma LambdaRoot()
    ensures Cong(LAMBDA * LAMBDA + LAMBDA + 1, 0, N) && !Cong(LAMBDA, 1, N)
  {
    FromMultiple(LAMBDA * LAMBDA + LAMBDA + 1, 0,
                 0x1B29C92F436961FEDA2D80BF0132192D742F75B6E07A478C03A79CE97FCE2F77, N);
    hide Cong;
    if Cong(LAMBDA, 1, N) {
      CongUnique(LAMBDA, 1, N);
    }
  }

  /** The two short vectors of the lattice of pairs (x, y) with x + y * lambda = 0. */
  lemma LatticeVectors()
    ensures Cong(A1, MINUS_B1 * LAMBDA, N) && Cong(A2 + B2 * LAMBDA, 0, N)
  {
    assert A1 - MINUS_B1 * LAMBDA == -0x4A5AC2BF_7B5F37F9_F1DB10D7_A2A9C981 * N;
    FromMultiple(A1, MINUS_B1 * LAMBDA, -0x4A5AC2BF_7B5F37F9_F1DB10D7_A2A9C981, N);
    assert A2 + B2 * LAMBDA == 0xFCE9B1DD_4EB7DD27_18A29067_87061B2 * N;
    FromMultiple(A2 + B2 * LAMBDA, 0, 0xFCE9B1DD_4EB7DD27_18A29067_87061B2, N);
  }

  const POW_128: int := 0x1_00000000_00000000_00000000_00000000

  const POW_272: int := 0x1_0000_00000000_00000000_00000000_00000000_00000000_00000000_00000000_00000000

  /** The rounded quotients leave remainders of half the length. */
  lemma ShortRemainders(a: int, c1: int, c2: int)
    requires 0 <= a < N
    requires 2 * POW_272 * c1 <= 2 * (a * G1) + POW_272 < 2 * POW_272 * (c1 + 1)
    requires 2 * POW_272 * c2 <= 2 * (a * G2) + POW_272 < 2 * POW_272 * (c2 + 1)
    ensures -POW_128 < a - c1 * A1 - c2 * A2 < POW_128
    ensures -POW_128 < c1 * MINUS_B1 - c2 * B2 < POW_128
  {
  }

  const MINUS_LAMBDA_LIMBS: seq<Word> := [0xB51283CF, 0xE0CFC810, 0x8EC739C2, 0xA880B9FC, 0x77ED9BA4, 0x5AD9E3FD,
      0x3FA3CF1F, 0xAC9C52B3]
  const MINUS_B1_LIMBS: seq<Word> := [0x0ABFE4C3, 0x6F547FA9, 0x010E8828, 0xE4437ED6, 0x00000000, 0x00000000,
      0x00000000, 0x00000000]
  const MINUS_B2_LIMBS: seq<Word> := [0x3DB1562C, 0xD765CDA8, 0x0774346D, 0x8A280AC5, 0xFFFFFFFE, 0xFFFFFFFF,
      0xFFFFFFFF, 0xFFFFFFFF]
  const G1_LIMBS: seq<Word> := [0xEB153DAB, 0x90E49284, 0x6BCDE86C, 0xD221A7D4, 0x00003086, 0x00000000, 0x00000000,
      0x00000000]
  const G2_LIMBS: seq<Word> := [0xE4C42212, 0x7FA90ABF, 0x88286F54, 0x7ED6010E, 0x0000E443, 0x00000000, 0x00000000,
      0x00000000]

  lemma ConstantLimbs()
    ensures |MINUS_LAMBDA_LIMBS| == |MINUS_B1_LIMBS| == |MINUS_B2_LIMBS| == |G1_LIMBS| == |G2_LIMBS| == 8
    ensures Value(MINUS_LAMBDA_LIMBS) == N - LAMBDA && Value(MINUS_B1_LIMBS) == MINUS_B1 &&
          Value(MINUS_B2_LIMBS) == N - B2
    ensures Value(G1_LIMBS) == G1 && Value(G2_LIMBS) == G2
  {
  }

  lemma RoundedQuotient(x: nat, c: nat)
    requires c == (x + Pow2(271)) / Pow2(272)
    ensures 2 * POW_272 * c <= 2 * x + POW_272 < 2 * POW_272 * (c + 1)
  {
    WidePower();
    hide Pow2;
    RoundedBounds(x, c);
  }

  lemma WidePower()
    ensures Pow2(272) == POW_272 && 2 * Pow2(271) == POW_272
  {
    Pow2Even(272);
    Pow2Wide();
    Pow2Values();
    hide Pow2;
    Pow2Add(8, 8);
    Pow2Add(256, 16);
  }

  lemma RoundedBounds(x: nat, c: nat)
    requires c == (x + POW_272 / 2) / POW_272
    ensures 2 * POW_272 * c <= 2 * x + POW_272 < 2 * POW_272 * (c + 1)
  {
  }

  /** Within 128 bits of zero, as a signed residue. */
  ghost predicate Short(x: int) {
    0 <= x < POW_128 || 0 < N - x < POW_128
  }

  lemma ShortResidue(r: int, y: int)
    requires 0 <= r < N && Cong(r, y, N) && -POW_128 < y < POW_128
    ensures Short(r)
  {
    hide Cong;
    if y >= 0 {
      CongUnique(r, y, N);
    } else {
      FromMultiple(y, y + N, -1, N);
      Trans(r, y, y + N, N);
      CongUnique(r, y + N, N);
    }
  }

  /** The residues that the code computes are the short combinations. */
  lemma SplitResidues(a: int, c1: int, c2: int, d1: int, d2: int, r1: int, r2: int, t: int)
    requires Cong(d1, c1 * MINUS_B1, N) && Cong(d2, c2 * (N - B2), N) && Cong(r2, d1 + d2, N)
    requires Cong(t, r2 * (N - LAMBDA), N) && Cong(r1, t + a, N)
    ensures Cong(r2, c1 * MINUS_B1 - c2 * B2, N) && Cong(r1, a - c1 * A1 - c2 * A2, N)
    ensures Cong(r1 + LAMBDA * r2, a, N)
  {
    LatticeVectors();
    hide Cong;
    var k := Quotient(d1, c1 * MINUS_B1, N);
    var l := Quotient(d2, c2 * (N - B2), N);
    var m := Quotient(r2, d1 + d2, N);
    FromMultiple(r2, c1 * MINUS_B1 - c2 * B2, k + l + m + c2, N);
    var n := Quotient(t, r2 * (N - LAMBDA), N);
    var o := Quotient(r1, t + a, N);
    FromMultiple(r1 + LAMBDA * r2, a, n + o + r2, N);
    var u := Quotient(A1, MINUS_B1 * LAMBDA, N);
    var v := Quotient(A2 + B2 * LAMBDA, 0, N);
    var e := k + l + m + c2;
    assert r2 == c1 * MINUS_B1 - c2 * B2 + e * N;
    assert r1 == a - LAMBDA * r2 + (n + o + r2) * N;
    FromMultiple(r1, a - c1 * A1 - c2 * A2, n + o + r2 - LAMBDA * e + c1 * u + c2 * v, N);
  }

  /** Multiplication by a constant. */
  method TimesConstant(r: array<Word>, x: array<Word>, m: seq<Word>)
    requires r.Length == x.Length == |m| == 8
    modifies r
    ensures 0 <= Value(r[..]) < N && Cong(Value(r[..]), old(Value(x[..])) * Value(m), N)
  {
    ModRange(0);
    hide Value, Cong, N;
    var k := new Word[8];
    Store(k, m);
    assert k[..] == m;
    ghost var v := Value(x[..]);
    ScalarMul.ScalarMul(r, x, k);
    ModRange(v * Value(m));
  }

  method Sum(r: array<Word>, a: array<Word>, b: seq<Word>)
    requires r.Length == a.Length == |b| == 8 && Value(a[..]) < N && Value(b) < N
    modifies r
    ensures 0 <= Value(r[..]) < N && Cong(Value(r[..]), old(Value(a[..])) + Value(b), N)
  {
    ModRange(0);
    hide Value, Cong, N;
    var k := new Word[8];
    Store(k, b);
    assert k[..] == b;
    ghost var v := Value(a[..]);
    var _ := Add(r, a, k);
    ModRange(v + Value(b));
  }

  /** A rounded quotient, times a constant modulo the order. */
  method RoundedTimes(a: seq<Word>, g: seq<Word>, m: seq<Word>) returns (d: array<Word>, ghost c: nat)
    requires |a| == |g| == |m| == 8
    ensures fresh(d) && d.Length == 8 && 0 <= Value(d[..]) < N && Cong(Value(d[..]), c * Value(m), N)
    ensures Value(a) * Value(g) >= 0 && c == (Value(a) * Value(g) + Pow2(271)) / Pow2(272)
  {
    hide Value, Cong, Pow2, N;
    d := new Word[8];
    MulShiftVar(d, a, g, 272);
    c := Value(d[..]);
    TimesConstant(d, d, m);
  }

  lemma ModRange(x: int)
    ensures N > 0 && 0 <= x % N < N && Cong(x % N, x, N)
  {
    hide Cong;
    ModCong(x, N);
  }

  lemma SplitIsShort(a: int, c1: nat, c2: nat, r1: int, r2: int)
    requires 0 <= a < N && 0 <= r1 < N && 0 <= r2 < N
    requires c1 == (a * G1 + Pow2(271)) / Pow2(272) && c2 == (a * G2 + Pow2(271)) / Pow2(272)
    requires Cong(r2, c1 * MINUS_B1 - c2 * B2, N) && Cong(r1, a - c1 * A1 - c2 * A2, N)
    ensures Short(r1) && Short(r2)
  {
    hide Cong, Pow2, Short;
    RoundedQuotient(a * G1, c1);
    RoundedQuotient(a * G2, c2);
    ShortRemainders(a, c1, c2);
    ShortResidue(r1, a - c1 * A1 - c2 * A2);
    ShortResidue(r2, c1 * MINUS_B1 - c2 * B2);
  }

  /** r1 + lambda * r2 = a, with both halves short. */
  method SplitLambda(r1: array<Word>, r2: array<Word>, a: seq<Word>)
    requires r1.Length == r2.Length == 8 && r1 != r2 && |a| == 8 && Value(a) < N
    modifies r1, r2
    ensures 0 <= Value(r1[..]) < N && 0 <= Value(r2[..]) < N
    ensures Cong(Value(r1[..]) + LAMBDA * Value(r2[..]), Value(a), N)
    ensures Short(Value(r1[..])) && Short(Value(r2[..]))
  {
    hide *;
    ConstantLimbs();
    ValueRange(a);
    ModRange(0);
    var d1, c1 := RoundedTimes(a, G1_LIMBS, MINUS_B1_LIMBS);
    var d2, c2 := RoundedTimes(a, G2_LIMBS, MINUS_B2_LIMBS);
    ghost var x, y := Value(d1[..]), Value(d2[..]);
    Sum(r2, d1, d2[..]);
    ghost var s := Value(r2[..]);
    TimesConstant(r1, r2, MINUS_LAMBDA_LIMBS);
    ghost var t := Value(r1[..]);
    Sum(r1, r1, a);
    SplitResidues(Value(a), c1, c2, x, y, Value(r1[..]), s, t);
    SplitIsShort(Value(a), c1, c2, Value(r1[..]), s);
  }
}
