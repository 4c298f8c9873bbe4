/** What the functions and constants of SHA-256 are, bit by bit and number by number. */
module Sha256Laws {
  import opened BigEndian
  import opened Bits
  import opened Fips180
  import opened Memory
  import opened Modular
  import opened Words
  import FieldOctets
  import Hash
  import ScalarBits

  /** A rotation moves the low n bits to the top. */
  lemma RotrIs(x: Word, n: nat)
    requires n <= 32
    ensures Rotr(x, n) == x / Pow2(n) + x % Pow2(n) * Pow2(32 - n) < 0x1_0000_0000
  {
    hide Pow2, Or, Shl32;
    ScalarBits.LeftShift(x, n);
    ScalarBits.WordSplit(n);
    HalvesJoin(x, Pow2(n), Pow2(32 - n));
    OrDisjoint(x / Pow2(n), x % Pow2(n), 32 - n);
  }

  lemma HalvesJoin(x: Word, s: nat, n: nat)
    requires s > 0 && n > 0 && s * n == 0x1_0000_0000
    ensures x / s < n && x / s + x % s * n < 0x1_0000_0000
  {
    ScalarBits.SmallQuotient(x, s, n);
    RotatedBelow(x / s, x % s, s, n);
  }

  lemma RotatedBelow(q: nat, r: nat, s: nat, n: nat)
    requires q < n && r < s
    ensures q + r * n < s * n
  {
    MulMono(r + 1, s, n);
    assert (r + 1) * n == r * n + n;
  }

  /** Bit i of a rotation by n is bit i + n of the word, counted around. */
  lemma RotrBit(x: Word, n: nat, i: nat)
    requires n <= 32 && i < 32
    ensures Field(Rotr(x, n), i, 1) == Field(x, (i + n) % 32, 1)
  {
    hide *;
    var k := 32 - n;
    RotrHalves(x, n);
    if i < k {
      FieldIgnoresHigh(Rotr(x, n), k, i, 1);
      ShrBit(x, n, i);
    } else {
      ShrBit(Rotr(x, n), k, i - k);
      FieldIgnoresHigh(x, n, i - k, 1);
      assert (i + n) % 32 == i - k;
    }
  }

  /** The low and the high part of a rotated word. */
  lemma RotrHalves(x: Word, n: nat)
    requires n <= 32
    ensures Pow2(32 - n) > 0 && Pow2(n) > 0
    ensures Rotr(x, n) % Pow2(32 - n) == Shr(x, n) && Shr(Rotr(x, n), 32 - n) == x % Pow2(n)
  {
    RotrIs(x, n);
    ScalarBits.WordSplit(n);
    hide Rotr, Pow2;
    HalvesJoin(x, Pow2(n), Pow2(32 - n));
    DivModUnique(Rotr(x, n), Pow2(32 - n), x % Pow2(n), x / Pow2(n));
  }

  lemma Xor3Bit(a: nat, b: nat, c: nat, i: nat)
    ensures Field(Xor(Xor(a, b), c), i, 1) == (Field(a, i, 1) + Field(b, i, 1) + Field(c, i, 1)) % 2
  {
    hide *;
    XorBit(Xor(a, b), c, i);
    XorBit(a, b, i);
  }

  lemma BitBeyond(x: Word, i: nat)
    requires i >= 32
    ensures Field(x, i, 1) == 0
  {
    Pow2Values();
    Pow2Mono(32, i);
  }

  /** Bit i of the functions of section 4.1.2 of FIPS 180-4, as sums modulo 2 of bits of the word. */
  lemma BigSigma0Bit(x: Word, i: nat)
    requires i < 32
    ensures Field(BigSigma0(x), i, 1) ==
      (Field(x, (i + 2) % 32, 1) + Field(x, (i + 13) % 32, 1) + Field(x, (i + 22) % 32, 1)) % 2
  {
    hide Field, Xor, Rotr;
    Xor3Bit(Rotr(x, 2), Rotr(x, 13), Rotr(x, 22), i);
    RotrBit(x, 2, i);
    RotrBit(x, 13, i);
    RotrBit(x, 22, i);
  }

  lemma BigSigma1Bit(x: Word, i: nat)
    requires i < 32
    ensures Field(BigSigma1(x), i, 1) ==
      (Field(x, (i + 6) % 32, 1) + Field(x, (i + 11) % 32, 1) + Field(x, (i + 25) % 32, 1)) % 2
  {
    hide Field, Xor, Rotr;
    Xor3Bit(Rotr(x, 6), Rotr(x, 11), Rotr(x, 25), i);
    RotrBit(x, 6, i);
    RotrBit(x, 11, i);
    RotrBit(x, 25, i);
  }

  lemma SmallSigma0Bit(x: Word, i: nat)
    requires i < 32
    ensures Field(SmallSigma0(x), i, 1) ==
      (Field(x, (i + 7) % 32, 1) + Field(x, (i + 18) % 32, 1) + (if i + 3 < 32 then Field(x, i + 3, 1) else 0)) % 2
  {
    hide Field, Xor, Rotr, Shr;
    Xor3Bit(Rotr(x, 7), Rotr(x, 18), Shr(x, 3), i);
    RotrBit(x, 7, i);
    RotrBit(x, 18, i);
    ShrBit(x, 3, i);
    if i + 3 >= 32 {
      BitBeyond(x, i + 3);
    }
  }

  lemma SmallSigma1Bit(x: Word, i: nat)
    requires i < 32
    ensures Field(SmallSigma1(x), i, 1) ==
      (Field(x, (i + 17) % 32, 1) + Field(x, (i + 19) % 32, 1) + (if i + 10 < 32 then Field(x, i + 10, 1) else 0)) % 2
  {
    hide Field, Xor, Rotr, Shr;
    Xor3Bit(Rotr(x, 17), Rotr(x, 19), Shr(x, 10), i);
    RotrBit(x, 17, i);
    RotrBit(x, 19, i);
    ShrBit(x, 10, i);
    if i + 10 >= 32 {
      BitBeyond(x, i + 10);
    }
  }

  lemma {:induction false} NotBit(x: nat, n: nat, i: nat)
    requires x < Pow2(n) && i < n
    ensures Field(Not(x, n), i, 1) == 1 - Field(x, i, 1)
  {
    Hash.NotBits(x, x / 2, x % 2, n);
    hide Not, Field;
    if i == 0 {
      LowBit(x);
      LowBit(Not(x, n));
    } else {
      BitAbove(x, i - 1);
      BitAbove(Not(x, n), i - 1);
      NotBit(x / 2, n - 1, i - 1);
    }
  }

  /** The choice takes bit i of y where x has a one, and of z elsewhere. */
  lemma ChBit(x: Word, y: Word, z: Word, i: nat)
    requires i < 32
    ensures Field(Ch(x, y, z), i, 1) == if Field(x, i, 1) == 1 then Field(y, i, 1) else Field(z, i, 1)
  {
    Pow2Values();
    hide And, Xor, Not, Pow2;
    XorBit(And(x, y), And(Not(x, 32), z), i);
    AndBit(x, y, i);
    AndBit(Not(x, 32), z, i);
    NotBit(x, 32, i);
    BitRange(y, i);
    BitRange(z, i);
    BitRange(x, i);
    hide Field;
  }

  lemma BitRange(x: nat, i: nat)
    ensures 0 <= Field(x, i, 1) < 2
  {
    assert Pow2(1) == 2;
    hide Pow2;
  }

  /** The majority has a one where two of the three have. */
  lemma MajBit(x: Word, y: Word, z: Word, i: nat)
    requires i < 32
    ensures Field(Maj(x, y, z), i, 1) == if Field(x, i, 1) + Field(y, i, 1) + Field(z, i, 1) >= 2 then 1 else 0
  {
    hide And, Xor, Field;
    Xor3Bit(And(x, y), And(x, z), And(y, z), i);
    AndBit(x, y, i);
    AndBit(x, z, i);
    AndBit(y, z, i);
    BitRange(x, i);
    BitRange(y, i);
    BitRange(z, i);
  }

  /** The sum of two states is word by word the sum modulo 2^32. */
  lemma PlusSums(s: State, r: State)
    ensures var t := Plus(s, r);
      && Cong(t.a, (s.a as int) + r.a, 0x1_0000_0000) && Cong(t.b, (s.b as int) + r.b, 0x1_0000_0000)
      && Cong(t.c, (s.c as int) + r.c, 0x1_0000_0000) && Cong(t.d, (s.d as int) + r.d, 0x1_0000_0000)
      && Cong(t.e, (s.e as int) + r.e, 0x1_0000_0000) && Cong(t.f, (s.f as int) + r.f, 0x1_0000_0000)
      && Cong(t.g, (s.g as int) + r.g, 0x1_0000_0000) && Cong(t.h, (s.h as int) + r.h, 0x1_0000_0000)
  {
    hide Cong;
    var m := 0x1_0000_0000;
    ModCong((s.a as int) + r.a, m);
    ModCong((s.b as int) + r.b, m);
    ModCong((s.c as int) + r.c, m);
    ModCong((s.d as int) + r.d, m);
    ModCong((s.e as int) + r.e, m);
    ModCong((s.f as int) + r.f, m);
    ModCong((s.g as int) + r.g, m);
    ModCong((s.h as int) + r.h, m);
  }

  /** The octets of a word denote it, the most significant first. */
  lemma WordOctetsNat(x: Word)
    ensures Nat(WordOctets(x)) == x
  {
    hide Nat;
    Nat4(WordOctets(x));
    FieldOctets.CutAt(x, 0x100, 0x100);
  }

  lemma WordAtNat(b: seq<Byte>, i: nat)
    requires 4 * i + 4 <= |b|
    ensures WordAt(b, i) == Nat(b[4 * i..4 * i + 4])
  {
    Nat4(b[4 * i..4 * i + 4]);
    hide Nat;
  }

  /** The padding: a one bit, zeros, and the length in bits modulo 2^64 in the last eight octets. */
  lemma PaddingIs(n: nat)
    ensures var p := Padding(n);
      && 9 <= |p| < 73 && (n + |p|) % 64 == 0 && p[0] == 0x80
      && (forall i :: 1 <= i < |p| - 8 ==> p[i] == 0)
      && Nat(p[|p| - 8..]) == 8 * n % 0x1_0000_0000_0000_0000
  {
    PaddedLength(n);
    LengthOctets(8 * n);
    var p, hi, lo := Padding(n), WordOctets(Low32(8 * n / 0x1_0000_0000)), WordOctets(Low32(8 * n));
    hide WordOctets, Nat, Low32;
    assert p[|p| - 8..] == hi + lo;
  }

  lemma LengthOctets(n: nat)
    ensures Nat(WordOctets(Low32(n / 0x1_0000_0000)) + WordOctets(Low32(n))) == n % 0x1_0000_0000_0000_0000
  {
    var hi, lo := Low32(n / 0x1_0000_0000), Low32(n);
    HighLow(n);
    Pow2Values();
    hide WordOctets, Nat, Pow2, Low32;
    NatAppend(WordOctets(hi), WordOctets(lo));
    WordOctetsNat(hi);
    WordOctetsNat(lo);
  }

  lemma HighLow(n: nat)
    ensures Low32(n / 0x1_0000_0000) * 0x1_0000_0000 + Low32(n) == n % 0x1_0000_0000_0000_0000
  {
  }

  /** `w` holds the first 32 bits of the fractional part of the square root of `p`, whose integer part is `c`. */
  ghost predicate RootFraction(w: Word, p: nat, c: nat) {
    var r := c * 0x1_0000_0000 + w;
    r * r <= p * 0x1_0000_0000_0000_0000 < (r + 1) * (r + 1)
  }

  /** The initial value comes from the square roots of the first eight primes (section 5.3.3 of FIPS 180-4). */
  lemma InitialRoots()
    ensures RootFraction(INITIAL.a, 2, 1) && RootFraction(INITIAL.b, 3, 1)
    ensures RootFraction(INITIAL.c, 5, 2) && RootFraction(INITIAL.d, 7, 2)
    ensures RootFraction(INITIAL.e, 11, 3) && RootFraction(INITIAL.f, 13, 3)
    ensures RootFraction(INITIAL.g, 17, 4) && RootFraction(INITIAL.h, 19, 4)
  {
  }

  /** `w` holds the first 32 bits of the fractional part of the cube root of `p`, whose integer part is `c`. */
  ghost predicate CubeFraction(w: Word, p: nat, c: nat) {
    var r := c * 0x1_0000_0000 + w;
    r * r * r <= p * 0x1_0000_0000_0000_0000_0000_0000 < (r + 1) * (r + 1) * (r + 1)
  }

  /** Eight constants in a row, against eight primes. */
  ghost predicate CubeRoots(i: nat, p: seq<nat>, c: seq<nat>)
    requires i < 8 && |p| == |c| == 8
  {
    forall j :: 0 <= j < 8 ==> CubeFraction(K(8 * i + j), p[j], c[j])
  }

  lemma RowRoots(i: nat, k: seq<Word>, p: seq<nat>, c: seq<nat>)
    requires i < 8 && |k| == |p| == |c| == 8 && Row(i) == k
    requires CubeFraction(k[0], p[0], c[0]) && CubeFraction(k[1], p[1], c[1]) && CubeFraction(k[2], p[2], c[2])
    requires CubeFraction(k[3], p[3], c[3]) && CubeFraction(k[4], p[4], c[4]) && CubeFraction(k[5], p[5], c[5])
    requires CubeFraction(k[6], p[6], c[6]) && CubeFraction(k[7], p[7], c[7])
    ensures CubeRoots(i, p, c)
  {
    hide CubeFraction, Row;
    forall j | 0 <= j < 8
      ensures CubeFraction(K(8 * i + j), p[j], c[j])
    {
      assert (8 * i + j) / 8 == i && (8 * i + j) % 8 == j;
    }
  }

  lemma Roots0()
    ensures CubeRoots(0, [2, 3, 5, 7, 11, 13, 17, 19], [1, 1, 1, 1, 2, 2, 2, 2])
  {
    RowRoots(0, Row(0), [2, 3, 5, 7, 11, 13, 17, 19], [1, 1, 1, 1, 2, 2, 2, 2]);
  }

  lemma Roots1()
    ensures CubeRoots(1, [23, 29, 31, 37, 41, 43, 47, 53], [2, 3, 3, 3, 3, 3, 3, 3])
  {
    RowRoots(1, Row(1), [23, 29, 31, 37, 41, 43, 47, 53], [2, 3, 3, 3, 3, 3, 3, 3]);
  }

  lemma Roots2()
    ensures CubeRoots(2, [59, 61, 67, 71, 73, 79, 83, 89], [3, 3, 4, 4, 4, 4, 4, 4])
  {
    RowRoots(2, Row(2), [59, 61, 67, 71, 73, 79, 83, 89], [3, 3, 4, 4, 4, 4, 4, 4]);
  }

  lemma Roots3()
    ensures CubeRoots(3, [97, 101, 103, 107, 109, 113, 127, 131], [4, 4, 4, 4, 4, 4, 5, 5])
  {
    RowRoots(3, Row(3), [97, 101, 103, 107, 109, 113, 127, 131], [4, 4, 4, 4, 4, 4, 5, 5]);
  }

  lemma Roots4()
    ensures CubeRoots(4, [137, 139, 149, 151, 157, 163, 167, 173], [5, 5, 5, 5, 5, 5, 5, 5])
  {
    RowRoots(4, Row(4), [137, 139, 149, 151, 157, 163, 167, 173], [5, 5, 5, 5, 5, 5, 5, 5]);
  }

  lemma Roots5()
    ensures CubeRoots(5, [179, 181, 191, 193, 197, 199, 211, 223], [5, 5, 5, 5, 5, 5, 5, 6])
  {
    RowRoots(5, Row(5), [179, 181, 191, 193, 197, 199, 211, 223], [5, 5, 5, 5, 5, 5, 5, 6]);
  }

  lemma Roots6()
    ensures CubeRoots(6, [227, 229, 233, 239, 241, 251, 257, 263], [6, 6, 6, 6, 6, 6, 6, 6])
  {
    RowRoots(6, Row(6), [227, 229, 233, 239, 241, 251, 257, 263], [6, 6, 6, 6, 6, 6, 6, 6]);
  }

  lemma Roots7()
    ensures CubeRoots(7, [269, 271, 277, 281, 283, 293, 307, 311], [6, 6, 6, 6, 6, 6, 6, 6])
  {
    RowRoots(7, Row(7), [269, 271, 277, 281, 283, 293, 307, 311], [6, 6, 6, 6, 6, 6, 6, 6]);
  }

  /** The constants come from the cube roots of the first 64 primes (section 4.2.2 of FIPS 180-4). */
  lemma ConstantRoots()
    ensures CubeRoots(0, [2, 3, 5, 7, 11, 13, 17, 19], [1, 1, 1, 1, 2, 2, 2, 2])
    ensures CubeRoots(1, [23, 29, 31, 37, 41, 43, 47, 53], [2, 3, 3, 3, 3, 3, 3, 3])
    ensures CubeRoots(2, [59, 61, 67, 71, 73, 79, 83, 89], [3, 3, 4, 4, 4, 4, 4, 4])
    ensures CubeRoots(3, [97, 101, 103, 107, 109, 113, 127, 131], [4, 4, 4, 4, 4, 4, 5, 5])
    ensures CubeRoots(4, [137, 139, 149, 151, 157, 163, 167, 173], [5, 5, 5, 5, 5, 5, 5, 5])
    ensures CubeRoots(5, [179, 181, 191, 193, 197, 199, 211, 223], [5, 5, 5, 5, 5, 5, 5, 6])
    ensures CubeRoots(6, [227, 229, 233, 239, 241, 251, 257, 263], [6, 6, 6, 6, 6, 6, 6, 6])
    ensures CubeRoots(7, [269, 271, 277, 281, 283, 293, 307, 311], [6, 6, 6, 6, 6, 6, 6, 6])
  {
    hide CubeRoots;
    Roots0();
    Roots1();
    Roots2();
    Roots3();
    Roots4();
    Roots5();
    Roots6();
    Roots7();
  }
}
