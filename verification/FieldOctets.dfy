/** Field elements as octets and as storage words: the packing of ten 26-bit limbs. */
module FieldOctets {
  import opened BigEndian
  import opened Bits
  import opened FieldLimbs
  import opened FieldNormalize
  import opened Magnitudes
  import opened Memory
  import opened ScalarBits
  import opened Words
  import Scalar

  /** `x | y << s | z << (s + 8) | w << (s + 16)`, where nothing overlaps. */
  function Pack(x: nat, y: Byte, z: Byte, w: nat, s: nat): (r: nat)
    requires x < Pow2(s)
    ensures r == x + Pow2(s) * (y + 0x100 * (z + 0x100 * w))
  {
    hide *;
    PackParts(x, y, z, w, s);
    Or(Or(Or(x, y * Pow2(s)), z * Pow2(s + 8)), w * Pow2(s + 16))
  }

  lemma PackParts(x: nat, y: Byte, z: Byte, w: nat, s: nat)
    requires x < Pow2(s)
    ensures Or(Or(Or(x, y * Pow2(s)), z * Pow2(s + 8)), w * Pow2(s + 16)) == x + Pow2(s) * (y + 0x100 * (z + 0x100 * w))
  {
    EightAbove(s);
    EightAbove(s + 8);
    var a := Pow2(s);
    hide Or, Pow2;
    OrDisjoint(x, y, s);
    Below(x, y, a);
    OrDisjoint(x + y * a, z, s + 8);
    Below(x + y * a, z, 0x100 * a);
    OrDisjoint(x + y * a + z * (0x100 * a), w, s + 16);
    Weighted(a, x, y, z, w);
  }

  lemma EightAbove(s: nat)
    ensures Pow2(s + 8) == 0x100 * Pow2(s)
  {
    Pow2Add(s, 8);
    assert Pow2(8) == 0x100;
  }

  lemma Below(x: nat, y: Byte, a: nat)
    requires x < a
    ensures x + y * a < 0x100 * a
  {
    MulMono(y, 0xFF, a);
  }

  lemma Weighted(a: nat, x: nat, y: nat, z: nat, w: nat)
    ensures x + y * a + z * (0x100 * a) + w * (0x100 * (0x100 * a)) == x + a * (y + 0x100 * (z + 0x100 * w))
  {
  }

  lemma PackWeights()
    ensures Pow2(8) == 0x100 && Pow2(6) == 0x40 && Pow2(4) == 0x10 && Pow2(2) == 4
  {
  }

  /** Every limb has 26 bits. */
  ghost predicate Small(n: seq<Word>) {
    forall i :: 0 <= i < |n| ==> n[i] < 0x400_0000
  }

  /** Thirteen octets are four limbs. */
  function FourLimbs(c: seq<Byte>): (n: seq<Word>)
    requires |c| == 13
    ensures |n| == 4 && Small(n)
    ensures Limbs10(n[0], n[1], n[2], n[3], 0, 0, 0, 0, 0, 0) == Nat(c)
  {
    PackWeights();
    Nat13(c);
    hide Nat, Pack, Pow2;
    [Pack(c[12], c[11], c[10], c[9] % 4, 8), Pack(c[9] / 4, c[8], c[7], c[6] % 0x10, 6),
     Pack(c[6] / 0x10, c[5], c[4], c[3] % 0x40, 4), Pack(c[3] / 0x40, c[2], c[1], c[0], 2)]
  }

  /** The six octets at the top are two limbs. */
  function TopLimbs(c: seq<Byte>): (n: seq<Word>)
    requires |c| == 6
    ensures |n| == 2 && n[0] < 0x400_0000 && n[1] < 0x40_0000
    ensures Limbs10(n[0], n[1], 0, 0, 0, 0, 0, 0, 0, 0) == Nat(c)
  {
    PackWeights();
    Nat6(c);
    hide Nat, Pack, Pow2;
    [Pack(c[5], c[4], c[3], c[2] % 4, 8), Pack(c[2] / 4, c[1], c[0], 0, 6)]
  }

  /** The limbs of 32 octets. */
  function ToLimbs(b: seq<Byte>): (n: seq<Word>)
    requires |b| == 32
    ensures Canonical(n) && Fe(n) == Nat(b)
  {
    hide *;
    var x, y, z := FourLimbs(b[19..]), FourLimbs(b[6..19]), TopLimbs(b[..6]);
    GroupValue(b, x, y, z);
    Grouped(x, y, z)
  }

  lemma GroupValue(b: seq<Byte>, x: seq<Word>, y: seq<Word>, z: seq<Word>)
    requires |b| == 32 && |x| == |y| == 4 && |z| == 2
    requires Limbs10(x[0], x[1], x[2], x[3], 0, 0, 0, 0, 0, 0) == Nat(b[19..])
    requires Limbs10(y[0], y[1], y[2], y[3], 0, 0, 0, 0, 0, 0) == Nat(b[6..19])
    requires Limbs10(z[0], z[1], 0, 0, 0, 0, 0, 0, 0, 0) == Nat(b[..6])
    ensures GroupedValue(x, y, z) == Nat(b)
  {
    hide Limbs10, Nat;
    OctetGroups(b);
  }

  /** The number that groups of four, four and two limbs denote. */
  ghost function GroupedValue(x: seq<int>, y: seq<int>, z: seq<int>): int
    requires |x| == |y| == 4 && |z| == 2
  {
    Limbs10(x[0], x[1], x[2], x[3], 0, 0, 0, 0, 0, 0) + 0x100_00000000_00000000_00000000 *
      (Limbs10(y[0], y[1], y[2], y[3], 0, 0, 0, 0, 0, 0) + 0x100_00000000_00000000_00000000 *
       Limbs10(z[0], z[1], 0, 0, 0, 0, 0, 0, 0, 0))
  }

  /** Ten limbs out of groups of four, four and two. */
  function Grouped(x: seq<Word>, y: seq<Word>, z: seq<Word>): (n: seq<Word>)
    requires |x| == |y| == 4 && |z| == 2 && Small(x) && Small(y) && z[0] < 0x400_0000 && z[1] < 0x40_0000
    ensures Canonical(n) && Fe(n) == GroupedValue(x, y, z)
  {
    hide Limbs10, Fe, Canonical;
    LimbGroups(x[0], x[1], x[2], x[3], y[0], y[1], y[2], y[3], z[0], z[1]);
    Assemble(x[0], x[1], x[2], x[3], y[0], y[1], y[2], y[3], z[0], z[1])
  }

  /** Ten limbs with 256 bits between them. */
  function Assemble(n0: Word, n1: Word, n2: Word, n3: Word, n4: Word, n5: Word, n6: Word, n7: Word, n8: Word,
      n9: Word): (n: seq<Word>)
    requires n0 < 0x400_0000 && n1 < 0x400_0000 && n2 < 0x400_0000 && n3 < 0x400_0000 && n4 < 0x400_0000
    requires n5 < 0x400_0000 && n6 < 0x400_0000 && n7 < 0x400_0000 && n8 < 0x400_0000 && n9 < 0x40_0000
    ensures Canonical(n) && Fe(n) == Limbs10(n0, n1, n2, n3, n4, n5, n6, n7, n8, n9)
  {
    hide Limbs10;
    [n0, n1, n2, n3, n4, n5, n6, n7, n8, n9]
  }

  lemma LimbGroups(n0: Word, n1: Word, n2: Word, n3: Word, n4: Word, n5: Word, n6: Word, n7: Word, n8: Word, n9: Word)
    ensures Limbs10(n0, n1, n2, n3, n4, n5, n6, n7, n8, n9)
         == Limbs10(n0, n1, n2, n3, 0, 0, 0, 0, 0, 0) + 0x100_00000000_00000000_00000000 *
            (Limbs10(n4, n5, n6, n7, 0, 0, 0, 0, 0, 0) + 0x100_00000000_00000000_00000000 *
             Limbs10(n8, n9, 0, 0, 0, 0, 0, 0, 0, 0))
  {
  }

  lemma OctetGroups(b: seq<Byte>)
    requires |b| == 32
    ensures Nat(b) == Nat(b[19..]) + 0x100_00000000_00000000_00000000 *
      (Nat(b[6..19]) + 0x100_00000000_00000000_00000000 * Nat(b[..6]))
  {
    Pow104();
    hide Nat, Pow2;
    assert b == b[..19] + b[19..] && b[..19] == b[..6] + b[6..19];
    NatAppend(b[..19], b[19..]);
    NatAppend(b[..6], b[6..19]);
  }

  lemma Pow104()
    ensures Pow2(104) == 0x100_00000000_00000000_00000000
  {
    Pow2Values();
    hide Pow2;
    Pow2Add(64, 32);
    Pow2Add(96, 8);
  }

  /** Reads 32 octets as a field element, and says whether it lies below P. */
  method SetB32(r: array<Word>, a: seq<Byte>) returns (ok: bool)
    requires r.Length == 10 && |a| == 32
    modifies r
    ensures Canonical(r[..]) && Fe(r[..]) == Nat(a)
    ensures ok <==> Nat(a) < P
  {
    hide ToLimbs, ReachesP, Nat, Fe;
    Store(r, ToLimbs(a));
    ok := !ReachesP(r[..]);
  }

  /** An octet from the low bits of one limb and the high bits of the limb below it. */
  function Mixed(high: nat, low: nat, s: nat): (r: nat)
    requires low < Pow2(s)
    ensures r == low + Pow2(s) * high
  {
    OrDisjoint(low, high, s);
    Or(low, high * Pow2(s))
  }

  /** Four limbs are thirteen octets. */
  function ThirteenOctets(n0: Word, n1: Word, n2: Word, n3: Word): (c: seq<Byte>)
    requires n0 < 0x400_0000 && n1 < 0x400_0000 && n2 < 0x400_0000 && n3 < 0x400_0000
    ensures |c| == 13 && Nat(c) == Limbs10(n0, n1, n2, n3, 0, 0, 0, 0, 0, 0)
  {
    PackWeights();
    var c: seq<Byte> := [n3 / 0x4_0000 % 0x100, n3 / 0x400 % 0x100, n3 / 4 % 0x100,
      Mixed(n3 % 4, n2 / 0x10_0000 % 0x40, 6), n2 / 0x1000 % 0x100, n2 / 0x10 % 0x100,
      Mixed(n2 % 0x10, n1 / 0x40_0000 % 0x10, 4), n1 / 0x4000 % 0x100, n1 / 0x40 % 0x100,
      Mixed(n1 % 0x40, n0 / 0x100_0000 % 4, 2), n0 / 0x1_0000 % 0x100, n0 / 0x100 % 0x100, n0 % 0x100];
    Nat13(c);
    hide Nat, Mixed, Pow2;
    ThirteenSum(n0, n1, n2, n3);
    c
  }

  lemma ThirteenSum(n0: Word, n1: Word, n2: Word, n3: Word)
    requires n0 < 0x400_0000 && n1 < 0x400_0000 && n2 < 0x400_0000 && n3 < 0x400_0000
    ensures var x9, x6, x3 := n0 / 0x100_0000 % 4 + 4 * (n1 % 0x40), n1 / 0x40_0000 % 0x10 + 0x10 * (n2 % 0x10),
        n2 / 0x10_0000 % 0x40 + 0x40 * (n3 % 4);
      Next(Next(Next(Next(Next(Next(Next(Next(Next(Next(Next(Next(n3 / 0x4_0000 % 0x100, n3 / 0x400 % 0x100),
        n3 / 4 % 0x100), x3), n2 / 0x1000 % 0x100), n2 / 0x10 % 0x100), x6), n1 / 0x4000 % 0x100), n1 / 0x40 % 0x100),
        x9), n0 / 0x1_0000 % 0x100), n0 / 0x100 % 0x100), n0 % 0x100) == Limbs10(n0, n1, n2, n3, 0, 0, 0, 0, 0, 0)
  {
    Cuts(n0, n1, n2, n3);
  }

  /** How each limb falls apart into pieces of octets. */
  lemma Cuts(n0: Word, n1: Word, n2: Word, n3: Word)
    requires n0 < 0x400_0000 && n1 < 0x400_0000 && n2 < 0x400_0000 && n3 < 0x400_0000
    ensures n0 == Cut(n0 % 0x100, 0x100, n0 / 0x100 % 0x100, n0 / 0x1_0000 % 0x100, n0 / 0x100_0000 % 4)
    ensures n1 == Cut(n1 % 0x40, 0x40, n1 / 0x40 % 0x100, n1 / 0x4000 % 0x100, n1 / 0x40_0000 % 0x10)
    ensures n2 == Cut(n2 % 0x10, 0x10, n2 / 0x10 % 0x100, n2 / 0x1000 % 0x100, n2 / 0x10_0000 % 0x40)
    ensures n3 == Cut(n3 % 4, 4, n3 / 4 % 0x100, n3 / 0x400 % 0x100, n3 / 0x4_0000 % 0x100)
  {
    CutAt(n0, 0x100, 4);
    CutAt(n1, 0x40, 0x10);
    CutAt(n2, 0x10, 0x40);
    CutAt(n3, 4, 0x100);
  }

  ghost function Cut(x: int, a: int, y: int, z: int, w: int): int {
    x + a * (y + 0x100 * (z + 0x100 * w))
  }

  /** A limb of 26 bits, cut at the bits that a, a * 2^8 and a * 2^16 weigh. */
  lemma CutAt(n: nat, a: nat, b: nat)
    requires a > 0 && b > 0 && n < a * (0x1_0000 * b)
    ensures n == Cut(n % a, a, n / a % 0x100, n / (0x100 * a) % 0x100, n / (0x1_0000 * a) % b)
  {
    DivDiv(n, a, 0x100);
    DivDiv(n, a, 0x1_0000);
    QuotientBelow(n, a, 0x1_0000 * b);
    CutQuotient(n / a, b);
  }

  lemma QuotientBelow(n: nat, a: nat, b: nat)
    requires a > 0 && n < a * b
    ensures n / a < b && n == n % a + a * (n / a)
  {
    if n / a >= b {
      MulMono(b, n / a, a);
    }
  }

  lemma CutQuotient(q: nat, b: nat)
    requires q < 0x1_0000 * b
    ensures q / 0x1_0000 % b == q / 0x1_0000
    ensures q == q % 0x100 + 0x100 * (q / 0x100 % 0x100 + 0x100 * (q / 0x1_0000))
  {
    DivModUnique(q / 0x1_0000, b, 0, q / 0x1_0000);
  }

  /** The two limbs at the top are six octets. */
  function TopOctets(n8: Word, n9: Word): (c: seq<Byte>)
    requires n8 < 0x400_0000 && n9 < 0x40_0000
    ensures |c| == 6 && Nat(c) == Limbs10(n8, n9, 0, 0, 0, 0, 0, 0, 0, 0)
  {
    PackWeights();
    var c: seq<Byte> := [n9 / 0x4000 % 0x100, n9 / 0x40 % 0x100, Mixed(n9 % 0x40, n8 / 0x100_0000 % 4, 2),
      n8 / 0x1_0000 % 0x100, n8 / 0x100 % 0x100, n8 % 0x100];
    Nat6(c);
    Cuts(n8, n9, 0, 0);
    hide Nat, Mixed, Pow2;
    c
  }

  /** The octets of normalized limbs. */
  function ToOctets(n: seq<Word>): (b: seq<Byte>)
    requires Canonical(n)
    ensures |b| == 32 && Nat(b) == Fe(n)
  {
    hide Nat, Limbs10, ThirteenOctets, TopOctets;
    var b := TopOctets(n[8], n[9]) + ThirteenOctets(n[4], n[5], n[6], n[7]) + ThirteenOctets(n[0], n[1], n[2], n[3]);
    OctetGroups(b);
    LimbGroups(n[0], n[1], n[2], n[3], n[4], n[5], n[6], n[7], n[8], n[9]);
    assert b[..6] == TopOctets(n[8], n[9]) && b[6..19] == ThirteenOctets(n[4], n[5], n[6], n[7]);
    assert b[19..] == ThirteenOctets(n[0], n[1], n[2], n[3]);
    b
  }

  /** Writes a normalized field element as 32 octets. */
  method GetB32(r: array<Byte>, a: seq<Word>)
    requires r.Length == 32 && Canonical(a)
    modifies r
    ensures Nat(r[..]) == Fe(a)
  {
    hide Nat, Fe, ToOctets;
    var b := ToOctets(a);
    Copy(r, 0, b);
    assert r[..] == b;
  }

  ghost function Join(low: int, high: int): int {
    low + 0x400_0000 * high
  }

  lemma Apart(x: int, x': int, y: int, y': int)
    requires 0 <= x < 0x400_0000 && 0 <= y < 0x400_0000 && Join(x, x') == Join(y, y')
    ensures x == y && x' == y'
  {
  }

  /** Normalized limbs denote a number in one way only. */
  lemma LimbsUnique(m: seq<Word>, n: seq<Word>)
    requires Canonical(m) && Canonical(n) && Fe(m) == Fe(n)
    ensures m == n
  {
    var x8 := Join(m[8], m[9]);
    var x7 := Join(m[7], x8);
    var x6 := Join(m[6], x7);
    var x5 := Join(m[5], x6);
    var x4 := Join(m[4], x5);
    var x3 := Join(m[3], x4);
    var x2 := Join(m[2], x3);
    var x1 := Join(m[1], x2);
    assert Fe(m) == Join(m[0], x1);
    var y8 := Join(n[8], n[9]);
    var y7 := Join(n[7], y8);
    var y6 := Join(n[6], y7);
    var y5 := Join(n[5], y6);
    var y4 := Join(n[4], y5);
    var y3 := Join(n[3], y4);
    var y2 := Join(n[2], y3);
    var y1 := Join(n[1], y2);
    assert Fe(n) == Join(n[0], y1);
    hide Join, Fe;
    Apart(m[0], x1, n[0], y1);
    Apart(m[1], x2, n[1], y2);
    Apart(m[2], x3, n[2], y3);
    Apart(m[3], x4, n[3], y4);
    Apart(m[4], x5, n[4], y5);
    Apart(m[5], x6, n[5], y6);
    Apart(m[6], x7, n[6], y7);
    Apart(m[7], x8, n[7], y8);
    Apart(m[8], m[9], n[8], n[9]);
  }

  /** Writing and reading a normalized element gives its limbs back, and reading and writing any octets the octets. */
  lemma OctetRoundTrip(n: seq<Word>, b: seq<Byte>)
    requires Canonical(n) && |b| == 32
    ensures ToLimbs(ToOctets(n)) == n && ToOctets(ToLimbs(b)) == b
  {
    hide Nat, Fe, ToLimbs, ToOctets, Canonical;
    LimbsUnique(ToLimbs(ToOctets(n)), n);
    NatUnique(ToOctets(ToLimbs(b)), b);
  }

  /** `lo | hi << s` in 32 bits. */
  function Joined(lo: nat, hi: Word, s: nat): nat {
    Or(lo, Shl32(hi, s))
  }

  lemma JoinedIs(lo: nat, hi: Word, s: nat, w: nat, m: nat)
    requires s <= 32 && w == Pow2(s) && m == Pow2(32 - s) && lo < w
    ensures m > 0 && Joined(lo, hi, s) == lo + w * (hi % m)
  {
    hide Or, Shl32, Pow2;
    LeftShift(hi, 32 - s);
    OrDisjoint(lo, hi % Pow2(32 - s), s);
  }

  /** `lo | ((hi << s) & 0x3FFFFFF)`. */
  function JoinedLow(lo: nat, hi: Word, s: nat): nat {
    Or(lo, Shl32(hi, s) % 0x400_0000)
  }

  lemma JoinedLowIs(lo: nat, hi: Word, s: nat, w: nat, m: nat)
    requires s <= 26 && w == Pow2(s) && m == Pow2(26 - s) && lo < w
    ensures m > 0 && JoinedLow(lo, hi, s) == lo + w * (hi % m)
  {
    hide Or, Shl32, Pow2;
    MaskedShift(hi, s);
    OrDisjoint(lo, hi % Pow2(26 - s), s);
  }

  lemma MaskedShift(x: Word, s: nat)
    requires s <= 26
    ensures Shl32(x, s) % 0x400_0000 == (x % Pow2(26 - s)) * Pow2(s)
  {
    Pow2Of26();
    LeftShift(x, 32 - s);
    Pow2Add(26 - s, s);
    Pow2Add(26 - s, 6);
    hide Pow2, Shl32;
    var low := x % Pow2(32 - s);
    assert Pow2(32 - s) == Pow2(26 - s) * 64 by {
      PackWeights();
    }
    NestedMod(x, Pow2(26 - s), 64);
    ScaledMod(low, Pow2(26 - s), Pow2(s));
  }

  lemma NestedMod(x: nat, a: nat, b: nat)
    requires a > 0 && b > 0
    ensures a * b > 0 && (x % (a * b)) % a == x % a
  {
    var q := x / (a * b);
    assert a * b > 0;
    assert x % (a * b) + (q * b) * a == x;
    ModOfSum(x % (a * b), q * b, a);
  }

  lemma ScaledMod(x: nat, a: nat, b: nat)
    requires a > 0 && b > 0
    ensures a * b > 0 && (x * b) % (a * b) == (x % a) * b
  {
    var q, r := x / a, x % a;
    assert x * b == q * (a * b) + r * b;
    MulMono(r + 1, a, b);
    DivModUnique(x * b, a * b, q, r * b);
  }

  /** The storage form: 256 bits in eight words. */
  function ToStorage(n: seq<Word>): (d: seq<Word>)
    requires Canonical(n)
    ensures |d| == 8 && Scalar.Value(d) == Fe(n)
  {
    hide *;
    LowWordsJoin(n);
    HighWordsJoin(n);
    var d0: Word := Joined(n[0], n[1], 26);
    var d1: Word := Joined(n[1] / 0x40, n[2], 20);
    var d2: Word := Joined(n[2] / 0x1000, n[3], 14);
    var d3: Word := Joined(n[3] / 0x4_0000, n[4], 8);
    var d4: Word := Joined(Joined(n[4] / 0x100_0000, n[5], 2), n[6], 28);
    var d5: Word := Joined(n[6] / 0x10, n[7], 22);
    var d6: Word := Joined(n[7] / 0x400, n[8], 16);
    var d7: Word := Joined(n[8] / 0x1_0000, n[9], 10);
    StorageSum(n, d0, d1, d2, d3, d4, d5, d6, d7);
    [d0, d1, d2, d3, d4, d5, d6, d7]
  }

  lemma LowWordsJoin(n: seq<Word>)
    requires Canonical(n)
    ensures |n| == 10
    ensures Joined(n[0], n[1], 26) == n[0] + 0x400_0000 * (n[1] % 0x40) < 0x1_0000_0000
    ensures Joined(n[1] / 0x40, n[2], 20) == n[1] / 0x40 + 0x10_0000 * (n[2] % 0x1000) < 0x1_0000_0000
    ensures Joined(n[2] / 0x1000, n[3], 14) == n[2] / 0x1000 + 0x4000 * (n[3] % 0x4_0000) < 0x1_0000_0000
    ensures Joined(n[3] / 0x4_0000, n[4], 8) == n[3] / 0x4_0000 + 0x100 * (n[4] % 0x100_0000) < 0x1_0000_0000
  {
    hide Joined, Pow2;
    StorageWeights();
    JoinedIs(n[0], n[1], 26, 0x400_0000, 0x40);
    JoinedIs(n[1] / 0x40, n[2], 20, 0x10_0000, 0x1000);
    JoinedIs(n[2] / 0x1000, n[3], 14, 0x4000, 0x4_0000);
    JoinedIs(n[3] / 0x4_0000, n[4], 8, 0x100, 0x100_0000);
  }

  lemma HighWordsJoin(n: seq<Word>)
    requires Canonical(n)
    ensures |n| == 10
    ensures Joined(Joined(n[4] / 0x100_0000, n[5], 2), n[6], 28)
         == n[4] / 0x100_0000 + 4 * n[5] + 0x1000_0000 * (n[6] % 0x10) < 0x1_0000_0000
    ensures Joined(n[6] / 0x10, n[7], 22) == n[6] / 0x10 + 0x40_0000 * (n[7] % 0x400) < 0x1_0000_0000
    ensures Joined(n[7] / 0x400, n[8], 16) == n[7] / 0x400 + 0x1_0000 * (n[8] % 0x1_0000) < 0x1_0000_0000
    ensures Joined(n[8] / 0x1_0000, n[9], 10) == n[8] / 0x1_0000 + 0x400 * n[9] < 0x1_0000_0000
  {
    hide Joined, Pow2;
    StorageWeights();
    JoinedIs(n[4] / 0x100_0000, n[5], 2, 4, 0x4000_0000);
    JoinedIs(Joined(n[4] / 0x100_0000, n[5], 2), n[6], 28, 0x1000_0000, 0x10);
    JoinedIs(n[6] / 0x10, n[7], 22, 0x40_0000, 0x400);
    JoinedIs(n[7] / 0x400, n[8], 16, 0x1_0000, 0x1_0000);
    JoinedIs(n[8] / 0x1_0000, n[9], 10, 0x400, 0x40_0000);
  }

  /** The limbs of the storage form. */
  function FromStorage(d: seq<Word>): (n: seq<Word>)
    requires |d| == 8
    ensures Canonical(n) && Fe(n) == Scalar.Value(d)
  {
    hide *;
    LimbsJoin(d);
    var n0: Word := d[0] % 0x400_0000;
    var n1: Word := JoinedLow(d[0] / 0x400_0000, d[1], 6);
    var n2: Word := JoinedLow(d[1] / 0x10_0000, d[2], 12);
    var n3: Word := JoinedLow(d[2] / 0x4000, d[3], 18);
    var n4: Word := JoinedLow(d[3] / 0x100, d[4], 24);
    var n5: Word := d[4] / 4 % 0x400_0000;
    var n6: Word := JoinedLow(d[4] / 0x1000_0000, d[5], 4);
    var n7: Word := JoinedLow(d[5] / 0x40_0000, d[6], 10);
    var n8: Word := JoinedLow(d[6] / 0x1_0000, d[7], 16);
    var n9: Word := d[7] / 0x400;
    LimbSum(n0, n1, n2, n3, n4, n5, n6, n7, n8, n9, d);
    Assemble(n0, n1, n2, n3, n4, n5, n6, n7, n8, n9)
  }

  lemma LimbsJoin(d: seq<Word>)
    requires |d| == 8
    ensures JoinedLow(d[0] / 0x400_0000, d[1], 6) == d[0] / 0x400_0000 + 0x40 * (d[1] % 0x10_0000) < 0x400_0000
    ensures JoinedLow(d[1] / 0x10_0000, d[2], 12) == d[1] / 0x10_0000 + 0x1000 * (d[2] % 0x4000) < 0x400_0000
    ensures JoinedLow(d[2] / 0x4000, d[3], 18) == d[2] / 0x4000 + 0x4_0000 * (d[3] % 0x100) < 0x400_0000
    ensures JoinedLow(d[3] / 0x100, d[4], 24) == d[3] / 0x100 + 0x100_0000 * (d[4] % 4) < 0x400_0000
    ensures JoinedLow(d[4] / 0x1000_0000, d[5], 4) == d[4] / 0x1000_0000 + 0x10 * (d[5] % 0x40_0000) < 0x400_0000
    ensures JoinedLow(d[5] / 0x40_0000, d[6], 10) == d[5] / 0x40_0000 + 0x400 * (d[6] % 0x1_0000) < 0x400_0000
    ensures JoinedLow(d[6] / 0x1_0000, d[7], 16) == d[6] / 0x1_0000 + 0x1_0000 * (d[7] % 0x400) < 0x400_0000
  {
    hide JoinedLow, Pow2;
    StorageWeights();
    JoinedLowIs(d[0] / 0x400_0000, d[1], 6, 0x40, 0x10_0000);
    JoinedLowIs(d[1] / 0x10_0000, d[2], 12, 0x1000, 0x4000);
    JoinedLowIs(d[2] / 0x4000, d[3], 18, 0x4_0000, 0x100);
    JoinedLowIs(d[3] / 0x100, d[4], 24, 0x100_0000, 4);
    JoinedLowIs(d[4] / 0x1000_0000, d[5], 4, 0x10, 0x40_0000);
    JoinedLowIs(d[5] / 0x40_0000, d[6], 10, 0x400, 0x1_0000);
    JoinedLowIs(d[6] / 0x1_0000, d[7], 16, 0x1_0000, 0x400);
  }

  lemma StorageWeights()
    ensures Pow2(2) == 4 && Pow2(4) == 0x10 && Pow2(6) == 0x40 && Pow2(8) == 0x100 && Pow2(10) == 0x400
    ensures Pow2(12) == 0x1000 && Pow2(14) == 0x4000 && Pow2(16) == 0x1_0000 && Pow2(18) == 0x4_0000
    ensures Pow2(20) == 0x10_0000 && Pow2(22) == 0x40_0000 && Pow2(24) == 0x100_0000 && Pow2(26) == 0x400_0000
    ensures Pow2(28) == 0x1000_0000 && Pow2(30) == 0x4000_0000
  {
    assert Pow2(10) == 0x400;
    Pow2Add(10, 10);
    Pow2Add(20, 10);
    Pow2Add(10, 2);
    Pow2Add(10, 4);
    Pow2Add(10, 6);
    Pow2Add(10, 8);
    Pow2Add(20, 2);
    Pow2Add(20, 4);
    Pow2Add(20, 6);
    Pow2Add(20, 8);
  }

  /** The storage form keeps every normalized element, and every storage form is one. */
  lemma StorageRoundTrip(n: seq<Word>, d: seq<Word>)
    requires Canonical(n) && |d| == 8
    ensures FromStorage(ToStorage(n)) == n && ToStorage(FromStorage(d)) == d
  {
    hide Fe, FromStorage, ToStorage, Canonical, Scalar.Value;
    LimbsUnique(FromStorage(ToStorage(n)), n);
    Scalar.ValueUnique(ToStorage(FromStorage(d)), d);
  }

  lemma StorageSum(n: seq<Word>, d0: Word, d1: Word, d2: Word, d3: Word, d4: Word, d5: Word, d6: Word, d7: Word)
    requires Canonical(n)
    requires d0 == n[0] + 0x400_0000 * (n[1] % 0x40) && d1 == n[1] / 0x40 + 0x10_0000 * (n[2] % 0x1000)
    requires d2 == n[2] / 0x1000 + 0x4000 * (n[3] % 0x4_0000)
    requires d3 == n[3] / 0x4_0000 + 0x100 * (n[4] % 0x100_0000)
    requires d4 == n[4] / 0x100_0000 + 4 * n[5] + 0x1000_0000 * (n[6] % 0x10)
    requires d5 == n[6] / 0x10 + 0x40_0000 * (n[7] % 0x400)
    requires d6 == n[7] / 0x400 + 0x1_0000 * (n[8] % 0x1_0000) && d7 == n[8] / 0x1_0000 + 0x400 * n[9]
    ensures Scalar.Value([d0, d1, d2, d3, d4, d5, d6, d7]) == Fe(n)
  {
  }

  lemma LimbSum(n0: Word, n1: Word, n2: Word, n3: Word, n4: Word, n5: Word, n6: Word, n7: Word, n8: Word,
      n9: Word, d: seq<Word>)
    requires |d| == 8
    requires n0 == d[0] % 0x400_0000 && n1 == d[0] / 0x400_0000 + 0x40 * (d[1] % 0x10_0000)
    requires n2 == d[1] / 0x10_0000 + 0x1000 * (d[2] % 0x4000) && n3 == d[2] / 0x4000 + 0x4_0000 * (d[3] % 0x100)
    requires n4 == d[3] / 0x100 + 0x100_0000 * (d[4] % 4) && n5 == d[4] / 4 % 0x400_0000
    requires n6 == d[4] / 0x1000_0000 + 0x10 * (d[5] % 0x40_0000)
    requires n7 == d[5] / 0x40_0000 + 0x400 * (d[6] % 0x1_0000)
    requires n8 == d[6] / 0x1_0000 + 0x1_0000 * (d[7] % 0x400) && n9 == d[7] / 0x400
    ensures Limbs10(n0, n1, n2, n3, n4, n5, n6, n7, n8, n9) == Scalar.Value(d)
  {
    hide Limbs10, Scalar.Value;
    CutInThree(d[4]);
    CutSum(d[0] % 0x400_0000, d[0] / 0x400_0000, d[1] % 0x10_0000, d[1] / 0x10_0000, d[2] % 0x4000, d[2] / 0x4000,
      d[3] % 0x100, d[3] / 0x100, d[4] % 4, n5, d[4] / 0x1000_0000, d[5] % 0x40_0000, d[5] / 0x40_0000,
      d[6] % 0x1_0000, d[6] / 0x1_0000, d[7] % 0x400, n9, d);
  }

  lemma CutInThree(x: Word)
    ensures x == x % 4 + 4 * (x / 4 % 0x400_0000) + 0x1000_0000 * (x / 0x1000_0000)
  {
  }

  lemma CutSum(r0: int, q0: int, r1: int, q1: int, r2: int, q2: int, r3: int, q3: int, r4: int, m4: int, q4: int,
      r5: int, q5: int, r6: int, q6: int, r7: int, q7: int, d: seq<Word>)
    requires |d| == 8
    requires d[0] == r0 + 0x400_0000 * q0 && d[1] == r1 + 0x10_0000 * q1 && d[2] == r2 + 0x4000 * q2
    requires d[3] == r3 + 0x100 * q3 && d[4] == r4 + 4 * m4 + 0x1000_0000 * q4 && d[5] == r5 + 0x40_0000 * q5
    requires d[6] == r6 + 0x1_0000 * q6 && d[7] == r7 + 0x400 * q7
    ensures Scalar.Value(d) == Limbs10(r0, q0 + 0x40 * r1, q1 + 0x1000 * r2, q2 + 0x4_0000 * r3,
      q3 + 0x100_0000 * r4, m4, q4 + 0x10 * r5, q5 + 0x400 * r6, q6 + 0x1_0000 * r7, q7)
  {
  }
}
