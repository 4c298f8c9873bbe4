/** Normalisation of field elements: from limbs of some magnitude to the unique representative below P. */
module FieldNormalize {
  import opened Bits
  import opened FieldLimbs
  import opened Magnitudes
  import opened Words

  /** The lowest limb after the fold of what exceeds 256 bits, before any wrap. */
  ghost function Sum0(n: seq<Word>): int
    requires |n| == 10
  {
    (n[0] as int) + (n[9] / 0x40_0000) * 0x3D1
  }

  /** The next limb, with its share of the fold and the carry from the lowest. */
  ghost function Sum1(n: seq<Word>): int
    requires |n| == 10
  {
    (n[1] as int) + (n[9] / 0x40_0000) * 0x40 + Sum0(n) % 0x1_0000_0000 / 0x400_0000
  }

  /** Whether either of the two sums leaves 32 bits. */
  ghost predicate Wraps(n: seq<Word>)
    requires |n| == 10
  {
    Sum0(n) >= 0x1_0000_0000 || Sum1(n) >= 0x1_0000_0000
  }

  /** What the wraps take away: 2^32 for the first sum, 2^58 for the second. */
  ghost function Lost(n: seq<Word>): int
    requires |n| == 10
  {
    0x1_0000_0000 * (Sum0(n) / 0x1_0000_0000) + 0x400_0000_0000_0000 * (Sum1(n) / 0x1_0000_0000)
  }

  lemma LostWhenWraps(n: seq<Word>)
    requires Magnitude(n, 32)
    ensures 0 <= Lost(n) < P && (Lost(n) == 0 <==> !Wraps(n))
  {
  }

  /** Up to magnitude 31 neither sum wraps. */
  lemma NoWrapBelow32(n: seq<Word>, m: nat)
    requires m <= 31 && Magnitude(n, m)
    ensures Magnitude(n, 32) && !Wraps(n)
  {
  }

  /** Hands what exceeds 26 bits of every limb to the next one; only the second limb can wrap. */
  method Carry(n: seq<Word>, low0: Word, low1: Word, top: Word) returns (t: seq<Word>, ghost c: int)
    requires |n| == 10 && top <= 0x7F_FFF0
    requires forall i :: 2 <= i < 9 ==> n[i] <= 0xFFFF_FFC0
    ensures |t| == 10 && forall i :: 0 <= i < 9 ==> t[i] < 0x400_0000
    ensures t[0] == low0 % 0x400_0000 && t[9] <= top + 0x40
    ensures c == ((low1 as int) + low0 / 0x400_0000) / 0x1_0000_0000
    ensures low1 < 0xFFFF_0000 ==> c == 0
    ensures Fe(t) + 0x400_0000_0000_0000 * c == Limbs10(low0, low1, n[2], n[3], n[4], n[5], n[6], n[7], n[8], top)
  {
    var t0, t1, t2, t3, t4, t5, t6, t7, t8, t9 := low0, low1, n[2], n[3], n[4], n[5], n[6], n[7], n[8], top;
    c := ((t1 as int) + t0 / 0x400_0000) / 0x1_0000_0000;
    t1 := ((t1 as int) + t0 / 0x400_0000) % 0x1_0000_0000; t0 := t0 % 0x400_0000;
    t2 := t2 + t1 / 0x400_0000; t1 := t1 % 0x400_0000;
    t3 := t3 + t2 / 0x400_0000; t2 := t2 % 0x400_0000;
    t4 := t4 + t3 / 0x400_0000; t3 := t3 % 0x400_0000;
    t5 := t5 + t4 / 0x400_0000; t4 := t4 % 0x400_0000;
    t6 := t6 + t5 / 0x400_0000; t5 := t5 % 0x400_0000;
    t7 := t7 + t6 / 0x400_0000; t6 := t6 % 0x400_0000;
    t8 := t8 + t7 / 0x400_0000; t7 := t7 % 0x400_0000;
    t9 := t9 + t8 / 0x400_0000; t8 := t8 % 0x400_0000;
    t := [t0, t1, t2, t3, t4, t5, t6, t7, t8, t9];
  }

  /** The carry out of the second limb, however its sum is split in two. */
  lemma SplitCarry(a: int, q: int)
    requires 0 <= a && 0 <= q
    ensures a / 0x1_0000_0000 + (a % 0x1_0000_0000 + q) / 0x1_0000_0000 == (a + q) / 0x1_0000_0000
  {
  }

  /** A sum that wraps at 32 bits, and how often. */
  method Wrap32(x: nat) returns (r: Word, ghost c: int)
    ensures r + 0x1_0000_0000 * c == x
    ensures r == x % 0x1_0000_0000 && c == x / 0x1_0000_0000
  {
    r := x % 0x1_0000_0000;
    c := x / 0x1_0000_0000;
  }

  /** The value before and after the first pass, given how often each sum wraps. */
  lemma FirstPassValue(n: seq<Word>, low0: int, c0: int, low1: int, a: int, b: int, v: int)
    requires |n| == 10
    requires low0 + 0x1_0000_0000 * c0 == Sum0(n)
    requires low1 + 0x1_0000_0000 * a == (n[1] as int) + (n[9] / 0x40_0000) * 0x40
    requires v + 0x400_0000_0000_0000 * b == Limbs10(low0, low1, n[2], n[3], n[4], n[5], n[6], n[7], n[8],
          n[9] % 0x40_0000)
    ensures v + (n[9] / 0x40_0000) * P + 0x1_0000_0000 * c0 + 0x400_0000_0000_0000 * (a + b) == Fe(n)
  {
  }

  /** The first pass, common to every variant, with wrapping words: magnitude 1, up to one carry at bit 256. */
  method FirstPass(n: seq<Word>) returns (t: seq<Word>)
    requires Magnitude(n, 32)
    ensures Weak(t)
    ensures Fe(t) + (n[9] / 0x40_0000) * P + Lost(n) == Fe(n)
    ensures t[0] == Sum0(n) % 0x1_0000_0000 % 0x400_0000
  {
    hide Fe, Limbs10;
    var x: Word := n[9] / 0x40_0000;
    var t9: Word := n[9] % 0x40_0000;
    ghost var c0, a, b;
    var t0, t1;
    t0, c0 := Wrap32((n[0] as int) + x * 0x3D1);
    t1, a := Wrap32((n[1] as int) + x * 0x40);
    t, b := Carry(n, t0, t1, t9);
    SplitCarry((n[1] as int) + x * 0x40, t0 / 0x400_0000);
    FirstPassValue(n, t0, c0, t1, a, b, Fe(t));
  }

  lemma WeakRange(t: seq<Word>)
    requires Weak(t)
    ensures 0 <= Fe(t) < 2 * P
  {
  }

  lemma Pow2Of26()
    ensures Pow2(26) == 0x400_0000
  {
    assert Pow2(8) == 0x100 && Pow2(2) == 4;
    Pow2Add(8, 8);
    Pow2Add(16, 8);
    Pow2Add(24, 2);
  }

  /** An and of 26-bit limbs, which is all ones only when both are. */
  function And26(x: Word, y: Word): (r: Word)
    requires x < 0x400_0000 && y < 0x400_0000
    ensures r < 0x400_0000 && (r == 0x3FF_FFFF <==> x == 0x3FF_FFFF && y == 0x3FF_FFFF)
  {
    Pow2Of26();
    AndFull(x, y, 26);
    And(x, y)
  }

  function OrBit(x: Word, y: Word): (r: Word)
    requires x <= 1 && y <= 1
    ensures r <= 1 && (r == 1 <==> x == 1 || y == 1)
  {
    Or(x, y)
  }

  /** The test of 256 bits against P: limbs two to nine are all ones, and the rest carries into them. */
  predicate ReachesP(t: seq<Word>)
    requires |t| == 10 && forall i :: 0 <= i < 9 ==> t[i] < 0x400_0000
    ensures t[9] < 0x40_0000 ==> (ReachesP(t) <==> Fe(t) >= P)
  {
    hide And26;
    var m := And26(And26(And26(And26(And26(And26(t[2], t[3]), t[4]), t[5]), t[6]), t[7]), t[8]);
    t[9] == 0x3F_FFFF && m == 0x3FF_FFFF && t[1] + 0x40 + (t[0] + 0x3D1) / 0x400_0000 > 0x3FF_FFFF
  }

  /** Whether the limbs denote P or more. */
  method AtLeastP(t: seq<Word>) returns (x: Word)
    requires Weak(t)
    ensures x <= 1 && (x == 1 <==> Fe(t) >= P)
  {
    hide OrBit, ReachesP;
    x := OrBit(t[9] / 0x40_0000, if ReachesP(t) then 1 else 0);
  }

  /** Adds `x` times 2^256 - P and drops bit 256, which is set exactly when `x` is. */
  method FinalPass(t: seq<Word>, x: Word) returns (r: seq<Word>)
    requires Weak(t) && x <= 1
    requires x == 1 <==> Fe(t) >= P
    ensures Canonical(r)
    ensures Fe(r) == Fe(t) - x * P
  {
    WeakRange(t);
    var t0: Word := t[0] + x * 0x3D1;
    var t1: Word := t[1] + x * 0x40;
    ghost var c;
    r, c := Carry(t, t0, t1, t[9]);
    assert r[9] / 0x40_0000 == x;
    r := r[9 := r[9] % 0x40_0000];
  }

  /** A representative that misses `lost` is the right one only when nothing is lost. */
  lemma RightUnlessLost(v: int, lost: int, q: int, r: int)
    requires v == q * P + r + lost && 0 <= lost < P
    ensures r % P == v % P <==> lost == 0
  {
    if r % P == v % P {
      assert (v - r) % P == 0;
      assert lost % P == 0 by {
        assert lost == (v - r) - q * P;
      }
    }
  }

  /** The constant-time normalisation: the final pass always runs. */
  method Normalize(n: array<Word>)
    requires n.Length == 10 && Magnitude(n[..], 32)
    modifies n
    ensures Canonical(n[..])
    ensures Fe(n[..]) == old(Fe(n[..]) - Lost(n[..])) % P
    ensures Fe(n[..]) == old(Fe(n[..])) % P <==> !old(Wraps(n[..]))
  {
    hide Fe, Lost, Wraps;
    ghost var v, q, lost := Fe(n[..]), n[9] / 0x40_0000, Lost(n[..]);
    LostWhenWraps(n[..]);
    var t := FirstPass(n[..]);
    WeakRange(t);
    var x := AtLeastP(t);
    var r := FinalPass(t, x);
    Outcome(v, lost, q + x, Fe(r));
    Store(n, r);
  }

  lemma Outcome(v: int, lost: int, q: int, r: int)
    requires v == q * P + r + lost && 0 <= r < P && 0 <= lost < P
    ensures r == (v - lost) % P && (r == v % P <==> lost == 0)
  {
    DivModUnique(v - lost, P, q, r);
    RightUnlessLost(v, lost, q, r);
  }

  /** The variable-time normalisation: the final pass runs only when it is needed. */
  method NormalizeVar(n: array<Word>)
    requires n.Length == 10 && Magnitude(n[..], 32)
    modifies n
    ensures Canonical(n[..])
    ensures Fe(n[..]) == old(Fe(n[..]) - Lost(n[..])) % P
    ensures Fe(n[..]) == old(Fe(n[..])) % P <==> !old(Wraps(n[..]))
  {
    hide Fe, Lost, Wraps;
    ghost var v, q, lost := Fe(n[..]), n[9] / 0x40_0000, Lost(n[..]);
    LostWhenWraps(n[..]);
    var t := FirstPass(n[..]);
    WeakRange(t);
    var x := AtLeastP(t);
    if x != 0 {
      t := FinalPass(t, x);
    } else {
      TopBitClear(t);
    }
    Outcome(v, lost, q + x, Fe(t));
    Store(n, t);
  }

  lemma TopBitClear(t: seq<Word>)
    requires Weak(t) && Fe(t) < P
    ensures Canonical(t)
  {
  }

  method NormalizeWeak(n: array<Word>)
    requires n.Length == 10 && Magnitude(n[..], 32)
    modifies n
    ensures Weak(n[..]) && Magnitude(n[..], 1)
    ensures Fe(n[..]) + old(n[9]) / 0x40_0000 * P + old(Lost(n[..])) == old(Fe(n[..]))
    ensures Fe(n[..]) % P == old(Fe(n[..])) % P <==> !old(Wraps(n[..]))
  {
    hide Fe, Lost, Wraps;
    ghost var q, lost := n[9] / 0x40_0000, Lost(n[..]);
    LostWhenWraps(n[..]);
    var t := FirstPass(n[..]);
    RightUnlessLost(Fe(n[..]), lost, q, Fe(t));
    Store(n, t);
  }

  lemma Congruent(v: int, q: int, w: int)
    requires w + q * P == v
    ensures w % P == v % P
  {
  }

  /** An exclusive or of 26-bit limbs, which is all ones only when they are complements. */
  function Xor26(x: Word, y: Word): (r: Word)
    requires x < 0x400_0000 && y < 0x400_0000
    ensures r < 0x400_0000 && (r == 0x3FF_FFFF <==> x + y == 0x3FF_FFFF)
  {
    Pow2Of26();
    XorFull(x, y, 26);
    Xor(x, y)
  }

  function Or26(x: nat, y: Word): (r: nat)
    ensures r == 0 <==> x == 0 && y == 0
  {
    OrZero(x, y);
    Or(x, y)
  }

  predicate AllZero(t: seq<Word>)
    requires |t| == 10
  {
    t[0] == 0 && t[1] == 0 && t[2] == 0 && t[3] == 0 && t[4] == 0 && t[5] == 0 && t[6] == 0 && t[7] == 0 && t[8] == 0 &&
          t[9] == 0
  }

  predicate LimbsOfP(t: seq<Word>)
    requires |t| == 10
  {
    && t[0] == 0x3FF_FC2F && t[1] == 0x3FF_FFBF && t[2] == 0x3FF_FFFF && t[3] == 0x3FF_FFFF && t[4] == 0x3FF_FFFF
    && t[5] == 0x3FF_FFFF && t[6] == 0x3FF_FFFF && t[7] == 0x3FF_FFFF && t[8] == 0x3FF_FFFF && t[9] == 0x3F_FFFF
  }

  lemma ZeroLimbs(t: seq<Word>)
    requires Weak(t)
    ensures Fe(t) == 0 <==> AllZero(t)
  {
  }

  lemma PLimbs(t: seq<Word>)
    requires Weak(t)
    ensures Fe(t) == P <==> LimbsOfP(t)
  {
  }

  lemma MultipleBelowTwoP(v: int)
    requires 0 <= v < 2 * P
    ensures v % P == 0 <==> v == 0 || v == P
  {
  }

  /** Zero and P are the only multiples of P that the first pass can leave. */
  lemma ZeroOrP(t: seq<Word>)
    requires Weak(t)
    ensures Fe(t) % P == 0 <==> AllZero(t) || LimbsOfP(t)
  {
    hide Fe, AllZero, LimbsOfP;
    WeakRange(t);
    MultipleBelowTwoP(Fe(t));
    ZeroLimbs(t);
    PLimbs(t);
  }

  /** Tells raw zero and raw P apart from everything else with one or-chain and one and-chain. */
  method ZeroTest(t: seq<Word>) returns (zero: bool)
    requires Weak(t)
    ensures zero <==> AllZero(t) || LimbsOfP(t)
  {
    hide And26, Xor26, Or26;
    var z0: nat, z1: Word := t[0], Xor26(t[0], 0x3D0);
    z0, z1 := Or26(z0, t[1]), And26(z1, Xor26(t[1], 0x40));
    z0, z1 := Or26(z0, t[2]), And26(z1, t[2]);
    z0, z1 := Or26(z0, t[3]), And26(z1, t[3]);
    z0, z1 := Or26(z0, t[4]), And26(z1, t[4]);
    z0, z1 := Or26(z0, t[5]), And26(z1, t[5]);
    z0, z1 := Or26(z0, t[6]), And26(z1, t[6]);
    z0, z1 := Or26(z0, t[7]), And26(z1, t[7]);
    z0, z1 := Or26(z0, t[8]), And26(z1, t[8]);
    z0, z1 := Or26(z0, t[9]), And26(z1, Xor26(t[9], 0x3C0_0000));
    zero := z0 == 0 || z1 == 0x3FF_FFFF;
  }

  /** Whether the element is zero modulo P, in constant time and without changing it. */
  method NormalizesToZero(n: seq<Word>) returns (zero: bool)
    requires Magnitude(n, 32)
    ensures zero <==> (Fe(n) - Lost(n)) % P == 0
    ensures !Wraps(n) ==> (zero <==> Fe(n) % P == 0)
  {
    hide Fe, AllZero, LimbsOfP, Lost, Wraps;
    LostWhenWraps(n);
    var t := FirstPass(n);
    Congruent(Fe(n) - Lost(n), n[9] / 0x40_0000, Fe(t));
    ZeroOrP(t);
    zero := ZeroTest(t);
  }

  lemma LowLimbOfMultiple(v: int, q: int, low0: Word, h: int)
    requires 0 <= low0 + 0x400_0000 * h < 2 * P && low0 + 0x400_0000 * h + q * P == v
    ensures v % P == 0 ==> low0 % 0x400_0000 == 0 || low0 % 0x400_0000 == 0x3FF_FC2F
  {
    var w := low0 + 0x400_0000 * h;
    Congruent(v, q, w);
    if w % P == 0 {
      MultipleBelowTwoP(w);
    }
  }

  lemma LimbCount(n: seq<Word>)
    requires Magnitude(n, 32)
    ensures |n| == 10
  {
  }

  /** The limbs above the lowest after the first pass, before their carries. */
  ghost function Above(n: seq<Word>): int
    requires |n| == 10
  {
    Limbs10(Sum1(n) % 0x1_0000_0000 - Sum0(n) % 0x1_0000_0000 / 0x400_0000, n[2], n[3], n[4], n[5], n[6], n[7], n[8],
            n[9] % 0x40_0000, 0)
  }

  lemma TopLimbFolds(n: seq<Word>)
    requires Magnitude(n, 32)
    ensures var v := Sum0(n) % 0x1_0000_0000 + 0x400_0000 * Above(n);
      v + (n[9] / 0x40_0000) * P + Lost(n) == Fe(n) && 0 <= v < 2 * P
  {
  }

  /** A multiple of P has, after the first pass, the low limb of zero or of P. */
  lemma LowLimbDecides(n: seq<Word>, low0: Word)
    requires Magnitude(n, 32) && low0 == Sum0(n) % 0x1_0000_0000
    ensures (Fe(n) - Lost(n)) % P == 0 ==> low0 % 0x400_0000 == 0 || low0 % 0x400_0000 == 0x3FF_FC2F
  {
    hide *;
    LimbCount(n);
    TopLimbFolds(n);
    LowLimbOfMultiple(Fe(n) - Lost(n), n[9] / 0x40_0000, low0, Above(n));
  }

  /** The same answer, with an early exit on the lowest limb alone. */
  method NormalizesToZeroVar(n: seq<Word>) returns (zero: bool)
    requires Magnitude(n, 32)
    ensures zero <==> (Fe(n) - Lost(n)) % P == 0
    ensures !Wraps(n) ==> (zero <==> Fe(n) % P == 0)
  {
    hide Fe, Xor26, AllZero, LimbsOfP, Lost, Wraps, Sum1;
    LostWhenWraps(n);
    var x: Word := n[9] / 0x40_0000;
    var t0: Word := ((n[0] as int) + x * 0x3D1) % 0x1_0000_0000;
    var z0: Word := t0 % 0x400_0000;
    var z1 := Xor26(z0, 0x3D0);
    if z0 != 0 && z1 != 0x3FF_FFFF {
      LowLimbDecides(n, t0);
      return false;
    }
    var t := FirstPass(n);
    Congruent(Fe(n) - Lost(n), x, Fe(t));
    ZeroOrP(t);
    zero := ZeroTest(t);
  }

  /** A limb pattern of magnitude 32 whose first sum wraps: the representative comes out 2^32 too small. */
  lemma WrongAtMagnitude32()
    ensures var n: seq<Word> := [0xFFFF_FFC0, 0, 0, 0, 0, 0, 0, 0, 0, 0xFFF_FFC0];
      && Magnitude(n, 32) && Wraps(n) && Lost(n) == 0x1_0000_0000
      && Fe(n) % P == 0xFFFF0000_00000000_00000000_00000000_00000000_00000000_00000040_0000F02F
      && (Fe(n) - Lost(n)) % P == 0xFFFF0000_00000000_00000000_00000000_00000000_00000000_0000003F_0000F02F
  {
  }

  /** Subtracts from a multiple of P that is large enough limb by limb, raising the magnitude by one. */
  method NegateElement(r: array<Word>, a: array<Word>, m: nat)
    requires r.Length == a.Length == 10 && m <= 31 && Magnitude(a[..], m)
    modifies r
    ensures Magnitude(r[..], m + 1)
    ensures Fe(r[..]) == 2 * (m + 1) * P - old(Fe(a[..]))
  {
    hide Fe;
    var k: Word := 2 * (m + 1);
    var n := a[..];
    var z: seq<Word> := [0x3FF_FC2F * k - n[0], 0x3FF_FFBF * k - n[1], 0x3FF_FFFF * k - n[2], 0x3FF_FFFF * k - n[3],
        0x3FF_FFFF * k - n[4], 0x3FF_FFFF * k - n[5], 0x3FF_FFFF * k - n[6], 0x3FF_FFFF * k - n[7],
        0x3FF_FFFF * k - n[8], 0x3F_FFFF * k - n[9]];
    NegatedValue(n, z, k);
    Store(r, z);
  }

  lemma NegatedValue(n: seq<Word>, z: seq<Word>, k: int)
    requires |n| == |z| == 10
    requires z[0] == 0x3FF_FC2F * k - n[0] && z[1] == 0x3FF_FFBF * k - n[1] && z[9] == 0x3F_FFFF * k - n[9]
    requires forall i :: 2 <= i < 9 ==> z[i] == 0x3FF_FFFF * k - n[i]
    ensures Fe(z) == k * P - Fe(n)
  {
  }
}
