/** Scalars as octets. */
module ScalarOctets {
  import opened BigEndian
  import opened Bits
  import opened Memory
  import opened Scalar
  import opened Words
  import FieldOctets

  /** Four octets are one limb. */
  function Limb(c: seq<Byte>): (d: Word)
    requires |c| == 4
    ensures d == Nat(c)
  {
    Nat4(c);
    assert Pow2(8) == 0x100;
    hide Nat, FieldOctets.Pack, Pow2;
    FieldOctets.Pack(c[3], c[2], c[1], c[0], 8)
  }

  /** The limbs of 32 octets, before any reduction. */
  function ToLimbs(b: seq<Byte>): (d: seq<Word>)
    requires |b| == 32
    ensures |d| == 8 && Value(d) == Nat(b)
  {
    hide Nat, Limb;
    OctetGroups(b);
    [Limb(b[28..32]), Limb(b[24..28]), Limb(b[20..24]), Limb(b[16..20]),
     Limb(b[12..16]), Limb(b[8..12]), Limb(b[4..8]), Limb(b[0..4])]
  }

  lemma GroupStep(b: seq<Byte>, k: nat)
    requires k + 4 <= |b|
    ensures Nat(b[..k + 4]) == 0x1_0000_0000 * Nat(b[..k]) + Nat(b[k..k + 4])
  {
    Pow2Values();
    hide Nat, Pow2;
    assert b[..k + 4] == b[..k] + b[k..k + 4];
    NatAppend(b[..k], b[k..k + 4]);
  }

  lemma OctetGroups(b: seq<Byte>)
    requires |b| == 32
    ensures Nat(b) == Value([Nat(b[28..32]), Nat(b[24..28]), Nat(b[20..24]), Nat(b[16..20]), Nat(b[12..16]),
      Nat(b[8..12]), Nat(b[4..8]), Nat(b[0..4])])
  {
    hide Nat;
    assert b[..32] == b && b[..4] == b[0..4];
    GroupStep(b, 4);
    GroupStep(b, 8);
    GroupStep(b, 12);
    GroupStep(b, 16);
    GroupStep(b, 20);
    GroupStep(b, 24);
    GroupStep(b, 28);
  }

  /** Reads 32 octets as a scalar, reduced once, and says whether that was needed. */
  method SetB32(r: array<Word>, b32: seq<Byte>) returns (overflow: bool)
    requires r.Length == 8 && |b32| == 32
    modifies r
    ensures overflow <==> Nat(b32) >= N
    ensures Value(r[..]) == Nat(b32) % N
  {
    hide Nat, Value, ToLimbs;
    var d := ToLimbs(b32);
    ValueRange(d);
    Store(r, d);
    var yes := CheckOverflow(r[..]);
    var over, carry := Reduce(r, if yes then 1 else 0);
    ValueRange(r[..]);
    ReducedOnce(Nat(b32), over, carry, Value(r[..]));
    overflow := over != 0;
  }

  lemma ReducedOnce(v: int, over: int, carry: int, r: int)
    requires 0 <= v < R256 && 0 <= r < R256 && (over == 0 || over == 1) && (over == 1 <==> v >= N)
    requires r + carry * R256 == v + over * (R256 - N)
    ensures r == v % N
  {
  }

  /** One limb is four octets. */
  function LimbOctets(d: Word): (c: seq<Byte>)
    ensures |c| == 4 && Nat(c) == d
  {
    var c: seq<Byte> := [d / 0x100_0000 % 0x100, d / 0x1_0000 % 0x100, d / 0x100 % 0x100, d % 0x100];
    hide Nat;
    Nat4(c);
    FieldOctets.CutAt(d, 0x100, 0x100);
    c
  }

  /** The octets of a scalar. */
  function ToOctets(d: seq<Word>): (b: seq<Byte>)
    requires |d| == 8
    ensures |b| == 32 && Nat(b) == Value(d)
  {
    hide Nat, LimbOctets;
    var b := LimbOctets(d[7]) + LimbOctets(d[6]) + LimbOctets(d[5]) + LimbOctets(d[4]) + LimbOctets(d[3]) +
      LimbOctets(d[2]) + LimbOctets(d[1]) + LimbOctets(d[0]);
    OctetGroups(b);
    assert b[0..4] == LimbOctets(d[7]) && b[4..8] == LimbOctets(d[6]) && b[8..12] == LimbOctets(d[5]);
    assert b[12..16] == LimbOctets(d[4]) && b[16..20] == LimbOctets(d[3]) && b[20..24] == LimbOctets(d[2]);
    assert b[24..28] == LimbOctets(d[1]) && b[28..32] == LimbOctets(d[0]);
    b
  }

  /** Writes a scalar as 32 octets. */
  method GetB32(bin: array<Byte>, a: seq<Word>)
    requires bin.Length == 32 && |a| == 8
    modifies bin
    ensures Nat(bin[..]) == Value(a)
  {
    hide Nat, Value, ToOctets;
    var b := ToOctets(a);
    Copy(bin, 0, b);
    assert bin[..] == b;
  }

  /** Writing and reading limbs gives the limbs back, and reading and writing octets the octets. */
  lemma OctetRoundTrip(d: seq<Word>, b: seq<Byte>)
    requires |d| == 8 && |b| == 32
    ensures ToLimbs(ToOctets(d)) == d && ToOctets(ToLimbs(b)) == b
  {
    hide Nat, Value, ToLimbs, ToOctets;
    ValueUnique(ToLimbs(ToOctets(d)), d);
    NatUnique(ToOctets(ToLimbs(b)), b);
  }
}
