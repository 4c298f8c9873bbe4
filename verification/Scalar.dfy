/** Scalars modulo the group order, held as eight 32-bit limbs. */
module Scalar {
  import opened Words

  const N: int := 0xFFFFFFFF_FFFFFFFF_FFFFFFFF_FFFFFFFE_BAAEDCE6_AF48A03B_BFD25E8C_D0364141

  const R256: int := 0x1_00000000_00000000_00000000_00000000_00000000_00000000_00000000_00000000

  /** The number that eight limbs denote, least significant limb first. */
  ghost function Value(d: seq<int>): int
    requires |d| == 8
  {
    d[0] + 0x1_0000_0000 * (d[1] + 0x1_0000_0000 * (d[2] + 0x1_0000_0000 * (d[3] + 0x1_0000_0000 *
    (d[4] + 0x1_0000_0000 * (d[5] + 0x1_0000_0000 * (d[6] + 0x1_0000_0000 * d[7]))))))
  }

  lemma ValueRange(d: seq<Word>)
    requires |d| == 8
    ensures 0 <= Value(d) < R256
  {
  }

  ghost function Join(low: int, high: int): int {
    low + 0x1_0000_0000 * high
  }

  lemma Apart(x: Word, x': int, y: Word, y': int)
    requires Join(x, x') == Join(y, y')
    ensures x == y && x' == y'
  {
  }

  /** Limbs denote a number in one way only. */
  lemma ValueUnique(c: seq<Word>, d: seq<Word>)
    requires |c| == |d| == 8 && Value(c) == Value(d)
    ensures c == d
  {
    var x, y := Above(c), Above(d);
    hide Value;
    Apart(c[0], x[0], d[0], y[0]);
    Apart(c[1], x[1], d[1], y[1]);
    Apart(c[2], x[2], d[2], y[2]);
    Apart(c[3], x[3], d[3], y[3]);
    Apart(c[4], x[4], d[4], y[4]);
    Apart(c[5], x[5], d[5], y[5]);
    Apart(c[6], x[6], d[6], y[6]);
  }

  /** What lies above each limb. */
  ghost function Above(d: seq<Word>): (x: seq<int>)
    requires |d| == 8
    ensures |x| == 7 && Value(d) == Join(d[0], x[0]) && x[6] == d[7]
    ensures forall i :: 0 <= i < 6 ==> x[i] == Join(d[i + 1], x[i + 1])
  {
    var x5 := Join(d[6], d[7]);
    var x4 := Join(d[5], x5);
    var x3 := Join(d[4], x4);
    var x2 := Join(d[3], x3);
    var x1 := Join(d[2], x2);
    [Join(d[1], x1), x1, x2, x3, x4, x5, d[7]]
  }

  /** Overwrites the eight limbs of `r`. */
  method Store(r: array<Word>, z: seq<Word>)
    requires r.Length == 8 && |z| == 8
    modifies r
    ensures r[..] == z
  {
    r[0], r[1], r[2], r[3], r[4], r[5], r[6], r[7] := z[0], z[1], z[2], z[3], z[4], z[5], z[6], z[7];
  }

  predicate IsZero(d: seq<Word>)
    requires |d| == 8
    ensures IsZero(d) <==> Value(d) == 0
  {
    d[0] == 0 && d[1] == 0 && d[2] == 0 && d[3] == 0 && d[4] == 0 && d[5] == 0 && d[6] == 0 && d[7] == 0
  }

  predicate IsOne(d: seq<Word>)
    requires |d| == 8
    ensures IsOne(d) <==> Value(d) == 1
  {
    d[0] == 1 && d[1] == 0 && d[2] == 0 && d[3] == 0 && d[4] == 0 && d[5] == 0 && d[6] == 0 && d[7] == 0
  }

  /** The branch-free limb comparison against the order. */
  method CheckOverflow(a: seq<Word>) returns (yes: bool)
    requires |a| == 8
    ensures yes <==> Value(a) >= N
  {
    yes := false;
    var no := false;
    no := no || a[7] < 0xFFFFFFFF;
    no := no || a[6] < 0xFFFFFFFF;
    no := no || a[5] < 0xFFFFFFFF;
    no := no || a[4] < 0xFFFFFFFE;
    yes := yes || (a[4] > 0xFFFFFFFE && !no);
    no := no || (a[3] < 0xBAAEDCE6 && !yes);
    yes := yes || (a[3] > 0xBAAEDCE6 && !no);
    no := no || (a[2] < 0xAF48A03B && !yes);
    yes := yes || (a[2] > 0xAF48A03B && !no);
    no := no || (a[1] < 0xBFD25E8C && !yes);
    yes := yes || (a[1] > 0xBFD25E8C && !no);
    yes := yes || (a[0] >= 0xD0364141 && !no);
  }

  /** The same comparison against half the order. */
  method IsHigh(a: seq<Word>) returns (yes: bool)
    requires |a| == 8
    ensures yes <==> Value(a) > N / 2
  {
    yes := false;
    var no := false;
    no := no || a[7] < 0x7FFFFFFF;
    yes := yes || (a[7] > 0x7FFFFFFF && !no);
    no := no || (a[6] < 0xFFFFFFFF && !yes);
    no := no || (a[5] < 0xFFFFFFFF && !yes);
    no := no || (a[4] < 0xFFFFFFFF && !yes);
    no := no || (a[3] < 0x5D576E73 && !yes);
    yes := yes || (a[3] > 0x5D576E73 && !no);
    no := no || (a[2] < 0x57A4501D && !yes);
    yes := yes || (a[2] > 0x57A4501D && !no);
    no := no || (a[1] < 0xDFE92F46 && !yes);
    yes := yes || (a[1] > 0xDFE92F46 && !no);
    yes := yes || (a[0] > 0x681B20A0 && !no);
  }

  /** Adds `overflow` times `2^256 - N`; the carry out of the top limb is dropped. */
  method Reduce(r: array<Word>, overflow: Word) returns (over: Word, ghost carry: Word)
    requires r.Length == 8 && overflow <= 1
    modifies r
    ensures over == overflow && carry <= 1
    ensures Value(r[..]) + carry * R256 == old(Value(r[..])) + overflow * (R256 - N)
  {
    over := overflow;
    var t: Wide := r[0] + overflow * 0x2FC9BEBF;
    r[0], t := Split(t);
    t := t + r[1] + overflow * 0x402DA173;
    r[1], t := Split(t);
    t := t + r[2] + overflow * 0x50B75FC4;
    r[2], t := Split(t);
    t := t + r[3] + overflow * 0x45512319;
    r[3], t := Split(t);
    t := t + r[4] + overflow * 1;
    r[4], t := Split(t);
    t := t + r[5];
    r[5], t := Split(t);
    t := t + r[6];
    r[6], t := Split(t);
    t := t + r[7];
    r[7], t := Split(t);
    carry := t;
  }

  /** The limb-by-limb addition chain, with the carry out of the top limb. */
  method AddLimbs(x: seq<Word>, y: seq<Word>) returns (z: seq<Word>, t: Wide)
    requires |x| == |y| == 8
    ensures |z| == 8 && t <= 1
    ensures Value(z) + t * R256 == Value(x) + Value(y)
  {
    var z0, z1, z2, z3, z4, z5, z6, z7;
    t := (x[0] as int) + y[0];
    z0, t := Split(t);
    t := t + x[1] + y[1];
    z1, t := Split(t);
    t := t + x[2] + y[2];
    z2, t := Split(t);
    t := t + x[3] + y[3];
    z3, t := Split(t);
    t := t + x[4] + y[4];
    z4, t := Split(t);
    t := t + x[5] + y[5];
    z5, t := Split(t);
    t := t + x[6] + y[6];
    z6, t := Split(t);
    t := t + x[7] + y[7];
    z7, t := Split(t);
    z := [z0, z1, z2, z3, z4, z5, z6, z7];
  }

  method Add(r: array<Word>, a: array<Word>, b: array<Word>) returns (overflow: Word)
    requires r.Length == a.Length == b.Length == 8
    requires Value(a[..]) < N && Value(b[..]) < N
    modifies r
    ensures overflow == (if old(Value(a[..])) + old(Value(b[..])) >= N then 1 else 0)
    ensures Value(r[..]) == (old(Value(a[..])) + old(Value(b[..]))) % N
  {
    hide Value;
    ValueRange(a[..]);
    ValueRange(b[..]);
    var z, t := AddLimbs(a[..], b[..]);
    Store(r, z);
    var yes := CheckOverflow(r[..]);
    ValueRange(r[..]);
    overflow := t + (if yes then 1 else 0);
    ghost var carry;
    overflow, carry := Reduce(r, overflow);
    ValueRange(r[..]);
  }

  /** `x & mask` for a mask of all ones or all zeros. */
  function Masked(x: Word, mask: Word): (r: Word)
    requires mask == 0 || mask == 0xFFFFFFFF
    ensures mask == 0 ==> r == 0
    ensures mask == 0xFFFFFFFF ==> r == x
  {
    if mask == 0 then 0 else x
  }

  /** `x ^ mask` for a mask of all ones or all zeros. */
  function Flipped(x: Word, mask: Word): (r: Word)
    requires mask == 0 || mask == 0xFFFFFFFF
    ensures mask == 0 ==> r == x
    ensures mask == 0xFFFFFFFF ==> r == 0xFFFFFFFF - x
  {
    if mask == 0 then x else 0xFFFFFFFF - x
  }

  function MaskLimbs(u: seq<Word>, mask: Word): (z: seq<Word>)
    requires |u| == 8 && (mask == 0 || mask == 0xFFFFFFFF)
    ensures |z| == 8
    ensures mask == 0 ==> Value(z) == 0
    ensures mask == 0xFFFFFFFF ==> z == u
  {
    [Masked(u[0], mask), Masked(u[1], mask), Masked(u[2], mask), Masked(u[3], mask),
     Masked(u[4], mask), Masked(u[5], mask), Masked(u[6], mask), Masked(u[7], mask)]
  }

  /** The limbs of `(x ^ mask) + ((N + 1) & mask)`: `x` itself, or `N - x` modulo 2^256. */
  method OrderMinus(x: seq<Word>, mask: Word) returns (u: seq<Word>, ghost carry: Word)
    requires |x| == 8 && (mask == 0 || mask == 0xFFFFFFFF)
    ensures |u| == 8 && carry <= 1
    ensures Value(u) + carry * R256 == if mask == 0 then Value(x) else R256 + N - Value(x)
  {
    var u0, u1, u2, u3, u4, u5, u6, u7;
    var t: Wide := Flipped(x[0], mask);
    t := t + Masked(0xD0364142, mask);
    u0, t := Split(t);
    t := t + Flipped(x[1], mask) + Masked(0xBFD25E8C, mask);
    u1, t := Split(t);
    t := t + Flipped(x[2], mask) + Masked(0xAF48A03B, mask);
    u2, t := Split(t);
    t := t + Flipped(x[3], mask) + Masked(0xBAAEDCE6, mask);
    u3, t := Split(t);
    t := t + Flipped(x[4], mask) + Masked(0xFFFFFFFE, mask);
    u4, t := Split(t);
    t := t + Flipped(x[5], mask) + Masked(0xFFFFFFFF, mask);
    u5, t := Split(t);
    t := t + Flipped(x[6], mask) + Masked(0xFFFFFFFF, mask);
    u6, t := Split(t);
    t := t + Flipped(x[7], mask) + Masked(0xFFFFFFFF, mask);
    u7, t := Split(t);
    u := [u0, u1, u2, u3, u4, u5, u6, u7];
    carry := t;
  }

  method Negate(r: array<Word>, a: array<Word>)
    requires r.Length == a.Length == 8
    requires Value(a[..]) < N
    modifies r
    ensures Value(r[..]) == (N - old(Value(a[..]))) % N
  {
    hide Value;
    var nonzero: Word := if IsZero(a[..]) then 0 else 0xFFFFFFFF;
    ValueRange(a[..]);
    var u, carry := OrderMinus(a[..], 0xFFFFFFFF);
    ValueRange(u);
    Store(r, MaskLimbs(u, nonzero));
  }

  method CondNegate(r: array<Word>, flag: bool) returns (sign: int)
    requires r.Length == 8 && Value(r[..]) < N
    modifies r
    ensures sign == if flag then -1 else 1
    ensures Value(r[..]) == if flag then (N - old(Value(r[..]))) % N else old(Value(r[..]))
  {
    hide Value;
    var mask: Word := if flag then 0xFFFFFFFF else 0;
    var nonzero: Word := if IsZero(r[..]) then 0 else 0xFFFFFFFF;
    ValueRange(r[..]);
    var u, carry := OrderMinus(r[..], mask);
    ValueRange(u);
    Store(r, MaskLimbs(u, nonzero));
    sign := 2 * (if mask == 0 then 1 else 0) - 1;
  }
}
