/** Reading, shifting and setting bits of a scalar's limbs. */
module ScalarBits {
  import opened Bits
  import opened Scalar
  import opened Words

  /** The number that the limbs from index `q` up denote. */
  ghost function Tail(d: seq<int>, q: nat): int
    requires q <= |d|
    decreases |d| - q
  {
    if q == |d| then 0 else d[q] + 0x1_0000_0000 * Tail(d, q + 1)
  }

  lemma {:induction false} TailRange(d: seq<Word>, q: nat)
    requires q <= |d|
    ensures 0 <= Tail(d, q)
    decreases |d| - q
  {
    if q < |d| {
      TailRange(d, q + 1);
    }
  }

  lemma WholeTail(d: seq<int>)
    requires |d| == 8
    ensures Tail(d, 0) == Value(d)
  {
    assert Tail(d, 7) == d[7];
    assert Tail(d, 5) == d[5] + 0x1_0000_0000 * (d[6] + 0x1_0000_0000 * Tail(d, 7));
    assert Tail(d, 3) == d[3] + 0x1_0000_0000 * (d[4] + 0x1_0000_0000 * Tail(d, 5));
    assert Tail(d, 1) == d[1] + 0x1_0000_0000 * (d[2] + 0x1_0000_0000 * Tail(d, 3));
  }

  /** Dropping whole limbs divides by a power of 2^32. */
  lemma {:induction false} TailShifts(d: seq<Word>, q: nat)
    requires |d| == 8 && q <= 8
    ensures Value(d) >= 0 && Shr(Value(d), 32 * q) == Tail(d, q)
  {
    hide Value;
    ValueRange(d);
    WholeTail(d);
    if q > 0 {
      TailShifts(d, q - 1);
      TailRange(d, q);
      DivModUnique(Tail(d, q - 1), 0x1_0000_0000, Tail(d, q), d[q - 1]);
      Pow2Values();
      Pow2Add(32 * (q - 1), 32);
      DivDiv(Value(d), Pow2(32 * (q - 1)), 0x1_0000_0000);
    }
  }

  /** Bits at `offset` of the value are bits at `offset % 32` of the limbs from `offset / 32` up. */
  lemma FieldInTail(d: seq<Word>, offset: nat, count: nat)
    requires |d| == 8 && offset < 256
    ensures Value(d) >= 0 && Tail(d, offset / 32) >= 0
    ensures Field(Value(d), offset, count) == Field(Tail(d, offset / 32), offset % 32, count)
  {
    hide Value, Tail;
    var q, s := offset / 32, offset % 32;
    TailShifts(d, q);
    TailRange(d, q);
    hide Pow2;
    Pow2Add(32 * q, s);
    DivDiv(Value(d), Pow2(32 * q), Pow2(s));
  }

  lemma TailLow(d: seq<Word>, q: nat, offset: nat, count: nat)
    requires |d| == 8 && q < 8 && offset + count <= 32
    ensures Tail(d, q) >= 0
    ensures Field(Tail(d, q), offset, count) == Field(d[q], offset, count)
  {
    TailRange(d, q);
    DivModUnique(Tail(d, q), 0x1_0000_0000, Tail(d, q + 1), d[q]);
    Pow2Values();
    hide Pow2, Tail;
    FieldIgnoresHigh(Tail(d, q), 32, offset, count);
  }

  function GetBits(a: seq<Word>, offset: nat, count: nat): (r: nat)
    requires |a| == 8 && offset < 256 && 0 < count && offset % 32 + count <= 32 && count < 32
    ensures Value(a) >= 0 && r == Field(Value(a), offset, count)
  {
    FieldInTail(a, offset, count);
    TailLow(a, offset / 32, offset % 32, count);
    AndMask(Shr(a[offset / 32], offset % 32), count);
    And(Shr(a[offset / 32], offset % 32), Pow2(count) - 1)
  }

  lemma ShiftedIn(y: nat, s: nat, n: nat, w: nat)
    requires s > 0 && n > 0 && w == s * n
    ensures w > 0 && (y * n) % w == (y % s) * n
  {
    assert s * n > 0;
    assert y * n == (y / s) * w + (y % s) * n;
    MulStep(y % s, s, n);
    assert (y % s) * n >= 0;
    DivModUnique(y * n, w, y / s, (y % s) * n);
  }

  lemma JoinedLimbs(x: nat, y: nat, s: nat, n: nat, w: nat, c: nat, k: nat)
    requires s > 0 && n > 0 && c > 0 && w == s * n && w == c * k && x < w
    ensures x / s < n
    ensures ((x + w * y) / s) % c == (x / s + (y % s) * n) % c
  {
    SmallQuotient(x, s, n);
    ghost var z := x / s + (y % s) * n;
    assert w * y == (y * n) * s;
    ModOfSum(x, y * n, s);
    CarriedPart(y, s, n, c, k);
    ModOfSum(z, (y / s) * k, c);
  }

  lemma SmallQuotient(x: nat, s: nat, n: nat)
    requires s > 0 && n > 0 && x < s * n
    ensures x / s < n
  {
    if x / s >= n {
      Words.MulMono(n, x / s, s);
    }
  }

  lemma CarriedPart(y: nat, s: nat, n: nat, c: nat, k: nat)
    requires s > 0 && s * n == c * k
    ensures y * n == (y % s) * n + ((y / s) * k) * c
  {
    var q, r := y / s, y % s;
    assert y == q * s + r;
    assert (q * s + r) * n == q * (s * n) + r * n;
    assert q * (c * k) == (q * k) * c;
  }

  /** Two limbs are enough for a field of fewer than 32 bits. */
  lemma TailTwo(d: seq<Word>, q: nat, offset: nat, count: nat)
    requires |d| == 8 && q < 7 && offset + count <= 64
    ensures Tail(d, q) >= 0
    ensures Field(Tail(d, q), offset, count) == Field((d[q] as int) + 0x1_0000_0000 * (d[q + 1] as int), offset, count)
  {
    TailRange(d, q);
    TailRange(d, q + 2);
    assert Tail(d, q) == d[q] + 0x1_0000_0000 * (d[q + 1] + 0x1_0000_0000 * Tail(d, q + 2));
    DivModUnique(Tail(d, q), 0x1_0000_0000_0000_0000, Tail(d, q + 2), (d[q] as int) +
        0x1_0000_0000 * (d[q + 1] as int));
    Pow2Values();
    hide Pow2, Tail;
    FieldIgnoresHigh(Tail(d, q), 64, offset, count);
  }

  lemma WordSplit(s: nat)
    requires s <= 32
    ensures Pow2(s) * Pow2(32 - s) == 0x1_0000_0000
  {
    Pow2Values();
    Pow2Add(s, 32 - s);
  }

  lemma LeftShift(y: Word, s: nat)
    requires s <= 32
    ensures Shl32(y, 32 - s) == (y % Pow2(s)) * Pow2(32 - s)
  {
    hide Pow2;
    WordSplit(s);
    ShiftedIn(y, Pow2(s), Pow2(32 - s), 0x1_0000_0000);
  }

  lemma StraddlingField(x: Word, y: Word, s: nat, count: nat)
    requires 0 < s < 32 && count < 32
    ensures Shr(x, s) < Pow2(32 - s)
    ensures Field((x as int) + 0x1_0000_0000 * (y as int), s, count) == (Shr(x, s) +
          (y % Pow2(s)) * Pow2(32 - s)) % Pow2(count)
  {
    hide Pow2;
    WordSplit(s);
    WordSplit(count);
    JoinedLimbs(x, y, Pow2(s), Pow2(32 - s), 0x1_0000_0000, Pow2(count), Pow2(32 - count));
  }

  /** The two halves of a field that straddles a limb boundary, joined by a bitwise or. */
  lemma OrJoins(x: Word, y: Word, s: nat, count: nat)
    requires 0 < s < 32 && count < 32
    ensures Or(Shr(x, s), Shl32(y, 32 - s)) % Pow2(count) == Field((x as int) + 0x1_0000_0000 * (y as int), s, count)
  {
    hide Pow2, Or, Field, Shr, Shl32;
    LeftShift(y, s);
    StraddlingField(x, y, s, count);
    OrDisjoint(Shr(x, s), y % Pow2(s), 32 - s);
  }

  function GetBitsVar(a: seq<Word>, offset: nat, count: nat): (r: nat)
    requires |a| == 8 && 0 < count < 32 && offset + count <= 256
    ensures Value(a) >= 0 && r == Field(Value(a), offset, count)
  {
    if (offset + count - 1) / 32 == offset / 32 then
      GetBits(a, offset, count)
    else
      FieldInTail(a, offset, count);
      TailTwo(a, offset / 32, offset % 32, count);
      OrJoins(a[offset / 32], a[offset / 32 + 1], offset % 32, count);
      var joined := Or(Shr(a[offset / 32], offset % 32), Shl32(a[offset / 32 + 1], 32 - offset % 32));
      AndMask(joined, count);
      And(joined, Pow2(count) - 1)
  }

  /** One limb of a right shift: its own high bits and the low bits of the next limb. */
  lemma ShiftedLimb(x: Word, y: Word, n: nat)
    requires 0 < n < 32
    ensures var z := Shr(x, n) + Shl32(y, 32 - n);
      z < 0x1_0000_0000 && Mul(z, Pow2(n)) == x - x % Pow2(n) + 0x1_0000_0000 * (y % Pow2(n))
  {
    hide Pow2;
    LeftShift(y, n);
    WordSplit(n);
    LimbArithmetic(x, y, Pow2(n), Pow2(32 - n));
  }

  lemma LimbArithmetic(x: Word, y: Word, m: nat, k: nat)
    requires m > 0 && k > 0 && m * k == 0x1_0000_0000
    ensures var z := x / m + (y % m) * k;
      z < 0x1_0000_0000 && Mul(z, m) == x - x % m + 0x1_0000_0000 * (y % m)
  {
    var a, b := x / m, y % m;
    assert (a + b * k) * m == a * m + b * (m * k);
    if a >= k {
      MulMono(k, a, m);
    }
    MulMono(b, m - 1, k);
    assert (m - 1) * k == m * k - k;
  }

  lemma ScaledValue(d: seq<int>, m: int)
    requires |d| == 8
    ensures Mul(Value(d), m) == Value([Mul(d[0], m), Mul(d[1], m), Mul(d[2], m), Mul(d[3], m), Mul(d[4], m),
          Mul(d[5], m), Mul(d[6], m), Mul(d[7], m)])
  {
  }

  /** What every limb hands down to its neighbour cancels, except the bits that leave the lowest one. */
  lemma Telescoped(d: seq<int>, low: seq<int>, p: seq<int>)
    requires |d| == 8 && |low| == 9 && |p| == 8 && low[8] == 0
    requires forall i {:trigger p[i]} :: 0 <= i < 8 ==> p[i] == d[i] - low[i] + 0x1_0000_0000 * low[i + 1]
    ensures Value(p) == Value(d) - low[0]
  {
  }

  function ShiftLimb(x: Word, y: Word, n: nat): (z: Word)
    requires 0 < n < 32
    ensures Mul(z, Pow2(n)) == x - x % Pow2(n) + 0x1_0000_0000 * (y % Pow2(n))
  {
    ShiftedLimb(x, y, n);
    Shr(x, n) + Shl32(y, 32 - n)
  }

  lemma ShiftedValue(d: seq<Word>, z: seq<Word>, n: nat)
    requires |d| == |z| == 8 && 0 < n < 32
    requires forall i :: 0 <= i < 7 ==> z[i] == ShiftLimb(d[i], d[i + 1], n)
    requires z[7] == ShiftLimb(d[7], 0, n)
    ensures Value(d) == Value(z) * Pow2(n) + d[0] % Pow2(n)
  {
    hide Value, Pow2, ShiftLimb;
    var m := Pow2(n);
    ScaledValue(z, m);
    var p := [Mul(z[0], m), Mul(z[1], m), Mul(z[2], m), Mul(z[3], m), Mul(z[4], m), Mul(z[5], m), Mul(z[6], m),
        Mul(z[7], m)];
    assert Mul(Value(z), m) == Value(z) * m;
    hide Mul;
    var low: seq<int> := [d[0] % m, d[1] % m, d[2] % m, d[3] % m, d[4] % m, d[5] % m, d[6] % m, d[7] % m, 0];
    Telescoped(d, low, p);
  }

  method ShrInt(r: array<Word>, n: nat) returns (ret: nat)
    requires r.Length == 8 && 0 < n < 16
    modifies r
    ensures ret < Pow2(n)
    ensures old(Value(r[..])) == Value(r[..]) * Pow2(n) + ret
  {
    hide Pow2, Mul, And, ShiftLimb, Value;
    ghost var d := r[..];
    AndMask(d[0], n);
    ret := And(r[0], Pow2(n) - 1);
    r[0] := ShiftLimb(r[0], r[1], n);
    r[1] := ShiftLimb(r[1], r[2], n);
    r[2] := ShiftLimb(r[2], r[3], n);
    r[3] := ShiftLimb(r[3], r[4], n);
    r[4] := ShiftLimb(r[4], r[5], n);
    r[5] := ShiftLimb(r[5], r[6], n);
    r[6] := ShiftLimb(r[6], r[7], n);
    r[7] := ShiftLimb(r[7], 0, n);
    ShiftedValue(d, r[..], n);
  }

  function BitLimb(bit: nat, i: nat): (z: Word)
  {
    if bit / 32 == i then Shl32(1, bit % 32) else 0
  }

  lemma BitInLimb(s: nat)
    requires s < 32
    ensures Shl32(1, s) == Pow2(s)
  {
    Pow2Values();
    Pow2Mono(s, 31);
    Pow2Add(31, 1);
  }

  lemma LimbPower(q: nat, s: nat)
    ensures Pow2(32 * q + 32 + s) == 0x1_0000_0000 * Pow2(32 * q + s)
  {
    Pow2Values();
    Pow2Add(32, 32 * q + s);
  }

  /** One bit set in one limb is one bit set in the value; a position past the last limb sets none. */
  lemma {:induction false} BitValue(bit: nat, q: nat, inc: seq<int>)
    requires |inc| == 8 && q <= 8
    requires forall i {:trigger inc[i]} :: 0 <= i < 8 ==> inc[i] == BitLimb(bit, i)
    ensures Tail(inc, q) == if 32 * q <= bit < 256 then Pow2(bit - 32 * q) else 0
    decreases 8 - q
  {
    hide Pow2, Shl32;
    if q < 8 {
      BitValue(bit, q + 1, inc);
      BitInLimb(bit % 32);
      if 32 * q + 32 <= bit < 256 {
        LimbPower(bit / 32 - q - 1, bit % 32);
      }
    }
  }

  method CaddBit(r: array<Word>, bit: nat, flag: bool)
    requires r.Length == 8 && bit < 256
    requires flag ==> Value(r[..]) + Pow2(bit) < R256
    modifies r
    ensures Value(r[..]) == old(Value(r[..])) + if flag then Pow2(bit) else 0
  {
    hide BitLimb, Pow2, Value;
    var at := if flag then bit else bit + 0x100;
    var inc: seq<Word> := [BitLimb(at, 0), BitLimb(at, 1), BitLimb(at, 2), BitLimb(at, 3),
                           BitLimb(at, 4), BitLimb(at, 5), BitLimb(at, 6), BitLimb(at, 7)];
    BitValue(at, 0, inc);
    WholeTail(inc);
    ValueRange(r[..]);
    var z, t := AddLimbs(r[..], inc);
    ValueRange(z);
    Store(r, z);
  }
}
