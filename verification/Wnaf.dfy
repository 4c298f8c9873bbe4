/** Variable-time recoding of a scalar into sparse odd signed digits. */
module Wnaf {
  import opened Bits
  import opened Fermat
  import opened Scalar
  import opened ScalarBits
  import opened Words

  /** The number whose digits to base `b` are `d`, least significant first. */
  ghost function Horner(d: seq<int>, b: int): int {
    if d == [] then 0 else d[0] + b * Horner(d[1..], b)
  }

  lemma {:induction false} HornerAppend(d: seq<int>, x: int, b: int)
    ensures Horner(d + [x], b) == Horner(d, b) + x * Pow(b, |d|)
  {
    if d == [] {
      assert (d + [x])[1..] == [];
    } else {
      assert (d + [x])[1..] == d[1..] + [x];
      HornerAppend(d[1..], x, b);
      var p := Pow(b, |d| - 1);
      assert b * (Horner(d[1..], b) + x * p) == b * Horner(d[1..], b) + x * (b * p);
    }
  }

  lemma {:induction false} PowerOfTwo(n: nat)
    ensures Pow(2, n) == Pow2(n)
  {
    if n > 0 {
      PowerOfTwo(n - 1);
    }
  }

  lemma {:induction false} HornerZeros(d: seq<int>, b: int)
    requires forall i :: 0 <= i < |d| ==> d[i] == 0
    ensures Horner(d, b) == 0
  {
    if d != [] {
      HornerZeros(d[1..], b);
    }
  }

  /** Zero digits above do not count. */
  lemma {:induction false} HornerExtend(d: seq<int>, m: nat, n: nat, b: int)
    requires m <= n <= |d| && forall i :: m <= i < n ==> d[i] == 0
    ensures Horner(d[..n], b) == Horner(d[..m], b)
    decreases n
  {
    if m < n {
      HornerExtend(d, m, n - 1, b);
      assert d[..n] == d[..n - 1] + [d[n - 1]];
      HornerAppend(d[..n - 1], 0, b);
    }
  }

  ghost function Abs(x: int): int {
    if x < 0 then -x else x
  }

  /** What the digits from position i on stand for. */
  ghost function From(d: seq<int>, i: nat, b: int): int {
    if i <= |d| then Horner(d[i..], b) else 0
  }

  lemma FromStep(d: seq<int>, i: nat, b: int)
    requires i < |d|
    ensures From(d, i, b) == b * From(d, i + 1, b) + d[i]
  {
    assert d[i..][1..] == d[i + 1..];
  }

  lemma FromZeros(d: seq<int>, i: nat, b: int)
    requires i <= |d| && forall j :: i <= j < |d| ==> d[j] == 0
    ensures From(d, i, b) == 0
  {
    HornerZeros(d[i..], b);
  }

  lemma FromStart(d: seq<int>, b: int)
    ensures From(d, 0, b) == Horner(d, b)
  {
    assert d[0..] == d;
  }

  /** The digits that the recoding may use: zero, or odd and below 2^(w - 1) in absolute value. */
  ghost predicate Digit(x: int, w: nat)
    requires w > 0
  {
    x == 0 || (x % 2 == 1 && Abs(x) < Pow2(w - 1))
  }

  ghost predicate Digits(d: seq<int>, w: nat)
    requires w > 0
  {
    forall i :: 0 <= i < |d| ==> Digit(d[i], w)
  }

  /** Nonzero digits are at least `w` apart. */
  ghost predicate Spaced(d: seq<int>, w: nat) {
    forall i, j :: 0 <= i < j < |d| && d[i] != 0 && d[j] != 0 ==> j - i >= w
  }

  /** The residue that the digits stand for: the representative nearer to zero. */
  ghost function Signed(a: int): int {
    if a >= R256 / 2 then a - N else a
  }

  lemma ModSplit(v: nat, offset: nat, count: nat)
    ensures v % Pow2(offset + count) == v % Pow2(offset) + Pow2(offset) * Field(v, offset, count)
  {
    var b, c := Pow2(offset), Pow2(count);
    Pow2Add(offset, count);
    hide Pow2;
    SplitQuotient(v, b, c);
  }

  lemma SplitQuotient(v: nat, b: nat, c: nat)
    requires b > 0 && c > 0
    ensures b * c > 0 && v % (b * c) == v % b + b * ((v / b) % c)
  {
    var q, r := v / b, v % b;
    var q', r' := q / c, q % c;
    assert b * c > 0;
    assert v == q' * (b * c) + (b * r' + r);
    assert b * r' <= b * (c - 1);
    DivModUnique(v, b * c, q', b * r' + r);
  }

  /** A field, split at an inner position. */
  lemma FieldSplit(v: nat, offset: nat, m: nat, n: nat)
    ensures Field(v, offset, m + n) == Field(v, offset, m) + Pow2(m) * Field(v, offset + m, n)
  {
    Pow2Add(m, n);
    Pow2Add(offset, m);
    hide Pow2;
    QuotientSplit(v, Pow2(offset), Pow2(m), Pow2(n));
  }

  lemma QuotientSplit(v: nat, a: nat, b: nat, c: nat)
    requires a > 0 && b > 0 && c > 0
    ensures a * b > 0 && b * c > 0 && (v / a) % (b * c) == (v / a) % b + b * ((v / (a * b)) % c)
  {
    SplitQuotient(v / a, b, c);
    DivDiv(v, a, b);
  }

  lemma FieldBound(v: nat, offset: nat, count: nat)
    ensures 0 <= Field(v, offset, count) < Pow2(count)
  {
  }

  lemma PowOne()
    ensures Pow2(1) == 2 && Pow2(0) == 1
  {
  }

  lemma FieldParity(v: nat, offset: nat, count: nat)
    requires count > 0
    ensures Field(v, offset, count) % 2 == Field(v, offset, 1)
  {
    PowOne();
    FieldSplit(v, offset, 1, count - 1);
    FieldBound(v, offset, 1);
  }

  lemma FieldTop(v: nat, offset: nat, count: nat)
    requires count > 0 && Field(v, offset, count) >= Pow2(count - 1)
    ensures Field(v, offset + count - 1, 1) == 1
  {
    PowOne();
    FieldSplit(v, offset, count - 1, 1);
    FieldBound(v, offset, count - 1);
    FieldBound(v, offset + count - 1, 1);
  }

  /** A set bit bounds a number from below. */
  lemma BitBound(v: nat, offset: nat)
    requires Field(v, offset, 1) != 0
    ensures v >= Pow2(offset)
  {
    hide Pow2;
    PowOne();
    if v < Pow2(offset) {
      DivModUnique(v, Pow2(offset), 0, v);
    }
  }

  /** The word at a digit position. */
  lemma WordFacts(v: nat, bit: nat, now: nat, w: nat, carry: nat, word: nat)
    requires 2 <= w && 0 < now <= w && carry <= 1 && Field(v, bit, 1) != carry
    requires word == Field(v, bit, now) + carry
    ensures word % 2 == 1 && word < Pow2(w) && word != Pow2(w - 1)
    ensures word >= Pow2(w - 1) ==> now == w && Field(v, bit, now) >= Pow2(w - 1)
  {
    FieldParity(v, bit, now);
    FieldBound(v, bit, now);
    FieldBound(v, bit, 1);
    PowOne();
    Pow2Even(w);
    Pow2Even(w - 1);
    hide Field, Pow2;
    if now < w {
      Pow2Mono(now, w - 1);
    }
  }

  /** The word at a digit position, and the carry out of it. */
  lemma DigitFacts(v: nat, bit: nat, now: nat, w: nat, carry: nat, word: nat)
    requires 2 <= w && 0 < now <= w && carry <= 1 && Field(v, bit, 1) != carry
    requires word == Field(v, bit, now) + carry
    ensures word % 2 == 1 && word < Pow2(w) && word != Pow2(w - 1)
    ensures And(Shr(word, w - 1), 1) == if word >= Pow2(w - 1) then 1 else 0
    ensures word >= Pow2(w - 1) ==> now == w && Field(v, bit + now - 1, 1) == 1
  {
    hide *;
    WordFacts(v, bit, now, w, carry, word);
    CarryBit(word, w);
    if word >= Pow2(w - 1) {
      FieldTop(v, bit, w);
    }
  }

  lemma CarryBit(word: nat, w: nat)
    requires w > 0 && word < Pow2(w)
    ensures And(Shr(word, w - 1), 1) == if word >= Pow2(w - 1) then 1 else 0
  {
    var p := Pow2(w - 1);
    assert Pow2(w) == 2 * p;
    PowOne();
    AndMask(Shr(word, w - 1), 1);
    HalfQuotient(word, p);
  }

  lemma HalfQuotient(x: nat, p: nat)
    requires p > 0 && x < 2 * p
    ensures x / p == if x >= p then 1 else 0
  {
    if x >= p {
      DivModUnique(x, p, 1, x - p);
    }
  }

  /** What the digits below `bit` and the carry account for. */
  ghost predicate Accounts(h: int, sign: int, v: nat, bit: nat, carry: int) {
    h == sign * (v % Pow2(bit) - carry * Pow2(bit))
  }

  lemma SkipAccounts(h: int, sign: int, v: nat, bit: nat, carry: int)
    requires Accounts(h, sign, v, bit, carry) && Field(v, bit, 1) == carry
    ensures Accounts(h, sign, v, bit + 1, carry)
  {
    ModSplit(v, bit, 1);
    assert Pow2(bit + 1) == 2 * Pow2(bit);
    hide Pow2;
    SkipProduct(Pow2(bit), carry);
  }

  lemma SkipProduct(b: int, c: int)
    ensures b * c - c * (2 * b) == -(c * b)
  {
  }

  lemma DigitAccounts(h: int, sign: int, v: nat, bit: nat, carry: int, now: nat, w: nat, f: int, up: int)
    requires Accounts(h, sign, v, bit, carry) && f == Field(v, bit, now)
    requires (sign == 1 || sign == -1) && (up == 0 || now == w)
    ensures Accounts(h + (sign * (f + carry - up * Pow2(w))) * Pow2(bit), sign, v, bit + now, up)
  {
    ModSplit(v, bit, now);
    Pow2Add(bit, now);
    hide Pow2;
    DigitProduct(sign, v % Pow2(bit), Pow2(bit), carry, f, up, Pow2(w), Pow2(bit + now));
  }

  lemma DigitProduct(sign: int, low: int, b: int, carry: int, f: int, up: int, p: int, bn: int)
    requires (sign == 1 || sign == -1) && (up == 0 || bn == b * p)
    ensures sign * (low - carry * b) + (sign * (f + carry - up * p)) * b == sign * ((low + b * f) - up * bn)
  {
    if up != 0 {
      assert up * bn == (up * p) * b;
    }
    assert (f + carry - up * p) * b == f * b + carry * b - (up * p) * b;
    if sign == -1 {
      assert (-(f + carry - up * p)) * b == -((f + carry - up * p) * b);
    }
  }

  /** Setting a digit where there were only zeros. */
  lemma HornerSet(before: seq<int>, after: seq<int>, bit: nat, now: nat)
    requires |before| == |after| && bit + now <= |after| && now > 0
    requires after[..bit] == before[..bit] && forall i :: bit < i < bit + now ==> after[i] == 0
    ensures Horner(after[..bit + now], 2) == Horner(before[..bit], 2) + after[bit] * Pow2(bit)
  {
    HornerExtend(after, bit + 1, bit + now, 2);
    assert after[..bit + 1] == after[..bit] + [after[bit]];
    HornerAppend(after[..bit], after[bit], 2);
    PowerOfTwo(bit);
  }

  /** The recoding state: what is written so far, the highest digit written, and the carry. */
  ghost predicate Recoded(d: seq<int>, w: nat, v: nat, sign: int, bit: nat, carry: nat, last: int)
    requires w > 0
  {
    && bit <= |d| && carry <= 1 && -1 <= last < bit
    && Accounts(Horner(d[..bit], 2), sign, v, bit, carry)
    && Digits(d, w) && Spaced(d, w)
    && (forall i :: last < i < |d| ==> d[i] == 0)
    && (last >= 0 ==> d[last] != 0 && (bit >= last + w || bit == |d|))
    && (last > 0 ==> v >= Pow2(last - 1))
    && (carry == 1 ==> bit > 0 && Field(v, bit - 1, 1) == 1)
  }

  lemma RecodedSkip(d: seq<int>, w: nat, v: nat, sign: int, bit: nat, carry: nat, last: int)
    requires w > 0 && bit < |d| && Recoded(d, w, v, sign, bit, carry, last) && Field(v, bit, 1) == carry
    ensures Recoded(d, w, v, sign, bit + 1, carry, last)
  {
    HornerExtend(d, bit, bit + 1, 2);
    hide Horner, Digit, Field, Accounts;
    SkipAccounts(Horner(d[..bit], 2), sign, v, bit, carry);
  }

  /** A digit is written only where the number reaches at least the bit below. */
  lemma DigitReached(v: nat, bit: nat, carry: nat)
    requires carry <= 1 && Field(v, bit, 1) != carry
    requires carry == 1 ==> bit > 0 && Field(v, bit - 1, 1) == 1
    ensures bit > 0 ==> v >= Pow2(bit - 1)
  {
    hide Field, Pow2;
    if bit > 0 {
      Pow2Mono(bit - 1, bit);
      if carry == 0 {
        BitBound(v, bit);
      } else {
        BitBound(v, bit - 1);
      }
    }
  }

  lemma DigitWritten(d: seq<int>, d': seq<int>, w: nat, bit: nat, last: int)
    requires w > 0 && bit < |d| == |d'| && -1 <= last < bit && d' == d[bit := d'[bit]]
    requires Digits(d, w) && Spaced(d, w) && Digit(d'[bit], w)
    requires (forall i :: last < i < |d| ==> d[i] == 0) && (last >= 0 ==> bit >= last + w)
    ensures Digits(d', w) && Spaced(d', w)
    ensures forall i :: bit < i < |d'| ==> d'[i] == 0
  {
    hide Digit;
  }

  lemma RecodedDigit(d: seq<int>, d': seq<int>, w: nat, v: nat, sign: int, bit: nat, carry: nat, last: int,
                     now: nat, word: nat, up: nat)
    requires 2 <= w && bit < |d| == |d'| && Recoded(d, w, v, sign, bit, carry, last) && Field(v, bit, 1) != carry
    requires sign == 1 || sign == -1
    requires now == (if w > |d| - bit then |d| - bit else w)
    requires word == Field(v, bit, now) + carry && up == And(Shr(word, w - 1), 1)
    requires d' == d[bit := sign * (word - up * Pow2(w))]
    ensures up <= 1 && Recoded(d', w, v, sign, bit + now, up, bit)
  {
    hide Field, And, Shr, Digit, Digits, Spaced, Pow2, Horner, Accounts;
    DigitFacts(v, bit, now, w, carry, word);
    Pow2Even(w);
    NewDigit(sign, word, up, w);
    DigitReached(v, bit, carry);
    DigitWritten(d, d', w, bit, last);
    HornerSet(d, d', bit, now);
    DigitAccounts(Horner(d[..bit], 2), sign, v, bit, carry, now, w, word - carry, up);
  }

  lemma NewDigit(sign: int, word: nat, up: nat, w: nat)
    requires w > 0 && (sign == 1 || sign == -1) && word % 2 == 1 && word < Pow2(w) && word != Pow2(w - 1)
    requires Pow2(w) == 2 * Pow2(w - 1) && up == if word >= Pow2(w - 1) then 1 else 0
    ensures var x := sign * (word - up * Pow2(w)); Digit(x, w) && x != 0
  {
    hide Pow2;
    var p := Pow2(w - 1);
    if up == 1 {
      assert up * Pow2(w) == 2 * p;
      assert (word - 2 * p) % 2 == 1 && (2 * p - word) % 2 == 1;
    } else {
      assert up * Pow2(w) == 0;
      NegOdd(word);
    }
  }

  lemma NegOdd(x: int)
    requires x % 2 == 1
    ensures (-x) % 2 == 1
  {
  }

  lemma RecodedWhole(d: seq<int>, w: nat, v: nat, sign: int, carry: nat, last: int)
    requires w > 0 && Recoded(d, w, v, sign, |d|, carry, last)
    requires (|d| == 0 && v == 0) || (|d| > 0 && v < Pow2(|d| - 1))
    ensures carry == 0 && Horner(d, 2) == sign * v
  {
    assert d[..|d|] == d;
    hide Horner, Pow2, Field, Digits, Spaced;
    PowOne();
    if |d| > 0 {
      Pow2Even(|d|);
      if Field(v, |d| - 1, 1) != 0 {
        BitBound(v, |d| - 1);
      }
    }
    SmallRemainder(v, Pow2(|d|));
  }

  lemma SmallRemainder(v: nat, m: nat)
    requires v < m
    ensures v % m == v
  {
  }

  lemma HalfPower()
    ensures Pow2(255) == R256 / 2 && Pow2(1) == 2
  {
    PowOne();
    Pow2Wide();
    hide Pow2;
  }

  lemma FieldOfTop(v: nat)
    requires v < R256
    ensures Field(v, 255, 1) != 0 <==> v >= R256 / 2
  {
    HalfPower();
    hide Pow2;
    HalfQuotient(v, R256 / 2);
  }

  /** The working scalar and its sign stand for the signed residue. */
  lemma SignedHalf(a: int, v: int, sign: int)
    requires 0 <= a < N
    requires if Field(a, 255, 1) != 0 then sign == -1 && v == (N - a) % N else sign == 1 && v == a
    ensures 0 <= v < Pow2(255) && Signed(a) == sign * v && Abs(Signed(a)) == v
    ensures sign == 1 || sign == -1
  {
    FieldOfTop(a);
    hide Field;
    HalfPower();
    hide Pow2;
  }

  lemma RecodedStart(d: seq<int>, w: nat, v: nat, sign: int)
    requires w > 0 && forall i :: 0 <= i < |d| ==> d[i] == 0
    ensures Recoded(d, w, v, sign, 0, 0, -1)
  {
    assert d[..0] == [];
    PowOne();
  }

  lemma RecodedEnd(d: seq<int>, w: nat, v: nat, sign: int, carry: nat, last: int, a: int)
    requires w > 0 && Recoded(d, w, v, sign, |d|, carry, last)
    requires v < Pow2(255) && Signed(a) == sign * v && Abs(Signed(a)) == v
    ensures |d| > 0 && Abs(Signed(a)) < Pow2(|d| - 1) ==> Horner(d, 2) == Signed(a)
    ensures |d| == 256 ==> Horner(d, 2) == Signed(a)
    ensures last > 0 ==> Abs(Signed(a)) >= Pow2(last - 1)
    ensures Digits(d, w) && Spaced(d, w) && -1 <= last < |d| && (last >= 0 ==> d[last] != 0)
    ensures forall i :: last < i < |d| ==> d[i] == 0
  {
    hide Signed, Horner, Abs, Pow2, Digits, Spaced;
    if |d| > 0 && v < Pow2(|d| - 1) {
      RecodedWhole(d, w, v, sign, carry, last);
    }
  }

  /** The recoding loop. */
  method EcmultWnaf(wnaf: array<int>, a: seq<Word>, w: nat) returns (bits: nat)
    requires wnaf.Length <= 256 && |a| == 8 && Value(a) < N && 2 <= w <= 31
    modifies wnaf
    ensures bits <= wnaf.Length
    ensures Digits(wnaf[..], w) && Spaced(wnaf[..], w)
    ensures bits > 0 ==> wnaf[bits - 1] != 0
    ensures forall i :: bits <= i < wnaf.Length ==> wnaf[i] == 0
    ensures bits > 1 ==> Abs(Signed(Value(a))) >= Pow2(bits - 2)
    ensures wnaf.Length > 0 && Abs(Signed(Value(a))) < Pow2(wnaf.Length - 1) ==> Horner(wnaf[..], 2) == Signed(Value(a))
    ensures wnaf.Length == 256 ==> Horner(wnaf[..], 2) == Signed(Value(a))
  {
    hide *;
    var s := new Word[8];
    Store(s, a);
    ValueRange(a);
    var lastSetBit, bit, sign := -1, 0, 1;
    var carry: nat := 0;
    forall i | 0 <= i < wnaf.Length {
      wnaf[i] := 0;
    }
    assert s[..] == a;
    if GetBits(s[..], 255, 1) != 0 {
      Scalar.Negate(s, s);
      sign := -1;
    }
    ghost var v := Value(s[..]);
    ghost var digits := s[..];
    SignedHalf(Value(a), v, sign);
    RecodedStart(wnaf[..], w, v, sign);
    while bit < wnaf.Length
      invariant s[..] == digits
      invariant bit <= wnaf.Length && carry <= 1
      invariant Recoded(wnaf[..], w, v, sign, bit, carry, lastSetBit)
    {
      ghost var d := wnaf[..];
      if GetBits(s[..], bit, 1) == carry {
        RecodedSkip(d, w, v, sign, bit, carry, lastSetBit);
        bit := bit + 1;
      } else {
        var now := w;
        if now > wnaf.Length - bit {
          now := wnaf.Length - bit;
        }
        var word := GetBitsVar(s[..], bit, now) + carry;
        ghost var carry0, word0 := carry, word;
        carry := And(Shr(word, w - 1), 1);
        word := word - carry * Pow2(w);
        wnaf[bit] := sign * word;
        RecodedDigit(d, wnaf[..], w, v, sign, bit, carry0, lastSetBit, now, word0, carry);
        lastSetBit := bit;
        bit := bit + now;
      }
    }
    RecodedEnd(wnaf[..], w, v, sign, carry, lastSetBit, Value(a));
    bits := lastSetBit + 1;
  }
}
