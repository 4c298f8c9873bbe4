/** The digest of the message of the standard's example, the three letters abc, evaluated on bit vectors. */
module KnownAnswer {
  import opened Bits
  import opened Fips180
  import opened Memory
  import opened WordVectors
  import opened Words
  import Sha256Laws

  /** A rotation by a bits and then by b bits. */
  lemma RotrTwice(v: Word, a: nat, b: nat)
    requires a + b <= 32
    ensures Rotr(v, a) < 0x1_0000_0000 && Rotr(Rotr(v, a), b) == Rotr(v, a + b)
  {
    hide *;
    var r := Rotr(v, a);
    Sha256Laws.RotrIs(v, a);
    Sha256Laws.RotrIs(r, b);
    Sha256Laws.RotrIs(v, a + b);
    forall i | 0 <= i < 32
      ensures Field(Rotr(r, b), i, 1) == Field(Rotr(v, a + b), i, 1)
    {
      RotrTwiceBit(v, r, a, b, i);
    }
    Pow2Values();
    SameBits(Rotr(r, b), Rotr(v, a + b), 32);
  }

  lemma RotrTwiceBit(v: Word, r: Word, a: nat, b: nat, i: nat)
    requires a + b <= 32 && i < 32 && r == Rotr(v, a)
    ensures Field(Rotr(r, b), i, 1) == Field(Rotr(v, a + b), i, 1)
  {
    hide *;
    Sha256Laws.RotrBit(r, b, i);
    Sha256Laws.RotrBit(v, a, (i + b) % 32);
    Sha256Laws.RotrBit(v, a + b, i);
    Around(i, a, b);
  }

  lemma Around(i: nat, a: nat, b: nat)
    ensures ((i + b) % 32 + a) % 32 == (i + (a + b)) % 32
  {
  }

  /** Rotations by a power of two. */
  ghost function R1(x: bv32): bv32 {
    Rotated(x)
  }

  ghost function R2(x: bv32): bv32 {
    (x >> 2) | (x << 30)
  }

  ghost function R4(x: bv32): bv32 {
    (x >> 4) | (x << 28)
  }

  ghost function R8(x: bv32): bv32 {
    (x >> 8) | (x << 24)
  }

  ghost function R16(x: bv32): bv32 {
    (x >> 16) | (x << 16)
  }

  lemma NumberR1(x: bv32)
    ensures Number(R1(x)) == Rotr(Number(x), 1)
  {
    hide Number, Rotr, Rotated;
    NumberRotated(x);
  }

  lemma R2Is(x: bv32)
    ensures R2(x) == R1(R1(x))
  {
  }

  lemma NumberR2(x: bv32)
    ensures Number(R2(x)) == Rotr(Number(x), 2)
  {
    hide *;
    R2Is(x);
    NumberR1(x);
    NumberR1(R1(x));
    RotrTwice(Number(x), 1, 1);
  }

  lemma R4Is(x: bv32)
    ensures R4(x) == R2(R2(x))
  {
  }

  lemma NumberR4(x: bv32)
    ensures Number(R4(x)) == Rotr(Number(x), 4)
  {
    hide *;
    R4Is(x);
    NumberR2(x);
    NumberR2(R2(x));
    RotrTwice(Number(x), 2, 2);
  }

  lemma R8Is(x: bv32)
    ensures R8(x) == R4(R4(x))
  {
  }

  lemma NumberR8(x: bv32)
    ensures Number(R8(x)) == Rotr(Number(x), 8)
  {
    hide *;
    R8Is(x);
    NumberR4(x);
    NumberR4(R4(x));
    RotrTwice(Number(x), 4, 4);
  }

  lemma R16Is(x: bv32)
    ensures R16(x) == R8(R8(x))
  {
  }

  lemma NumberR16(x: bv32)
    ensures Number(R16(x)) == Rotr(Number(x), 16)
  {
    hide *;
    R16Is(x);
    NumberR8(x);
    NumberR8(R8(x));
    RotrTwice(Number(x), 8, 8);
  }

  lemma Rotation6(x: bv32)
    ensures Number(R4(R2(x))) == Rotr(Number(x), 6)
  {
    hide *;
    NumberR2(x);
    NumberR4(R2(x));
    RotrTwice(Number(x), 2, 4);
  }

  lemma Rotation7(x: bv32)
    ensures Number(R4(R2(R1(x)))) == Rotr(Number(x), 7)
  {
    hide *;
    NumberR1(x);
    NumberR2(R1(x));
    RotrTwice(Number(x), 1, 2);
    NumberR4(R2(R1(x)));
    RotrTwice(Number(x), 3, 4);
  }

  lemma Rotation11(x: bv32)
    ensures Number(R8(R2(R1(x)))) == Rotr(Number(x), 11)
  {
    hide *;
    NumberR1(x);
    NumberR2(R1(x));
    RotrTwice(Number(x), 1, 2);
    NumberR8(R2(R1(x)));
    RotrTwice(Number(x), 3, 8);
  }

  lemma Rotation13(x: bv32)
    ensures Number(R8(R4(R1(x)))) == Rotr(Number(x), 13)
  {
    hide *;
    NumberR1(x);
    NumberR4(R1(x));
    RotrTwice(Number(x), 1, 4);
    NumberR8(R4(R1(x)));
    RotrTwice(Number(x), 5, 8);
  }

  lemma Rotation17(x: bv32)
    ensures Number(R16(R1(x))) == Rotr(Number(x), 17)
  {
    hide *;
    NumberR1(x);
    NumberR16(R1(x));
    RotrTwice(Number(x), 1, 16);
  }

  lemma Rotation18(x: bv32)
    ensures Number(R16(R2(x))) == Rotr(Number(x), 18)
  {
    hide *;
    NumberR2(x);
    NumberR16(R2(x));
    RotrTwice(Number(x), 2, 16);
  }

  lemma Rotation19(x: bv32)
    ensures Number(R16(R2(R1(x)))) == Rotr(Number(x), 19)
  {
    hide *;
    NumberR1(x);
    NumberR2(R1(x));
    RotrTwice(Number(x), 1, 2);
    NumberR16(R2(R1(x)));
    RotrTwice(Number(x), 3, 16);
  }

  lemma Rotation22(x: bv32)
    ensures Number(R16(R4(R2(x)))) == Rotr(Number(x), 22)
  {
    hide *;
    NumberR2(x);
    NumberR4(R2(x));
    RotrTwice(Number(x), 2, 4);
    NumberR16(R4(R2(x)));
    RotrTwice(Number(x), 6, 16);
  }

  lemma Rotation25(x: bv32)
    ensures Number(R16(R8(R1(x)))) == Rotr(Number(x), 25)
  {
    hide *;
    NumberR1(x);
    NumberR8(R1(x));
    RotrTwice(Number(x), 1, 8);
    NumberR16(R8(R1(x)));
    RotrTwice(Number(x), 9, 16);
  }

  ghost function BigSigma0Vector(x: bv32): bv32 {
    Xored(Xored(R2(x), R8(R4(R1(x)))), R16(R4(R2(x))))
  }

  ghost function BigSigma1Vector(x: bv32): bv32 {
    Xored(Xored(R4(R2(x)), R8(R2(R1(x)))), R16(R8(R1(x))))
  }

  ghost function SmallSigma0Vector(x: bv32): bv32 {
    Xored(Xored(R4(R2(R1(x))), R16(R2(x))), Half(Half(Half(x))))
  }

  ghost function SmallSigma1Vector(x: bv32): bv32 {
    Xored(Xored(R16(R1(x)), R16(R2(R1(x)))), Quarter(Quarter(Half(Half(x)))))
  }

  lemma Xor3(x: bv32, y: bv32, z: bv32)
    ensures Number(Xored(Xored(x, y), z)) == Xor(Xor(Number(x), Number(y)), Number(z))
  {
    hide *;
    NumberXor(Xored(x, y), z);
    NumberXor(x, y);
  }

  lemma NumberShift3(x: bv32)
    ensures Number(Half(Half(Half(x)))) == Shr(Number(x), 3)
  {
    hide Number, Half;
    NumberHalf(x);
    NumberHalf(Half(x));
    NumberHalf(Half(Half(x)));
    assert Pow2(3) == 8;
  }

  lemma NumberQuarter(x: bv32)
    ensures Number(Quarter(x)) == Number(x) / 16
  {
    hide *;
    QuarterIs(x);
    NumberHalf(x);
    NumberHalf(Half(x));
    NumberHalf(Half(Half(x)));
    NumberHalf(Half(Half(Half(x))));
  }

  lemma NumberShift10(x: bv32)
    ensures Number(Quarter(Quarter(Half(Half(x))))) == Shr(Number(x), 10)
  {
    hide Number, Half, Quarter;
    NumberHalf(x);
    NumberHalf(Half(x));
    NumberQuarter(Half(Half(x)));
    NumberQuarter(Quarter(Half(Half(x))));
    assert Pow2(10) == 1024;
  }

  lemma BigSigma0Number(x: bv32)
    ensures Number(BigSigma0Vector(x)) == BigSigma0(Number(x))
  {
    hide Number, Xor, Xored, Rotr, Half, Quarter, Shr, R1, R2, R4, R8, R16;
    NumberR2(x);
    Rotation13(x);
    Rotation22(x);
    Xor3(R2(x), R8(R4(R1(x))), R16(R4(R2(x))));
  }

  lemma BigSigma1Number(x: bv32)
    ensures Number(BigSigma1Vector(x)) == BigSigma1(Number(x))
  {
    hide Number, Xor, Xored, Rotr, Half, Quarter, Shr, R1, R2, R4, R8, R16;
    Rotation6(x);
    Rotation11(x);
    Rotation25(x);
    Xor3(R4(R2(x)), R8(R2(R1(x))), R16(R8(R1(x))));
  }

  lemma SmallSigma0Number(x: bv32)
    ensures Number(SmallSigma0Vector(x)) == SmallSigma0(Number(x))
  {
    hide Number, Xor, Xored, Rotr, Half, Quarter, Shr, R1, R2, R4, R8, R16;
    Rotation7(x);
    Rotation18(x);
    NumberShift3(x);
    Xor3(R4(R2(R1(x))), R16(R2(x)), Half(Half(Half(x))));
  }

  lemma SmallSigma1Number(x: bv32)
    ensures Number(SmallSigma1Vector(x)) == SmallSigma1(Number(x))
  {
    hide Number, Xor, Xored, Rotr, Half, Quarter, Shr, R1, R2, R4, R8, R16;
    Rotation17(x);
    Rotation19(x);
    NumberShift10(x);
    Xor3(R16(R1(x)), R16(R2(R1(x))), Quarter(Quarter(Half(Half(x)))));
  }

  ghost function ChVector(x: bv32, y: bv32, z: bv32): bv32 {
    Xored(Anded(x, y), Anded(Inverse(x), z))
  }

  ghost function MajVector(x: bv32, y: bv32, z: bv32): bv32 {
    Xored(Xored(Anded(x, y), Anded(x, z)), Anded(y, z))
  }

  lemma ChNumber(x: bv32, y: bv32, z: bv32)
    ensures Number(ChVector(x, y, z)) == Ch(Number(x), Number(y), Number(z))
  {
    hide Number, Xor, And, Not, Xored, Anded, Inverse;
    NumberAnd(x, y);
    NumberNot(x);
    NumberAnd(Inverse(x), z);
    NumberXor(Anded(x, y), Anded(Inverse(x), z));
  }

  lemma MajNumber(x: bv32, y: bv32, z: bv32)
    ensures Number(MajVector(x, y, z)) == Maj(Number(x), Number(y), Number(z))
  {
    hide Number, Xor, And, Xored, Anded;
    NumberAnd(x, y);
    NumberAnd(x, z);
    NumberAnd(y, z);
    Xor3(Anded(x, y), Anded(x, z), Anded(y, z));
  }

  /** Eight words: a state, or a row of eight constants or of eight words of the schedule. */
  datatype Vectors = Vectors(a: bv32, b: bv32, c: bv32, d: bv32, e: bv32, f: bv32, g: bv32, h: bv32)

  datatype Four = Four(a: bv32, b: bv32, c: bv32, d: bv32)

  ghost function First(v: Vectors): Four {
    Four(v.a, v.b, v.c, v.d)
  }

  ghost function Last(v: Vectors): Four {
    Four(v.e, v.f, v.g, v.h)
  }

  ghost function Numbers(v: Vectors): State {
    State(Number(v.a), Number(v.b), Number(v.c), Number(v.d), Number(v.e), Number(v.f), Number(v.g), Number(v.h))
  }

  ghost function Sum4(u: bv32, v: bv32, w: bv32, x: bv32): bv32 {
    Sum0(Sum0(Sum0(u, v), w), x)
  }

  ghost function Sum5(u: bv32, v: bv32, w: bv32, x: bv32, y: bv32): bv32 {
    Sum0(Sum4(u, v, w, x), y)
  }

  lemma Sum4Number(u: bv32, v: bv32, w: bv32, x: bv32)
    ensures Number(Sum4(u, v, w, x)) == Low32(Number(u) + Number(v) + Number(w) + Number(x))
  {
    hide Number, Sum0, Low32;
    NumberSum(u, v);
    NumberSum(Sum0(u, v), w);
    NumberSum(Sum0(Sum0(u, v), w), x);
    Low32Sum(Number(u) + Number(v), Number(w));
    Low32Sum(Number(u) + Number(v) + Number(w), Number(x));
  }

  lemma Low32Sum(x: nat, y: nat)
    ensures Low32(Low32(x) + y) == Low32(x + y)
  {
  }

  lemma Sum5Number(u: bv32, v: bv32, w: bv32, x: bv32, y: bv32)
    ensures Number(Sum5(u, v, w, x, y)) == Low32(Number(u) + Number(v) + Number(w) + Number(x) + Number(y))
  {
    hide Number, Sum0, Sum4, Low32;
    Sum4Number(u, v, w, x);
    NumberSum(Sum4(u, v, w, x), y);
    Low32Sum(Number(u) + Number(v) + Number(w) + Number(x), Number(y));
  }

  ghost function StepVector(s: Vectors, k: bv32, w: bv32): Vectors {
    var t1 := Sum5(s.h, BigSigma1Vector(s.e), ChVector(s.e, s.f, s.g), k, w);
    var t2 := Sum0(BigSigma0Vector(s.a), MajVector(s.a, s.b, s.c));
    Vectors(Sum0(t1, t2), s.a, s.b, s.c, Sum0(s.d, t1), s.e, s.f, s.g)
  }

  /** A round on vectors is the round of the standard. */
  lemma StepNumbers(s: Vectors, k: bv32, w: bv32)
    ensures Numbers(StepVector(s, k, w)) == Step(Numbers(s), Number(k), Number(w))
  {
    hide Number, Low32, Sum0, Sum5, BigSigma0, BigSigma1, Ch, Maj;
    hide BigSigma0Vector, BigSigma1Vector, ChVector, MajVector;
    BigSigma0Number(s.a);
    BigSigma1Number(s.e);
    ChNumber(s.e, s.f, s.g);
    MajNumber(s.a, s.b, s.c);
    var t1 := Sum5(s.h, BigSigma1Vector(s.e), ChVector(s.e, s.f, s.g), k, w);
    var t2 := Sum0(BigSigma0Vector(s.a), MajVector(s.a, s.b, s.c));
    Sum5Number(s.h, BigSigma1Vector(s.e), ChVector(s.e, s.f, s.g), k, w);
    NumberSum(BigSigma0Vector(s.a), MajVector(s.a, s.b, s.c));
    NumberSum(t1, t2);
    NumberSum(s.d, t1);
  }

  /** Four rounds from s to r, which leave the first four words of each in the other four of the next. */
  ghost predicate FourSteps(s: Vectors, r: Vectors, k: Four, w: Four)
  {
    var s1 := Vectors(r.d, s.a, s.b, s.c, r.h, s.e, s.f, s.g);
    var s2 := Vectors(r.c, r.d, s.a, s.b, r.g, r.h, s.e, s.f);
    var s3 := Vectors(r.b, r.c, r.d, s.a, r.f, r.g, r.h, s.e);
    && StepVector(s, k.a, w.a) == s1 && StepVector(s1, k.b, w.b) == s2
    && StepVector(s2, k.c, w.c) == s3 && StepVector(s3, k.d, w.d) == r
  }

  ghost predicate Constants(i: nat, k: Vectors)
    requires i < 8
  {
    && K(8 * i) == Number(k.a) && K(8 * i + 1) == Number(k.b) && K(8 * i + 2) == Number(k.c)
    && K(8 * i + 3) == Number(k.d) && K(8 * i + 4) == Number(k.e) && K(8 * i + 5) == Number(k.f)
    && K(8 * i + 6) == Number(k.g) && K(8 * i + 7) == Number(k.h)
  }

  ghost predicate Scheduled(m: seq<Word>, i: nat, w: Vectors)
    requires |m| == 16
  {
    && W(m, 8 * i) == Number(w.a) && W(m, 8 * i + 1) == Number(w.b) && W(m, 8 * i + 2) == Number(w.c)
    && W(m, 8 * i + 3) == Number(w.d) && W(m, 8 * i + 4) == Number(w.e) && W(m, 8 * i + 5) == Number(w.f)
    && W(m, 8 * i + 6) == Number(w.g) && W(m, 8 * i + 7) == Number(w.h)
  }

  lemma OneRound(m: seq<Word>, t: nat, s: Vectors, k: bv32, w: bv32)
    requires |m| == 16 && t < 64 && Rounds(INITIAL, m, t) == Numbers(s) && K(t) == Number(k) && W(m, t) == Number(w)
    ensures Rounds(INITIAL, m, t + 1) == Numbers(StepVector(s, k, w))
  {
    StepNumbers(s, k, w);
    hide Numbers, Step, StepVector, Number, K, W;
  }

  lemma FourRounds(m: seq<Word>, t: nat, s: Vectors, r: Vectors, k: Four, w: Four)
    requires |m| == 16 && t + 4 <= 64 && Rounds(INITIAL, m, t) == Numbers(s) && FourSteps(s, r, k, w)
    requires K(t) == Number(k.a) && K(t + 1) == Number(k.b) && K(t + 2) == Number(k.c) && K(t + 3) == Number(k.d)
    requires W(m, t) == Number(w.a) && W(m, t + 1) == Number(w.b)
    requires W(m, t + 2) == Number(w.c) && W(m, t + 3) == Number(w.d)
    ensures Rounds(INITIAL, m, t + 4) == Numbers(r)
  {
    hide Numbers, StepVector, Number, K, W, Rounds;
    OneRound(m, t, s, k.a, w.a);
    OneRound(m, t + 1, Vectors(r.d, s.a, s.b, s.c, r.h, s.e, s.f, s.g), k.b, w.b);
    OneRound(m, t + 2, Vectors(r.c, r.d, s.a, s.b, r.g, r.h, s.e, s.f), k.c, w.c);
    OneRound(m, t + 3, Vectors(r.b, r.c, r.d, s.a, r.f, r.g, r.h, s.e), k.d, w.d);
  }

  lemma EightRounds(m: seq<Word>, i: nat, s: Vectors, h: Vectors, r: Vectors, k: Vectors, w: Vectors)
    requires |m| == 16 && i < 8 && Rounds(INITIAL, m, 8 * i) == Numbers(s) && Constants(i, k) && Scheduled(m, i, w)
    requires FourSteps(s, h, First(k), First(w)) && FourSteps(h, r, Last(k), Last(w))
    ensures Rounds(INITIAL, m, 8 * (i + 1)) == Numbers(r)
  {
    hide Numbers, StepVector, Number, K, W, Rounds, FourSteps;
    FourRounds(m, 8 * i, s, h, First(k), First(w));
    FourRounds(m, 8 * i + 4, h, r, Last(k), Last(w));
  }

  ghost function NextWord(a: bv32, b: bv32, c: bv32, d: bv32): bv32 {
    Sum4(SmallSigma1Vector(a), b, SmallSigma0Vector(c), d)
  }

  lemma NextWordNumber(m: seq<Word>, t: nat, a: bv32, b: bv32, c: bv32, d: bv32)
    requires |m| == 16 && t >= 16 && W(m, t - 2) == Number(a) && W(m, t - 7) == Number(b)
    requires W(m, t - 15) == Number(c) && W(m, t - 16) == Number(d)
    ensures W(m, t) == Number(NextWord(a, b, c, d))
  {
    hide Number, Low32, Sum4, SmallSigma0, SmallSigma1, SmallSigma0Vector, SmallSigma1Vector;
    SmallSigma1Number(a);
    SmallSigma0Number(c);
    Sum4Number(SmallSigma1Vector(a), b, SmallSigma0Vector(c), d);
  }

  /** The first four words of the row r of the schedule come after the rows p and q. */
  ghost predicate FirstFollow(p: Vectors, q: Vectors, r: Vectors) {
    && r.a == NextWord(q.g, q.b, p.b, p.a) && r.b == NextWord(q.h, q.c, p.c, p.b)
    && r.c == NextWord(r.a, q.d, p.d, p.c) && r.d == NextWord(r.b, q.e, p.e, p.d)
  }

  /** And so do the last four. */
  ghost predicate LastFollow(p: Vectors, q: Vectors, r: Vectors) {
    && r.e == NextWord(r.c, q.f, p.f, p.e) && r.f == NextWord(r.d, q.g, p.g, p.f)
    && r.g == NextWord(r.e, q.h, p.h, p.g) && r.h == NextWord(r.f, r.a, q.a, p.h)
  }

  lemma NextRow(m: seq<Word>, i: nat, p: Vectors, q: Vectors, r: Vectors)
    requires |m| == 16 && Scheduled(m, i, p) && Scheduled(m, i + 1, q) && FirstFollow(p, q, r) && LastFollow(p, q, r)
    ensures Scheduled(m, i + 2, r)
  {
    hide Number, W, NextWord;
    var t := 8 * i + 16;
    NextWordNumber(m, t, q.g, q.b, p.b, p.a);
    NextWordNumber(m, t + 1, q.h, q.c, p.c, p.b);
    NextWordNumber(m, t + 2, r.a, q.d, p.d, p.c);
    NextWordNumber(m, t + 3, r.b, q.e, p.e, p.d);
    NextWordNumber(m, t + 4, r.c, q.f, p.f, p.e);
    NextWordNumber(m, t + 5, r.d, q.g, p.g, p.f);
    NextWordNumber(m, t + 6, r.e, q.h, p.h, p.g);
    NextWordNumber(m, t + 7, r.f, r.a, q.a, p.h);
  }

  /** The words of the padded message. */
  ghost function Message(): (m: seq<Word>)
    ensures |m| == 16
  {
    [0x61626380, 0, 0, 0, 0, 0, 0, 0, 0, 0, 0, 0, 0, 0, 0, 0x18]
  }

  const K0 := Vectors(
    0x428a2f98, 0x71374491, 0xb5c0fbcf, 0xe9b5dba5, 0x3956c25b, 0x59f111f1, 0x923f82a4, 0xab1c5ed5)
  const K1 := Vectors(
    0xd807aa98, 0x12835b01, 0x243185be, 0x550c7dc3, 0x72be5d74, 0x80deb1fe, 0x9bdc06a7, 0xc19bf174)
  const K2 := Vectors(
    0xe49b69c1, 0xefbe4786, 0x0fc19dc6, 0x240ca1cc, 0x2de92c6f, 0x4a7484aa, 0x5cb0a9dc, 0x76f988da)
  const K3 := Vectors(
    0x983e5152, 0xa831c66d, 0xb00327c8, 0xbf597fc7, 0xc6e00bf3, 0xd5a79147, 0x06ca6351, 0x14292967)
  const K4 := Vectors(
    0x27b70a85, 0x2e1b2138, 0x4d2c6dfc, 0x53380d13, 0x650a7354, 0x766a0abb, 0x81c2c92e, 0x92722c85)
  const K5 := Vectors(
    0xa2bfe8a1, 0xa81a664b, 0xc24b8b70, 0xc76c51a3, 0xd192e819, 0xd6990624, 0xf40e3585, 0x106aa070)
  const K6 := Vectors(
    0x19a4c116, 0x1e376c08, 0x2748774c, 0x34b0bcb5, 0x391c0cb3, 0x4ed8aa4a, 0x5b9cca4f, 0x682e6ff3)
  const K7 := Vectors(
    0x748f82ee, 0x78a5636f, 0x84c87814, 0x8cc70208, 0x90befffa, 0xa4506ceb, 0xbef9a3f7, 0xc67178f2)

  const W0 := Vectors(
    0x61626380, 0x00000000, 0x00000000, 0x00000000, 0x00000000, 0x00000000, 0x00000000, 0x00000000)
  const W1 := Vectors(
    0x00000000, 0x00000000, 0x00000000, 0x00000000, 0x00000000, 0x00000000, 0x00000000, 0x00000018)
  const W2 := Vectors(
    0x61626380, 0x000f0000, 0x7da86405, 0x600003c6, 0x3e9d7b78, 0x0183fc00, 0x12dcbfdb, 0xe2e2c38e)
  const W3 := Vectors(
    0xc8215c1a, 0xb73679a2, 0xe5bc3909, 0x32663c5b, 0x9d209d67, 0xec8726cb, 0x702138a4, 0xd3b7973b)
  const W4 := Vectors(
    0x93f5997f, 0x3b68ba73, 0xaff4ffc1, 0xf10a5c62, 0x0a8b3996, 0x72af830a, 0x9409e33e, 0x24641522)
  const W5 := Vectors(
    0x9f47bf94, 0xf0a64f5a, 0x3e246a79, 0x27333ba3, 0x0c4763f2, 0x840abf27, 0x7a290d5d, 0x065c43da)
  const W6 := Vectors(
    0xfb3e89cb, 0xcc7617db, 0xb9e66c34, 0xa9993667, 0x84badedd, 0xc21462bc, 0x1487472c, 0xb20f7a99)
  const W7 := Vectors(
    0xef57b9cd, 0xebe6b238, 0x9fe3095e, 0x78bc8d4b, 0xa43fcf15, 0x668b2ff8, 0xeeaba2cc, 0x12b1edeb)

  /** The states after every four rounds. */
  const S0 := Vectors(
    0x6a09e667, 0xbb67ae85, 0x3c6ef372, 0xa54ff53a, 0x510e527f, 0x9b05688c, 0x1f83d9ab, 0x5be0cd19)
  const S4 := Vectors(
    0xd550f666, 0xc8c347a7, 0x5a6ad9ad, 0x5d6aebcd, 0x24e00850, 0xf92939eb, 0x78ce7989, 0xfa2a4622)
  const S8 := Vectors(
    0x85a07b5f, 0xe5030380, 0x2b4209f5, 0x04409a6a, 0x0c657a79, 0x9b27a401, 0x714260ad, 0x43ada245)
  const S12 := Vectors(
    0xf71fc5a9, 0x4798a3f4, 0x8c87346b, 0x8e04ecb9, 0x816fd6e9, 0x436b23e8, 0x1cc92596, 0x32ca2d8c)
  const S16 := Vectors(
    0xb0fa238e, 0xc0645fde, 0xd932eb16, 0x87912990, 0x07590dcd, 0x0b92f20c, 0x745a48de, 0x1e578218)
  const S20 := Vectors(
    0xe1f20c33, 0xfe777bbf, 0xc2fbd9d1, 0x21da9a9b, 0xb0638179, 0xcc899961, 0x846ee454, 0x8034229c)
  const S24 := Vectors(
    0xc5d53d8d, 0xa7a3623f, 0xc2606d6d, 0x9dc68b63, 0xaa47c347, 0x49f5114a, 0xe1257970, 0x8ada8930)
  const S28 := Vectors(
    0x77d37528, 0xb62ec4bc, 0xcde8037d, 0x1c2c2838, 0xedffbff8, 0xc74c6516, 0x14383d8e, 0x2823ef91)
  const S32 := Vectors(
    0x73b33bf5, 0xea992a22, 0xa0060b30, 0x363482c9, 0xba591112, 0x0109ab3a, 0xade79437, 0x6112a3b7)
  const S36 := Vectors(
    0x65a0cfe4, 0xa9a7738c, 0xfe604df5, 0x98e12507, 0xf4b002d6, 0x085f3833, 0x59249dd3, 0x9cd9f5f6)
  const S40 := Vectors(
    0x79ea687a, 0x6dc57a8a, 0x34df1604, 0x41a65cb1, 0x1efbc0a0, 0xf0781bc8, 0xa507a53d, 0x0772a26b)
  const S44 := Vectors(
    0x9d4baf93, 0x17aa0dfe, 0xdf46652f, 0xd6670766, 0xfda24c2e, 0xdecd4715, 0x838b2711, 0x26352d63)
  const S48 := Vectors(
    0x4172328d, 0xa14c14b0, 0x72ab4b91, 0x26628815, 0xfecf0bc6, 0xd57b94a9, 0xb7755da1, 0xa80f11f0)
  const S52 := Vectors(
    0x886e7a22, 0x7a0508a1, 0xf11bfaa8, 0x05757ceb, 0x49231c1e, 0x52f1ccf7, 0x6e5c390c, 0xbd714038)
  const S56 := Vectors(
    0x38cc9913, 0x3ec45cdb, 0xf5702fdb, 0x101fd28f, 0x54cb266b, 0xe50e1b4f, 0x9f4787c3, 0x529e7d00)
  const S60 := Vectors(
    0xb6ae8fff, 0xffb70472, 0xc062d46f, 0xfcd1887b, 0xb21bad3d, 0x6d83bfc6, 0x7e44008e, 0x9b5e906c)
  const S64 := Vectors(
    0x506e3058, 0xd39a2165, 0x04d24d6c, 0xb85e2ce9, 0x5ef50f24, 0xfb121210, 0x948d25b6, 0x961f4894)

  lemma ZeroSigmas()
    ensures SmallSigma0Vector(0) == 0 && SmallSigma1Vector(0) == 0
  {
  }

  lemma Word16()
    ensures W2.a == NextWord(W1.g, W1.b, W0.b, W0.a)
  {
    hide SmallSigma0Vector, SmallSigma1Vector;
    ZeroSigmas();
  }

  lemma Word17()
    ensures W2.b == NextWord(W1.h, W1.c, W0.c, W0.b)
  {
  }

  lemma Word18()
    ensures W2.c == NextWord(W2.a, W1.d, W0.d, W0.c)
  {
  }

  lemma Word19()
    ensures W2.d == NextWord(W2.b, W1.e, W0.e, W0.d)
  {
  }

  lemma Words2First()
    ensures FirstFollow(W0, W1, W2)
  {
    hide NextWord;
    Word16();
    Word17();
    Word18();
    Word19();
  }

  lemma Words2Last()
    ensures LastFollow(W0, W1, W2)
  {
  }

  lemma Words3First()
    ensures FirstFollow(W1, W2, W3)
  {
  }

  lemma Words3Last()
    ensures LastFollow(W1, W2, W3)
  {
  }

  lemma Words4First()
    ensures FirstFollow(W2, W3, W4)
  {
  }

  lemma Words4Last()
    ensures LastFollow(W2, W3, W4)
  {
  }

  lemma Words5First()
    ensures FirstFollow(W3, W4, W5)
  {
  }

  lemma Words5Last()
    ensures LastFollow(W3, W4, W5)
  {
  }

  lemma Words6First()
    ensures FirstFollow(W4, W5, W6)
  {
  }

  lemma Words6Last()
    ensures LastFollow(W4, W5, W6)
  {
  }

  lemma Words7First()
    ensures FirstFollow(W5, W6, W7)
  {
  }

  lemma Words7Last()
    ensures LastFollow(W5, W6, W7)
  {
  }

  lemma States4()
    ensures FourSteps(S0, S4, First(K0), First(W0))
  {
  }

  lemma States8()
    ensures FourSteps(S4, S8, Last(K0), Last(W0))
  {
  }

  lemma States12()
    ensures FourSteps(S8, S12, First(K1), First(W1))
  {
  }

  lemma States16()
    ensures FourSteps(S12, S16, Last(K1), Last(W1))
  {
  }

  lemma States20()
    ensures FourSteps(S16, S20, First(K2), First(W2))
  {
  }

  lemma States24()
    ensures FourSteps(S20, S24, Last(K2), Last(W2))
  {
  }

  lemma States28()
    ensures FourSteps(S24, S28, First(K3), First(W3))
  {
  }

  lemma States32()
    ensures FourSteps(S28, S32, Last(K3), Last(W3))
  {
  }

  lemma States36()
    ensures FourSteps(S32, S36, First(K4), First(W4))
  {
  }

  lemma States40()
    ensures FourSteps(S36, S40, Last(K4), Last(W4))
  {
  }

  lemma States44()
    ensures FourSteps(S40, S44, First(K5), First(W5))
  {
  }

  lemma States48()
    ensures FourSteps(S44, S48, Last(K5), Last(W5))
  {
  }

  lemma States52()
    ensures FourSteps(S48, S52, First(K6), First(W6))
  {
  }

  lemma States56()
    ensures FourSteps(S52, S56, Last(K6), Last(W6))
  {
  }

  lemma States60()
    ensures FourSteps(S56, S60, First(K7), First(W7))
  {
  }

  lemma States64()
    ensures FourSteps(S60, S64, Last(K7), Last(W7))
  {
  }

  lemma Constants0()
    ensures Constants(0, K0)
  {
    hide Number, Digits;
    NumberDigits(K0.a);
    NumberDigits(K0.b);
    NumberDigits(K0.c);
    NumberDigits(K0.d);
    NumberDigits(K0.e);
    NumberDigits(K0.f);
    NumberDigits(K0.g);
    NumberDigits(K0.h);
    RowDigits0();
  }

  lemma RowDigits0()
    ensures Row(0) == [Digits(K0.a), Digits(K0.b), Digits(K0.c), Digits(K0.d),
                         Digits(K0.e), Digits(K0.f), Digits(K0.g), Digits(K0.h)]
  {
  }

  lemma Constants1()
    ensures Constants(1, K1)
  {
    hide Number, Digits;
    NumberDigits(K1.a);
    NumberDigits(K1.b);
    NumberDigits(K1.c);
    NumberDigits(K1.d);
    NumberDigits(K1.e);
    NumberDigits(K1.f);
    NumberDigits(K1.g);
    NumberDigits(K1.h);
    RowDigits1();
  }

  lemma RowDigits1()
    ensures Row(1) == [Digits(K1.a), Digits(K1.b), Digits(K1.c), Digits(K1.d),
                         Digits(K1.e), Digits(K1.f), Digits(K1.g), Digits(K1.h)]
  {
  }

  lemma Constants2()
    ensures Constants(2, K2)
  {
    hide Number, Digits;
    NumberDigits(K2.a);
    NumberDigits(K2.b);
    NumberDigits(K2.c);
    NumberDigits(K2.d);
    NumberDigits(K2.e);
    NumberDigits(K2.f);
    NumberDigits(K2.g);
    NumberDigits(K2.h);
    RowDigits2();
  }

  lemma RowDigits2()
    ensures Row(2) == [Digits(K2.a), Digits(K2.b), Digits(K2.c), Digits(K2.d),
                         Digits(K2.e), Digits(K2.f), Digits(K2.g), Digits(K2.h)]
  {
  }

  lemma Constants3()
    ensures Constants(3, K3)
  {
    hide Number, Digits;
    NumberDigits(K3.a);
    NumberDigits(K3.b);
    NumberDigits(K3.c);
    NumberDigits(K3.d);
    NumberDigits(K3.e);
    NumberDigits(K3.f);
    NumberDigits(K3.g);
    NumberDigits(K3.h);
    RowDigits3();
  }

  lemma RowDigits3()
    ensures Row(3) == [Digits(K3.a), Digits(K3.b), Digits(K3.c), Digits(K3.d),
                         Digits(K3.e), Digits(K3.f), Digits(K3.g), Digits(K3.h)]
  {
  }

  lemma Constants4()
    ensures Constants(4, K4)
  {
    hide Number, Digits;
    NumberDigits(K4.a);
    NumberDigits(K4.b);
    NumberDigits(K4.c);
    NumberDigits(K4.d);
    NumberDigits(K4.e);
    NumberDigits(K4.f);
    NumberDigits(K4.g);
    NumberDigits(K4.h);
    RowDigits4();
  }

  lemma RowDigits4()
    ensures Row(4) == [Digits(K4.a), Digits(K4.b), Digits(K4.c), Digits(K4.d),
                         Digits(K4.e), Digits(K4.f), Digits(K4.g), Digits(K4.h)]
  {
  }

  lemma Constants5()
    ensures Constants(5, K5)
  {
    hide Number, Digits;
    NumberDigits(K5.a);
    NumberDigits(K5.b);
    NumberDigits(K5.c);
    NumberDigits(K5.d);
    NumberDigits(K5.e);
    NumberDigits(K5.f);
    NumberDigits(K5.g);
    NumberDigits(K5.h);
    RowDigits5();
  }

  lemma RowDigits5()
    ensures Row(5) == [Digits(K5.a), Digits(K5.b), Digits(K5.c), Digits(K5.d),
                         Digits(K5.e), Digits(K5.f), Digits(K5.g), Digits(K5.h)]
  {
  }

  lemma Constants6()
    ensures Constants(6, K6)
  {
    hide Number, Digits;
    NumberDigits(K6.a);
    NumberDigits(K6.b);
    NumberDigits(K6.c);
    NumberDigits(K6.d);
    NumberDigits(K6.e);
    NumberDigits(K6.f);
    NumberDigits(K6.g);
    NumberDigits(K6.h);
    RowDigits6();
  }

  lemma RowDigits6()
    ensures Row(6) == [Digits(K6.a), Digits(K6.b), Digits(K6.c), Digits(K6.d),
                         Digits(K6.e), Digits(K6.f), Digits(K6.g), Digits(K6.h)]
  {
  }

  lemma Constants7()
    ensures Constants(7, K7)
  {
    hide Number, Digits;
    NumberDigits(K7.a);
    NumberDigits(K7.b);
    NumberDigits(K7.c);
    NumberDigits(K7.d);
    NumberDigits(K7.e);
    NumberDigits(K7.f);
    NumberDigits(K7.g);
    NumberDigits(K7.h);
    RowDigits7();
  }

  lemma RowDigits7()
    ensures Row(7) == [Digits(K7.a), Digits(K7.b), Digits(K7.c), Digits(K7.d),
                         Digits(K7.e), Digits(K7.f), Digits(K7.g), Digits(K7.h)]
  {
  }

  /** The words of the message begin the schedule. */
  lemma GivenRow(m: seq<Word>, i: nat, w: Vectors)
    requires |m| == 16 && i < 2
    requires m[8 * i] == Number(w.a) && m[8 * i + 1] == Number(w.b) && m[8 * i + 2] == Number(w.c)
    requires m[8 * i + 3] == Number(w.d) && m[8 * i + 4] == Number(w.e) && m[8 * i + 5] == Number(w.f)
    requires m[8 * i + 6] == Number(w.g) && m[8 * i + 7] == Number(w.h)
    ensures Scheduled(m, i, w)
  {
    hide Number;
  }

  lemma FirstWords()
    ensures Scheduled(Message(), 0, W0) && Scheduled(Message(), 1, W1)
  {
    hide Number, Digits, W, Scheduled;
    NumberDigits(0);
    NumberDigits(0x18);
    NumberDigits(0x61626380);
    FirstDigits();
    GivenRow(Message(), 0, W0);
    GivenRow(Message(), 1, W1);
  }

  lemma FirstDigits()
    ensures Digits(0) == 0 && Digits(0x18) == 0x18 && Digits(0x61626380) == 0x61626380
  {
  }

  lemma InitialVectors()
    ensures Numbers(S0) == INITIAL
  {
    hide Number, Digits;
    NumberDigits(S0.a);
    NumberDigits(S0.b);
    NumberDigits(S0.c);
    NumberDigits(S0.d);
    NumberDigits(S0.e);
    NumberDigits(S0.f);
    NumberDigits(S0.g);
    NumberDigits(S0.h);
    InitialDigits();
  }

  lemma InitialDigits()
    ensures INITIAL == State(Digits(S0.a), Digits(S0.b), Digits(S0.c), Digits(S0.d),
                             Digits(S0.e), Digits(S0.f), Digits(S0.g), Digits(S0.h))
  {
  }

  lemma AllRounds()
    ensures Rounds(INITIAL, Message(), 64) == Numbers(S64)
  {
    hide *;
    FirstWords();
    Words2First();
    Words2Last();
    NextRow(Message(), 0, W0, W1, W2);
    Words3First();
    Words3Last();
    NextRow(Message(), 1, W1, W2, W3);
    Words4First();
    Words4Last();
    NextRow(Message(), 2, W2, W3, W4);
    Words5First();
    Words5Last();
    NextRow(Message(), 3, W3, W4, W5);
    Words6First();
    Words6Last();
    NextRow(Message(), 4, W4, W5, W6);
    Words7First();
    Words7Last();
    NextRow(Message(), 5, W5, W6, W7);
    InitialVectors();
    NoRounds();
    States4();
    States8();
    Constants0();
    EightRounds(Message(), 0, S0, S4, S8, K0, W0);
    States12();
    States16();
    Constants1();
    EightRounds(Message(), 1, S8, S12, S16, K1, W1);
    States20();
    States24();
    Constants2();
    EightRounds(Message(), 2, S16, S20, S24, K2, W2);
    States28();
    States32();
    Constants3();
    EightRounds(Message(), 3, S24, S28, S32, K3, W3);
    States36();
    States40();
    Constants4();
    EightRounds(Message(), 4, S32, S36, S40, K4, W4);
    States44();
    States48();
    Constants5();
    EightRounds(Message(), 5, S40, S44, S48, K5, W5);
    States52();
    States56();
    Constants6();
    EightRounds(Message(), 6, S48, S52, S56, K6, W6);
    States60();
    States64();
    Constants7();
    EightRounds(Message(), 7, S56, S60, S64, K7, W7);
  }

  lemma NoRounds()
    ensures Rounds(INITIAL, Message(), 0) == INITIAL
  {
    hide INITIAL, K, W;
  }

  const LAST: State := State(
    0x506e3058, 0xd39a2165, 0x04d24d6c, 0xb85e2ce9, 0x5ef50f24, 0xfb121210, 0x948d25b6, 0x961f4894)

  const DIGEST: State := State(
    0xba7816bf, 0x8f01cfea, 0x414140de, 0x5dae2223, 0xb00361a3, 0x96177a9c, 0xb410ff61, 0xf20015ad)

  lemma LastVectors()
    ensures Numbers(S64) == LAST
  {
    hide Number, Digits;
    NumberDigits(S64.a);
    NumberDigits(S64.b);
    NumberDigits(S64.c);
    NumberDigits(S64.d);
    NumberDigits(S64.e);
    NumberDigits(S64.f);
    NumberDigits(S64.g);
    NumberDigits(S64.h);
    LastDigits();
  }

  lemma LastDigits()
    ensures LAST == State(Digits(S64.a), Digits(S64.b), Digits(S64.c), Digits(S64.d),
                          Digits(S64.e), Digits(S64.f), Digits(S64.g), Digits(S64.h))
  {
  }

  lemma FedForward()
    ensures Plus(INITIAL, LAST) == DIGEST
  {
  }

  const ABC: seq<Byte> := [0x61, 0x62, 0x63]

  lemma PaddingOfThree()
    ensures Padding(3) == [0x80] + Zeros(52) + [0, 0, 0, 0] + [0, 0, 0, 0x18]
  {
    hide Zeros;
  }

  lemma OneBlock()
    ensures var b := ABC + Padding(3); |b| == 64 && BlockWords(b) == Message()
  {
    PaddingOfThree();
    hide Padding;
    var b := ABC + Padding(3);
    assert b[0] == 0x61 && b[1] == 0x62 && b[2] == 0x63 && b[3] == 0x80 && b[63] == 0x18;
    assert forall i :: 4 <= i < 63 ==> b[i] == 0;
  }

  lemma AbsorbOne(b: seq<Byte>, s: State)
    requires |b| == 64
    ensures Absorb(s, b) == Compress(s, BlockWords(b))
  {
    hide Compress, BlockWords;
    assert b[..64] == b && b[64..] == [];
  }

  lemma DigestWords()
    ensures WordOctets(0xba7816bf) == [0xba, 0x78, 0x16, 0xbf]
    ensures WordOctets(0x8f01cfea) == [0x8f, 0x01, 0xcf, 0xea]
    ensures WordOctets(0x414140de) == [0x41, 0x41, 0x40, 0xde]
    ensures WordOctets(0x5dae2223) == [0x5d, 0xae, 0x22, 0x23]
    ensures WordOctets(0xb00361a3) == [0xb0, 0x03, 0x61, 0xa3]
    ensures WordOctets(0x96177a9c) == [0x96, 0x17, 0x7a, 0x9c]
    ensures WordOctets(0xb410ff61) == [0xb4, 0x10, 0xff, 0x61]
    ensures WordOctets(0xf20015ad) == [0xf2, 0x00, 0x15, 0xad]
  {
  }

  lemma DigestOctets()
    ensures Octets(DIGEST) == [
      0xba, 0x78, 0x16, 0xbf, 0x8f, 0x01, 0xcf, 0xea,
      0x41, 0x41, 0x40, 0xde, 0x5d, 0xae, 0x22, 0x23,
      0xb0, 0x03, 0x61, 0xa3, 0x96, 0x17, 0x7a, 0x9c,
      0xb4, 0x10, 0xff, 0x61, 0xf2, 0x00, 0x15, 0xad]
  {
    hide WordOctets;
    DigestWords();
  }

  /** The digest of abc (the example of FIPS 180-4). */
  lemma DigestOfAbc()
    ensures Sha256([0x61, 0x62, 0x63]) == [
      0xba, 0x78, 0x16, 0xbf, 0x8f, 0x01, 0xcf, 0xea,
      0x41, 0x41, 0x40, 0xde, 0x5d, 0xae, 0x22, 0x23,
      0xb0, 0x03, 0x61, 0xa3, 0x96, 0x17, 0x7a, 0x9c,
      0xb4, 0x10, 0xff, 0x61, 0xf2, 0x00, 0x15, 0xad]
  {
    var b := ABC + Padding(3);
    OneBlock();
    hide Padding, BlockWords, Octets, Rounds, Plus, Absorb, INITIAL, LAST, DIGEST, S64, Message;
    AbsorbOne(b, INITIAL);
    AllRounds();
    LastVectors();
    FedForward();
    DigestOctets();
  }
}
