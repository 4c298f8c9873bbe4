/** SHA-256 as the standard defines it (FIPS 180-4, sections 4.1.2, 5.1.1 and 6.2). */
module Fips180 {
  import opened Bits
  import opened Memory
  import opened Words

  function Low32(x: nat): (r: Word) {
    x % 0x1_0000_0000
  }

  /** The bits of `x` in the other state, among the low n. */
  ghost function Not(x: nat, n: nat): nat {
    if x < Pow2(n) then Pow2(n) - 1 - x else 0
  }

  ghost function Ch(x: Word, y: Word, z: Word): nat {
    Xor(And(x, y), And(Not(x, 32), z))
  }

  ghost function Maj(x: Word, y: Word, z: Word): nat {
    Xor(Xor(And(x, y), And(x, z)), And(y, z))
  }

  /** The right rotation of a word by n bits. */
  function Rotr(x: Word, n: nat): nat
    requires n <= 32
  {
    Or(Shr(x, n), Shl32(x, 32 - n))
  }

  function BigSigma0(x: Word): nat {
    Xor(Xor(Rotr(x, 2), Rotr(x, 13)), Rotr(x, 22))
  }

  function BigSigma1(x: Word): nat {
    Xor(Xor(Rotr(x, 6), Rotr(x, 11)), Rotr(x, 25))
  }

  function SmallSigma0(x: Word): nat {
    Xor(Xor(Rotr(x, 7), Rotr(x, 18)), Shr(x, 3))
  }

  function SmallSigma1(x: Word): nat {
    Xor(Xor(Rotr(x, 17), Rotr(x, 19)), Shr(x, 10))
  }

  /** The constants, in rows of eight. */
  function Row(i: nat): (k: seq<Word>)
    requires i < 8
    ensures |k| == 8
  {
    if i == 0 then [0x428a2f98, 0x71374491, 0xb5c0fbcf, 0xe9b5dba5, 0x3956c25b, 0x59f111f1, 0x923f82a4, 0xab1c5ed5] else
    if i == 1 then [0xd807aa98, 0x12835b01, 0x243185be, 0x550c7dc3, 0x72be5d74, 0x80deb1fe, 0x9bdc06a7, 0xc19bf174] else
    if i == 2 then [0xe49b69c1, 0xefbe4786, 0x0fc19dc6, 0x240ca1cc, 0x2de92c6f, 0x4a7484aa, 0x5cb0a9dc, 0x76f988da] else
    if i == 3 then [0x983e5152, 0xa831c66d, 0xb00327c8, 0xbf597fc7, 0xc6e00bf3, 0xd5a79147, 0x06ca6351, 0x14292967] else
    if i == 4 then [0x27b70a85, 0x2e1b2138, 0x4d2c6dfc, 0x53380d13, 0x650a7354, 0x766a0abb, 0x81c2c92e, 0x92722c85] else
    if i == 5 then [0xa2bfe8a1, 0xa81a664b, 0xc24b8b70, 0xc76c51a3, 0xd192e819, 0xd6990624, 0xf40e3585, 0x106aa070] else
    if i == 6 then [0x19a4c116, 0x1e376c08, 0x2748774c, 0x34b0bcb5, 0x391c0cb3, 0x4ed8aa4a, 0x5b9cca4f, 0x682e6ff3] else
    [0x748f82ee, 0x78a5636f, 0x84c87814, 0x8cc70208, 0x90befffa, 0xa4506ceb, 0xbef9a3f7, 0xc67178f2]
  }

  function K(t: nat): Word
    requires t < 64
  {
    Row(t / 8)[t % 8]
  }

  /** The working variables, and the chaining value. */
  datatype State = State(a: Word, b: Word, c: Word, d: Word, e: Word, f: Word, g: Word, h: Word)

  const INITIAL: State := State(
    0x6a09e667, 0xbb67ae85, 0x3c6ef372, 0xa54ff53a, 0x510e527f, 0x9b05688c, 0x1f83d9ab, 0x5be0cd19)

  /** One round. */
  ghost function Step(s: State, k: Word, w: Word): State {
    var t1 := Low32(s.h + BigSigma1(s.e) + Ch(s.e, s.f, s.g) + k + w);
    var t2 := Low32(BigSigma0(s.a) + Maj(s.a, s.b, s.c));
    State(Low32(t1 + t2), s.a, s.b, s.c, Low32(s.d + t1), s.e, s.f, s.g)
  }

  /** The message schedule of a block of sixteen words. */
  ghost function W(m: seq<Word>, t: nat): Word
    requires |m| == 16
  {
    if t < 16 then m[t] else Low32(SmallSigma1(W(m, t - 2)) + W(m, t - 7) + SmallSigma0(W(m, t - 15)) + W(m, t - 16))
  }

  /** The state after the first t rounds. */
  ghost function Rounds(s: State, m: seq<Word>, t: nat): State
    requires |m| == 16 && t <= 64
  {
    if t == 0 then s else Step(Rounds(s, m, t - 1), K(t - 1), W(m, t - 1))
  }

  /** The sum of two states, word by word. */
  function Plus(s: State, r: State): State {
    State(Low32((s.a as int) + r.a), Low32((s.b as int) + r.b), Low32((s.c as int) + r.c), Low32((s.d as int) + r.d),
          Low32((s.e as int) + r.e), Low32((s.f as int) + r.f), Low32((s.g as int) + r.g), Low32((s.h as int) + r.h))
  }

  ghost function Compress(s: State, m: seq<Word>): State
    requires |m| == 16
  {
    Plus(s, Rounds(s, m, 64))
  }

  /** The big-endian word at octet 4 * i. */
  function WordAt(b: seq<Byte>, i: nat): Word
    requires 4 * i + 4 <= |b|
  {
    (b[4 * i] as int) * 0x100_0000 + (b[4 * i + 1] as int) * 0x1_0000 + (b[4 * i + 2] as int) * 0x100 + b[4 * i + 3]
  }

  ghost function BlockWords(b: seq<Byte>): (m: seq<Word>)
    requires |b| == 64
    ensures |m| == 16
  {
    [WordAt(b, 0), WordAt(b, 1), WordAt(b, 2), WordAt(b, 3), WordAt(b, 4), WordAt(b, 5), WordAt(b, 6), WordAt(b, 7),
     WordAt(b, 8), WordAt(b, 9), WordAt(b, 10), WordAt(b, 11),
     WordAt(b, 12), WordAt(b, 13), WordAt(b, 14), WordAt(b, 15)]
  }

  /** The chaining value after all whole blocks of `d`. */
  ghost function Absorb(s: State, d: seq<Byte>): State
    decreases |d|
  {
    if |d| < 64 then s else Absorb(Compress(s, BlockWords(d[..64])), d[64..])
  }

  /** The octets of a word, most significant first. */
  function WordOctets(x: Word): (b: seq<Byte>)
    ensures |b| == 4
  {
    [x / 0x100_0000, x / 0x1_0000 % 0x100, x / 0x100 % 0x100, x % 0x100]
  }

  function Zeros(n: nat): (b: seq<Byte>)
    ensures |b| == n
  {
    seq(n, _ => 0)
  }

  /** The padding of a message of n octets: a one bit, zeros, and the length in bits on 64 bits. */
  ghost function Padding(n: nat): seq<Byte> {
    var bits := 8 * n;
    [0x80] + Zeros((55 - n) % 64) + WordOctets(Low32(bits / 0x1_0000_0000)) + WordOctets(Low32(bits))
  }

  ghost function Octets(s: State): seq<Byte> {
    WordOctets(s.a) + WordOctets(s.b) + WordOctets(s.c) + WordOctets(s.d) +
    WordOctets(s.e) + WordOctets(s.f) + WordOctets(s.g) + WordOctets(s.h)
  }

  /** The digest of a message. */
  ghost function Sha256(m: seq<Byte>): seq<Byte> {
    Octets(Absorb(INITIAL, m + Padding(|m|)))
  }

  /** The padded message is a whole number of blocks, and the zeros are as few as that allows. */
  lemma PaddedLength(n: nat)
    ensures (n + |Padding(n)|) % 64 == 0 && 9 <= |Padding(n)| < 73
  {
    hide Low32, WordOctets, Zeros;
    var r := (55 - n) % 64;
    assert |Padding(n)| == 9 + r;
    ToBlock(n, r);
  }

  lemma ToBlock(n: nat, r: nat)
    requires r == (55 - n) % 64
    ensures (n + (9 + r)) % 64 == 0
  {
  }

  /** Whole blocks first, the rest afterwards. */
  lemma {:induction false} AbsorbAppend(s: State, x: seq<Byte>, y: seq<Byte>)
    requires |x| % 64 == 0
    ensures Absorb(s, x + y) == Absorb(Absorb(s, x), y)
    decreases |x|
  {
    hide Compress, BlockWords;
    if |x| == 0 {
      assert x + y == y;
    } else {
      assert (x + y)[..64] == x[..64] && (x + y)[64..] == x[64..] + y;
      AbsorbAppend(Compress(s, BlockWords(x[..64])), x[64..], y);
    }
  }
}
