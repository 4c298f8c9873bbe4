/** The incremental SHA-256 hasher. */
module Streaming {
  import opened Fips180
  import opened Memory
  import opened Words
  import Hash

  ghost function StateOf(s: seq<Word>): State
    requires |s| == 8
  {
    State(s[0], s[1], s[2], s[3], s[4], s[5], s[6], s[7])
  }

  /** Processes one block of sixteen big-endian words. */
  method Transform(s: array<Word>, chunk: seq<Byte>)
    requires s.Length == 8 && |chunk| == 64
    modifies s
    ensures StateOf(s[..]) == Compress(old(StateOf(s[..])), BlockWords(chunk))
  {
    var m: seq<Word> := [
      WordAt(chunk, 0), WordAt(chunk, 1), WordAt(chunk, 2), WordAt(chunk, 3), WordAt(chunk, 4), WordAt(chunk, 5),
      WordAt(chunk, 6), WordAt(chunk, 7), WordAt(chunk, 8), WordAt(chunk, 9), WordAt(chunk, 10), WordAt(chunk, 11),
      WordAt(chunk, 12), WordAt(chunk, 13), WordAt(chunk, 14), WordAt(chunk, 15)];
    assert m == BlockWords(chunk);
    hide WordAt, BlockWords, Rounds, Plus;
    var r := Hash.SixtyFourRounds(State(s[0], s[1], s[2], s[3], s[4], s[5], s[6], s[7]), m);
    FeedForward(s, r);
  }

  method FeedForward(s: array<Word>, r: State)
    requires s.Length == 8
    modifies s
    ensures StateOf(s[..]) == Plus(old(StateOf(s[..])), r)
  {
    hide Low32;
    s[0], s[1], s[2], s[3] := Low32((s[0] as int) + r.a), Low32((s[1] as int) + r.b), Low32((s[2] as int) + r.c),
          Low32((s[3] as int) + r.d);
    s[4], s[5], s[6], s[7] := Low32((s[4] as int) + r.e), Low32((s[5] as int) + r.f), Low32((s[6] as int) + r.g),
          Low32((s[7] as int) + r.h);
  }

  /** The hasher has absorbed the first `base` octets of `t` and buffers the next `size`. */
  ghost predicate Holds(s: seq<Word>, buf: seq<Byte>, t: seq<Byte>, base: nat, size: nat) {
    && |s| == 8 && |buf| == 64 && size <= 64
    && base % 64 == 0 && base + size <= |t|
    && StateOf(s) == Absorb(INITIAL, t[..base])
    && buf[..size] == t[base..base + size]
  }

  lemma NextBlock(t: seq<Byte>, base: nat)
    requires base % 64 == 0 && base + 64 <= |t|
    ensures Absorb(INITIAL, t[..base + 64]) == Compress(Absorb(INITIAL, t[..base]), BlockWords(t[base..base + 64]))
  {
    hide Absorb, StateOf, Compress, BlockWords;
    var x, y := t[..base], t[base..base + 64];
    OneBlock(Absorb(INITIAL, x), y);
    AbsorbAppend(INITIAL, x, y);
    assert t[..base + 64] == x + y;
  }

  /** A full buffer is absorbed. */
  lemma BlockAbsorbed(s: seq<Word>, s': seq<Word>, buf: seq<Byte>, t: seq<Byte>, base: nat)
    requires Holds(s, buf, t, base, 64) && |s'| == 8 && StateOf(s') == Compress(StateOf(s), BlockWords(buf))
    ensures Holds(s', buf, t, base + 64, 0)
  {
    hide Absorb, StateOf, Compress, BlockWords;
    NextBlock(t, base);
    assert buf == buf[..64];
    assert buf[..0] == t[base + 64..base + 64];
  }

  lemma OneBlock(s: State, y: seq<Byte>)
    requires |y| == 64
    ensures Absorb(s, y) == Compress(s, BlockWords(y))
  {
    assert y[..64] == y && y[64..] == [];
    hide Compress, BlockWords;
  }

  /** Octets copied behind the buffered ones. */
  lemma Buffered(s: seq<Word>, buf: seq<Byte>, buf': seq<Byte>, t: seq<Byte>, base: nat, size: nat, more: seq<Byte>)
    requires Holds(s, buf, t, base, size) && Written(buf', buf, size, more)
    requires base + size + |more| <= |t| && more == t[base + size..base + size + |more|]
    ensures Holds(s, buf', t, base, size + |more|)
  {
    hide Absorb, StateOf;
    assert buf'[..size + |more|] == buf[..size] + more;
    assert t[base..base + size + |more|] == t[base..base + size] + more;
  }

  /** More data to come does not change what is held. */
  lemma HoldsLonger(s: seq<Word>, buf: seq<Byte>, t: seq<Byte>, t': seq<Byte>, base: nat, size: nat)
    requires Holds(s, buf, t, base, size) && t <= t'
    ensures Holds(s, buf, t', base, size)
  {
    assert t'[..base] == t[..base] && t'[base..base + size] == t[base..base + size];
    hide Absorb, StateOf;
  }

  /** Everything is absorbed when the data ends on a block. */
  lemma HoldsWhole(s: seq<Word>, buf: seq<Byte>, t: seq<Byte>)
    requires Holds(s, buf, t, |t| - |t| % 64, |t| % 64) && |t| % 64 == 0
    ensures StateOf(s) == Absorb(INITIAL, t)
  {
    assert t[..|t|] == t;
  }

  /** The octets from a position of the new data on, as octets of all the data. */
  lemma SameOctets(d: seq<Byte>, t: seq<Byte>, pos: nat, at: nat, n: nat)
    requires |d| <= |t| && d == t[|t| - |d|..] && pos + n <= |d| && at == |t| - |d| + pos
    ensures d[pos..pos + n] == t[at..at + n] && d[pos..] == t[at..]
  {
  }

  /** The hasher; `data` is everything written so far. */
  class Sha256Hash {
    const s: array<Word>
    const buf: array<Byte>
    var bytes: nat
    ghost var data: seq<Byte>

    ghost predicate Valid()
      reads this, s, buf
    {
      && s.Length == 8 && buf.Length == 64 && bytes == |data|
      && Holds(s[..], buf[..], data, bytes - bytes % 64, bytes % 64)
    }

    constructor ()
      ensures Valid() && data == [] && fresh(s) && fresh(buf)
    {
      s := new Word[8] [0x6a09e667, 0xbb67ae85, 0x3c6ef372, 0xa54ff53a, 0x510e527f, 0x9b05688c, 0x1f83d9ab, 0x5be0cd19];
      buf := new Byte[64](_ => 0);
      bytes := 0;
      data := [];
      new;
      assert Absorb(INITIAL, data[..0]) == INITIAL;
    }

    /** Completes the buffer with the octets given and processes it. */
    method Fill(d: seq<Byte>, bufsize: nat, ghost t: seq<Byte>, ghost base: nat)
      requires s.Length == 8 && buf.Length == 64 && bufsize + |d| == 64 && base + 64 <= |t|
      requires Holds(s[..], buf[..], t, base, bufsize) && d == t[base + bufsize..base + 64]
      modifies s, buf
      ensures Holds(s[..], buf[..], t, base + 64, 0)
    {
      hide *;
      ghost var s0, b0 := s[..], buf[..];
      Copy(buf, bufsize, d);
      Buffered(s0, b0, buf[..], t, base, bufsize, d);
      ghost var b1 := buf[..];
      Transform(s, buf[..]);
      BlockAbsorbed(s0, s[..], b1, t, base);
    }

    /** Processes every block that the new octets complete; what is left starts at `pos`. */
    method FillBlocks(d: seq<Byte>, bufsize: nat, ghost t: seq<Byte>, ghost base: nat)
      returns (pos: nat, size: nat, ghost done: nat)
      requires s.Length == 8 && buf.Length == 64 && bufsize < 64
      requires base % 64 == 0 && base + bufsize + |d| == |t| && d == t[base + bufsize..]
      requires Holds(s[..], buf[..], t, base, bufsize)
      modifies s, buf
      ensures pos <= |d| && size + (|d| - pos) < 64 && done + size + (|d| - pos) == |t| && done % 64 == 0
      ensures d[pos..] == t[done + size..] && Holds(s[..], buf[..], t, done, size)
    {
      hide *;
      pos, size, done := 0, bufsize, base;
      var len := |d|;
      while size + len >= 64
        invariant size < 64 && 0 <= len && pos + len == |d| && done + size + len == |t|
        invariant done % 64 == 0 && Holds(s[..], buf[..], t, done, size)
      {
        SameOctets(d, t, pos, done + size, 64 - size);
        Fill(d[pos..pos + (64 - size)], size, t, done);
        pos := pos + (64 - size);
        len := len - (64 - size);
        done := done + 64;
        size := 0;
      }
      SameOctets(d, t, pos, done + size, len);
    }

    /** Takes in any number of octets. */
    method Write(d: seq<Byte>)
      requires Valid()
      modifies this, s, buf
      ensures Valid() && data == old(data) + d
    {
      ghost var t := data + d;
      hide Holds, Compress, BlockWords, StateOf, Written;
      var bufsize := bytes % 64;
      HoldsLonger(s[..], buf[..], data, t, bytes - bufsize, bufsize);
      bytes := bytes + |d|;
      data := t;
      var pos, size;
      ghost var done;
      pos, size, done := FillBlocks(d, bufsize, t, |t| - |d| - bufsize);
      if pos < |d| {
        Keep(d[pos..], size, t, done);
      }
    }

    /** Appends octets that do not complete the buffer. */
    method Keep(d: seq<Byte>, bufsize: nat, ghost t: seq<Byte>, ghost base: nat)
      requires s.Length == 8 && buf.Length == 64 && bufsize + |d| < 64 && base + bufsize + |d| == |t|
      requires Holds(s[..], buf[..], t, base, bufsize) && d == t[base + bufsize..]
      modifies buf
      ensures Holds(s[..], buf[..], t, base, |t| - base)
    {
      hide *;
      ghost var b0 := buf[..];
      Copy(buf, bufsize, d);
      Buffered(s[..], b0, buf[..], t, base, bufsize, d);
    }

    /** Ends the message: the padding, the length, and the digest. The hasher is spent afterwards. */
    method Finalize() returns (out: seq<Byte>)
      requires Valid()
      modifies this, s, buf
      ensures out == Sha256(old(data))
      ensures s.Length == 8 && forall i :: 0 <= i < 8 ==> s[i] == 0
    {
      hide *;
      ghost var m := data;
      var pad: seq<Byte> := [0x80] + Zeros(63);
      var sizedesc := WordOctets(Low32(bytes / 0x2000_0000)) + WordOctets(Low32(bytes * 8));
      var n := 1 + (119 - bytes % 64) % 64;
      KnownLength(this);
      PadPrefix(|m|, pad, n, sizedesc);
      ghost var head := pad[..n];
      Write(pad[..n]);
      Write(sizedesc);
      Regroup(m, head, sizedesc);
      out := Digest(m);
    }

    /** The digest of a padded message. */
    method Digest(ghost m: seq<Byte>) returns (out: seq<Byte>)
      requires Valid() && data == m + Padding(|m|)
      modifies s
      ensures out == Sha256(m)
      ensures s.Length == 8 && forall i :: 0 <= i < 8 ==> s[i] == 0
    {
      hide *;
      DigestReady(this, m);
      out := WordOctets(s[0]) + WordOctets(s[1]) + WordOctets(s[2]) + WordOctets(s[3]) +
      WordOctets(s[4]) + WordOctets(s[5]) + WordOctets(s[6]) + WordOctets(s[7]);
      forall i | 0 <= i < 8 {
        s[i] := 0;
      }
    }
  }

  lemma DigestReady(h: Sha256Hash, m: seq<Byte>)
    requires h.Valid() && h.data == m + Padding(|m|)
    ensures h.s.Length == 8
    ensures Sha256(m) == WordOctets(h.s[0]) + WordOctets(h.s[1]) + WordOctets(h.s[2]) + WordOctets(h.s[3]) +
                         WordOctets(h.s[4]) + WordOctets(h.s[5]) + WordOctets(h.s[6]) + WordOctets(h.s[7])
  {
    hide Padding, WordOctets, Absorb, StateOf, Holds, Octets;
    PaddedLength(|m|);
    HoldsWhole(h.s[..], h.buf[..], h.data);
    DigestOctets(h.s[..]);
  }

  lemma KnownLength(h: Sha256Hash)
    requires h.Valid()
    ensures h.bytes == |h.data|
  {
    hide Holds;
  }

  lemma Regroup(m: seq<Byte>, a: seq<Byte>, b: seq<Byte>)
    ensures (m + a) + b == m + (a + b)
  {
  }

  lemma DigestOctets(s: seq<Word>)
    requires |s| == 8
    ensures Octets(StateOf(s)) == WordOctets(s[0]) + WordOctets(s[1]) + WordOctets(s[2]) + WordOctets(s[3]) +
                                  WordOctets(s[4]) + WordOctets(s[5]) + WordOctets(s[6]) + WordOctets(s[7])
  {
    hide WordOctets;
  }

  /** The padding written from the fixed block is the padding of the standard. */
  lemma PadPrefix(l: nat, pad: seq<Byte>, n: nat, sizedesc: seq<Byte>)
    requires pad == [0x80] + Zeros(63) && n == 1 + (119 - l % 64) % 64
    requires sizedesc == WordOctets(Low32(l / 0x2000_0000)) + WordOctets(Low32(l * 8))
    ensures n <= 64 && pad[..n] + sizedesc == Padding(l)
  {
    FewestZeros(l);
    assert l / 0x2000_0000 == 8 * l / 0x1_0000_0000;
    assert pad[..n] == [0x80] + Zeros(n - 1);
    hide WordOctets, Low32;
  }

  lemma FewestZeros(l: nat)
    ensures (119 - l % 64) % 64 == (55 - l) % 64
  {
  }
}
