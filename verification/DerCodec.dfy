/** The parser and the printer of signatures, on octets in place. */
module DerCodec {
  import opened BigEndian
  import opened Bits
  import opened Der
  import opened Memory
  import opened Scalars
  import Scalar
  import ScalarOctets

  /** More than 32 octets without a leading zero exceed the order. */
  lemma TooLong(c: seq<Byte>)
    requires |c| > 32 && c[0] != 0
    ensures Nat(c) >= Scalar.N
  {
    NatLower(c);
    hide Nat;
    BelowFullWidth(0);
    FullPower(8 * (|c| - 1));
  }

  lemma FullPower(n: nat)
    requires n >= 256
    ensures Pow2(n) >= Scalar.N
  {
    Pow2Wide();
    hide Pow2;
    Pow2Mono(256, n);
  }

  lemma {:induction false} RoomBelow(w: nat)
    requires w > 0
    ensures Pow2(8 * (w - 1)) + w <= Pow2(8 * w)
  {
    EightMore(w - 1);
    if w > 1 {
      RoomBelow(w - 1);
    } else {
      assert Pow2(0) == 1;
    }
  }

  /** The sum that the parser compares wraps only behind the last octet, and then to zero. */
  lemma WrappedSum(c: seq<Byte>, lenleft: nat, w: nat)
    requires 0 < lenleft && |c| + lenleft <= w + 1
    ensures Pow2(8 * w) > 0 && Nat(c) < Pow2(8 * w)
    ensures (Nat(c) + lenleft) % Pow2(8 * w) == Nat(c) + lenleft || (lenleft == 1 && Nat(c) == Pow2(8 * w) - 1)
  {
    NatUpper(c);
    hide Nat;
    Pow2Mono(8 * |c|, 8 * w);
    if lenleft > 1 {
      Pow2Mono(8 * |c|, 8 * (w - 1));
      RoomBelow(w);
    }
    hide Pow2;
    SmallMod(Nat(c) + lenleft, Pow2(8 * w));
  }

  lemma SmallMod(x: nat, m: nat)
    requires m > 0
    ensures x < m ==> x % m == x
  {
  }

  /** No octet of the length is shifted out of a size of w octets. */
  lemma ShiftFits(c: seq<Byte>, w: nat)
    requires |c| < w
    ensures Pow2(8 * w) > 0 && (Nat(c) * 256) % Pow2(8 * w) == Nat(c) * 256
  {
    NatUpper(c);
    EightMore(|c|);
    Pow2Mono(8 * (|c| + 1), 8 * w);
    hide Nat, Pow2;
    SmallMod(Nat(c) * 256, Pow2(8 * w));
  }

  /** One more octet of the length. */
  function NextLength(sig: seq<Byte>, start: nat, next: nat, k: nat, w: nat, ret: nat): (r: nat)
    requires start <= next < start + k <= |sig| && k <= w && ret == Nat(sig[start..next])
    ensures r == Nat(sig[start..next + 1]) <= Nat(sig[start..start + k])
  {
    hide *;
    var read, c := sig[start..next], sig[start..start + k];
    ShiftFits(read, w);
    NatNext(read, sig[next]);
    assert read + [sig[next]] == sig[start..next + 1] == c[..next + 1 - start];
    NatPrefix(c, next + 1 - start);
    Or(sig[next], (ret * 256) % Pow2(8 * w))
  }

  /**
   * Reads the k octets of a long-form length in sizes of w octets; it fails as soon as the length exceeds what is
   * left. The comparison misses the one length whose octets are all ones.
   */
  method ReadLongLength(sig: seq<Byte>, start: nat, k: nat, w: nat) returns (ok: bool, ret: nat, next: nat)
    requires 0 < k <= w && start + k <= |sig| < Pow2(8 * w)
    ensures start <= next <= |sig|
    ensures !ok ==> Nat(sig[start..start + k]) > |sig| - start - k
    ensures ok ==> ret == Nat(sig[start..start + k]) && next == start + k
    ensures ok ==> ret <= |sig| - next || ret == Pow2(8 * w) - 1
  {
    ghost var c := sig[start..start + k];
    hide Nat, Or, Pow2;
    var lenleft := k;
    ret, next := 0, start;
    EmptyNat(sig[start..next]);
    while lenleft > 0
      invariant 0 <= lenleft <= k && next + lenleft == start + k
      invariant ret == Nat(sig[start..next])
      invariant lenleft < k ==> ret <= |sig| - start - k || (lenleft == 0 && ret == Pow2(8 * w) - 1)
    {
      ret := NextLength(sig, start, next, k, w, ret);
      WrappedSum(sig[start..next + 1], lenleft, w);
      if (ret + lenleft) % Pow2(8 * w) > |sig| - next {
        return false, ret, next;
      }
      next := next + 1;
      lenleft := lenleft - 1;
    }
    ok := true;
  }

  /** A length with more octets than a size holds exceeds every array. */
  lemma TooManyOctets(c: seq<Byte>, w: nat, n: nat)
    requires |c| > w && c[0] != 0 && n < Pow2(8 * w)
    ensures Nat(c) > n
  {
    NatLower(c);
    hide Nat;
    Pow2Mono(8 * w, 8 * (|c| - 1));
  }

  /** The length that slips through the comparison becomes a negative int. */
  lemma {:induction false} AllOnes(w: nat)
    requires w >= 4
    ensures Pow2(8 * w) > 0x8000_0000 && AsInt(Pow2(8 * w) - 1) == -1
  {
    Pow2Values();
    Pow2Add(8 * w - 32, 32);
    hide Pow2;
    ModOfSum(0xFFFF_FFFF, Pow2(8 * w - 32) - 1, 0x1_0000_0000);
  }

  /** Reads length octets at `pos` in sizes of w octets, which hold every array length; never passes the end. */
  method DerReadLen(sig: seq<Byte>, pos: nat, w: nat) returns (len: int, next: nat)
    requires pos <= |sig| < Pow2(8 * w) && 4 <= w
    ensures pos <= next <= |sig|
    ensures ReadLength(sig[pos..]) == NoLength ==> len == -1
    ensures var l := ReadLength(sig[pos..]); l.Length? ==> len == AsInt(l.value) && next == pos + l.used
  {
    ghost var s := sig[pos..];
    hide Nat, AsInt, Pow2;
    next := pos;
    if next >= |sig| {
      return -1, next;
    }
    var b1 := sig[next];
    next := next + 1;
    if b1 == 0xFF {
      return -1, next;
    }
    if b1 < 0x80 {
      SmallAsInt(b1);
      return b1, next;
    }
    if b1 == 0x80 {
      return -1, next;
    }
    var lenleft := b1 - 0x80;
    if lenleft > |sig| - next {
      return -1, next;
    }
    if sig[next] == 0 {
      return -1, next;
    }
    ghost var c := sig[next..next + lenleft];
    assert s[1..1 + lenleft] == c;
    if lenleft > w {
      TooManyOctets(c, w, |sig|);
      return -1, next;
    }
    var ok, ret;
    ok, ret, next := ReadLongLength(sig, next, lenleft, w);
    if !ok || ret < 128 {
      return -1, next;
    }
    len := AsInt(ret);
    AllOnes(w);
  }

  lemma SmallAsInt(v: nat)
    requires v < 0x80
    ensures AsInt(v) == v
  {
  }

  /** What the skipping of leading zeros leaves. */
  method SkipZeros(sig: seq<Byte>, pos: nat, rlen: nat) returns (next: nat, left: nat)
    requires pos + rlen <= |sig|
    ensures pos <= next && next + left == pos + rlen
    ensures Nat(sig[next..next + left]) == Nat(sig[pos..pos + rlen])
    ensures left > 0 ==> sig[next] != 0
  {
    next, left := pos, rlen;
    while left > 0 && sig[next] == 0
      invariant pos <= next && next + left == pos + rlen
      invariant Nat(sig[next..next + left]) == Nat(sig[pos..pos + rlen])
    {
      var c := sig[next..next + left];
      NatSkipZero(c);
      assert c[1..] == sig[next + 1..next + left];
      left := left - 1;
      next := next + 1;
    }
  }

  /** The value of the contents of an integer, known to be negative or not. */
  method ParseContents(sig: seq<Byte>, pos: nat, rlen: nat, negative: bool) returns (r: Limbs, next: nat)
    requires rlen > 0 && pos + rlen <= |sig| && (negative <==> sig[pos] >= 0x80)
    ensures Scalar.Value(r) == ScalarOf(sig[pos..pos + rlen]) && next == pos + rlen
  {
    ghost var c := sig[pos..pos + rlen];
    var overflow := negative;
    var left;
    next, left := SkipZeros(sig, pos, rlen);
    ghost var d := sig[next..next + left];
    hide Nat;
    if left > 32 {
      TooLong(d);
      overflow := true;
    }
    r := Zero();
    if !overflow {
      var ra: seq<Byte> := seq(32 - left, _ => 0) + sig[next..next + left];
      NatPad(32 - left, d);
      r, overflow := FromOctets(ra);
    }
    if overflow {
      r := Zero();
    }
    next := next + left;
  }

  /** What the parser has of the length octets of an integer. */
  ghost predicate Announced(s: seq<Byte>, len: int, used: nat) {
    && |s| > 0 && s[0] == 0x02
    && match ReadLength(s[1..])
       case NoLength => len == -1
       case Length(v, u) => len == AsInt(v) && used == u
  }

  lemma IntRejected(s: seq<Byte>, len: int, used: nat)
    requires Announced(s, len, used) && (len <= 0 || 1 + used + len > |s|)
    ensures ParseInt(s) == Failed
  {
    hide ReadLength, AsInt;
  }

  lemma IntAccepted(s: seq<Byte>, len: int, used: nat, c: seq<Byte>)
    requires Announced(s, len, used) && 0 < len && 1 + used + len <= |s| && c == s[1 + used..1 + used + len]
    ensures ParseInt(s) == if DerInt(c) then Parsed(ScalarOf(c), 1 + used + len) else Failed
  {
    hide ReadLength, AsInt, DerInt, ScalarOf;
  }

  /** Parses an integer at `pos`, with sizes of w octets. */
  method DerParseInteger(sig: seq<Byte>, pos: nat, w: nat) returns (ok: bool, r: Limbs, next: nat)
    requires pos <= |sig| < Pow2(8 * w) && 4 <= w
    ensures next <= |sig|
    ensures ok <==> ParseInt(sig[pos..]).Parsed?
    ensures ok ==> Scalar.Value(r) == ParseInt(sig[pos..]).value && next == pos + ParseInt(sig[pos..]).used
  {
    ghost var s := sig[pos..];
    r, next := Zero(), pos;
    if next == |sig| || sig[next] != 0x02 {
      return false, r, next;
    }
    next := next + 1;
    assert s[1..] == sig[next..];
    var rlen;
    rlen, next := DerReadLen(sig, next, w);
    hide Pow2, ReadLength, AsInt;
    if rlen <= 0 || next + rlen > |sig| {
      IntRejected(s, rlen, next - pos - 1);
      return false, r, next;
    }
    var start := next;
    ghost var c := sig[start..start + rlen];
    assert c == s[start - pos..start - pos + rlen];
    IntAccepted(s, rlen, start - pos - 1, c);
    if sig[next] == 0x00 && rlen > 1 && sig[next + 1] < 0x80 {
      return false, r, next;
    }
    if sig[next] == 0xFF && rlen > 1 && sig[next + 1] >= 0x80 {
      return false, r, next;
    }
    var overflow := sig[next] >= 0x80;
    r, next := ParseContents(sig, next, rlen, overflow);
    ok := true;
  }

  /** What the parser has of the length octets of the sequence. */
  ghost predicate AnnouncedSequence(sig: seq<Byte>, len: int, used: nat) {
    && |sig| > 0 && sig[0] == 0x30
    && match ReadLength(sig[1..])
       case NoLength => len == -1
       case Length(v, u) => len == AsInt(v) && used == u
  }

  lemma SequenceDecided(sig: seq<Byte>, len: int, used: nat)
    requires AnnouncedSequence(sig, len, used) && 1 + used <= |sig|
    ensures len < 0 || 1 + used + len != |sig| ==> ParseSig(sig) == Malformed
    ensures len >= 0 && 1 + used + len == |sig| ==> ParseSig(sig) == ParseBody(sig[1 + used..])
  {
    hide ReadLength, AsInt, ParseBody;
  }

  lemma BodyDecided(body: seq<Byte>)
    ensures ParseInt(body) == Failed ==> ParseBody(body) == Malformed
    ensures var p := ParseInt(body); p.Parsed? && p.used <= |body| ==>
      match ParseInt(body[p.used..])
      case Failed => ParseBody(body) == Malformed
      case Parsed(s, more) => ParseBody(body) == if p.used + more == |body| then Signature(p.value, s) else Malformed
  {
    hide ParseInt;
  }

  /** Parses a signature, with sizes of w octets. */
  method SigParse(sig: seq<Byte>, w: nat) returns (ok: bool, rr: Limbs, rs: Limbs)
    requires |sig| < Pow2(8 * w) && 4 <= w
    ensures ok <==> ParseSig(sig).Signature?
    ensures ok ==> ParseSig(sig) == Signature(Scalar.Value(rr), Scalar.Value(rs))
  {
    hide Pow2, ReadLength, AsInt, ParseInt, ParseBody;
    rr, rs := Zero(), Zero();
    var pos := 0;
    if pos == |sig| || sig[pos] != 0x30 {
      return false, rr, rs;
    }
    pos := pos + 1;
    var rlen;
    rlen, pos := DerReadLen(sig, pos, w);
    hide ParseSig;
    SequenceDecided(sig, rlen, pos - 1);
    if rlen < 0 || pos + rlen > |sig| {
      return false, rr, rs;
    }
    if pos + rlen != |sig| {
      return false, rr, rs;
    }
    ok, rr, rs := ParsePair(sig, pos, w);
  }

  /** The two integers of the sequence, and nothing after them. */
  method ParsePair(sig: seq<Byte>, start: nat, w: nat) returns (ok: bool, rr: Limbs, rs: Limbs)
    requires start <= |sig| < Pow2(8 * w) && 4 <= w
    ensures ok <==> ParseBody(sig[start..]).Signature?
    ensures ok ==> ParseBody(sig[start..]) == Signature(Scalar.Value(rr), Scalar.Value(rs))
  {
    hide *;
    ghost var body := sig[start..];
    BodyDecided(body);
    rr, rs := Zero(), Zero();
    var pos;
    ok, rr, pos := DerParseInteger(sig, start, w);
    if !ok {
      return;
    }
    assert body[pos - start..] == sig[pos..];
    ok, rs, pos := DerParseInteger(sig, pos, w);
    if !ok {
      return;
    }
    ok := pos == |sig|;
  }

  /** The shortest contents of an integer, from its octets with one leading zero. */
  method StripZeros(b: seq<Byte>, ghost v: nat) returns (p: nat, len: nat)
    requires |b| == 33 && b[0] == 0 && Nat(b) == v
    ensures len > 0 && p + len == 33 && b[p..] == Content(v)
  {
    p, len := 0, 33;
    assert b[0..] == b;
    while len > 1 && b[p] == 0 && b[p + 1] < 0x80
      invariant len > 0 && p + len == 33 && Nat(b[p..]) == v && b[p] < 0x80
    {
      NatSkipZero(b[p..]);
      assert b[p..][1..] == b[p + 1..];
      len := len - 1;
      p := p + 1;
    }
    ContentUnique(b[p..]);
  }

  /** The octets of a scalar, with a leading zero. */
  method PaddedBytes(d: Limbs) returns (b: seq<Byte>)
    ensures |b| == 33 && b[0] == 0 && Nat(b) == Scalar.Value(d)
  {
    hide Nat, Scalar.Value;
    b := [0] + ScalarOctets.ToOctets(d);
    NatSkipZero(b);
    assert b[1..] == ScalarOctets.ToOctets(d);
  }

  /** Prints a signature, if it fits, and says how long it is. */
  method SigSerialize(sig: array<Byte>, size: nat, ar: Limbs, as_: Limbs) returns (ok: bool, newSize: nat)
    requires size <= sig.Length && Scalar.Value(ar) < Scalar.N && Scalar.Value(as_) < Scalar.N
    modifies sig
    ensures newSize == |Encoding(Number(ar), Number(as_))| && (ok <==> size >= newSize)
    ensures ok ==> sig[..newSize] == Encoding(Number(ar), Number(as_)) && sig[newSize..] == old(sig[newSize..])
    ensures !ok ==> sig[..] == old(sig[..])
  {
    hide *;
    var r := PaddedBytes(ar);
    var s := PaddedBytes(as_);
    var rp, lenR := StripZeros(r, Number(ar));
    var sp, lenS := StripZeros(s, Number(as_));
    EncodingShape(Number(ar), Number(as_));
    newSize := 6 + lenS + lenR;
    if size < newSize {
      return false, newSize;
    }
    WritePieces(sig, [0x30, 4 + lenS + lenR, 0x02, lenR], r[rp..], [0x02, lenS], s[sp..]);
    ok := true;
  }

  /** Writes four pieces one behind the other. */
  method WritePieces(sig: array<Byte>, a: seq<Byte>, b: seq<Byte>, c: seq<Byte>, d: seq<Byte>)
    requires |a| + |b| + |c| + |d| <= sig.Length
    modifies sig
    ensures var n := |a| + |b| + |c| + |d|; sig[..n] == a + b + c + d && sig[n..] == old(sig[n..])
  {
    ghost var s0 := sig[..];
    hide Written;
    Copy(sig, 0, a);
    ghost var s1 := sig[..];
    Copy(sig, |a|, b);
    ghost var s2 := sig[..];
    Copy(sig, |a| + |b|, c);
    ghost var s3 := sig[..];
    Copy(sig, |a| + |b| + |c|, d);
    Pieces(s0, s1, s2, s3, sig[..], a, b, c, d);
    ghost var n := |a| + |b| + |c| + |d|;
    assert sig[..n] == sig[..][..n] && sig[n..] == sig[..][n..];
  }

  lemma Pieces(s0: seq<Byte>, s1: seq<Byte>, s2: seq<Byte>, s3: seq<Byte>, s4: seq<Byte>,
               a: seq<Byte>, b: seq<Byte>, c: seq<Byte>, d: seq<Byte>)
    requires Written(s1, s0, 0, a) && Written(s2, s1, |a|, b) && Written(s3, s2, |a| + |b|, c) &&
          Written(s4, s3, |a| + |b| + |c|, d)
    ensures var n := |a| + |b| + |c| + |d|; n <= |s0| == |s4| && s4[..n] == a + b + c + d && s4[n..] == s0[n..]
  {
    var i, j, k := |a|, |a| + |b|, |a| + |b| + |c|;
    assert s1[..i] == a && s1[i..] == s0[i..];
    assert s2[..j] == a + b && s2[j..] == s1[i..][j - i..] == s0[j..];
    assert s3[..k] == a + b + c && s3[k..] == s2[j..][k - j..] == s0[k..];
    assert s4[k + |d|..] == s3[k..][|d|..];
  }
}
