/** Strict DER for signatures (ITU-T X.690, sections 8.1.3 and 8.3): the encoding, the parser and the printer. */
module Der {
  import opened BigEndian
  import opened Bits
  import opened Memory
  import Scalar

  /** The shortest big-endian octets of a number. */
  ghost function Octets(n: nat): seq<Byte> {
    if n < 256 then [n] else Octets(n / 256) + [n % 256]
  }

  /** The shortest octets of a nonnegative two's-complement integer. */
  ghost function Content(n: nat): seq<Byte> {
    if n < 128 then [n] else Content(n / 256) + [n % 256]
  }

  /** Length octets: short form below 128, the shortest long form from there on. */
  ghost function DerLength(n: nat): seq<int> {
    if n < 128 then [n] else [0x80 + |Octets(n)|] + Octets(n)
  }

  ghost function Tlv(tag: Byte, c: seq<int>): seq<int> {
    [tag] + DerLength(|c|) + c
  }

  /** The contents of a DER integer are not empty and cannot be shortened by an octet. */
  ghost predicate DerInt(c: seq<Byte>) {
    |c| > 0 && (|c| > 1 ==> !(c[0] == 0 && c[1] < 0x80) && !(c[0] == 0xFF && c[1] >= 0x80))
  }

  /** The scalar that the contents of an integer stand for: zero if negative or not below the order. */
  ghost function ScalarOf(c: seq<Byte>): int
    requires |c| > 0
  {
    if c[0] >= 0x80 || Nat(c) >= Scalar.N then 0 else Nat(c)
  }

  lemma {:induction false} NatOctets(n: nat)
    ensures |Octets(n)| > 0 && Nat(Octets(n)) == n && (n > 0 ==> Octets(n)[0] != 0)
  {
    if n >= 256 {
      NatOctets(n / 256);
    } else {
      assert Octets(n)[..0] == [];
    }
  }

  lemma {:induction false} NatContent(n: nat)
    ensures DerInt(Content(n)) && Content(n)[0] < 0x80 && Nat(Content(n)) == n
  {
    if n >= 128 {
      NatContent(n / 256);
      var c, d := Content(n / 256), Content(n);
      assert d[..|c|] == c && d[0] == c[0];
      if |c| == 1 {
        assert d[1] == n % 256 && c[0] == n / 256 by {
          assert c[..0] == [];
        }
      } else {
        assert d[1] == c[1];
      }
    } else {
      assert Content(n)[..0] == [];
    }
  }

  lemma {:induction false} OctetsUnique(c: seq<Byte>)
    requires |c| > 0 && c[0] != 0
    ensures c == Octets(Nat(c)) && Nat(c) > 0
  {
    var d := c[..|c| - 1];
    assert c == d + [c[|c| - 1]];
    if |c| > 1 {
      OctetsUnique(d);
    } else {
      assert d == [];
    }
  }

  lemma {:induction false} ContentUnique(c: seq<Byte>)
    requires DerInt(c) && c[0] < 0x80
    ensures c == Content(Nat(c))
  {
    var d := c[..|c| - 1];
    assert c == d + [c[|c| - 1]];
    if |c| > 1 {
      ContentUnique(d);
      PositiveUnlessZero(d);
    } else {
      assert d == [];
    }
  }

  lemma {:induction false} PositiveUnlessZero(d: seq<Byte>)
    requires DerInt(d) && d[0] < 0x80
    ensures Nat(d) > 0 || d == [0]
  {
    var e := d[..|d| - 1];
    assert d == e + [d[|d| - 1]];
    if |d| > 1 {
      PositiveUnlessZero(e);
      if e == [0] {
        assert d[1] == d[|d| - 1];
      }
    } else {
      assert e == [];
    }
  }

  /** What the length octets at the front of `s` announce, and how many there are. */
  datatype Length = NoLength | Length(value: nat, used: nat)

  ghost function ReadLength(s: seq<Byte>): Length {
    if |s| == 0 || s[0] == 0xFF || s[0] == 0x80 then NoLength else
    if s[0] < 0x80 then Length(s[0], 1) else
    var k := s[0] - 0x80;
    if k > |s| - 1 || s[1] == 0 then NoLength else
    var v := Nat(s[1..1 + k]);
    if v > |s| - 1 - k || v < 128 then NoLength else Length(v, 1 + k)
  }

  /** What is read is the one encoding of the length. */
  lemma LengthStrict(s: seq<Byte>)
    requires ReadLength(s).Length?
    ensures var l := ReadLength(s);
      l.used <= |s| && s[..l.used] == DerLength(l.value) && (l.value >= 128 ==> l.value <= |s| - l.used)
  {
    if s[0] >= 0x80 {
      var k := s[0] - 0x80;
      var c := s[1..1 + k];
      OctetsUnique(c);
      assert s[..1 + k] == [s[0]] + c;
    }
  }

  /** The first octet counts the octets that follow it, and these are the length (X.690, section 8.1.3). */
  lemma LengthReadIs(s: seq<Byte>)
    requires ReadLength(s).Length?
    ensures var l := ReadLength(s);
      if s[0] < 0x80 then l == Length(s[0], 1) else
      1 < s[0] - 0x7F <= |s| && l.used == s[0] - 0x7F && l.value == Nat(s[1..s[0] - 0x7F])
  {
    hide Nat;
  }

  /** What is printed for a length: the short form below 128, from there on the count, and the shortest octets. */
  lemma LengthPrintedIs(n: nat)
    ensures var d := DerLength(n);
      if n < 128 then d == [n] else
      |d| > 1 && d[0] == 0x80 + (|d| - 1) && d[1] != 0 && Octets(n) == d[1..] && Nat(Octets(n)) == n
  {
    NatOctets(n);
    hide Octets;
  }

  /** The number that octets denote in two's complement. */
  ghost function Complement(c: seq<Byte>): int
    requires |c| > 0
  {
    if c[0] >= 0x80 then Nat(c) - Pow2(8 * |c|) else Nat(c)
  }

  lemma NatFirst(c: seq<Byte>)
    requires |c| > 1
    ensures Nat(c) == c[0] * Pow2(8 * (|c| - 1)) + Nat(c[1..]) && Pow2(8 * |c|) == 256 * Pow2(8 * (|c| - 1))
  {
    NatAppend([c[0]], c[1..]);
    assert [c[0]] + c[1..] == c;
    assert Nat([c[0]]) == c[0] by {
      assert [c[0]][..0] == [];
    }
    EightMore(|c| - 1);
  }

  /** The contents are those of DER exactly when no shorter ones denote the same integer (X.690, section 8.3.2). */
  lemma DerIntShortest(c: seq<Byte>)
    requires |c| > 1
    ensures DerInt(c) <==> Complement(c[1..]) != Complement(c)
  {
    NatFirst(c);
    hide Nat, Pow2;
    OctetDropped(c[0], c[1], Pow2(8 * (|c| - 1)), Nat(c[1..]));
  }

  /** Dropping the octet x before the octet y keeps the number exactly when x is the sign of y. */
  lemma OctetDropped(x: int, y: Byte, p: nat, rest: nat)
    requires p > 0 && 0 <= x < 256
    ensures var high := if x >= 0x80 then x - 0x100 else x;
            var carry := if y >= 0x80 then 1 else 0;
            && high * p + rest == x * p + rest - (if x >= 0x80 then 256 * p else 0)
            && (high * p + rest == rest - carry * p <==> high == -carry)
  {
    var high := if x >= 0x80 then x - 0x100 else x;
    var carry := if y >= 0x80 then 1 else 0;
    if high * p == -carry * p {
      assert (high + carry) * p == 0;
    }
  }

  /** A scalar is read as the integer it is when this lies between zero and the order, and as zero otherwise. */
  lemma ScalarRead(c: seq<Byte>)
    requires |c| > 0
    ensures ScalarOf(c) == if 0 <= Complement(c) < Scalar.N then Complement(c) else 0
  {
    NatUpper(c);
    hide Nat, Pow2;
  }

  lemma {:induction false} OctetsLength(n: nat, k: nat)
    requires k > 0 && n < Pow2(8 * k)
    ensures |Octets(n)| <= k
    decreases k
  {
    if n >= 256 {
      EightMore(k - 1);
      assert k > 1 by {
        assert Pow2(8) == 256;
      }
      OctetsLength(n / 256, k - 1);
    }
  }

  /** The encoding of a length that fits is read back. */
  lemma LengthRead(n: nat, s: seq<Byte>)
    requires |Octets(n)| < 127 && DerLength(n) <= s && (n >= 128 ==> n <= |s| - |DerLength(n)|)
    ensures ReadLength(s) == Length(n, |DerLength(n)|)
  {
    if n >= 128 {
      var c := Octets(n);
      NatOctets(n);
      assert s[0] == DerLength(n)[0] && s[1..1 + |c|] == c;
      assert c[0] == s[1];
    } else {
      assert s[0] == DerLength(n)[0];
    }
  }

  lemma FourOctets(n: nat)
    requires n < 0x8000_0000
    ensures 1 <= |Octets(n)| <= 4
  {
    Pow2Values();
    OctetsLength(n, 4);
    NatOctets(n);
  }

  /** The conversion of a size to a 32-bit signed integer. */
  function AsInt(v: nat): (r: int)
    ensures v < 0x8000_0000 ==> r == v
    ensures r <= v && -0x8000_0000 <= r < 0x8000_0000 && (v - r) % 0x1_0000_0000 == 0
  {
    var m := v % 0x1_0000_0000;
    if m < 0x8000_0000 then m else m - 0x1_0000_0000
  }

  datatype Parsed = Failed | Parsed(value: int, used: nat)

  /** One integer at the front of `s`. */
  ghost function ParseInt(s: seq<Byte>): Parsed {
    if |s| == 0 || s[0] != 0x02 then Failed else
    match ReadLength(s[1..])
    case NoLength => Failed
    case Length(v, u) =>
      var n := AsInt(v);
      if n <= 0 || n > |s| - 1 - u then Failed else
      var c := s[1 + u..1 + u + n];
      if DerInt(c) then Parsed(ScalarOf(c), 1 + u + n) else Failed
  }

  datatype Signature = Malformed | Signature(r: int, s: int)

  /** A whole signature: two integers in a sequence, with nothing left over. */
  ghost function ParseSig(sig: seq<Byte>): Signature {
    if |sig| == 0 || sig[0] != 0x30 then Malformed else
    match ReadLength(sig[1..])
    case NoLength => Malformed
    case Length(v, u) =>
      if AsInt(v) != |sig| - 1 - u then Malformed else
      ParseBody(sig[1 + u..])
  }

  ghost function ParseBody(body: seq<Byte>): Signature {
    match ParseInt(body)
    case Failed => Malformed
    case Parsed(r, used) =>
      if used > |body| then Malformed else
      match ParseInt(body[used..])
      case Failed => Malformed
      case Parsed(s, more) => if used + more == |body| then Signature(r, s) else Malformed
  }

  lemma IntStrict(s: seq<Byte>) returns (c: seq<Byte>)
    requires ParseInt(s).Parsed? && |s| < 0x8000_0000
    ensures ParseInt(s).used <= |s| && DerInt(c)
    ensures s[..ParseInt(s).used] == Tlv(0x02, c) && ParseInt(s).value == ScalarOf(c)
  {
    var t := s[1..];
    LengthStrict(t);
    var l := ReadLength(t);
    ShortValue(t);
    c := s[1 + l.used..1 + l.used + l.value];
    hide ReadLength, DerLength;
    assert s[..1 + l.used + l.value] == [s[0]] + t[..l.used] + c;
  }

  lemma ShortValue(t: seq<Byte>)
    requires ReadLength(t).Length? && |t| < 0x8000_0000
    ensures AsInt(ReadLength(t).value) == ReadLength(t).value
  {
    LengthStrict(t);
  }

  /** The tag, the length octets and the contents, each in its place. */
  lemma TlvParts(tag: Byte, c: seq<int>, s: seq<int>)
    requires Tlv(tag, c) <= s
    ensures var d := DerLength(|c|);
      && |Tlv(tag, c)| == 1 + |d| + |c| <= |s| && s[0] == tag && d <= s[1..] && s[1 + |d|..1 + |d| + |c|] == c
  {
    var d, w := DerLength(|c|), Tlv(tag, c);
    hide DerLength;
    assert w[1..1 + |d|] == d && w[1 + |d|..] == c;
    assert s[1..][..|d|] == w[1..1 + |d|];
    assert s[1 + |d|..1 + |d| + |c|] == w[1 + |d|..];
  }

  lemma IntRead(c: seq<Byte>, s: seq<Byte>)
    requires DerInt(c) && Tlv(0x02, c) <= s && |s| < 0x8000_0000
    ensures ParseInt(s) == Parsed(ScalarOf(c), |Tlv(0x02, c)|)
  {
    TlvParts(0x02, c, s);
    FourOctets(|c|);
    hide ReadLength, DerLength, ScalarOf, Tlv;
    LengthRead(|c|, s[1..]);
  }

  /** `sig` is the DER encoding of the integers with contents a and b, small enough for the parser's integers. */
  ghost predicate Encodes(sig: seq<int>, a: seq<Byte>, b: seq<Byte>) {
    var body := Tlv(0x02, a) + Tlv(0x02, b);
    DerInt(a) && DerInt(b) && |body| < 0x8000_0000 && sig == Tlv(0x30, body)
  }

  lemma BodyStrict(body: seq<Byte>) returns (a: seq<Byte>, b: seq<Byte>)
    requires ParseBody(body).Signature? && |body| < 0x8000_0000
    ensures DerInt(a) && DerInt(b) && body == Tlv(0x02, a) + Tlv(0x02, b)
    ensures ParseBody(body) == Signature(ScalarOf(a), ScalarOf(b))
  {
    hide ParseInt, DerInt, ScalarOf, Tlv;
    a := IntStrict(body);
    var u := ParseInt(body).used;
    b := IntStrict(body[u..]);
    assert body == body[..u] + body[u..];
    assert body[u..] == body[u..][..|body| - u];
  }

  lemma BodyRead(a: seq<Byte>, b: seq<Byte>, body: seq<Byte>)
    requires DerInt(a) && DerInt(b) && body == Tlv(0x02, a) + Tlv(0x02, b) && |body| < 0x8000_0000
    ensures ParseBody(body) == Signature(ScalarOf(a), ScalarOf(b))
  {
    hide ParseInt, DerInt, ScalarOf, Tlv;
    IntRead(a, body);
    var u := |Tlv(0x02, a)|;
    assert body[u..] == Tlv(0x02, b);
    IntRead(b, body[u..]);
  }

  /** Whatever parses is the DER encoding of two integers, and it denotes their values. */
  lemma ParseStrict(sig: seq<Byte>) returns (a: seq<Byte>, b: seq<Byte>)
    requires ParseSig(sig).Signature?
    ensures Encodes(sig, a, b) && ParseSig(sig) == Signature(ScalarOf(a), ScalarOf(b))
  {
    var u := SequenceParts(sig);
    hide *;
    a, b := BodyStrict(sig[1 + u..]);
    EncodesIntro(sig, a, b, sig[1 + u..]);
  }

  /** The sequence header, and what is parsed behind it. */
  lemma SequenceParts(sig: seq<Byte>) returns (u: nat)
    requires ParseSig(sig).Signature?
    ensures 1 + u <= |sig| && |sig[1 + u..]| < 0x8000_0000 && ParseSig(sig) == ParseBody(sig[1 + u..])
    ensures sig == Tlv(0x30, sig[1 + u..])
  {
    var t := sig[1..];
    hide ReadLength, ParseBody, DerLength, AsInt;
    LengthStrict(t);
    u := ReadLength(t).used;
    SequenceLength(ReadLength(t).value, |sig| - 1 - u, t);
    assert sig == [sig[0]] + t[..u] + sig[1 + u..];
  }

  lemma EncodesIntro(sig: seq<Byte>, a: seq<Byte>, b: seq<Byte>, body: seq<Byte>)
    requires DerInt(a) && DerInt(b) && body == Tlv(0x02, a) + Tlv(0x02, b) && |body| < 0x8000_0000 &&
          sig == Tlv(0x30, body)
    ensures Encodes(sig, a, b)
  {
    hide DerInt, Tlv;
  }

  lemma SequenceLength(v: nat, n: nat, t: seq<Byte>)
    requires AsInt(v) == n && ReadLength(t).Length? && v == ReadLength(t).value && n == |t| - ReadLength(t).used
    ensures v == n < 0x8000_0000
  {
    LengthStrict(t);
  }

  /** The DER encoding of any two integers parses to their values. */
  lemma ParseEncoded(sig: seq<Byte>, a: seq<Byte>, b: seq<Byte>)
    requires Encodes(sig, a, b)
    ensures ParseSig(sig) == Signature(ScalarOf(a), ScalarOf(b))
  {
    var body := Tlv(0x02, a) + Tlv(0x02, b);
    var u := |DerLength(|body|)|;
    hide ReadLength, DerLength, ScalarOf, ParseBody, DerInt, Tlv;
    TlvParts(0x30, body, sig);
    FourOctets(|body|);
    LengthRead(|body|, sig[1..]);
    assert |sig| == 1 + u + |body| && sig[1 + u..] == sig[1 + u..1 + u + |body|];
    BodyRead(a, b, sig[1 + u..]);
  }

  /** The encoding of a signature. */
  ghost function Encoding(r: nat, s: nat): seq<int> {
    Tlv(0x30, Tlv(0x02, Content(r)) + Tlv(0x02, Content(s)))
  }

  lemma {:induction false} ContentLength(n: nat, j: nat)
    requires n < 128 * Pow2(8 * j)
    ensures 1 <= |Content(n)| <= j + 1
    decreases j
  {
    if n >= 128 {
      assert j > 0 by {
        assert Pow2(0) == 1;
      }
      EightMore(j - 1);
      ContentLength(n / 256, j - 1);
    }
  }

  lemma BelowFullWidth(n: nat)
    requires n < Scalar.N
    ensures n < Pow2(256) && n < 128 * Pow2(8 * 32)
  {
    Pow2Wide();
    hide Pow2;
  }

  lemma ScalarContent(n: nat)
    requires n < Scalar.N
    ensures 1 <= |Content(n)| <= 33 && ScalarOf(Content(n)) == n && DerInt(Content(n))
  {
    BelowFullWidth(n);
    NatContent(n);
    hide Pow2, Content, Nat, DerInt;
    ContentLength(n, 32);
  }

  lemma EncodingShape(r: nat, s: nat)
    requires r < Scalar.N && s < Scalar.N
    ensures var a, b := Content(r), Content(s);
      Encoding(r, s) == [0x30, 4 + |a| + |b|, 0x02, |a|] + a + [0x02, |b|] + b && 8 <= |Encoding(r, s)| <= 72
    ensures Encodes(Encoding(r, s), Content(r), Content(s))
  {
    hide Content, DerInt, ScalarOf, Nat, Scalar.N;
    ScalarContent(r);
    ScalarContent(s);
  }

  /** Printing and then parsing gives the signature back, for all scalars. */
  lemma RoundTrip(sig: seq<Byte>, r: nat, s: nat)
    requires r < Scalar.N && s < Scalar.N && sig == Encoding(r, s)
    ensures ParseSig(sig) == Signature(r, s)
  {
    EncodingShape(r, s);
    ScalarContent(r);
    ScalarContent(s);
    hide *;
    ParseEncoded(sig, Content(r), Content(s));
  }

  lemma NonzeroContent(c: seq<Byte>)
    requires DerInt(c) && ScalarOf(c) != 0
    ensures c == Content(ScalarOf(c)) && 0 < ScalarOf(c) < Scalar.N
  {
    ContentUnique(c);
  }

  /** What parses to a signature of nonzero scalars is, octet for octet, what is printed for them. */
  lemma ParseUnique(sig: seq<Byte>)
    requires ParseSig(sig).Signature? && ParseSig(sig).r != 0 && ParseSig(sig).s != 0
    ensures var g := ParseSig(sig); 0 < g.r < Scalar.N && 0 < g.s < Scalar.N && sig == Encoding(g.r, g.s)
  {
    hide DerInt, ParseSig, ScalarOf, DerLength, Content;
    var a, b := ParseStrict(sig);
    NonzeroContent(a);
    NonzeroContent(b);
  }
}
