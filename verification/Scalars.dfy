/** Scalars passed by value: the limb routines on copies of their operands. */
module Scalars {
  import opened BigEndian
  import opened Memory
  import opened Scalar
  import opened Words
  import ScalarMul
  import ScalarOctets

  /** The limbs of a scalar. */
  type Limbs = d: seq<Word> | |d| == 8 witness [0, 0, 0, 0, 0, 0, 0, 0]

  function Zero(): (d: Limbs)
    ensures Value(d) == 0
  {
    [0, 0, 0, 0, 0, 0, 0, 0]
  }

  method Load(d: Limbs) returns (r: array<Word>)
    ensures fresh(r) && r.Length == 8 && r[..] == d
  {
    r := new Word[8];
    Store(r, d);
  }

  method Product(a: Limbs, b: Limbs) returns (r: Limbs)
    ensures Value(r) == (Value(a) * Value(b)) % N
  {
    hide Value;
    var x := Load(a);
    var y := Load(b);
    ScalarMul.ScalarMul(x, x, y);
    r := x[..];
  }

  method Square(a: Limbs) returns (r: Limbs)
    ensures Value(r) == (Value(a) * Value(a)) % N
  {
    hide Value;
    var x := Load(a);
    ScalarMul.ScalarSqr(x, x);
    r := x[..];
  }

  method Sum(a: Limbs, b: Limbs) returns (r: Limbs)
    requires Value(a) < N && Value(b) < N
    ensures Value(r) == (Value(a) + Value(b)) % N
  {
    hide Value;
    var x := Load(a);
    var y := Load(b);
    var _ := Add(x, x, y);
    r := x[..];
  }

  method Negated(a: Limbs) returns (r: Limbs)
    requires Value(a) < N
    ensures Value(r) == (N - Value(a)) % N
  {
    hide Value;
    var x := Load(a);
    Negate(x, x);
    r := x[..];
  }

  /** The scalar that 32 octets stand for. */
  method FromOctets(b: seq<Byte>) returns (r: Limbs, overflow: bool)
    requires |b| == 32
    ensures overflow <==> Nat(b) >= N
    ensures Value(r) == Nat(b) % N
  {
    hide Value, Nat;
    var x := new Word[8];
    overflow := ScalarOctets.SetB32(x, b);
    r := x[..];
  }

  /** The number that a scalar stands for. */
  function Number(d: Limbs): (v: nat)
    ensures v == Value(d)
  {
    Nat(ScalarOctets.ToOctets(d))
  }
}
