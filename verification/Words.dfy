/** Fixed-width machine words and the multiplication bounds every limb proof rests on. */
module Words {

  type Word = x: int | 0 <= x < 0x1_0000_0000
  type Wide = x: int | 0 <= x < 0x1_0000_0000_0000_0000

  /** Multiplication under a name, so that a proof over many products can hide it and stay linear. */
  ghost function Mul(x: int, y: int): int {
    x * y
  }

  lemma MulMono(x: int, y: int, z: int)
    requires x <= y && 0 <= z
    ensures x * z <= y * z
  {
  }

  lemma MulBound(x: int, xMax: int, y: int, yMax: int)
    requires 0 <= x <= xMax && 0 <= y <= yMax
    ensures 0 <= Mul(x, y) <= xMax * yMax
  {
    MulMono(x, xMax, y);
    MulMono(y, yMax, xMax);
    MulMono(0, x, y);
  }

  lemma ProductBound(a: Word, b: Word)
    ensures 0 <= Mul(a, b) <= 0xFFFF_FFFE_0000_0001
  {
    MulBound(a, 0xFFFF_FFFF, b, 0xFFFF_FFFF);
  }

  /** A wrapping 32-bit addition followed by the comparison that recovers its carry. */
  method AddCarry(x: Word, y: Word) returns (s: Word, carry: Word)
    ensures s + carry * 0x1_0000_0000 == x + y && carry <= 1
  {
    s := (x + y) % 0x1_0000_0000;
    carry := if s < y then 1 else 0;
  }

  /** The low and high 32 bits of a 64-bit word. */
  method Split(t: Wide) returns (lo: Word, hi: Word)
    ensures t == lo + hi * 0x1_0000_0000
  {
    lo := t % 0x1_0000_0000;
    hi := t / 0x1_0000_0000;
  }
}
