/** What is known of the size of the ten limbs of a field element. */
module Magnitudes {
  import opened Words

  /** The limb bounds that magnitude `m` stands for. */
  predicate Magnitude(n: seq<Word>, m: nat) {
    |n| == 10 && n[9] <= 2 * m * 0x3F_FFFF && forall i :: 0 <= i < 9 ==> n[i] <= 2 * m * 0x3FF_FFFF
  }

  /** Nine limbs of 26 bits and a top limb with at most one bit more than the 22 it should have. */
  predicate Weak(t: seq<Word>) {
    |t| == 10 && t[9] <= 0x40_003F && forall i :: 0 <= i < 9 ==> t[i] < 0x400_0000
  }

  predicate Canonical(t: seq<Word>) {
    |t| == 10 && t[9] < 0x40_0000 && forall i :: 0 <= i < 9 ==> t[i] < 0x400_0000
  }
}
