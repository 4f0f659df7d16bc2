/** Bitwise operations on byte values, bit by bit. */
module ByteBits {

  /** `x ^ y` */
  function Xor(x: nat, y: nat): nat
    decreases x + y
  {
    if x == 0 && y == 0 then 0 else 2 * Xor(x / 2, y / 2) + (x % 2 + y % 2) % 2
  }

  /** `x | y` */
  function Or(x: nat, y: nat): nat
    decreases x + y
  {
    if x == 0 && y == 0 then 0 else 2 * Or(x / 2, y / 2) + (if x % 2 == 1 || y % 2 == 1 then 1 else 0)
  }

  lemma {:induction false} XorIsZeroOnEquals(x: nat, y: nat)
    ensures Xor(x, y) == 0 <==> x == y
    decreases x + y
  {
    if x != 0 || y != 0 {
      XorIsZeroOnEquals(x / 2, y / 2);
    }
  }

  lemma {:induction false} OrIsZeroOnZeros(x: nat, y: nat)
    ensures Or(x, y) == 0 <==> x == 0 && y == 0
    decreases x + y
  {
    if x != 0 || y != 0 {
      OrIsZeroOnZeros(x / 2, y / 2);
    }
  }

  /** Or-ing the exclusive or of two bytes into an accumulator keeps it zero only
      if they are equal. */
  lemma FoldedDifference(diff: nat, x: nat, y: nat)
    ensures Or(diff, Xor(x, y)) == 0 <==> diff == 0 && x == y
  {
    XorIsZeroOnEquals(x, y);
    OrIsZeroOnZeros(diff, Xor(x, y));
  }
}
