/** Powers of two and the bitwise `&` of natural numbers, bit by bit. */
module Bits {

  function Pow2(e: nat): (p: nat)
    ensures p >= 1
  {
    if e == 0 then 1 else 2 * Pow2(e - 1)
  }

  function And(a: nat, b: nat): nat {
    if a == 0 || b == 0 then 0 else 2 * And(a / 2, b / 2) + (if a % 2 == 1 && b % 2 == 1 then 1 else 0)
  }

  /** Masking with a power of two less one gives the unique remainder by that power. */
  lemma {:induction false} MaskIsRemainder(k: nat, e: nat) returns (q: nat)
    ensures And(k, Pow2(e) - 1) < Pow2(e) && k == q * Pow2(e) + And(k, Pow2(e) - 1)
  {
    if e == 0 || k == 0 {
      q := k;
    } else {
      q := MaskIsRemainder(k / 2, e - 1);
      var p := Pow2(e - 1);
      assert Pow2(e) == 2 * p;
      assert (2 * p - 1) / 2 == p - 1 && (2 * p - 1) % 2 == 1;
      assert And(k, 2 * p - 1) == 2 * And(k / 2, p - 1) + k % 2;
      Doubled(q, p);
    }
  }

  lemma Doubled(q: nat, p: nat)
    ensures q * (2 * p) == 2 * (q * p)
  {
  }
}
