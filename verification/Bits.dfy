/** Powers of two and bitwise exclusive-or on naturals, as used by the buddy allocator's index arithmetic. */
module Bits {

  function Pow2(k: nat): (r: nat)
    ensures r >= 1
  {
    if k == 0 then 1 else 2 * Pow2(k - 1)
  }

  /** Bit k of x. */
  predicate Bit(x: nat, k: nat) {
    if k == 0 then x % 2 == 1 else Bit(x / 2, k - 1)
  }

  /** Exclusive-or, bit by bit. */
  function Xor(a: nat, b: nat): nat
    decreases a + b
  {
    if a == 0 && b == 0 then 0 else 2 * Xor(a / 2, b / 2) + (a + b) % 2
  }

  lemma {:induction false} XorZero(a: nat)
    ensures Xor(a, 0) == a
    decreases a
  {
    if a != 0 {
      XorZero(a / 2);
    }
  }

  /** Exclusive-or with a single bit adds that bit when it is clear and removes it when it is set. */
  lemma {:induction false} XorPow2(x: nat, k: nat)
    ensures Bit(x, k) ==> x >= Pow2(k)
    ensures Xor(x, Pow2(k)) == if Bit(x, k) then x - Pow2(k) else x + Pow2(k)
    decreases k
  {
    if k == 0 {
      XorZero(x / 2);
    } else {
      XorPow2(x / 2, k - 1);
      assert (x + Pow2(k)) % 2 == x % 2;
    }
  }

  lemma {:induction false} BitFlips(x: nat, k: nat)
    ensures Bit(x + Pow2(k), k) == !Bit(x, k)
  {
    if k > 0 {
      BitFlips(x / 2, k - 1);
      assert (x + Pow2(k)) / 2 == x / 2 + Pow2(k - 1);
    }
  }

  /** The buddy of the buddy is the block itself, and the two lie exactly one block apart. */
  lemma BuddyInvolution(x: nat, k: nat)
    ensures Xor(Xor(x, Pow2(k)), Pow2(k)) == x
    ensures Xor(x, Pow2(k)) == x + Pow2(k) || x == Xor(x, Pow2(k)) + Pow2(k)
  {
    XorPow2(x, k);
    var y := Xor(x, Pow2(k));
    XorPow2(y, k);
    if Bit(x, k) {
      BitFlips(y, k);
    } else {
      BitFlips(x, k);
    }
  }

  lemma {:induction false} Pow2Monotone(j: nat, k: nat)
    requires j <= k
    ensures Pow2(j) <= Pow2(k)
    decreases k - j
  {
    if j < k {
      Pow2Monotone(j, k - 1);
    }
  }

  /** Bitwise and. */
  function And(a: nat, b: nat): nat
    decreases a + b
  {
    if a == 0 || b == 0 then 0 else 2 * And(a / 2, b / 2) + (if a % 2 == 1 && b % 2 == 1 then 1 else 0)
  }

  lemma {:induction false} AndSelf(a: nat)
    ensures And(a, a) == a
  {
    if a != 0 {
      AndSelf(a / 2);
    }
  }

  lemma Pow2Halves(n: nat)
    requires n > 0 && n % 2 == 0
    ensures (exists k: nat :: n == Pow2(k)) <==> exists k: nat :: n / 2 == Pow2(k)
  {
    if k: nat :| n / 2 == Pow2(k) {
      assert n == Pow2(k + 1);
    }
    if k: nat :| n == Pow2(k) {
      assert n / 2 == Pow2(k - 1);
    }
  }

  /** The test n & (n - 1) accepts zero and exactly the powers of two. */
  lemma {:induction false} PowerOfTwoTest(n: nat)
    requires n > 0
    ensures And(n, n - 1) == 0 <==> exists k: nat :: n == Pow2(k)
  {
    if n == 1 {
      assert n == Pow2(0);
    } else if n % 2 == 0 {
      PowerOfTwoTest(n / 2);
      Pow2Halves(n);
      assert (n - 1) / 2 == n / 2 - 1;
    } else {
      AndSelf(n / 2);
      assert forall k: nat :: k > 0 ==> Pow2(k) % 2 == 0;
    }
  }
}
