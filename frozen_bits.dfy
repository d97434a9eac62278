/** Powers of two, used to size the perfect-hash table of a frozen container. */
module FrozenBits {

  /** n is one of 1, 2, 4, 8, ... */
  predicate IsPowerOfTwo(n: nat)
    decreases n
  {
    n == 1 || (n >= 2 && n % 2 == 0 && IsPowerOfTwo(n / 2))
  }

  /** The least power of two that is at least n; 1 when n is 0 or 1. */
  function NextHighestPowerOfTwo(n: nat): (p: nat)
    ensures IsPowerOfTwo(p)
    ensures n <= p
    ensures 1 < p ==> p / 2 < n  // halving p would drop below n
    decreases n
  {
    if n <= 1 then 1 else 2 * NextHighestPowerOfTwo((n + 1) / 2)
  }

  /** Of two powers of two, the smaller one divides the larger: in particular it is at most half of it. */
  lemma {:induction false} SmallerPowerOfTwoIsAtMostHalf(q: nat, p: nat)
    requires IsPowerOfTwo(q) && IsPowerOfTwo(p) && q < p
    ensures 2 * q <= p
    decreases p
  {
    if q == 1 {
      assert p >= 2;
    } else {
      SmallerPowerOfTwoIsAtMostHalf(q / 2, p / 2);
    }
  }

  /** NextHighestPowerOfTwo(n) is below every other power of two that is at least n. */
  lemma NextHighestPowerOfTwoIsLeast(n: nat, q: nat)
    requires IsPowerOfTwo(q) && n <= q
    ensures NextHighestPowerOfTwo(n) <= q
  {
    var p := NextHighestPowerOfTwo(n);
    if q < p {
      SmallerPowerOfTwoIsAtMostHalf(q, p);
      assert false;
    }
  }

  /** Doubling keeps a power of two a power of two. */
  lemma DoublePowerOfTwo(p: nat)
    requires IsPowerOfTwo(p)
    ensures IsPowerOfTwo(2 * p)
  {
    assert (2 * p) / 2 == p;
  }
}
