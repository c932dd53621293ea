/** Fixed-width unsigned integers of the Rust source and the power-of-two
    arithmetic of `usize::checked_next_power_of_two` on a 64-bit target. */
module Numeric {
  import opened Wrappers

  newtype u8 = x: int | 0 <= x < 0x100
  newtype u32 = x: int | 0 <= x < 0x1_0000_0000
  newtype u64 = x: int | 0 <= x < 0x1_0000_0000_0000_0000

  /** `usize` on a 64-bit target: the same range as `u64`, so the `as u64` and
      `as usize` casts between the two are identities. */
  type usize = u64

  /** `usize::MAX` on a 64-bit target. */
  const USIZE_MAX: nat := 0xFFFF_FFFF_FFFF_FFFF

  /** The largest power of two that `usize` holds (2^63). */
  const USIZE_TOP_POWER: nat := 0x8000_0000_0000_0000

  predicate IsPowerOfTwo(n: nat)
    decreases n
  {
    n == 1 || (n >= 2 && n % 2 == 0 && IsPowerOfTwo(n / 2))
  }

  /** Rust's `next_power_of_two` without the width limit: the smallest power
      of two that is at least `n` (and 1 for 0). */
  function NextPowerOfTwo(n: nat): (p: nat)
    ensures IsPowerOfTwo(p) && n <= p
    ensures n >= 1 ==> p < 2 * n
    decreases n
  {
    if n <= 1 then 1 else 2 * NextPowerOfTwo((n + 1) / 2)
  }

  /** No power of two lies between `n` and `NextPowerOfTwo(n)`. */
  lemma {:induction false} NextPowerOfTwoIsLeast(n: nat, q: nat)
    requires IsPowerOfTwo(q) && n <= q
    ensures NextPowerOfTwo(n) <= q
    decreases n
  {
    if n > 1 {
      assert q != 1 && q % 2 == 0 && IsPowerOfTwo(q / 2);
      NextPowerOfTwoIsLeast((n + 1) / 2, q / 2);
    }
  }

  /** A power of two is its own next power of two. */
  lemma NextPowerOfTwoOfPowerOfTwo(n: nat)
    requires IsPowerOfTwo(n)
    ensures NextPowerOfTwo(n) == n
  {
    NextPowerOfTwoIsLeast(n, n);
  }

  /** Two distinct powers of two are at least a factor of two apart. */
  lemma {:induction false} PowersOfTwoApart(p: nat, q: nat)
    requires IsPowerOfTwo(p) && IsPowerOfTwo(q) && q < p
    ensures 2 * q <= p
    decreases q
  {
    if q > 1 {
      PowersOfTwoApart(p / 2, q / 2);
    }
  }

  function Pow2(k: nat): nat {
    if k == 0 then 1 else 2 * Pow2(k - 1)
  }

  lemma {:induction false} Pow2IsPowerOfTwo(k: nat)
    ensures IsPowerOfTwo(Pow2(k))
  {
    if k > 0 {
      Pow2IsPowerOfTwo(k - 1);
      assert Pow2(k) / 2 == Pow2(k - 1);
    }
  }

  lemma {:induction false} Pow2Add(a: nat, b: nat)
    ensures Pow2(a + b) == Pow2(a) * Pow2(b)
  {
    if a > 0 {
      Pow2Add(a - 1, b);
    }
  }

  lemma Pow2Of63()
    ensures Pow2(63) == USIZE_TOP_POWER
  {
    assert Pow2(7) == 128;
    Pow2Add(7, 7);
    Pow2Add(14, 14);
    Pow2Add(28, 28);
    Pow2Add(56, 7);
  }

  lemma TopPowerIsPowerOfTwo()
    ensures IsPowerOfTwo(USIZE_TOP_POWER)
  {
    Pow2Of63();
    Pow2IsPowerOfTwo(63);
  }

  /** The next power of two of `n` fits in a 64-bit `usize` exactly when `n`
      is at most 2^63. */
  lemma NextPowerOfTwoFits(n: nat)
    ensures NextPowerOfTwo(n) <= USIZE_MAX <==> n <= USIZE_TOP_POWER
  {
    TopPowerIsPowerOfTwo();
    if n <= USIZE_TOP_POWER {
      NextPowerOfTwoIsLeast(n, USIZE_TOP_POWER);
    } else {
      PowersOfTwoApart(NextPowerOfTwo(n), USIZE_TOP_POWER);
    }
  }

  /** `usize::checked_next_power_of_two` on a 64-bit target: the next power of
      two when it is representable, `None` otherwise. */
  function CheckedNextPowerOfTwo(n: nat): (r: Option<nat>)
    ensures r.Some? <==> n <= USIZE_TOP_POWER
    ensures r.Some? ==> IsPowerOfTwo(r.value) && n <= r.value <= USIZE_MAX
    ensures r.Some? ==> forall q :: IsPowerOfTwo(q) && n <= q ==> r.value <= q
  {
    NextPowerOfTwoFits(n);
    var p := NextPowerOfTwo(n);
    if p <= USIZE_MAX then
      assert forall q :: IsPowerOfTwo(q) && n <= q ==> p <= q by {
        forall q | IsPowerOfTwo(q) && n <= q ensures p <= q {
          NextPowerOfTwoIsLeast(n, q);
        }
      }
      Some(p)
    else
      None
  }
}
