// Unsigned-integer arithmetic shared by the containers that keep a power-of-two
// capacity and replace `mod cap` by a mask.
module Bits {

  function Pow2(k: nat): (r: nat)
    ensures r >= 1
  {
    if k == 0 then 1 else 2 * Pow2(k - 1)
  }

  /** The remainder of x by n, defined so that proofs about it stay linear. */
  function Mod(x: nat, n: nat): (r: nat)
    requires n >= 1
    ensures r < n
  {
    if x < n then x else Mod(x - n, n)
  }

  /** Bitwise AND of two unsigned integers. */
  function And(x: nat, y: nat): nat {
    if x == 0 || y == 0 then 0
    else 2 * And(x / 2, y / 2) + if x % 2 == 1 && y % 2 == 1 then 1 else 0
  }

  /** Masking by `cap - 1` is reduction modulo `cap` when `cap` is a power of two. */
  lemma {:induction false} MaskIsMod(x: nat, k: nat)
    ensures And(x, Pow2(k) - 1) == Mod(x, Pow2(k))
  {
    if k == 0 {
      ModOne(x);
    } else if x > 0 {
      MaskIsMod(x / 2, k - 1);
      ModHalves(x, Pow2(k - 1));
    }
  }

  lemma {:induction false} ModOne(x: nat)
    ensures Mod(x, 1) == 0
  {
    if x > 0 {
      ModOne(x - 1);
    }
  }

  lemma {:induction false} ModHalves(x: nat, half: nat)
    requires half >= 1
    ensures Mod(x, 2 * half) == 2 * Mod(x / 2, half) + x % 2
  {
    if x >= 2 * half {
      ModHalves(x - 2 * half, half);
      assert (x - 2 * half) / 2 == x / 2 - half;
    }
  }

  /** Reducing modulo `2 * n` leaves the remainder modulo `n`, or that plus n. */
  lemma {:induction false} ModOfDouble(x: nat, n: nat)
    requires n >= 1
    ensures Mod(x, 2 * n) == Mod(x, n) || Mod(x, 2 * n) == Mod(x, n) + n
  {
    if x >= 2 * n {
      ModOfDouble(x - 2 * n, n);
      assert Mod(x, n) == Mod(x - n, n);
    }
  }

  lemma {:induction false} Pow2Grows(a: nat, b: nat)
    requires a <= b
    ensures Pow2(a) <= Pow2(b)
  {
    if a < b {
      Pow2Grows(a, b - 1);
    }
  }

  lemma {:induction false} Pow2Splits(a: nat, b: nat)
    ensures Pow2(a + b) == Pow2(a) * Pow2(b)
  {
    if a > 0 {
      Pow2Splits(a - 1, b);
    }
  }

  /** Masks on a capacity of 2^k: reducing any number, and one step around the circle. */
  lemma Mask(x: nat, cap: nat, k: nat)
    requires cap == Pow2(k)
    ensures And(x, cap - 1) == Mod(x, cap)
    ensures x < cap ==> And(x, cap - 1) == x
    ensures cap <= x < 2 * cap ==> And(x, cap - 1) == x - cap
  {
    MaskIsMod(x, k);
  }

  /** `Mod` is the remainder: what is left after taking away a multiple of n. */
  lemma {:induction false} ModIsRemainder(x: nat, n: nat) returns (q: nat)
    requires n >= 1
    ensures x == q * n + Mod(x, n)
  {
    if x < n {
      q := 0;
    } else {
      var p := ModIsRemainder(x - n, n);
      q := p + 1;
    }
  }
}
