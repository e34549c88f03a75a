/** Non-negative integers as the sets of the positions of their one bits: `&` is
    intersection, `|` is union, and `x & m == m` is `m <= x`. */
module Bits {
  type Num = set<nat>

  predicate Between(lo: nat, b: nat, hi: nat) {
    lo <= b < hi
  }

  /** `((1 << (hi - lo)) - 1) << lo` */
  function Range(lo: nat, hi: nat): Num {
    set b: nat | b < hi && Between(lo, b, hi)
  }

  predicate IsWord(bits: nat, x: Num) {
    x <= Range(0, bits)
  }

  /** `~x` in a word. */
  function Not(bits: nat, x: Num): Num {
    Range(0, bits) - x
  }

  predicate From(x: Num, b: nat, k: int) {
    b + k >= 0 && b + k in x
  }

  /** `x << k` in a word. */
  function Shl(bits: nat, x: Num, k: nat): Num {
    var down: int := 0 - k;
    set b: nat | b < bits && From(x, b, down)
  }

  /** `x >> k` of an unsigned word. */
  function Shr(bits: nat, x: Num, k: nat): Num {
    set b: nat | b < bits && From(x, b, k)
  }

  /** A left shift for `k >= 0`, a right shift otherwise. */
  function Move(bits: nat, x: Num, k: int): Num {
    if k >= 0 then Shl(bits, x, k) else Shr(bits, x, -k)
  }

  /** `x << k` of an integer without a width. */
  function Up(x: Num, k: nat): (r: Num)
    ensures forall b: nat :: b in r <==> k <= b && b - k in x
  {
    var r := set b | b in x :: b + k;
    assert forall b | b in x :: b + k in r;
    r
  }
}
