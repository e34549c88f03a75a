/** Why the two multiplicative hashes spread neighbours: multiplying by an odd
    number permutes the residues of a power of two. */
module HashSpread {
  import opened Prelude
  import RpcModel

  function Pow2(k: nat): (p: nat)
    ensures p > 0
  {
    if k == 0 then 1 else 2 * Pow2(k - 1)
  }

  lemma {:induction false} OddCancels(m: nat, d: int, k: nat, q: int) returns (r: int)
    requires m % 2 == 1 && m * d == Pow2(k) * q
    ensures d == Pow2(k) * r
    decreases k
  {
    if k == 0 {
      r := d;
    } else {
      var t, p := m / 2, Pow2(k - 1);
      var e := p * q - t * d;
      assert m * d == 2 * (t * d) + d by { assert m == 2 * t + 1; }
      assert Pow2(k) * q == 2 * (p * q);
      assert d == 2 * e;
      assert m * d == 2 * (m * e);
      r := OddCancels(m, e, k - 1, q);
      assert 2 * (p * r) == Pow2(k) * r;
    }
  }

  lemma SameRemainder(x: int, y: int, n: nat) returns (q: int)
    requires n > 0 && x % n == y % n
    ensures x - y == n * q
  {
    q := x / n - y / n;
    assert n * q == n * (x / n) - n * (y / n);
  }

  lemma NoMultiple(n: nat, d: int, r: int)
    requires 0 < d < n
    ensures d != n * r
  {
    if r <= 0 {
      assert n * r <= 0;
    } else {
      assert n * r >= n;
    }
  }

  /** An odd multiplier is injective modulo a power of two. */
  lemma OddInjective(m: nat, k: nat, a: nat, b: nat)
    requires m % 2 == 1 && (m * a) % Pow2(k) == (m * b) % Pow2(k)
    ensures exists r: int :: a - b == Pow2(k) * r
  {
    var q := SameRemainder(m * a, m * b, Pow2(k));
    assert m * (a - b) == m * a - m * b;
    var r := OddCancels(m, a - b, k, q);
  }

  /** So values less than 2^k apart hash apart. */
  lemma NeighboursApart(m: nat, k: nat, a: nat, b: nat)
    requires m % 2 == 1 && a < b < a + Pow2(k)
    ensures (m * a) % Pow2(k) != (m * b) % Pow2(k)
  {
    if (m * a) % Pow2(k) == (m * b) % Pow2(k) {
      OddInjective(m, k, b, a);
      var r: int :| b - a == Pow2(k) * r;
      NoMultiple(Pow2(k), b - a, r);
    }
  }

  lemma Pow2Is1024()
    ensures Pow2(10) == 1024
  {
    assert Pow2(5) == 32;
    assert Pow2(6) == 64 && Pow2(7) == 128 && Pow2(8) == 256 && Pow2(9) == 512;
  }

  lemma WordMod(y: nat)
    ensures y % 0x1_0000_0000 % 1024 == y % 1024
  {
    hide *;
    Shift1024(y % 0x1_0000_0000, 0x40_0000 * (y / 0x1_0000_0000));
  }

  lemma Shift1024(a: nat, c: nat)
    ensures (1024 * c + a) % 1024 == a % 1024
  {
    var q, r := a / 1024, a % 1024;
    assert 1024 * c + a == 1024 * (c + q) + r;
  }

  lemma HashOf(x: nat)
    ensures RpcModel.Hash(x % WORD) == (7919 * x) % 1024
  {
    var r, q := x % 0x1_0000_0000, x / 0x1_0000_0000;
    WordMod(r * 7919);
    Shift1024(r * 7919, 33214693376 * q);
    assert x == 0x1_0000_0000 * q + r;
  }

  /** Any 1024 consecutive transaction ids, across the 32-bit wrap, wait in different buckets. */
  lemma XidSpread(first: nat, i: nat, j: nat)
    requires i < j < RpcModel.HASHES
    ensures RpcModel.Hash((first + i) % WORD) != RpcModel.Hash((first + j) % WORD)
  {
    Pow2Is1024();
    HashOf(first + i);
    HashOf(first + j);
    NeighboursApart(7919, 10, first + i, first + j);
  }
}
