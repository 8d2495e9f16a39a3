/** 32-bit machine words as integers in range, with the wrap-around written out. */
module Words {

  const W: int := 0x1_0000_0000
  const SIGN: int := 0x8000_0000

  type word = x: int | 0 <= x < 0x1_0000_0000

  function Wrap(x: int): word { x % 0x1_0000_0000 }

  function Bit31(x: word): bool { x >= 0x8000_0000 }

  function Not(x: word): word { 0xFFFF_FFFF - x }

  /** The two's-complement reading of a word. */
  function Signed(x: word): int {
    if Bit31(x) then x - 0x1_0000_0000 else x
  }

  function And(a: word, b: word): word { ((a as bv32) & (b as bv32)) as word }

  function Or(a: word, b: word): word { ((a as bv32) | (b as bv32)) as word }

  function Xor(a: word, b: word): word { ((a as bv32) ^ (b as bv32)) as word }

  function Pow2(n: nat): (p: nat)
    ensures p >= 1
  {
    if n == 0 then 1 else 2 * Pow2(n - 1)
  }

  lemma Pow2Double(n: nat)
    ensures Pow2(n + 1) == 2 * Pow2(n)
  {
  }

  lemma {:induction false} Pow2Add(m: nat, n: nat)
    ensures Pow2(m + n) == Pow2(m) * Pow2(n)
  {
    if m > 0 {
      Pow2Add(m - 1, n);
      assert Pow2(m + n) == 2 * Pow2(m - 1 + n);
    }
  }

  lemma Pow2Of32()
    ensures Pow2(31) == SIGN && Pow2(32) == W
  {
    assert Pow2(8) == 256;
    Pow2Add(8, 8);
    Pow2Add(16, 8);
    Pow2Add(24, 7);
    assert Pow2(7) == 128;
  }

  lemma MulGe(a: int, b: int, m: nat)
    requires a >= b
    ensures a * m >= b * m
    ensures a > b ==> a * m >= b * m + m
  {
    assert (a - b) * m >= 0;
    assert (a - b) * m == a * m - b * m;
    if a > b {
      assert (a - b - 1) * m >= 0;
      assert (a - b - 1) * m == a * m - b * m - m;
    }
  }

  /** Quotient and remainder are determined by the division equation. */
  lemma DivModUnique(x: int, m: int, q: int, r: int)
    requires m > 0 && 0 <= r < m && x == q * m + r
    ensures x / m == q && x % m == r
  {
    var q', r' := x / m, x % m;
    assert x == q' * m + r' by { assert x == m * q' + r'; }
    if q > q' {
      MulGe(q, q', m);
      assert false;
    } else if q < q' {
      MulGe(q', q, m);
      assert false;
    }
  }

  /** Scaling a remainder and its modulus alike. */
  lemma MulMod(a: nat, k: nat, m: nat)
    requires k > 0 && m > 0
    ensures (a % m) * k == (a * k) % (m * k)
  {
    var q, r := a / m, a % m;
    assert a == q * m + r by { assert a == m * q + r; }
    ScaleDivision(a, k, m, q, r);
    DivModUnique(a * k, m * k, q, r * k);
  }

  lemma ScaleDivision(a: nat, k: nat, m: nat, q: nat, r: nat)
    requires k > 0 && r < m && a == q * m + r
    ensures m * k > 0 && 0 <= r * k < m * k && a * k == q * (m * k) + r * k
  {
    MulGe(m, r + 1, k);
    assert (r + 1) * k == r * k + k;
    assert (q * m + r) * k == (q * m) * k + r * k;
    assert (q * m) * k == q * (m * k);
  }

  /** Adding whole turns does not change a word. */
  lemma WrapTurns(x: int, k: int)
    ensures Wrap(x + k * W) == Wrap(x)
  {
    DivModUnique(x + k * W, W, x / W + k, x % W);
  }

  lemma WrapSum(a: int, b: int)
    ensures Wrap(a + Wrap(b)) == Wrap(a + b)
  {
    WrapTurns(a + Wrap(b), b / W);
  }
}
