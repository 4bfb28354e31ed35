// 64-bit machine words and the page arithmetic every component shares.

module Words {

  const SPACE: int := 0x1_0000_0000_0000_0000
  const PAGE: int := 0x1000

  /** The value 0x3FFC000000000000 that the kernel returns for "no such address". */
  const INVALID: Word := 0x3FFC_0000_0000_0000

  type Word = x: int | 0 <= x < SPACE

  /** Unsigned 64-bit addition. */
  function Add(a: Word, b: Word): Word {
    if a + b < SPACE then a + b else a + b - SPACE
  }

  /** Unsigned 64-bit subtraction. */
  function Sub(a: Word, b: Word): Word {
    if b <= a then a - b else a - b + SPACE
  }

  /** `a & ~0xFFF`. */
  function PageOf(a: Word): Word { a - a % PAGE }

  /** `a & 0xFFF`. */
  function OffsetOf(a: Word): Word { a % PAGE }

  lemma Monotone(i: nat, j: nat, m: nat)
    requires i <= j
    ensures i * m <= j * m
  {
    assert (j - i) * m >= 0 && (j - i) * m == j * m - i * m;
  }

  lemma Successive(i: nat, j: nat, m: nat)
    ensures i < j ==> i * m + m <= j * m
  {
    if i < j {
      Monotone(i + 1, j, m);
      assert (i + 1) * m == i * m + m;
    }
  }

  /** The remainder is the only one. */
  lemma Remainder(a: nat, m: nat, q: nat, r: nat)
    requires r < m && a == q * m + r
    ensures a % m == r
  {
    var p := a / m;
    assert a == p * m + a % m;
    Successive(p, q, m);
    Successive(q, p, m);
  }
}
