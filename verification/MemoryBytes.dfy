// Memory as the byte at each address, and the little-endian 64-bit words in it.

module MemoryBytes {
  import opened Words

  type Memory = int -> int

  function Pow256(j: int): (r: int)
    ensures r > 0
  {
    if j == 1 then 0x100
    else if j == 2 then 0x1_0000
    else if j == 3 then 0x100_0000
    else if j == 4 then 0x1_0000_0000
    else if j == 5 then 0x100_0000_0000
    else if j == 6 then 0x1_0000_0000_0000
    else if j == 7 then 0x100_0000_0000_0000
    else if j == 8 then 0x1_0000_0000_0000_0000
    else 1
  }

  /** Byte j of a word, the lowest one first. */
  function Byte(v: int, j: int): int { v / Pow256(j) % 256 }

  function Write(m: Memory, a: int, v: int): Memory { k => if a <= k < a + 8 then Byte(v, k - a) else m(k) }

  /** memset with 0 over n bytes. */
  function Wipe(m: Memory, a: int, n: int): Memory { k => if a <= k < a + n then 0 else m(k) }

  function Read(m: Memory, a: int): int {
    m(a) + 0x100 * m(a + 1) + 0x1_0000 * m(a + 2) + 0x100_0000 * m(a + 3) + 0x1_0000_0000 * m(a + 4) +
    0x100_0000_0000 * m(a + 5) + 0x1_0000_0000_0000 * m(a + 6) + 0x100_0000_0000_0000 * m(a + 7)
  }

  /** The bytes of v lie at a. */
  ghost predicate Holds(m: Memory, a: int, v: int) { forall k :: a <= k < a + 8 ==> m(k) == Byte(v, k - a) }

  /** The bytes of [lo, hi) are the same in both memories. */
  ghost predicate Same(m: Memory, w: Memory, lo: int, hi: int) { forall k :: lo <= k < hi ==> w(k) == m(k) }

  // ----- digits -----

  lemma DivUnique(v: int, n: int, e: int, r: int)
    requires 0 <= r < n && v == n * e + r
    ensures v / n == e && v % n == r
  {
    var d := v / n - e;
    assert n * d == r - v % n;
    if d >= 1 { Bigger(n, d); } else if d <= -1 { Bigger(n, -d); }
  }

  lemma Bigger(n: int, d: int)
    requires n > 0 && d >= 1
    ensures n * d >= n
  {
    assert n * (d - 1) >= 0;
  }

  lemma Regroup(p: int, q: int, e: int, x: int, y: int)
    ensures p * (q * e + x) + y == (p * q) * e + (p * x + y)
  {
    assert p * (q * e + x) == p * (q * e) + p * x;
    assert p * (q * e) == (p * q) * e;
  }

  lemma InRange(p: int, q: int, x: int, y: int)
    requires 0 <= x < q && 0 <= y < p
    ensures 0 <= p * x + y < p * q
  {
    assert p * x >= 0;
    assert p * q == p * x + p * (q - x);
    Bigger(p, q - x);
  }

  /** The remainder of v for p * q from its digits for p and q. */
  lemma TwoDigits(v: int, p: int, q: int)
    requires p > 0 && q > 0
    ensures p * q > 0 && v / (p * q) == v / p / q && v % (p * q) == p * (v / p % q) + v % p
  {
    var d := v / p;
    InRange(p, q, d % q, v % p);
    Regroup(p, q, d / q, d % q, v % p);
    DivUnique(v, p * q, d / q, p * (d % q) + v % p);
  }

  lemma PowSum(i: nat, j: nat)
    requires i + j <= 8
    ensures Pow256(i) * Pow256(j) == Pow256(i + j)
  {
  }

  /** One more digit. */
  lemma DigitStep(v: int, n: nat)
    requires n < 8
    ensures v % Pow256(n + 1) == v % Pow256(n) + Pow256(n) * Byte(v, n)
  {
    PowSum(n, 1);
    TwoDigits(v, Pow256(n), 256);
  }

  lemma Digits(v: int)
    requires 0 <= v < SPACE
    ensures v == Byte(v, 0) + 0x100 * Byte(v, 1) + 0x1_0000 * Byte(v, 2) + 0x100_0000 * Byte(v, 3) +
                 0x1_0000_0000 * Byte(v, 4) + 0x100_0000_0000 * Byte(v, 5) + 0x1_0000_0000_0000 * Byte(v, 6) +
                 0x100_0000_0000_0000 * Byte(v, 7)
  {
    hide Byte;
    FourDigits(v, 0);
    FourDigits(v, 4);
    assert v % 1 == 0 && v % SPACE == v;
  }

  lemma FourDigits(v: int, n: nat)
    requires n <= 4
    ensures v % Pow256(n + 4) == v % Pow256(n) + Pow256(n) * Byte(v, n) + Pow256(n + 1) * Byte(v, n + 1) +
                                 Pow256(n + 2) * Byte(v, n + 2) + Pow256(n + 3) * Byte(v, n + 3)
  {
    hide Byte, Pow256;
    DigitStep(v, n);
    DigitStep(v, n + 1);
    DigitStep(v, n + 2);
    DigitStep(v, n + 3);
  }

  /** The low n bytes agree exactly when the remainders do. */
  lemma {:induction false} LowBytes(v: int, x: int, n: nat)
    requires n <= 8
    ensures (forall j :: 0 <= j < n ==> Byte(v, j) == Byte(x, j)) <==> v % Pow256(n) == x % Pow256(n)
  {
    if n == 0 {
      assert v % 1 == 0 && x % 1 == 0;
    } else {
      LowBytes(v, x, n - 1);
      DigitStep(v, n - 1);
      DigitStep(x, n - 1);
      LeadingDigit(v, x, n - 1);
    }
  }

  lemma LeadingDigit(v: int, x: int, n: nat)
    requires n < 8
    ensures v % Pow256(n) + Pow256(n) * Byte(v, n) == x % Pow256(n) + Pow256(n) * Byte(x, n)
            <==> v % Pow256(n) == x % Pow256(n) && Byte(v, n) == Byte(x, n)
  {
    var p := Pow256(n);
    assert 0 <= v % p < p && 0 <= x % p < p;
  }

  /** Byte i + j is byte j of what is left after dropping i bytes. */
  lemma DropBytes(v: int, i: nat, j: nat)
    requires i + j < 8
    ensures Byte(v, i + j) == Byte(v / Pow256(i), j)
  {
    PowSum(i, j);
    TwoDigits(v, Pow256(i), Pow256(j));
  }

  // ----- words -----

  lemma ReadHolds(m: Memory, a: int, v: int)
    requires Holds(m, a, v) && 0 <= v < SPACE
    ensures Read(m, a) == v
  {
    hide Byte;
    Digits(v);
    assert m(a + 0) == Byte(v, a + 0 - a) && m(a + 1) == Byte(v, a + 1 - a) && m(a + 2) == Byte(v, a + 2 - a);
    assert m(a + 3) == Byte(v, a + 3 - a) && m(a + 4) == Byte(v, a + 4 - a) && m(a + 5) == Byte(v, a + 5 - a);
    assert m(a + 6) == Byte(v, a + 6 - a) && m(a + 7) == Byte(v, a + 7 - a);
  }

  lemma HoldsUnique(m: Memory, a: int, v: int, x: int)
    requires Holds(m, a, v) && Holds(m, a, x) && 0 <= v < SPACE && 0 <= x < SPACE
    ensures v == x
  {
    ReadHolds(m, a, v);
    ReadHolds(m, a, x);
  }

  lemma WriteHolds(m: Memory, a: int, v: int)
    ensures Holds(Write(m, a, v), a, v)
  {
    hide Byte;
  }

  lemma WriteKeeps(m: Memory, a: int, v: int, k: int, x: int)
    requires Holds(m, k, x) && (k + 8 <= a || a + 8 <= k)
    ensures Holds(Write(m, a, v), k, x)
  {
    hide Byte;
  }

  lemma WipeKeeps(m: Memory, a: int, n: int, k: int, x: int)
    requires Holds(m, k, x) && (k + 8 <= a || a + n <= k)
    ensures Holds(Wipe(m, a, n), k, x)
  {
    hide Byte;
  }

  lemma WriteFrame(m: Memory, a: int, v: int, lo: int, hi: int)
    requires a + 8 <= lo || hi <= a
    ensures Same(m, Write(m, a, v), lo, hi)
  {
    hide Byte;
  }

  lemma WipeFrame(m: Memory, a: int, n: int, lo: int, hi: int)
    requires a + n <= lo || hi <= a
    ensures Same(m, Wipe(m, a, n), lo, hi)
  {
  }

  lemma SameTrans(m: Memory, w: Memory, x: Memory, lo: int, hi: int)
    requires Same(m, w, lo, hi) && Same(w, x, lo, hi)
    ensures Same(m, x, lo, hi)
  {
  }

  lemma SameHolds(m: Memory, w: Memory, lo: int, hi: int, a: int, v: int)
    requires Same(m, w, lo, hi) && lo <= a && a + 8 <= hi && Holds(m, a, v)
    ensures Holds(w, a, v)
  {
    hide Byte;
  }
}
