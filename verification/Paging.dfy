// The two encoders and two decoders of four-level virtual addresses.  An address is canonical
// when bits 63 to 48 copy bit 47 (Intel SDM Volume 1, section 3.3.7.1).

module Paging {
  import opened Words

  datatype Indices = Indices(pml4: nat, pdpt: nat, pd: nat, pt: nat) {
    predicate Valid() { pml4 < 512 && pdpt < 512 && pd < 512 && pt < 512 }
  }

  /** Bitwise or of natural numbers. */
  function Or(a: nat, b: nat): nat
    decreases a + b
  {
    if a == 0 && b == 0 then 0
    else (if a % 2 == 1 || b % 2 == 1 then 1 else 0) + 2 * Or(a / 2, b / 2)
  }

  function Pow2(k: nat): nat { if k == 0 then 1 else 2 * Pow2(k - 1) }

  /** Fields that do not overlap are joined by addition. */
  lemma {:induction false} OrFields(m: nat, b: nat, k: nat)
    requires b < Pow2(k)
    ensures Or(m * Pow2(k), b) == m * Pow2(k) + b
  {
    if k == 0 {
      OrZero(m);
    } else {
      assert m * Pow2(k) == 2 * (m * Pow2(k - 1));
      OrFields(m, b / 2, k - 1);
    }
  }

  lemma {:induction false} OrZero(m: nat)
    ensures Or(m, 0) == m
  {
    if m > 0 { OrZero(m / 2); }
  }

  lemma {:induction false} OrCommutes(a: nat, b: nat)
    ensures Or(a, b) == Or(b, a)
    decreases a + b
  {
    if a != 0 || b != 0 { OrCommutes(a / 2, b / 2); }
  }

  /** get_virtual_address: shifts the fields into place, or-ing from the lowest up. */
  function GetVirtualAddress(x: Indices): nat
    requires x.Valid()
  {
    var p0 := Or(0, x.pt * 0x1000);
    var p1 := Or(p0, x.pd * 0x20_0000);
    var p2 := Or(p1, x.pdpt * 0x4000_0000);
    var p3 := Or(p2, x.pml4 * 0x80_0000_0000);
    Or(p3, x.pml4 / 256 * 0xFFFF_0000_0000_0000)
  }

  /** translateAddrToInt: starts from the highest field and shifts left as it goes. */
  function TranslateAddrToInt(x: Indices): nat
    requires x.Valid()
  {
    var a0 := Or(x.pml4, x.pml4 / 256 % 2 * 0x100 * 0x1FFFE);
    var a1 := Or(a0 * 0x200, x.pdpt);
    var a2 := Or(a1 * 0x200, x.pd);
    var a3 := Or(a2 * 0x200, x.pt);
    a3 * 0x1000
  }

  /** disassemble_virtual_address and convertToAddr. */
  function Disassemble(a: Word): (x: Indices)
    ensures x.Valid()
  {
    Indices(a / 0x80_0000_0000 % 512, a / 0x4000_0000 % 512, a / 0x20_0000 % 512, a / 0x1000 % 512)
  }

  /** The address as a sum: bits 63 to 48 copy bit 47. */
  function Address(x: Indices): nat {
    x.pt * 0x1000 + x.pd * 0x20_0000 + x.pdpt * 0x4000_0000 + x.pml4 * 0x80_0000_0000 +
    x.pml4 / 256 * 0xFFFF_0000_0000_0000
  }

  predicate Canonical(a: Word) { a < 0x8000_0000_0000 || a >= 0xFFFF_8000_0000_0000 }

  lemma Powers()
    ensures Pow2(9) == 0x200 && Pow2(12) == 0x1000 && Pow2(21) == 0x20_0000
    ensures Pow2(30) == 0x4000_0000 && Pow2(39) == 0x80_0000_0000 && Pow2(48) == 0x1_0000_0000_0000
  {
  }

  /** Or of a low and a high field, in either order. */
  lemma Join(m: nat, b: nat, k: nat, p: nat)
    requires p == Pow2(k) && b < p
    ensures Or(m * p, b) == Or(b, m * p) == m * p + b
  {
    OrFields(m, b, k);
    OrCommutes(b, m * p);
  }

  /** get_virtual_address as a 64-bit word. */
  function Encode(x: Indices): (a: Word)
    requires x.Valid()
    ensures a == Address(x)
  {
    EncodersAgree(x);
    GetVirtualAddress(x)
  }

  /** Both encoders give the canonical address of the four fields. */
  lemma EncodersAgree(x: Indices)
    requires x.Valid()
    ensures GetVirtualAddress(x) == TranslateAddrToInt(x) == Address(x) < SPACE
    ensures Canonical(Address(x)) && Address(x) % PAGE == 0
  {
    GetVirtualSum(x);
    TranslateSum(x);
    AddressCanonical(x);
  }

  /** The address spelled out. */
  lemma EncodersGive(x: Indices)
    requires x.Valid()
    ensures GetVirtualAddress(x) == TranslateAddrToInt(x) ==
            (if x.pml4 < 256 then 0 else 0xFFFF_0000_0000_0000) + x.pml4 * 0x80_0000_0000 +
            x.pdpt * 0x4000_0000 + x.pd * 0x20_0000 + x.pt * 0x1000
  {
    EncodersAgree(x);
    assert x.pml4 / 256 == if x.pml4 < 256 then 0 else 1;
  }

  lemma AddressCanonical(x: Indices)
    requires x.Valid()
    ensures Address(x) < SPACE && Canonical(Address(x)) && Address(x) % PAGE == 0
  {
    var low := x.pt + x.pd * 0x200 + x.pdpt * 0x4_0000 + x.pml4 * 0x800_0000;
    var top := x.pml4 / 256;
    assert top == if x.pml4 < 256 then 0 else 1;
    AlignedTimes(low + top * 0xF_FFF0_0000_0000);
    assert Address(x) == (low + top * 0xF_FFF0_0000_0000) * 0x1000;
  }

  lemma AlignedTimes(n: nat)
    ensures n * 0x1000 % PAGE == 0
  {
  }

  lemma GetVirtualSum(x: Indices)
    requires x.Valid()
    ensures GetVirtualAddress(x) == Address(x)
  {
    hide Or;
    Powers();
    var p0 := x.pt * 0x1000;
    Join(x.pt, 0, 12, 0x1000);
    Join(x.pd, p0, 21, 0x20_0000);
    var p1 := x.pd * 0x20_0000 + p0;
    Join(x.pdpt, p1, 30, 0x4000_0000);
    var p2 := x.pdpt * 0x4000_0000 + p1;
    Join(x.pml4, p2, 39, 0x80_0000_0000);
    var p3 := x.pml4 * 0x80_0000_0000 + p2;
    Join(x.pml4 / 256 * 0xFFFF, p3, 48, 0x1_0000_0000_0000);
  }

  lemma TranslateSum(x: Indices)
    requires x.Valid()
    ensures TranslateAddrToInt(x) == Address(x)
  {
    hide Or;
    Powers();
    var top := x.pml4 / 256;
    Join(top * 0xFFFF, x.pml4, 9, 0x200);
    var a0 := top * 0xFFFF * 0x200 + x.pml4;
    Join(a0, x.pdpt, 9, 0x200);
    var a1 := a0 * 0x200 + x.pdpt;
    Join(a1, x.pd, 9, 0x200);
    Join(a1 * 0x200 + x.pd, x.pt, 9, 0x200);
  }

  /** Decoding undoes encoding. */
  lemma DecodeEncode(x: Indices)
    requires x.Valid()
    ensures GetVirtualAddress(x) < SPACE && Disassemble(GetVirtualAddress(x)) == x
  {
    hide Or, GetVirtualAddress, TranslateAddrToInt;
    EncodersAgree(x);
    DecodeAddress(x);
  }

  lemma DecodeAddress(x: Indices)
    requires x.Valid()
    ensures Address(x) < SPACE && Disassemble(Address(x)) == x
  {
    AddressCanonical(x);
    var n3 := x.pml4 + 512 * (x.pml4 / 256 * 0xFFFF);
    var n2 := x.pdpt + 512 * n3;
    var n1 := x.pd + 512 * n2;
    var n0 := x.pt + 512 * n1;
    assert Address(x) == n0 * 0x1000;
    Digits(x.pt, n1);
    Digits(x.pd, n2);
    Digits(x.pdpt, n3);
    Digits(x.pml4, x.pml4 / 256 * 0xFFFF);
    Shifts(Address(x));
  }

  lemma Digits(d: nat, rest: nat)
    requires d < 512
    ensures (d + 512 * rest) % 512 == d && (d + 512 * rest) / 512 == rest
  {
  }

  lemma Shifts(a: Word)
    ensures a / 0x20_0000 == a / 0x1000 / 512
    ensures a / 0x4000_0000 == a / 0x1000 / 512 / 512
    ensures a / 0x80_0000_0000 == a / 0x1000 / 512 / 512 / 512
  {
  }

  /** An address is its four fields, its page offset and its top sixteen bits. */
  lemma Decompose(a: Word)
    ensures var x := Disassemble(a);
            a == a % PAGE + x.pt * 0x1000 + x.pd * 0x20_0000 + x.pdpt * 0x4000_0000 + x.pml4 * 0x80_0000_0000 +
                 a / 0x1_0000_0000_0000 * 0x1_0000_0000_0000
  {
    var n := a / 0x1000;
    Shifts(a);
    assert a / 0x1_0000_0000_0000 == n / 512 / 512 / 512 / 512;
  }

  /** Encoding undoes decoding exactly on the canonical page addresses. */
  lemma EncodeDecode(a: Word)
    ensures GetVirtualAddress(Disassemble(a)) == a <==> Canonical(a) && a % PAGE == 0
  {
    hide Or, GetVirtualAddress, TranslateAddrToInt;
    EncodersAgree(Disassemble(a));
    Decompose(a);
    TopBits(a);
  }

  lemma TopBits(a: Word)
    ensures var high, pml4 := a / 0x1_0000_0000_0000, Disassemble(a).pml4;
            Canonical(a) <==> high == pml4 / 256 * 0xFFFF
  {
    var q, r := a / 0x80_0000_0000, a % 0x80_0000_0000;
    assert a == q * 0x80_0000_0000 + r;
    assert a / 0x1_0000_0000_0000 == q / 512;
    var high, pml4 := q / 512, q % 512;
    assert q == high * 512 + pml4;
    assert Canonical(a) <==> q < 256 || q >= 0xFFFF * 512 + 256;
    if pml4 < 256 { assert pml4 / 256 == 0; } else { assert pml4 / 256 == 1; }
  }
}
