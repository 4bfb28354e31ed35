// map_virtual_address: the static indices that count down through the pages of one top-level
// slot after another, and the virtual addresses they give.

module Countdown {
  import opened Words
  import opened Paging

  /** The static variables pml4, pdpt, pd and pt. */
  datatype Cursor = Cursor(pml4: int, pdpt: int, pd: int, pt: int)

  const INITIAL: Cursor := Cursor(-1, 511, 511, 511)

  /** next_free_pml4: the highest slot not present, 0 when it would abort. */
  function HighestFree(present: set<nat>, i: nat): (slot: nat)
    ensures slot <= i && (slot > 0 ==> slot !in present)
    ensures forall k :: slot < k <= i ==> k in present
  {
    if i == 0 then 0 else if i !in present then i else HighestFree(present, i - 1)
  }

  /** The indices used by a call; pml4 is 0 when the call aborts. */
  function Settled(c: Cursor, present: set<nat>): Cursor {
    var c1 := if c.pml4 == -1 then c.(pml4 := HighestFree(present, 511)) else c;
    var c2 := if c1.pt < 0 then c1.(pt := 511, pd := c1.pd - 1) else c1;
    var c3 := if c2.pd < 0 then c2.(pd := 511, pdpt := c2.pdpt - 1) else c2;
    if c3.pdpt < 0 then c3.(pml4 := HighestFree(present, 511), pdpt := 511) else c3
  }

  /** The address returned, built by adding each index to what is shifted in before it. */
  function Virt(c: Cursor, phys: Word): int {
    ((((0xFFFF * 512 + c.pml4) * 512 + c.pdpt) * 512 + c.pd) * 512 + c.pt) * 0x1000 + phys % 0x1000
  }

  predicate InRange(c: Cursor) {
    0 < c.pml4 < 512 && 0 <= c.pdpt < 512 && 0 <= c.pd < 512 && 0 <= c.pt < 512
  }

  /** Between calls: all slots from the current one up are present. */
  ghost predicate Inv(c: Cursor, present: set<nat>) {
    c == INITIAL ||
    (0 < c.pml4 < 512 && 0 <= c.pdpt < 512 && 0 <= c.pd < 512 && -1 <= c.pt < 511
     && forall i: nat :: c.pml4 <= i < 512 ==> i in present)
  }

  function Position(c: Cursor): int { ((c.pml4 * 512 + c.pdpt) * 512 + c.pd) * 512 + c.pt }

  /** A call uses the next page down, or the top page of the next free slot further down. */
  lemma SettledIs(c: Cursor, present: set<nat>)
    requires Inv(c, present) && Settled(c, present).pml4 > 0
    ensures var d := Settled(c, present);
            && InRange(d)
            && Inv(d.(pt := d.pt - 1), present + {d.pml4})
            && (c == INITIAL || d.pml4 != c.pml4 ==>
                  d.pml4 == HighestFree(present, 511) && d.pdpt == 511 && d.pd == 511 && d.pt == 511)
            && (c != INITIAL ==> Position(d) <= Position(c) && (d.pml4 == c.pml4 ==> Position(d) == Position(c)))
  {
  }

  /**
   * After the first call a new slot is taken exactly when the last page of the current one has been used;
   * otherwise the page is the one the indices stand for, with the borrows of the lower indices carried out.
   * A new slot is the highest one not present, and its top page comes first.
   */
  lemma NewSlotExact(c: Cursor, present: set<nat>)
    requires Inv(c, present)
    ensures var d := Settled(c, present);
            && (c != INITIAL ==> (d.pml4 != c.pml4 <==> c.pt == -1 && c.pd == 0 && c.pdpt == 0))
            && (c != INITIAL && d.pml4 == c.pml4 ==>
                  (d.pdpt * 512 + d.pd) * 512 + d.pt == (c.pdpt * 512 + c.pd) * 512 + c.pt)
            && (c == INITIAL || d.pml4 != c.pml4 ==>
                  && d.pdpt == d.pd == d.pt == 511
                  && (d.pml4 > 0 ==> d.pml4 !in present)
                  && forall k :: d.pml4 < k < 512 ==> k in present)
  {
  }

  /** The address is that of the indices, and canonical, exactly in the upper half. */
  lemma VirtExact(c: Cursor, phys: Word)
    requires InRange(c)
    ensures 0 <= Virt(c, phys) < SPACE && PageOf(Virt(c, phys)) == Virt(c, phys) - phys % 0x1000
    ensures Virt(c, phys) == Encode(Indices(c.pml4, c.pdpt, c.pd, c.pt)) + phys % 0x1000 <==> c.pml4 >= 256
    ensures Canonical(Virt(c, phys)) <==> c.pml4 >= 256
  {
    var low := (c.pdpt * 512 + c.pd) * 512 + c.pt;
    assert 0 <= low < 0x800_0000;
    assert Virt(c, phys) == 0xFFFF_0000_0000_0000 + c.pml4 * 0x80_0000_0000 + low * 0x1000 + phys % 0x1000;
    assert c.pml4 / 256 == if c.pml4 >= 256 then 1 else 0;
  }

  // ----- runs -----

  /** Calls one after the other; other code may fill slots in between, none are emptied. */
  ghost predicate Run(cs: seq<Cursor>, present: seq<set<nat>>) {
    && |cs| == |present| > 0 && cs[0] == INITIAL
    && (forall i :: 0 <= i < |cs| ==> Settled(cs[i], present[i]).pml4 > 0)
    && forall i :: 0 < i < |cs| ==> Follows(cs[i - 1], present[i - 1], cs[i], present[i])
  }

  ghost predicate Follows(c: Cursor, p: set<nat>, d: Cursor, q: set<nat>) {
    var u := Settled(c, p);
    d == u.(pt := u.pt - 1) && p + {u.pml4} <= q
  }

  lemma {:induction false} RunKeeps(cs: seq<Cursor>, present: seq<set<nat>>, i: nat)
    requires Run(cs, present) && i < |cs|
    ensures Inv(cs[i], present[i])
    ensures i > 0 ==> cs[i] != INITIAL
  {
    if i > 0 {
      RunKeeps(cs, present, i - 1);
      assert Follows(cs[i - 1], present[i - 1], cs[i], present[i]);
      SettledIs(cs[i - 1], present[i - 1]);
    }
  }

  /** Over every run each page lies below all earlier ones; within a slot directly below the one before. */
  lemma {:induction false} RunDescends(cs: seq<Cursor>, present: seq<set<nat>>, i: nat, j: nat, phys: Word)
    requires Run(cs, present) && i < j < |cs|
    ensures var u, v := Settled(cs[i], present[i]), Settled(cs[j], present[j]);
            && Virt(v, phys) + PAGE <= Virt(u, phys)
            && (u.pml4 == v.pml4 && j == i + 1 ==> Virt(v, phys) + PAGE == Virt(u, phys))
    decreases j
  {
    RunKeeps(cs, present, j - 1);
    RunKeeps(cs, present, j);
    assert Follows(cs[j - 1], present[j - 1], cs[j], present[j]);
    SettledIs(cs[j - 1], present[j - 1]);
    SettledIs(cs[j], present[j]);
    if i < j - 1 { RunDescends(cs, present, i, j - 1, phys); }
  }

  /**
   * Over every run call i returns page 512^3 - 1 - i % 512^3 of its slot.  A new slot, the highest one not
   * present, is taken on every call whose number is a multiple of 512^3 and on no other.
   */
  lemma {:induction false} RunExact(cs: seq<Cursor>, present: seq<set<nat>>, i: nat, phys: Word)
    requires Run(cs, present) && i < |cs|
    ensures var slot, n := Settled(cs[i], present[i]).pml4, i % 0x800_0000;
            && 0 < slot < 512
            && Virt(Settled(cs[i], present[i]), phys) ==
                0xFFFF_0000_0000_0000 + slot * 0x80_0000_0000 + (0x7FF_FFFF - n) * 0x1000 + phys % 0x1000
            && (n == 0 ==> slot !in present[i] && forall k :: slot < k < 512 ==> k in present[i])
            && (i > 0 ==> (slot != Settled(cs[i - 1], present[i - 1]).pml4 <==> n == 0))
  {
    RunKeeps(cs, present, i);
    SettledIs(cs[i], present[i]);
    NewSlotExact(cs[i], present[i]);
    if i > 0 {
      RunExact(cs, present, i - 1, phys);
      RunKeeps(cs, present, i - 1);
      SettledIs(cs[i - 1], present[i - 1]);
      assert Follows(cs[i - 1], present[i - 1], cs[i], present[i]);
      NextRemainder(i - 1);
    }
  }

  lemma NextRemainder(i: nat)
    ensures (i + 1) % 0x800_0000 == if i % 0x800_0000 == 0x7FF_FFFF then 0 else i % 0x800_0000 + 1
  {
  }

  // ----- the function -----

  class DeviceMapper {
    var pml4: int
    var pdpt: int
    var pd: int
    var pt: int

    constructor ()
      ensures At() == INITIAL
    {
      pml4, pdpt, pd, pt := -1, 511, 511, 511;
    }

    function At(): Cursor
      reads this
    {
      Cursor(pml4, pdpt, pd, pt)
    }

    method NextFreePml4(present: set<nat>) returns (slot: nat)
      ensures slot == HighestFree(present, 511)
    {
      slot := 511;
      while slot > 0 && slot in present
        invariant slot <= 511 && HighestFree(present, slot) == HighestFree(present, 511)
      {
        slot := slot - 1;
      }
    }

    /** The indices are carried over, and a new slot is taken when all of one are used. */
    method Settle(present: set<nat>) returns (ok: bool)
      requires Inv(At(), present)
      modifies this
      ensures ok <==> Settled(old(At()), present).pml4 > 0
      ensures ok ==> At() == Settled(old(At()), present)
    {
      ok := false;
      if pml4 == -1 {
        pml4 := NextFreePml4(present);
        if pml4 == 0 { return; }
      }
      if pt < 0 {
        pt := 511;
        pd := pd - 1;
      }
      if pd < 0 {
        pd := 511;
        pdpt := pdpt - 1;
      }
      if pdpt < 0 {
        pml4 := NextFreePml4(present);
        pdpt := 511;
        if pml4 == 0 { return; }
      }
      ok := true;
    }

    /**
     * map_virtual_address with the page tables' top level given by the slots present in it: the page the
     * indices stand for, and the top page of the highest slot not present on the first call and when the
     * last page of a slot has been used.  It fails when every slot from 1 up is present.
     */
    method Map(phys: Word, present: set<nat>) returns (virt: Word, ok: bool)
      requires Inv(At(), present)
      modifies this
      ensures var d := Settled(old(At()), present);
              (ok <==> d.pml4 > 0) &&
              (ok ==> virt == Virt(d, phys) && At() == d.(pt := d.pt - 1) && Inv(At(), present + {d.pml4}))
      ensures old(At() != INITIAL && !(pt == -1 && pd == 0 && pdpt == 0)) ==>
                && ok && pml4 == old(pml4)
                && virt == 0xFFFF_0000_0000_0000 + old(pml4) * 0x80_0000_0000 +
                           ((old(pdpt) * 512 + old(pd)) * 512 + old(pt)) * 0x1000 + phys % 0x1000
      ensures ok && old(At() == INITIAL || (pt == -1 && pd == 0 && pdpt == 0)) ==>
                && 0 < pml4 < 512 && pml4 !in present && (forall k :: pml4 < k < 512 ==> k in present)
                && virt == 0xFFFF_0000_0000_0000 + pml4 * 0x80_0000_0000 + 0x7F_FFFF_F000 + phys % 0x1000
      ensures !ok ==> forall k :: 0 < k < 512 ==> k in present
    {
      ghost var c := At();
      virt := 0;
      ok := Settle(present);
      NewSlotExact(c, present);
      if !ok { return; }
      SettledIs(c, present);
      VirtExact(At(), phys);
      hide Inv;
      var v := 0xFFFF;
      v := v * 512 + pml4;
      v := v * 512 + pdpt;
      v := v * 512 + pd;
      v := v * 512 + pt;
      v := v * 0x1000;
      virt := v + phys % 0x1000;
      pt := pt - 1;
    }
  }
}
