// The kernel's virtual page manager: the search for free virtual space and map_next_to,
// working on the translator and on the four index fields of the current process.

module PageManager {
  import opened Options
  import opened Words
  import opened RunList
  import opened Insertion
  import opened Paging
  import opened Slots
  import opened Mapping
  import opened Translator

  class Process {
    var pml4: nat
    var pdpt: nat
    var pd: nat
    var pt: nat

    ghost predicate InRange()
      reads this
    {
      pml4 <= 512 && pdpt < 512 && pd < 512 && pt < 512
    }

    method SetFree(a: Word)
      modifies this
      ensures InRange() && Free() == Disassemble(a)
    {
      pt := a / 0x1000 % 512;
      pd := a / 0x20_0000 % 512;
      pdpt := a / 0x4000_0000 % 512;
      pml4 := a / 0x80_0000_0000 % 512;
    }

    /** get_current_process_address. */
    function Free(): Indices
      reads this
    {
      Indices(pml4, pdpt, pd, pt)
    }
  }

  class PageManager {
    const translator: AddressTranslator
    const process: Process

    constructor (translator: AddressTranslator, process: Process)
      ensures this.translator == translator && this.process == process
    {
      this.translator, this.process := translator, process;
    }

    ghost predicate Valid()
      reads this, translator, translator.nodes, process
    {
      && translator.Valid() && translator.Cached() && Aligned(translator.Runs())
      && process.InRange()
    }

    /**
     * The four tests of one loop iteration, coarsest first.  The first one decides: the steps
     * by 1 GiB, 2 MiB and 4 KiB that follow the other three are never taken.
     */
    method Probe(virtAddr: Word) returns (taken: bool)
      requires Valid()
      modifies translator`cache, translator`cacheAt
      ensures Valid() && translator.Runs() == old(translator.Runs())
      ensures taken == Occupied(translator.Runs(), virtAddr, 1)
    {
      ghost var rs := translator.Runs();
      CachesIdle(rs, virtAddr);
      hide Occupied, ContainsLevel, Aligned;
      taken := translator.ContainsLevel(virtAddr, 1);
      if taken { return; }
      var found := translator.ContainsLevel(virtAddr, 2);
      if found { NotFiner(rs, virtAddr, 2); assert false; }
      found := translator.ContainsLevel(virtAddr, 3);
      if found { NotFiner(rs, virtAddr, 3); assert false; }
      found := translator.ContainsLevel(virtAddr, 4);
      if found { NotFiner(rs, virtAddr, 4); assert false; }
    }

    /** `ok == false` is the abort: index out of the kernel half, or no empty slot up to 2^64. */
    method FindFreeVirt() returns (ok: bool)
      requires Valid()
      modifies translator`cache, translator`cacheAt, process
      ensures Valid() && translator.Runs() == old(translator.Runs())
      ensures old(process.pml4 == 512 || process.pml4 < 256) ==> !ok
      ensures old(256 <= process.pml4 < 512) ==>
                match FirstFree(translator.Runs(), Encode(old(process.Free())))
                case None => !ok
                case Some(b) => ok && process.Free() == Disassemble(b)
      ensures !ok ==> process.Free() == old(process.Free())
    {
      if process.pml4 == 512 { return false; }
      if process.pml4 < 256 { return false; }
      hide Or, GetVirtualAddress, Address, FirstFree, Occupied, Disassemble, Aligned, ContainsLevel;
      var virtAddr := Encode(process.Free());
      ghost var rs, start := translator.Runs(), virtAddr;
      while virtAddr > 0
        invariant Valid() && translator.Runs() == rs && process.Free() == old(process.Free())
        invariant FirstFree(rs, start) == FirstFree(rs, virtAddr)
        decreases if virtAddr == 0 then 0 else SPACE - virtAddr
      {
        FirstFreeStep(rs, virtAddr);
        var taken := Probe(virtAddr);
        if taken {
          virtAddr := NextSlot(virtAddr);
          continue;
        }
        process.SetFree(virtAddr);
        return true;
      }
      return false;
    }

    /**
     * check_free_and_alloc_structures: whether the page is free, and how many paging tables
     * have to be allocated for it.  Their contents are not part of this model.
     */
    method CheckFreeAndAllocStructures(addr: Indices) returns (free: bool, tables: nat)
      requires Valid() && addr.Valid()
      modifies translator`cache, translator`cacheAt
      ensures Valid() && translator.Runs() == old(translator.Runs())
      ensures var a := Encode(addr);
              free == !Occupied(translator.Runs(), a, 4)
              && (free ==> tables == MissingTables(translator.Runs(), a))
    {
      EncodersAgree(addr);
      hide Or, GetVirtualAddress, Address, Occupied;
      var a: Word := TranslateAddrToInt(addr);
      assert a == Encode(addr);
      ghost var rs := translator.Runs();
      CachesIdle(rs, a);
      var found := translator.ContainsLevel(a, 4);
      if found { return false, 0; }
      found := translator.ContainsLevel(a, 1);
      if !found {
        if Occupied(rs, a, 2) { OccupiedCoarser(rs, a, 1); }
        if Occupied(rs, a, 3) { OccupiedCoarser(rs, a, 2); }
        return true, 3;
      }
      found := translator.ContainsLevel(a, 2);
      if !found {
        if Occupied(rs, a, 3) { OccupiedCoarser(rs, a, 2); }
        return true, 2;
      }
      found := translator.ContainsLevel(a, 3);
      return true, if found then 0 else 1;
    }

    /** map_next_to; None is the abort of either search. */
    method MapNextTo(phys: Word) returns (virt: Option<Word>)
      requires Valid() && process.pml4 < 512
      modifies translator, translator.nodes, process
      ensures Encode(old(process.Free())) < SPACE
      ensures var s := Space(old(translator.Runs()), Encode(old(process.Free())));
              match MapNext(s, phys)
              case Aborts => virt == None
              case Returns(t, v) =>
                virt == Some(v) && translator.Valid() && translator.Cached()
                && translator.Runs() == t.runs && process.Free() == Disassemble(t.cursor)
    {
      hide Encode, FirstFree, Occupied, AddRun, Disassemble, Aligned, HighHalf, Page, PageOf;
      ghost var s := Space(translator.Runs(), Encode(process.Free()));
      AddressHalf(process.Free());
      var addr := process.Free();
      var free, tables := CheckFreeAndAllocStructures(addr);
      if !free {
        var ok := FindFreeVirt();
        if !ok { return None; }
        addr := process.Free();
        TargetDecodes(s, old(process.Free()));
        free, tables := CheckFreeAndAllocStructures(addr);
      }
      var page := Encode(addr);
      PageKeepsAligned(translator.Runs(), addr, phys);
      translator.AddEntry(page, phys, 0x1000);
      var ok := FindFreeVirt();
      return if ok then Some(page) else None;
    }
  }

  /** The number of paging levels below the first at which a page has no neighbour yet. */
  function MissingTables(rs: seq<Run>, a: Word): nat {
    (if Occupied(rs, a, 1) then 0 else 1) + (if Occupied(rs, a, 2) then 0 else 1) +
    (if Occupied(rs, a, 3) then 0 else 1)
  }

  /** Three, two, one or none, by the coarsest level at which no run reaches the slot of the page. */
  lemma MissingExact(rs: seq<Run>, a: Word)
    requires AllSound(rs)
    ensures MissingTables(rs, a) ==
            if NoneReaches(rs, a, 0x80_0000_0000) then 3
            else if NoneReaches(rs, a, 0x4000_0000) then 2
            else if NoneReaches(rs, a, 0x20_0000) then 1
            else 0
  {
    hide NoneReaches, Occupied;
    OccupiedExact(rs, a, 1, 0x80_0000_0000);
    OccupiedExact(rs, a, 2, 0x4000_0000);
    OccupiedExact(rs, a, 3, 0x20_0000);
    if Occupied(rs, a, 2) { OccupiedCoarser(rs, a, 1); }
    if Occupied(rs, a, 3) { OccupiedCoarser(rs, a, 2); }
  }

  lemma CachesIdle(rs: seq<Run>, a: Word)
    requires Aligned(rs)
    ensures forall c, level :: 0 <= c < |rs| && 1 <= level <= 4 ==>
              (ContainsLevel(rs, c, a, level) <==> Occupied(rs, a, level))
  {
    forall c, level | 0 <= c < |rs| && 1 <= level <= 4
      ensures ContainsLevel(rs, c, a, level) <==> Occupied(rs, a, level)
    {
      CacheTestIdle(rs, c, a, level);
    }
  }

  lemma NotFiner(rs: seq<Run>, a: Word, level: nat)
    requires 2 <= level <= 4 && Occupied(rs, a, level)
    ensures Occupied(rs, a, 1)
  {
    OccupiedCoarser(rs, a, level - 1);
    if level > 2 { NotFiner(rs, a, level - 1); }
  }

  /** Every run starts on a page. */
  ghost predicate Aligned(rs: seq<Run>) {
    forall i :: 0 <= i < |rs| ==> rs[i].virt % PAGE == 0
  }

  lemma AddKeepsAligned(rs: seq<Run>, r: Run)
    requires Aligned(rs) && r.virt % PAGE == 0
    ensures Aligned(AddRun(rs, r).runs)
  {
    if |rs| > 0 { AddFromKeepsAligned(rs, 0, r); }
  }

  lemma {:induction false} AddFromKeepsAligned(rs: seq<Run>, i: nat, r: Run)
    requires i < |rs| && Aligned(rs) && r.virt % PAGE == 0
    ensures Aligned(AddFrom(rs, i, r).runs)
    decreases |rs| - i
  {
    if !Continues(rs[i], r) && i < |rs| - 1 && rs[i + 1].virt <= r.virt { AddFromKeepsAligned(rs, i + 1, r); }
  }

  lemma FirstFreeStep(rs: seq<Run>, a: Word)
    requires a > 0
    ensures FirstFree(rs, a) == if !Occupied(rs, a, 1) then Some(a) else FirstFree(rs, NextSlot(a))
  {
  }

  /** The entry map_next_to adds is a whole page, and leaves every run starting on a page. */
  lemma PageKeepsAligned(rs: seq<Run>, x: Indices, phys: Word)
    requires Aligned(rs) && x.Valid()
    ensures Run(PageOf(Encode(x)), PageOf(phys), 0x1000) == Page(Encode(x), phys)
    ensures Aligned(AddRun(rs, Page(Encode(x), phys)).runs)
  {
    hide Encode, Address;
    AddressHalf(x);
    AddKeepsAligned(rs, Page(Encode(x), phys));
  }

  lemma AddressHalf(x: Indices)
    requires x.Valid()
    ensures HighHalf(Encode(x)) <==> 256 <= x.pml4
    ensures Encode(x) % PAGE == 0
  {
    hide GetVirtualAddress;
    AddressCanonical(x);
  }

  /** What find_free_virt stores is read back as the same address. */
  lemma TargetDecodes(s: Space, x: Indices)
    requires x.Valid() && 256 <= x.pml4 && s.cursor == Encode(x) && FirstFree(s.runs, s.cursor).Some?
    ensures var t := FirstFree(s.runs, s.cursor).value;
            HighHalf(t) && Encode(Disassemble(t)) == t && 256 <= Disassemble(t).pml4 < 512
  {
    hide Encode, GetVirtualAddress, Address, Disassemble, Occupied;
    AddressHalf(x);
    FirstFreeMeaning(s.runs, s.cursor);
    var t := FirstFree(s.runs, s.cursor).value;
    if t % SLOT == 0 { SlotAligned(t); }
    Decodes(t);
  }

  lemma Decodes(t: Word)
    requires HighHalf(t) && t % PAGE == 0
    ensures Encode(Disassemble(t)) == t && 256 <= Disassemble(t).pml4 < 512
  {
    hide Encode, GetVirtualAddress, Address;
    EncodeDecode(t);
    EncodersAgree(Disassemble(t));
    AddressHalf(Disassemble(t));
  }
}
