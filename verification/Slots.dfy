// Occupancy of the four paging levels, the search for free virtual space, and what repeated
// mapping does to the address space.

module Slots {
  import opened Options
  import opened Words
  import opened RunList

  const SLOT: int := 0x80_0000_0000

  /** `addr & (~0xFFF << 9 * (4 - level))`: the start of the 512 GiB, 1 GiB, 2 MiB or 4 KiB slot. */
  function Base(a: Word, level: nat): Word
    requires 1 <= level <= 4
  {
    match level
    case 1 => a - a % 0x80_0000_0000
    case 2 => a - a % 0x4000_0000
    case 3 => a - a % 0x20_0000
    case _ => a - a % 0x1000
  }

  function Size(level: nat): int
    requires 1 <= level <= 4
  {
    match level
    case 1 => 0x80_0000_0000
    case 2 => 0x4000_0000
    case 3 => 0x20_0000
    case _ => 0x1000
  }

  /** The test of translator_contains_immideate_virtual_addr on one run, for a masked address. */
  predicate Touches(r: Run, base: Word, level: nat)
    requires 1 <= level <= 4
  {
    Base(r.virt, level) <= base && r.End() >= base
  }

  predicate Occupied(rs: seq<Run>, a: Word, level: nat)
    requires 1 <= level <= 4
  {
    exists i :: 0 <= i < |rs| && Touches(rs[i], Base(a, level), level)
  }

  /** Run i is the first one that touches the slot. */
  ghost predicate FirstTouch(rs: seq<Run>, i: nat, a: Word, level: nat)
    requires 1 <= level <= 4
  {
    && i < |rs| && Touches(rs[i], Base(a, level), level)
    && forall j :: 0 <= j < i ==> !Touches(rs[j], Base(a, level), level)
  }

  predicate CacheTest(rs: seq<Run>, cache: nat, a: Word, level: nat)
    requires 1 <= level <= 4 && cache < |rs|
  {
    Base(a, level) == SPACE - Size(level) && rs[cache].virt % 2 == 1
  }

  /**
   * translator_contains_immideate_virtual_addr.  Its cache test reads `virt & (mask == addr)`,
   * so it looks at the lowest bit of the cached address, and only when mask and address coincide.
   */
  predicate ContainsLevel(rs: seq<Run>, cache: nat, a: Word, level: nat)
    requires 1 <= level <= 4 && cache < |rs|
  {
    CacheTest(rs, cache, a, level) || Occupied(rs, a, level)
  }

  /** That cache test holds exactly in the topmost slot, when the cached address is odd. */
  lemma CacheTestExact(rs: seq<Run>, cache: nat, a: Word, level: nat, size: int)
    requires 1 <= level <= 4 && cache < |rs|
    requires size == match level case 1 => 0x80_0000_0000 case 2 => 0x4000_0000 case 3 => 0x20_0000 case _ => 0x1000
    ensures ContainsLevel(rs, cache, a, level) <==>
              Occupied(rs, a, level) || (a >= 0x1_0000_0000_0000_0000 - size && rs[cache].virt % 2 == 1)
  {
    hide Occupied;
  }

  /** On page-aligned entries it never holds. */
  lemma CacheTestIdle(rs: seq<Run>, cache: nat, a: Word, level: nat)
    requires 1 <= level <= 4 && cache < |rs| && rs[cache].virt % PAGE == 0
    ensures ContainsLevel(rs, cache, a, level) <==> Occupied(rs, a, level)
  {
    assert rs[cache].virt == rs[cache].virt / PAGE * 0x800 * 2;
  }

  /**
   * The run shares an address with the slot of a or ends at its start, slots being `size` bytes each; if it reaches
   * 2^64, the slot is the lowest one and the run starts in it.
   */
  predicate Reaches(r: Run, a: Word, size: int)
    requires size > 0
  {
    && r.virt < a - a % size + size
    && if r.virt + r.len < SPACE then a - a % size <= r.virt + r.len else a < size
  }

  /** No run reaches the slot of a. */
  ghost predicate NoneReaches(rs: seq<Run>, a: Word, size: int)
    requires size > 0
  {
    forall i :: 0 <= i < |rs| ==> !Reaches(rs[i], a, size)
  }

  /** A slot of 512 GiB, 1 GiB, 2 MiB or 4 KiB is reported occupied exactly when a run reaches it in this sense. */
  lemma OccupiedExact(rs: seq<Run>, a: Word, level: nat, size: int)
    requires 1 <= level <= 4 && AllSound(rs)
    requires size == match level case 1 => 0x80_0000_0000 case 2 => 0x4000_0000 case 3 => 0x20_0000 case _ => 0x1000
    ensures Occupied(rs, a, level) <==> !NoneReaches(rs, a, size)
  {
    forall i | 0 <= i < |rs| ensures Touches(rs[i], Base(a, level), level) <==> Reaches(rs[i], a, size) {
      assert rs[i].Sound();
      BaseBelow(rs[i].virt, a, level);
      Lowest(a, size);
    }
  }

  lemma Lowest(a: nat, size: nat)
    requires size > 0
    ensures a - a % size == 0 <==> a < size
  {
    assert a == a / size * size + a % size;
    if a >= size { Monotone(1, a / size, size); }
  }

  lemma BaseBelow(v: Word, a: Word, level: nat)
    requires 1 <= level <= 4
    ensures Base(v, level) <= Base(a, level) <==> v < Base(a, level) + Size(level)
  {
    FloorBelow(v, a, Size(level));
  }

  lemma FloorBelow(v: nat, a: nat, size: nat)
    requires size > 0
    ensures v - v % size <= a - a % size <==> v < a - a % size + size
  {
    var p, q := v / size, a / size;
    assert v == p * size + v % size && a == q * size + a % size;
    Successive(q, p, size);
    if p <= q { Monotone(p, q, size); }
  }

  lemma BaseCoarser(v: Word, a: Word, level: nat)
    requires 1 <= level < 4
    ensures Base(v, level + 1) <= Base(a, level + 1) ==> Base(v, level) <= Base(a, level)
    ensures Base(a, level) <= Base(a, level + 1)
  {
    BaseNested(a, level);
    BaseBelow(v, a, level + 1);
    BaseBelow(v, a, level);
  }

  /** A slot lies inside the slot of the next coarser level. */
  lemma BaseNested(a: Word, level: nat)
    requires 1 <= level < 4
    ensures Base(a, level) <= Base(a, level + 1)
    ensures Base(a, level + 1) + Size(level + 1) <= Base(a, level) + Size(level)
  {
    Nested(a, Size(level + 1));
  }

  lemma Nested(a: nat, size: nat)
    requires size > 0
    ensures a - a % (512 * size) <= a - a % size <= a - a % (512 * size) + 511 * size
  {
    var p, r, big := a / size, a % size, 512 * size;
    var q, t := p / 512, p % 512;
    assert a == p * size + r;
    Coarser(size, big, p, q, t);
    Monotone(t, 511, size);
    Remainder(a, big, q, t * size + r);
  }

  lemma Coarser(size: nat, big: nat, p: nat, q: nat, t: nat)
    requires big == 512 * size && p == 512 * q + t
    ensures p * size == q * big + t * size
  {
  }

  /** Occupied at a finer level implies occupied at every coarser one. */
  lemma OccupiedCoarser(rs: seq<Run>, a: Word, level: nat)
    requires 1 <= level < 4 && Occupied(rs, a, level + 1)
    ensures Occupied(rs, a, level)
  {
    var i :| 0 <= i < |rs| && Touches(rs[i], Base(a, level + 1), level + 1);
    BaseCoarser(rs[i].virt, a, level);
  }

  // ----- the search -----

  /** The address after the 512 GiB slot of a: 0 once it wraps. */
  function NextSlot(a: Word): (b: Word)
    ensures b == 0 || (b > a && b == a - a % SLOT + SLOT)
  {
    Base(Add(a, SLOT), 1)
  }

  /** find_free_virt's loop, with only the level 1 branch. */
  function FirstFree(rs: seq<Run>, a: Word): Option<Word>
    decreases SPACE - a
  {
    if a == 0 then None
    else if !Occupied(rs, a, 1) then Some(a)
    else if NextSlot(a) == 0 then None
    else FirstFree(rs, NextSlot(a))
  }

  /** From a's slot up to (not including) b's, every slot is occupied. */
  ghost predicate AllOccupied(rs: seq<Run>, a: int, b: int) {
    forall c: Word {:trigger Occupied(rs, c, 1)} :: a - a % SLOT <= c < b ==> Occupied(rs, c, 1)
  }

  lemma NextAligned(a: Word)
    ensures NextSlot(a) % SLOT == 0
  {
    var b := Add(a, SLOT);
    assert Base(b, 1) == b / SLOT * SLOT;
  }

  lemma SameSlot(a: Word, c: Word)
    requires a - a % SLOT <= c < a - a % SLOT + SLOT
    ensures Base(c, 1) == Base(a, 1)
  {
    assert a == a / SLOT * SLOT + a % SLOT;
    Remainder(c, SLOT, a / SLOT, c - (a - a % SLOT));
  }

  /**
   * The search returns its start if that 512 GiB slot is empty, otherwise the base of the
   * lowest empty slot above it, and nothing exactly when every slot from there up is taken.
   */
  lemma {:induction false} FirstFreeMeaning(rs: seq<Run>, a: Word)
    requires a > 0
    ensures match FirstFree(rs, a)
            case None => AllOccupied(rs, a, SPACE)
            case Some(b) => !Occupied(rs, b, 1) && (b == a || (b % SLOT == 0 && b > a && AllOccupied(rs, a, b)))
    decreases SPACE - a
  {
    if Occupied(rs, a, 1) {
      forall c: Word | a - a % SLOT <= c < a - a % SLOT + SLOT ensures Occupied(rs, c, 1) {
        SameSlot(a, c);
      }
      var b := NextSlot(a);
      NextAligned(a);
      if b != 0 {
        FirstFreeMeaning(rs, b);
      } else {
        assert a + SLOT >= SPACE;
      }
    }
  }
}
