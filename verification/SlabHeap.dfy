// The allocator of equal-sized objects, its bitmap of used objects and the objects it hands out.

module SlabHeap {
  import opened Bits
  import opened Words

  /** The static variables of same_sized_heap.c; the bitmap has one byte for each object. */
  datatype Slab = Slab(mem: int, objSize: nat, used: seq<bv8>, nextFree: nat)

  datatype Call = Malloc | Free(ptr: int)

  /** init_same on `size` bytes. */
  function Initial(mem: int, size: nat, objSize: nat): Slab
    requires objSize > 0
  {
    Slab(mem, objSize, seq(size / objSize, _ => 0), 0)
  }

  /** The bitmap can be written for the next object. */
  predicate HasRoom(s: Slab) { s.nextFree / 8 < |s.used| }

  /** free_same stays inside the bitmap. */
  predicate Reaches(s: Slab, ptr: int)
    requires s.objSize > 0
  {
    s.mem <= ptr && (ptr - s.mem) / s.objSize / 8 < |s.used|
  }

  /** No object from n on is in use. */
  ghost predicate ClearFrom(bs: seq<bv8>, n: nat) {
    forall k :: n <= k && k / 8 < |bs| ==> !BitOf(bs, k)
  }

  /** r is the first clear bit of n's byte from n on, or n when that byte has none. */
  ghost predicate NextClear(bs: seq<bv8>, n: nat, r: nat) {
    if n / 8 < |bs| && exists o :: n % 8 <= o < 8 && !Bit(bs[n / 8], o)
    then n <= r && r / 8 == n / 8 && !BitOf(bs, r) && forall k :: n <= k < r ==> k / 8 == n / 8 && BitOf(bs, k)
    else r == n
  }

  lemma NextIsClear(bs: seq<bv8>, n: nat, r: nat)
    requires ClearFrom(bs, n) && NextClear(bs, n, r)
    ensures r == n
  {
    if n / 8 < |bs| {
      assert !BitOf(bs, n);
    }
  }

  // ----- the calls on values -----

  function After(s: Slab, c: Call): Slab
    requires s.objSize > 0
  {
    match c
    case Malloc => if HasRoom(s) then s.(used := SetIn(s.used, s.nextFree), nextFree := s.nextFree + 1) else s
    case Free(ptr) => if Reaches(s, ptr) then s.(used := s.used[(ptr - s.mem) / s.objSize / 8 := 0]) else s
  }

  /** The addresses handed out by a call. */
  function Given(s: Slab, c: Call): seq<int> {
    if c.Malloc? && HasRoom(s) then [s.mem + s.nextFree * s.objSize] else []
  }

  function Run(s: Slab, cs: seq<Call>): (t: Slab)
    requires s.objSize > 0
    ensures t.objSize == s.objSize && t.mem == s.mem && |t.used| == |s.used|
  {
    if cs == [] then s else After(Run(s, cs[..|cs| - 1]), cs[|cs| - 1])
  }

  function Handed(s: Slab, cs: seq<Call>): seq<int>
    requires s.objSize > 0
  {
    if cs == [] then [] else Handed(s, cs[..|cs| - 1]) + Given(Run(s, cs[..|cs| - 1]), cs[|cs| - 1])
  }

  lemma StepClears(s: Slab, c: Call)
    requires s.objSize > 0 && ClearFrom(s.used, s.nextFree)
    ensures ClearFrom(After(s, c).used, After(s, c).nextFree)
  {
    var t := After(s, c);
    forall k | t.nextFree <= k && k / 8 < |t.used| ensures !BitOf(t.used, k) {
      NoBits(k % 8);
      assert k / 8 < |s.used| && !BitOf(s.used, k);
      if c.Malloc? && HasRoom(s) { SetBit(s.used[s.nextFree / 8], s.nextFree % 8, k % 8); }
    }
  }

  lemma InitialClear(mem: int, size: nat, objSize: nat)
    requires objSize > 0
    ensures var s := Initial(mem, size, objSize);
            && Run(s, []) == s && Handed(s, []) == []
            && s.nextFree == 0 && ClearFrom(s.used, 0) && InOrder([], mem, objSize)
  {
    var s := Initial(mem, size, objSize);
    forall k: nat | k / 8 < |s.used| ensures !BitOf(s.used, k) { NoBits(k % 8); }
  }

  lemma LastCall(s: Slab, cs: seq<Call>)
    requires s.objSize > 0 && cs != []
    ensures var before, c := cs[..|cs| - 1], cs[|cs| - 1];
            && Run(s, cs) == After(Run(s, before), c)
            && Handed(s, cs) == Handed(s, before) + Given(Run(s, before), c)
  {
  }

  /** Only an allocation moves the next object on, by the one it gives out. */
  lemma StepGives(s: Slab, c: Call)
    requires s.objSize > 0
    ensures After(s, c).nextFree == s.nextFree + |Given(s, c)|
    ensures Given(s, c) == [] || Given(s, c) == [s.mem + s.nextFree * s.objSize]
  {
  }

  /** Object i is the i-th. */
  ghost predicate InOrder(got: seq<int>, mem: int, objSize: nat) {
    forall i :: 0 <= i < |got| ==> got[i] == mem + i * objSize
  }

  lemma GivenInOrder(got: seq<int>, more: seq<int>, mem: int, objSize: nat)
    requires InOrder(got, mem, objSize) && (more == [] || more == [mem + |got| * objSize])
    ensures InOrder(got + more, mem, objSize)
  {
  }

  lemma InitialIs(mem: int, size: nat, objSize: nat)
    requires objSize > 0
    ensures Initial(mem, size, objSize).mem == mem && Initial(mem, size, objSize).objSize == objSize
  {
  }

  /**
   * Over every run of allocations and frees: object i is the i-th handed out, whatever was freed
   * in between, and nothing is handed out twice.
   */
  lemma {:induction false} BumpOnly(mem: int, size: nat, objSize: nat, cs: seq<Call>)
    requires objSize > 0
    ensures var s := Initial(mem, size, objSize);
            var t, got := Run(s, cs), Handed(s, cs);
            ClearFrom(t.used, t.nextFree) && |got| == t.nextFree && InOrder(got, mem, objSize)
  {
    var s := Initial(mem, size, objSize);
    hide *;
    if cs == [] {
      InitialClear(mem, size, objSize);
    } else {
      var before, c := cs[..|cs| - 1], cs[|cs| - 1];
      InitialIs(mem, size, objSize);
      BumpOnly(mem, size, objSize, before);
      LastCall(s, cs);
      StepClears(Run(s, before), c);
      StepGives(Run(s, before), c);
      GivenInOrder(Handed(s, before), Given(Run(s, before), c), mem, objSize);
    }
  }

  /** Every object handed out is aligned and apart from all others, and lies in the region iff it is among the first. */
  lemma ObjectsApart(mem: int, size: nat, objSize: nat, cs: seq<Call>, i: nat, j: nat)
    requires objSize > 0 && i < |Handed(Initial(mem, size, objSize), cs)|
    requires j < |Handed(Initial(mem, size, objSize), cs)|
    ensures var got := Handed(Initial(mem, size, objSize), cs);
            && (got[i] - mem) % objSize == 0
            && (i < j ==> got[i] + objSize <= got[j])
            && (got[i] + objSize <= mem + size <==> i < size / objSize)
  {
    hide Handed, Run, ClearFrom, Initial;
    BumpOnly(mem, size, objSize, cs);
    Multiple(i, objSize);
    Successive(i, j, objSize);
    FitsExactly(i, size, objSize);
  }

  lemma Multiple(i: nat, m: nat)
    requires m > 0
    ensures i * m % m == 0
  {
    var d := i - i * m / m;
    assert m * d == i * m % m;
    if d >= 1 { Monotone(1, d, m); } else if d <= -1 { Monotone(1, -d, m); }
  }

  lemma FitsExactly(i: nat, size: nat, m: nat)
    requires m > 0
    ensures i * m + m <= size <==> i < size / m
  {
    var q := size / m;
    assert size == q * m + size % m;
    assert i * m + m == (i + 1) * m;
    if i < q { Monotone(i + 1, q, m); } else { Monotone(q, i, m); }
  }

  /** How many of the calls are allocations. */
  function Mallocs(cs: seq<Call>): (n: nat)
    ensures n <= |cs|
  {
    if cs == [] then 0 else Mallocs(cs[..|cs| - 1]) + if cs[|cs| - 1].Malloc? then 1 else 0
  }

  /**
   * Over every run exactly the first 8 * (size / objSize) allocations succeed, whatever is freed: the bitmap has
   * a byte for each object, so its bits last for eight times the objects of the region.
   */
  lemma {:induction false} HandedExactly(mem: int, size: nat, objSize: nat, cs: seq<Call>)
    requires objSize > 0
    ensures var room := 8 * (size / objSize);
            |Handed(Initial(mem, size, objSize), cs)| == if Mallocs(cs) < room then Mallocs(cs) else room
  {
    var s := Initial(mem, size, objSize);
    if cs != [] {
      var before := cs[..|cs| - 1];
      HandedExactly(mem, size, objSize, before);
      BumpOnly(mem, size, objSize, before);
      LastCall(s, cs);
      assert |Run(s, before).used| == size / objSize;
    }
  }

  // ----- what the bitmap remembers -----

  /** Object k was handed out and no object of its group of eight was freed since. */
  predicate Remembered(s: Slab, cs: seq<Call>, k: nat)
    requires s.objSize > 0
  {
    if cs == [] then false
    else
      var before, c := cs[..|cs| - 1], cs[|cs| - 1];
      var t := Run(s, before);
      if c.Malloc? && HasRoom(t) && t.nextFree == k then true
      else if c.Free? && Reaches(t, c.ptr) && (c.ptr - s.mem) / s.objSize / 8 == k / 8 then false
      else Remembered(s, before, k)
  }

  /** Over every run: freeing one object forgets the eight of its byte. */
  lemma {:induction false} UsedExactly(s: Slab, cs: seq<Call>, k: nat)
    requires s.objSize > 0 && k / 8 < |s.used| && ClearFrom(s.used, 0)
    ensures BitOf(Run(s, cs).used, k) <==> Remembered(s, cs, k)
  {
    if cs == [] {
      assert !BitOf(s.used, k);
    } else {
      var before, c := cs[..|cs| - 1], cs[|cs| - 1];
      UsedExactly(s, before, k);
      hide Run, ClearFrom;
      StepBit(Run(s, before), c, k);
    }
  }

  lemma StepBit(t: Slab, c: Call, k: nat)
    requires t.objSize > 0 && k / 8 < |t.used|
    ensures BitOf(After(t, c).used, k) <==>
              (c.Malloc? && HasRoom(t) && t.nextFree == k) ||
              (BitOf(t.used, k) && !(c.Free? && Reaches(t, c.ptr) && (c.ptr - t.mem) / t.objSize / 8 == k / 8))
  {
    NoBits(k % 8);
    if c.Malloc? && HasRoom(t) { SetBit(t.used[t.nextFree / 8], t.nextFree % 8, k % 8); }
  }

  /** free_same clears exactly its own object's bit iff no other object of the byte is in use. */
  lemma FreeExact(s: Slab, ptr: int)
    requires s.objSize > 0 && Reaches(s, ptr)
    ensures var own := (ptr - s.mem) / s.objSize;
            (forall k :: 0 <= k && k / 8 < |s.used| ==>
                (BitOf(After(s, Free(ptr)).used, k) <==> BitOf(s.used, k) && k != own))
            <==> (forall k :: 0 <= k && k / 8 == own / 8 && k != own ==> !BitOf(s.used, k))
  {
    var own := (ptr - s.mem) / s.objSize;
    var t := After(s, Free(ptr));
    forall k: nat | k / 8 < |s.used| ensures BitOf(t.used, k) <==> BitOf(s.used, k) && k / 8 != own / 8 {
      NoBits(k % 8);
    }
  }

  // ----- the allocator -----

  class SameSizedHeap {
    var mem: int
    var objSize: nat
    var used: array<bv8>
    var nextFree: nat

    ghost function Value(): Slab
      reads this, used
    {
      Slab(mem, objSize, used[..], nextFree)
    }

    ghost predicate Valid()
      reads this, used
    {
      objSize > 0 && ClearFrom(used[..], nextFree)
    }

    constructor (newMem: int, memSize: nat, newObjSize: nat)
      requires newObjSize > 0
      ensures Valid() && fresh(used) && Value() == Initial(newMem, memSize, newObjSize)
      ensures mem == newMem && objSize == newObjSize && nextFree == 0
      ensures used.Length == memSize / newObjSize && forall i :: 0 <= i < used.Length ==> used[i] == 0
    {
      mem, objSize, nextFree := newMem, newObjSize, 0;
      used := new bv8[memSize / newObjSize](_ => 0);
      new;
      assert used[..] == seq(memSize / newObjSize, _ => 0);
      forall k: nat | k / 8 < used.Length ensures !BitOf(used[..], k) { NoBits(k % 8); }
    }

    /** Without room in the bitmap the write goes past its end (ok is false). */
    method MallocSame() returns (ret: int, ok: bool)
      requires Valid()
      modifies this`nextFree, used
      ensures Valid() && Value() == After(old(Value()), Malloc)
      ensures ok <==> HasRoom(old(Value()))
      ensures ok ==> [ret] == Given(old(Value()), Malloc)
      ensures ok <==> old(nextFree) < 8 * used.Length
      ensures ok ==> ret == mem + old(nextFree) * objSize && nextFree == old(nextFree) + 1
    {
      hide ClearFrom, NextClear;
      ghost var s := Value();
      StepClears(s, Malloc);
      ret := mem + nextFree * objSize;
      ok := nextFree / 8 < used.Length;
      if ok {
        used[nextFree / 8] := used[nextFree / 8] | ((1 as bv8) << (nextFree % 8));
        assert used[..] == SetIn(s.used, s.nextFree);
        assert used[..] == After(s, Malloc).used && s.nextFree + 1 == After(s, Malloc).nextFree;
        FindNextFree();
        NextIsClear(used[..], s.nextFree + 1, nextFree);
      }
    }

    /** The search ends, and never looks beyond the byte it starts in. */
    method FindNextFree()
      modifies this`nextFree
      ensures NextClear(used[..], old(nextFree) + 1, nextFree)
    {
      nextFree := nextFree + 1;
      ghost var n := nextFree;
      var arrIndex, offset := nextFree / 8, nextFree % 8;
      while arrIndex < used.Length
        invariant n / 8 <= arrIndex && n % 8 <= offset <= 8 && nextFree == n
        invariant arrIndex > n / 8 ==> offset == 8
        invariant n / 8 < used.Length ==> forall o :: n % 8 <= o < offset ==> Bit(used[n / 8], o)
      {
        while offset < 8
          invariant n / 8 <= arrIndex && n % 8 <= offset <= 8 && nextFree == n
          invariant arrIndex > n / 8 ==> offset == 8
          invariant n / 8 < used.Length ==> forall o :: n % 8 <= o < offset ==> Bit(used[n / 8], o)
        {
          Shifted(used[arrIndex], offset);
          Remainder(arrIndex * 8 + offset, 8, arrIndex, offset);
          if (used[arrIndex] >> offset) & 1 == 0 {
            nextFree := arrIndex * 8 + offset;
            return;
          }
          offset := offset + 1;
        }
        arrIndex := arrIndex + 1;
      }
    }

    /** The logical negation of a nonzero mask is 0, so the whole byte is cleared. */
    method FreeSame(ptr: int) returns (ok: bool)
      requires Valid()
      modifies used
      ensures Valid() && Value() == After(old(Value()), Free(ptr))
      ensures ok <==> Reaches(old(Value()), ptr)
      ensures ok <==> mem <= ptr && (ptr - mem) / objSize < 8 * used.Length
      ensures ok ==> used[..] == old(used[..])[(ptr - mem) / objSize / 8 := 0]
    {
      hide ClearFrom;
      ghost var s := Value();
      StepClears(s, Free(ptr));
      ok := mem <= ptr && (ptr - mem) / objSize / 8 < used.Length;
      if ok {
        var index := (ptr - mem) / objSize;
        var mask: bv8 := (1 as bv8) << (index % 8);
        EachBit(index % 8);
        var negated: bv8 := if mask == 0 then 1 else 0;
        used[index / 8] := used[index / 8] & negated;
        assert used[..] == s.used[index / 8 := 0];
      }
    }
  }
}
