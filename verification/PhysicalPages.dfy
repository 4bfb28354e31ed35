// The allocation of physical pages: one page at the cursor, or a range found by the search.

module PhysicalPages {
  import opened Bits
  import opened Marking
  import opened PageSearch
  import Words

  /** mem, first_free_mem and first_free_page. */
  datatype Frames = Frames(mem: seq<Region>, firstFreeMem: nat, firstFreePage: nat)

  // ----- single pages -----

  /** The cursor names a page whose bit exists. */
  predicate HasCursor(s: Frames) {
    s.firstFreeMem < |s.mem| && s.firstFreePage / 8 < |s.mem[s.firstFreeMem].bits|
  }

  /** The page handed out. */
  function PageAt(s: Frames): int
    requires HasCursor(s)
  {
    s.mem[s.firstFreeMem].ptr + Words.PAGE * s.firstFreePage
  }

  function WithPage(s: Frames): Frames
    requires HasCursor(s)
  {
    var r := s.mem[s.firstFreeMem];
    s.(mem := s.mem[s.firstFreeMem := r.(bits := SetIn(r.bits, s.firstFreePage))])
  }

  /** The test of find_next_free on page k of a region. */
  predicate Accepts(bits: seq<bv8>, k: nat)
    requires k / 8 < |bits|
  {
    bits[k / 8] >> (k % 8) != 0
  }

  /** It accepts exactly the pages that are used, or have a used page above them in their byte. */
  lemma AcceptsExact(bits: seq<bv8>, k: nat)
    requires k / 8 < |bits|
    ensures Accepts(bits, k) <==> exists o :: k % 8 <= o < 8 && Bit(bits[k / 8], o)
  {
    var b, o := bits[k / 8], k % 8;
    EachBit(o);
    ByteShift(b, o);
  }

  lemma ByteShift(b: bv8, o: nat)
    requires o < 8
    ensures b >> o != 0 <==>
              (o <= 0 && Bit(b, 0)) || (o <= 1 && Bit(b, 1)) || (o <= 2 && Bit(b, 2)) || (o <= 3 && Bit(b, 3)) ||
              (o <= 4 && Bit(b, 4)) || (o <= 5 && Bit(b, 5)) || (o <= 6 && Bit(b, 6)) || Bit(b, 7)
  {
    EachBit(o);
  }

  /** Position (m, k) is at or after (m0, k0) in the order of the search. */
  predicate AtOrAfter(m0: nat, k0: nat, m: nat, k: nat) { m0 < m || (m0 == m && k0 <= k) }

  predicate AcceptsAt(mem: seq<Region>, m: nat, k: nat) {
    m < |mem| && k / 8 < |mem[m].bits| && Accepts(mem[m].bits, k)
  }

  /** No page from (m0, k0) up to (m1, k1) is accepted. */
  ghost predicate NoneBetween(mem: seq<Region>, m0: nat, k0: nat, m1: nat, k1: nat) {
    forall m, k :: AcceptsAt(mem, m, k) && AtOrAfter(m0, k0, m, k) ==> AtOrAfter(m1, k1, m, k)
  }

  /** The test of the loop, at bit `offset` of byte `byte`. */
  lemma AcceptsBit(mem: seq<Region>, m: nat, byte: nat, offset: nat)
    requires m < |mem| && offset < 8
    ensures byte < |mem[m].bits| ==> (AcceptsAt(mem, m, byte * 8 + offset) <==> mem[m].bits[byte] >> offset != 0)
    ensures (byte * 8 + offset) / 8 == byte
  {
    Words.Remainder(byte * 8 + offset, 8, byte, offset);
  }

  lemma NextPage(mem: seq<Region>, m0: nat, k0: nat, m: nat, k: nat)
    requires NoneBetween(mem, m0, k0, m, k) && !AcceptsAt(mem, m, k)
    ensures NoneBetween(mem, m0, k0, m, k + 1)
  {
  }

  lemma NextRegion(mem: seq<Region>, m0: nat, k0: nat, m: nat, k: nat)
    requires NoneBetween(mem, m0, k0, m, k) && m < |mem| && k / 8 >= |mem[m].bits|
    ensures NoneBetween(mem, m0, k0, m + 1, 0)
  {
  }

  lemma NothingYet(mem: seq<Region>, m0: nat, k0: nat)
    ensures NoneBetween(mem, m0, k0, m0, k0)
    ensures m0 >= |mem| ==> NoneBetween(mem, m0, k0, |mem|, 0) && !AcceptsAt(mem, m0, k0)
  {
  }

  lemma AcceptedAtOnce(mem: seq<Region>, m0: nat, k0: nat, m: nat, k: nat)
    requires NoneBetween(mem, m0, k0, m, k) && AcceptsAt(mem, m0, k0)
    ensures AtOrAfter(m, k, m0, k0)
  {
  }

  /** The state after n calls of alloc_physical_page. */
  function Pages(s: Frames, n: nat): (t: Frames)
    requires HasCursor(s)
    ensures HasCursor(t) && t.firstFreeMem == s.firstFreeMem && t.firstFreePage == s.firstFreePage
  {
    if n == 0 then s else WithPage(Pages(s, n - 1))
  }

  /** Every call in every run of single allocations hands out the page of the first call. */
  lemma {:induction false} SinglesRepeat(s: Frames, n: nat)
    requires HasCursor(s)
    ensures PageAt(Pages(s, n)) == PageAt(s)
    ensures n > 0 ==> Pages(s, n) == WithPage(s)
  {
    if n > 0 {
      SinglesRepeat(s, n - 1);
      var bits := s.mem[s.firstFreeMem].bits;
      assert SetIn(SetIn(bits, s.firstFreePage), s.firstFreePage) == SetIn(bits, s.firstFreePage);
    }
  }

  /** So calls hand out pairwise different pages exactly when there is at most one. */
  lemma DistinctExact(s: Frames, n: nat)
    requires HasCursor(s)
    ensures (forall i, j :: 0 <= i < j < n ==> PageAt(Pages(s, i)) != PageAt(Pages(s, j))) <==> n <= 1
  {
    if n > 1 {
      SinglesRepeat(s, 0);
      SinglesRepeat(s, 1);
    }
  }

  // ----- ranges -----

  /** The state after markUsedArea. */
  function WithRange(s: Frames, m: nat, arr: nat, offset: nat, length: nat): Frames
    requires m < |s.mem| && (length == 0 || arr + (length - 1) / 8 < |s.mem[m].bits|)
  {
    var r := s.mem[m];
    var t := s.(mem := s.mem[m := r.(bits := MarkedBits(r.bits, arr, offset, length))]);
    if s.firstFreeMem != m then t
    else
      var page := if s.firstFreePage == arr * 8 + offset then s.firstFreePage + length else s.firstFreePage;
      if r.size <= page then t.(firstFreePage := 0, firstFreeMem := 0) else t.(firstFreePage := page)
  }

  /**
   * With its first `length` pages free, the first region gives exactly these, and exactly these
   * become used.
   */
  lemma FreshRange(s: Frames, length: nat)
    requires 0 < length && |s.mem| > 0 && Clear(s.mem[0].bits, 0, length)
    ensures Find(s.mem, length, 0, 0, 0) == At(0, 0)
    ensures var bits, after := s.mem[0].bits, MarkedBits(s.mem[0].bits, 0, 0, length);
            forall p :: 0 <= p && p / 8 < |bits| ==> (BitOf(after, p) <==> p < length || BitOf(bits, p))
  {
    var bits := s.mem[0].bits;
    FirstRangeExact(s.mem, length);
    MarkingExact(0, 0, length);
    forall p: nat | p / 8 < |bits|
      ensures BitOf(MarkedBits(bits, 0, 0, length), p) <==> p < length || BitOf(bits, p)
    {
      MarkedBitsAre(bits, 0, 0, length, p);
      assert Marked(0, 0, length, p) <==> Asked(0, 0, length, p);
    }
  }

  /** The kernel's state after init_page, with nothing in use at the start of the first region. */
  ghost predicate Fresh(s: Frames, pages: nat) {
    && |s.mem| > 0 && s.firstFreeMem == 0 && s.firstFreePage == 0
    && |s.mem[0].bits| == s.mem[0].size / (Words.PAGE * 8) && Clear(s.mem[0].bits, 0, pages)
  }

  /** A range allocated after a single page starts with that page. */
  lemma RangeAfterSingle(s: Frames, length: nat)
    requires 0 < length && Fresh(s, length + 1)
    ensures HasCursor(s) && PageAt(s) == s.mem[0].ptr
    ensures Find(WithPage(s).mem, length, 0, 0, 0) == At(0, 0)
  {
    var bits := s.mem[0].bits;
    var used := SetIn(bits, 0);
    forall p: nat | p < length + 1 ensures UsedPage(used, p) <==> p == 0 {
      assert !UsedPage(bits, p);
      SetInBits(bits, 0, p);
    }
    WalkUsed(used, length, 0, 1, 0);
    WalkFree(used, length, 1, 0, 0);
  }

  /** A single page after a range is the page behind it, which the range does not hold. */
  lemma SingleAfterRange(s: Frames, length: nat)
    requires 0 < length && Fresh(s, length + 1)
    ensures Find(s.mem, length, 0, 0, 0) == At(0, 0)
    ensures var t := WithRange(s, 0, 0, 0, length);
            HasCursor(t) && PageAt(t) == s.mem[0].ptr + Words.PAGE * length
  {
    FreshRange(s, length);
  }

  // ----- the allocator -----

  class PageFrames {
    var mem: seq<Region>
    var firstFreeMem: nat
    var firstFreePage: nat

    function State(): Frames
      reads this
    {
      Frames(mem, firstFreeMem, firstFreePage)
    }

    /** alloc_physical_page; false when the cursor is outside the bitmaps. */
    method AllocPage() returns (ret: int, ok: bool)
      modifies this
      ensures ok <==> HasCursor(old(State()))
      ensures ok ==> ret == PageAt(old(State())) && State() == WithPage(old(State()))
      ensures ok ==> ret == old(mem)[old(firstFreeMem)].ptr + 0x1000 * old(firstFreePage)
    {
      ret, ok := 0, firstFreeMem < |mem| && firstFreePage / 8 < |mem[firstFreeMem].bits|;
      if !ok { return; }
      var using := mem[firstFreeMem];
      mem := mem[firstFreeMem := using.(bits := using.bits[firstFreePage / 8 :=
               using.bits[firstFreePage / 8] | ((1 as bv8) << (firstFreePage % 8))])];
      ret := using.ptr + Words.PAGE * firstFreePage;
      SetInAccepts(using.bits, firstFreePage);
      assert AcceptsAt(mem, firstFreeMem, firstFreePage);
      ok := FindNextFree();
    }

    /**
     * find_next_free: the cursor goes to the first page from it on that is accepted; without one
     * the kernel aborts.
     */
    method FindNextFree() returns (ok: bool)
      modifies this`firstFreeMem, this`firstFreePage
      ensures ok ==> AcceptsAt(mem, firstFreeMem, firstFreePage)
      ensures ok ==> AtOrAfter(old(firstFreeMem), old(firstFreePage), firstFreeMem, firstFreePage)
      ensures ok ==> NoneBetween(mem, old(firstFreeMem), old(firstFreePage), firstFreeMem, firstFreePage)
      ensures !ok ==> NoneBetween(mem, old(firstFreeMem), old(firstFreePage), |mem|, 0)
      ensures AcceptsAt(mem, old(firstFreeMem), old(firstFreePage)) ==>
                ok && firstFreeMem == old(firstFreeMem) && firstFreePage == old(firstFreePage)
    {
      hide NoneBetween, AcceptsAt, Accepts;
      ghost var m0, k0 := firstFreeMem, firstFreePage;
      NothingYet(mem, m0, k0);
      var index: nat, arrIndex: nat, offset: nat := firstFreeMem, firstFreePage / 8, firstFreePage % 8;
      while index < |mem|
        invariant AtOrAfter(m0, k0, index, arrIndex * 8 + offset) && offset < 8
        invariant NoneBetween(mem, m0, k0, index, arrIndex * 8 + offset)
        invariant firstFreeMem == m0 && firstFreePage == k0 && (m0 < |mem| ==> index <= |mem|)
        invariant index > m0 ==> arrIndex == 0 && offset == 0
      {
        while arrIndex < |mem[index].bits|
          invariant AtOrAfter(m0, k0, index, arrIndex * 8 + offset) && offset < 8
          invariant NoneBetween(mem, m0, k0, index, arrIndex * 8 + offset)
          invariant firstFreeMem == m0 && firstFreePage == k0
          decreases 8 * |mem[index].bits| - arrIndex * 8 - offset
        {
          AcceptsBit(mem, index, arrIndex, offset);
          var isFree := mem[index].bits[arrIndex] >> offset != 0;
          if isFree {
            if AcceptsAt(mem, m0, k0) { AcceptedAtOnce(mem, m0, k0, index, arrIndex * 8 + offset); }
            firstFreePage := arrIndex * 8 + offset;
            firstFreeMem := index;
            return true;
          }
          NextPage(mem, m0, k0, index, arrIndex * 8 + offset);
          offset := (offset + 1) % 8;
          if offset == 0 { arrIndex := arrIndex + 1; }
        }
        AcceptsBit(mem, index, arrIndex, offset);
        NextRegion(mem, m0, k0, index, arrIndex * 8 + offset);
        index := index + 1;
        arrIndex, offset := 0, 0;
      }
      ok := false;
      if AcceptsAt(mem, m0, k0) { AcceptedAtOnce(mem, m0, k0, |mem|, 0); }
    }

    /** markUsedArea; false when it writes past the bitmap. */
    method MarkUsedArea(index: nat, arrIndex: nat, offset: nat, length: nat) returns (ok: bool)
      requires index < |mem|
      modifies this
      ensures ok <==> length == 0 || arrIndex + (length - 1) / 8 < |old(mem)[index].bits|
      ensures ok ==> State() == WithRange(old(State()), index, arrIndex, offset, length)
      ensures ok && index != old(firstFreeMem) ==>
                firstFreeMem == old(firstFreeMem) && firstFreePage == old(firstFreePage)
      ensures ok && index == old(firstFreeMem) ==>
                var page := old(firstFreePage) + if old(firstFreePage) == 8 * arrIndex + offset then length else 0;
                if page < old(mem)[index].size then firstFreeMem == index && firstFreePage == page
                else firstFreeMem == firstFreePage == 0
    {
      hide MarkedBits;
      ghost var bits := mem[index].bits;
      NoneMarked(bits, arrIndex, offset);
      var i := 0;
      ok := true;
      while i < length
        invariant i <= length && |mem| == |old(mem)| && firstFreeMem == old(firstFreeMem)
        invariant firstFreePage == old(firstFreePage)
        invariant i == 0 || arrIndex + (i - 1) / 8 < |bits|
        invariant mem == old(mem)[index := old(mem)[index].(bits := MarkedBits(bits, arrIndex, offset, i))]
      {
        ok := arrIndex + i / 8 < |mem[index].bits|;
        if !ok { return; }
        MarkStep(bits, arrIndex, offset, i);
        var used := mem[index].bits;
        mem := mem[index := mem[index].(bits := used[arrIndex + i / 8 :=
                 used[arrIndex + i / 8] | ((1 as bv8) << ((arrIndex + i + offset) % 8))])];
        i := i + 1;
      }
      if firstFreeMem == index {
        if firstFreePage == arrIndex * 8 + offset { firstFreePage := firstFreePage + length; }
        if mem[index].size <= firstFreePage { firstFreePage, firstFreeMem := 0, 0; }
      }
    }

    /** alloc_physical_page_range; `found` unless no range is found, `ok` unless marking leaves the bitmap. */
    method AllocRange(length: nat) returns (ret: int, ok: bool)
      modifies this
      ensures var r := Find(old(mem), length, 0, 0, 0);
              match r
              case Missing => ok && ret == 0x3FFC_0000_0000_0000 && State() == old(State())
              case At(i, start) =>
                && i < |old(mem)|
                && (ok <==> length == 0 || start / 8 + (length - 1) / 8 < |old(mem)[i].bits|)
                && (ok ==> ret == old(mem)[i].ptr + start * 0x1000
                           && State() == WithRange(old(State()), i, start / 8, start % 8, length))
    {
      hide Walk, Find, WithRange, MarkedBits;
      var currentSize: nat, arrIndex: nat, offset: nat := 0, 0, 0;
      var i := 0;
      while i < |mem|
        invariant i <= |mem| && offset < 8 && State() == old(State())
        invariant Find(mem, length, 0, 0, 0) == Find(mem, length, i, currentSize, arrIndex * 8 + offset)
      {
        FindStep(mem, length, i, currentSize, arrIndex * 8 + offset);
        var current := mem[i];
        ghost var entry := Walk(current.bits, length, 0, currentSize, arrIndex * 8 + offset);
        ghost var found := Find(mem, length, 0, 0, 0);
        assert found == if entry.done then At(i, entry.start) else Find(mem, length, i + 1, entry.size, entry.start);
        var j := 0;
        while j < |current.bits|
          invariant j <= |current.bits| && offset < 8 && State() == old(State())
          invariant Walk(current.bits, length, 8 * j, currentSize, arrIndex * 8 + offset) == entry
        {
          var k := 0;
          while k < 8
            invariant k <= 8 && offset < 8 && State() == old(State())
            invariant Walk(current.bits, length, 8 * j + k, currentSize, arrIndex * 8 + offset) == entry
          {
            assert (8 * j + k) / 8 == j && (8 * j + k) % 8 == k;
            WalkStep(current.bits, length, 8 * j + k, currentSize, arrIndex * 8 + offset);
            if current.bits[j] == 0xFF {
              arrIndex, offset := j, k;
            } else if current.bits[j] & ((1 as bv8) << k) != 0 {
              currentSize := 0;
              arrIndex, offset := j, k;
            } else {
              currentSize := currentSize + 1;
              if currentSize >= length {
                assert (arrIndex * 8 + offset) / 8 == arrIndex && (arrIndex * 8 + offset) % 8 == offset;
                assert entry == Scan(true, currentSize, arrIndex * 8 + offset);
                ret := current.ptr + (arrIndex * 8 + offset) * Words.PAGE;
                ok := MarkUsedArea(i, arrIndex, offset, length);
                return;
              }
            }
            k := k + 1;
          }
          j := j + 1;
        }
        WalkStep(current.bits, length, 8 * j, currentSize, arrIndex * 8 + offset);
        assert entry == Scan(false, currentSize, arrIndex * 8 + offset);
        i := i + 1;
      }
      FindStep(mem, length, i, currentSize, arrIndex * 8 + offset);
      ret, ok := Words.INVALID, true;
    }
  }

  lemma SetInAccepts(bits: seq<bv8>, k: nat)
    requires k / 8 < |bits|
    ensures Accepts(SetIn(bits, k), k)
  {
    var o := k % 8;
    EachBit(o);
    SetBit(bits[k / 8], o, o);
    ByteShift(SetIn(bits, k)[k / 8], o);
  }
}
