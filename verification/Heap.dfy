// The kernel heap: its memory, the head of the address-ordered free list, and the two
// operations that walk and rewrite it in place.

module Heap {
  import opened Words
  import opened Blocks
  import opened MemoryBytes
  import opened HeapMemory
  import opened HeapOverlap
  import opened HeapPayload
  import HeapRuns
  import HeapObjects

  datatype Pointer = OutOfSpace | At(address: int)

  class FreeListHeap {
    var head: int
    var mem: Memory
    ghost var blocks: seq<Block>
    ghost var lo: int
    ghost var hi: int

    /** The memory holds the headers of a coalesced tiling whose first block is free. */
    ghost predicate Valid()
      reads this
    {
      && HeapRange(lo, hi)
      && Tiles(blocks, lo, hi) && Coalesced(blocks)
      && |blocks| > 0 && !blocks[0].used && head == lo
      && Stored(mem, blocks, 0)
    }

    lemma ValidParts()
      requires Valid()
      ensures Tiles(blocks, lo, hi) && Stored(mem, blocks, 0) && HeapRange(lo, hi) && head == NextFree(blocks, 0)
    {
    }

    /** init_heap, in whatever memory there is. */
    constructor (memory: Memory, start: int, size: int)
      requires size >= 16 && HeapRange(start, start + size)
      ensures Valid() && lo == start && hi == start + size && blocks == [Block(start, size, false)]
      ensures forall k :: k < lo || hi <= k ==> mem(k) == memory(k)
    {
      head := start;
      mem := Write(Write(memory, start, 0), start + 8, size);
      lo, hi := start, start + size;
      blocks := [Block(start, size, false)];
      new;
      WriteHolds(memory, start, 0);
      WriteKeeps(Write(memory, start, 0), start + 8, size, start, 0);
      WriteHolds(Write(memory, start, 0), start + 8, size);
      assert blocks[1..] == [];
    }

    /**
     * malloc.  The heap stays intact exactly when the first fitting block keeps 16 bytes; the headers
     * of the new layout are in memory in a few more cases, in which they overlap and agree.  No byte
     * outside that block changes, and the new object is all zero when 8 bytes are kept.
     */
    method Malloc(size: nat) returns (r: Pointer)
      requires Valid() && size + 8 < SPACE
      modifies this`mem, this`blocks
      ensures var bs, need := old(blocks), size + 8;
              var i := FirstFit(bs, need);
              if i == |bs| then r == OutOfSpace && blocks == bs && mem == old(mem)
              else
                && r == At(bs[i].End() - size) && blocks == Carve(bs, i, need)
                && (Valid() <==> bs[i].size >= need + 16)
                && (Stored(mem, blocks, 0) <==> CarveFits(bs[i].size - need, need, NextFree(bs[i + 1..], 0)))
      ensures r.At? ==>
                var b := old(blocks)[FirstFit(old(blocks), size + 8)];
                && (forall k :: k < b.addr || b.End() <= k ==> mem(k) == old(mem)(k))
                && (b.size >= size + 16 ==> forall k :: r.address <= k < r.address + size ==> mem(k) == 0)
                && (b.size >= size + 24 ==>
                      HeapObjects.Steps(HeapObjects.State(old(mem), old(blocks)), HeapObjects.State(mem, blocks),
                                        HeapObjects.Called(HeapRuns.Malloc(size))))
    {
      hide *;
      hide HeapObjects.Steps, Stored, CarveFits, Carve, NextFree, Tiles, Coalesced;
      ValidParts();
      var next, f := FindFit(size + 8);
      if next == 0 { return OutOfSpace; }
      ChosenBlock(mem, blocks, f, size + 8, lo, hi);
      if next == size + 8 {  // a pointer compared with a size: would unlink the whole block
        assert false;
      }
      var length := Read(mem, next + 8);
      ghost var s := HeapObjects.State(mem, blocks);
      CutTail(next, size, f);
      if s.blocks[f].size >= size + 24 { HeapObjects.MallocStep(s, HeapObjects.State(mem, blocks), size); }
      return At(next + length - size);
    }

    /** The walk to the first free block with room; 0 when there is none. */
    method FindFit(need: nat) returns (next: int, ghost f: nat)
      requires Tiles(blocks, lo, hi) && Stored(mem, blocks, 0) && HeapRange(lo, hi) && head == NextFree(blocks, 0)
      ensures f == FirstFit(blocks, need)
      ensures if f == |blocks| then next == 0 else next == blocks[f].addr && next > 0
    {
      hide *;
      next := head;
      var previous := 0;
      ghost var j := 0;
      assert blocks[0..] == blocks;
      NoneSkipped(blocks, need);
      while next != 0
        invariant j <= |blocks| && next == NextFree(blocks[j..], 0) && TooSmall(blocks, j, need)
        decreases |blocks| - j
      {
        f := MeetFree(mem, blocks, j);
        ReadFree(mem, blocks, f, lo, hi);
        SkipUsed(blocks, j, f, need);
        if Read(mem, next + 8) >= need {
          FitIs(blocks, f, need);
          return;
        }
        previous := next;
        next := Read(mem, next);
        j := f + 1;
      }
      NoneFree(blocks, j, lo, hi);
      RestUsed(blocks, j, need);
      FitIs(blocks, |blocks|, need);
      f := |blocks|;
    }

    /** The writes of malloc in the block it has chosen. */
    method CutTail(next: int, size: nat, ghost f: nat)
      requires Valid() && f < |blocks| && !blocks[f].used && next == blocks[f].addr && size + 8 <= blocks[f].size
      modifies this`mem, this`blocks
      ensures var bs, need := old(blocks), size + 8;
              && blocks == Carve(bs, f, need)
              && (Valid() <==> bs[f].size >= need + 16)
              && (Stored(mem, blocks, 0) <==> CarveFits(bs[f].size - need, need, NextFree(bs[f + 1..], 0)))
      ensures var b := old(blocks)[f];
              && (forall k :: k < b.addr || b.End() <= k ==> mem(k) == old(mem)(k))
              && (b.size >= size + 16 ==> forall k :: b.End() - size <= k < b.End() ==> mem(k) == 0)
    {
      hide Stored, Tiles, NextFree, Wipe, Write, Read, Carve, Header, CarveFits, Coalesced;
      ghost var m, bs, b := mem, blocks, blocks[f];
      StoredAround(m, bs, f, 0);
      BlockInside(bs, f, lo, hi);
      ReadHeader(m, b, NextFree(bs[f + 1..], 0), lo, hi);
      CarvedValid(bs, f, size + 8, NextFree(bs[f + 1..], 0), lo, hi);
      CarveStored(m, bs, f, size + 8, lo, hi);
      CarveFirst(bs, f, size + 8);
      CarveClears(m, b, size + 8);
      var need := size + 8;
      var meta := next + Read(mem, next + 8) - size - 8;
      mem := Wipe(mem, meta + 8, size);
      mem := Write(mem, next + 8, (Read(mem, next + 8) - need) % SPACE);
      mem := Write(mem, meta, need);
      assert mem == CarveWrites(m, b, need);
      blocks := Carve(blocks, f, need);
    }

    /**
     * free, on a pointer that malloc returned; i is the position of its block.  The headers of the new
     * layout are in memory exactly when FreeFits holds, and the heap is intact when they also have room.
     * The objects of the other live blocks stay as they are, and what was this one is zero behind the
     * header that its block may have got.
     */
    method Free(ptr: int, ghost i: nat)
      requires Valid() && i < |blocks| && blocks[i].used && blocks[i].addr == ptr - 8
      modifies this`mem, this`blocks
      ensures blocks == Release(old(blocks), i)
      ensures Stored(mem, blocks, 0) <==> FreeFits(old(blocks), i)
      ensures Valid() <==> FreeFits(old(blocks), i) && Holdable(old(blocks), i)
      ensures 0 < i < |old(blocks)|
      ensures forall j :: 0 <= j < |old(blocks)| && j != i && old(blocks)[j].used ==>
                Same(old(mem), mem, old(blocks)[j].addr + 8, old(blocks)[j].End())
      ensures forall k :: ptr + 8 <= k < old(blocks)[i].End() ==> mem(k) == 0
      ensures !old(blocks)[i - 1].used ==> forall k :: ptr <= k < old(blocks)[i].End() ==> mem(k) == 0
      ensures forall k :: k < lo || hi <= k ==>
                mem(k) == if i + 1 == |old(blocks)| && old(blocks)[i - 1].used && hi <= k < ptr + 8
                          then Byte(old(blocks)[i].size, k - ptr) else old(mem)(k)
      ensures FreeFits(old(blocks), i) && Holdable(old(blocks), i) ==>
                HeapObjects.Steps(HeapObjects.State(old(mem), old(blocks)), HeapObjects.State(mem, blocks),
                                  HeapObjects.Called(HeapRuns.Free(ptr - 8)))
    {
      assert head == NextFree(blocks, 0);
      hide HeapObjects.Steps, Tiles, Stored, NextFree, FreeFits, Coalesced, Same, FreeWrites, Holdable, Release, Byte;
      var meta := ptr - 8;
      var prev, q := FindPrevious(ptr, i);
      if prev == 0 {  // would fall back to the head of the list
        assert false;
      }
      ghost var m, bs := mem, blocks;
      assert Freeing(m, bs, q, i, lo, hi);
      Attach(prev, meta, q, i);
      ReleaseMeaning(bs, i, lo, hi);
      FirstStays(bs, i);
      FreeStored(m, bs, q, i, lo, hi);
      FreeBytes(m, bs, q, i, lo, hi);
      blocks := Release(bs, i);
      if FreeFits(bs, i) && Holdable(bs, i) {
        HeapObjects.FreeStep(HeapObjects.State(m, bs), HeapObjects.State(mem, blocks), i, lo, hi);
      }
    }

    /** The walk to the last free block below ptr. */
    method FindPrevious(ptr: int, ghost i: nat) returns (prev: int, ghost q: nat)
      requires Tiles(blocks, lo, hi) && Stored(mem, blocks, 0) && HeapRange(lo, hi) && head == NextFree(blocks, 0)
      requires i < |blocks| && blocks[i].used && blocks[i].addr == ptr - 8 && !blocks[0].used
      ensures q < i && !blocks[q].used && prev == blocks[q].addr && prev != 0
      ensures AllUsed(blocks[q + 1..i])
    {
      hide *;
      var next := head;
      prev, q := 0, 0;
      ghost var j := 0;
      assert blocks[0..] == blocks;
      while next < ptr && next != 0
        invariant j <= i && next == NextFree(blocks[j..], 0)
        invariant j == 0 ==> prev == 0
        invariant j > 0 ==> q == j - 1 && !blocks[q].used && prev == blocks[q].addr
        decreases |blocks| - j
      {
        ghost var f := MeetFree(mem, blocks, j);
        OnThisSide(blocks, i, f, lo, hi);
        ReadFree(mem, blocks, f, lo, hi);
        prev := next;
        next := Read(mem, next);
        q, j := f, f + 1;
      }
      UsedUpTo(mem, blocks, j, i, lo, hi);
    }

    /**
     * The payload is wiped; then the block is joined to the one before it, or linked in behind it; then it
     * swallows the next.
     */
    method Attach(prev: int, meta: int, ghost q: nat, ghost i: nat)
      requires Freeing(mem, blocks, q, i, lo, hi) && q < i < |blocks| && meta == blocks[i].addr
      requires prev == blocks[q].addr
      modifies this`mem
      ensures q < |blocks| && i < |blocks| && mem == FreeWrites(old(mem), blocks, q, i)
    {
      hide *;
      ghost var m := mem;
      AttachReads(m, blocks, q, i, lo, hi);
      AttachSteps(m, blocks, q, i);
      mem := Wipe(mem, meta + 8, Read(mem, meta) - 8);
      var grown: int;
      if prev + Read(mem, prev + 8) == meta {
        mem := Write(mem, prev + 8, Read(mem, prev + 8) + Read(mem, meta));
        grown := prev;
      } else {
        var size := Read(mem, meta);
        mem := Write(mem, meta, Read(mem, prev));
        mem := Write(mem, meta + 8, size);
        mem := Write(mem, prev, meta);
        grown := meta;
      }
      SwallowNext(grown, m, q, i);
    }

    /** The block after the freed one is joined to it when it is free and adjacent. */
    method SwallowNext(grown: int, ghost m: Memory, ghost q: nat, ghost i: nat)
      requires Freeing(m, blocks, q, i, lo, hi) && q < |blocks| && i < |blocks|
      requires mem == AttachWrites(m, blocks, q, i) && grown == Attached(blocks, q, i).addr
      modifies this`mem
      ensures mem == FreeWrites(m, blocks, q, i)
    {
      hide *;
      SwallowReads(m, blocks, q, i, lo, hi);
      SwallowSteps(m, blocks, q, i);
      if grown + Read(mem, grown + 8) == Read(mem, grown) {
        var proc := Read(mem, grown);
        mem := Write(mem, grown + 8, Read(mem, grown + 8) + Read(mem, Read(mem, grown) + 8));
        mem := Write(mem, grown, Read(mem, Read(mem, grown)));
        mem := Write(mem, proc, 0);
        mem := Write(mem, proc + 8, 0);
      }
    }
  }

  lemma AttachSteps(m: Memory, bs: seq<Block>, q: nat, i: nat)
    requires q < |bs| && i < |bs|
    ensures var p, b := bs[q], bs[i];
            var w := Wipe(m, b.addr + 8, b.size - 8);
            AttachWrites(m, bs, q, i) ==
            if LeftFree(bs, i) then Write(w, p.addr + 8, p.size + b.size)
            else Write(Write(Write(w, b.addr, NextFree(bs[i + 1..], 0)), b.addr + 8, b.size), p.addr, b.addr)
    ensures Attached(bs, q, i).addr == if LeftFree(bs, i) then bs[q].addr else bs[i].addr
  {
  }

  lemma SwallowSteps(m: Memory, bs: seq<Block>, q: nat, i: nat)
    requires q < |bs| && i < |bs|
    ensures RightFree(bs, i) ==> i + 1 < |bs|
    ensures FreeWrites(m, bs, q, i) ==
            if RightFree(bs, i) then
              var a, c := Attached(bs, q, i), bs[i + 1];
              var w := Write(AttachWrites(m, bs, q, i), a.addr + 8, a.size + c.size);
              Write(Write(Write(w, a.addr, Read(w, c.addr)), c.addr, 0), c.addr + 8, 0)
            else AttachWrites(m, bs, q, i)
  {
  }

  /** What the first half of free reads, after the wipe and between its writes. */
  lemma AttachReads(m: Memory, bs: seq<Block>, q: nat, i: nat, lo: int, hi: int)
    requires Freeing(m, bs, q, i, lo, hi)
    ensures q < |bs| && i < |bs|
    ensures var p, b, next := bs[q], bs[i], NextFree(bs[i + 1..], 0);
            var w := Wipe(m, b.addr + 8, b.size - 8);
            && Read(m, b.addr) == b.size && Read(w, b.addr) == b.size
            && Read(w, p.addr + 8) == p.size && Read(w, p.addr) == next
            && (p.addr + p.size == b.addr <==> LeftFree(bs, i))
  {
    hide Tiles, Stored, NextFree, Wipe, Read, Holds;
    var p, b, next := bs[q], bs[i], NextFree(bs[i + 1..], 0);
    var w := Wipe(m, b.addr + 8, b.size - 8);
    LinkPieces(m, bs, q, i, lo, hi);
    StoredAround(m, bs, i, 0);
    BlockInside(bs, q, lo, hi);
    BlockInside(bs, i, lo, hi);
    TouchingMeansNext(bs, q, i, lo, hi);
    WipeKeeps(m, b.addr + 8, b.size - 8, b.addr, b.size);
    WipeKeeps(m, b.addr + 8, b.size - 8, p.addr, next);
    WipeKeeps(m, b.addr + 8, b.size - 8, p.addr + 8, p.size);
    ReadHolds(m, b.addr, b.size);
    ReadHolds(w, b.addr, b.size);
    ReadHolds(w, p.addr, next);
    ReadHolds(w, p.addr + 8, p.size);
  }

  /** What the second half of free reads, even when headers overlap. */
  lemma SwallowReads(m: Memory, bs: seq<Block>, q: nat, i: nat, lo: int, hi: int)
    requires Freeing(m, bs, q, i, lo, hi)
    ensures q < |bs| && i < |bs|
    ensures var w, a, next := AttachWrites(m, bs, q, i), Attached(bs, q, i), NextFree(bs[i + 1..], 0);
            && Read(w, a.addr + 8) == a.size && Read(w, a.addr) == next
            && (a.addr + a.size == next <==> RightFree(bs, i))
            && (RightFree(bs, i) ==>
                  i + 1 < |bs| &&
                  var c := bs[i + 1];
                  next == c.addr && Read(w, c.addr + 8) == c.size
                  && Read(Write(w, a.addr + 8, a.size + c.size), a.addr) == next)
  {
    hide Tiles, Stored, Wipe, Write, Read, Holds, GrowWrites, LinkWrites, AllUsed;
    var p, b, next := bs[q], bs[i], NextFree(bs[i + 1..], 0);
    var w, a := AttachWrites(m, bs, q, i), Attached(bs, q, i);
    LinkPieces(m, bs, q, i, lo, hi);
    BlockInside(bs, q, lo, hi);
    BlockInside(bs, i, lo, hi);
    NextAdjacent(bs, i, lo, hi);
    TouchingMeansNext(bs, q, i, lo, hi);
    if LeftFree(bs, i) {
      GrowEffect(m, p, b, next, lo, hi);
    } else {
      LinkHeaders(m, p, b, next);
    }
    ReadHolds(w, a.addr, next);
    ReadHolds(w, a.addr + 8, a.size);
    if RightFree(bs, i) {
      var c := bs[i + 1];
      Neighbours(bs, i, lo, hi);
      BlockInside(bs, i + 1, lo, hi);
      StoredAround(m, bs, i + 1, 0);
      if !LeftFree(bs, i) { LinkFrame(m, p, b, next, c.addr + 8, hi); }
      SameHolds(m, w, if LeftFree(bs, i) then b.End() else c.addr + 8, hi, c.addr + 8, c.size);
      ReadHolds(w, c.addr + 8, c.size);
      WriteKeeps(w, a.addr + 8, a.size + c.size, a.addr, next);
      ReadHolds(Write(w, a.addr + 8, a.size + c.size), a.addr, next);
    }
  }

  lemma CarvedValid(bs: seq<Block>, f: nat, need: int, next: int, lo: int, hi: int)
    requires Tiles(bs, lo, hi) && Coalesced(bs) && f < |bs| && !bs[f].used && 8 <= need <= bs[f].size
    ensures Tiles(Carve(bs, f, need), lo, hi) <==> bs[f].size >= need + 16
    ensures bs[f].size >= need + 16 ==> Coalesced(Carve(bs, f, need)) && CarveFits(bs[f].size - need, need, next)
  {
    var out := Carve(bs, f, need);
    if bs[f].size >= need + 16 {
      CarveMeaning(bs, f, need, lo, hi);
    } else if Tiles(out, lo, hi) {
      HeaderOf(out, f, lo, hi);
      assert false;
    }
  }

  /** The code's test for the left neighbour: block q ends where block i starts. */
  lemma TouchingMeansNext(bs: seq<Block>, q: nat, i: nat, lo: int, hi: int)
    requires Tiles(bs, lo, hi) && q < i < |bs| && AllUsed(bs[q + 1..i]) && !bs[q].used
    ensures bs[q].End() == bs[i].addr <==> q + 1 == i
    ensures q + 1 == i <==> LeftFree(bs, i)
  {
    Neighbours(bs, q, lo, hi);
    if q + 1 < i {
      Ascending(bs, q + 1, i, lo, hi);
      assert bs[i - 1] == bs[q + 1..i][i - q - 2];
    }
  }

  /** Freeing a later block leaves a free first block at its place. */
  lemma FirstStays(bs: seq<Block>, i: nat)
    requires 0 < i < |bs| && !bs[0].used
    ensures |Release(bs, i)| > 0 && !Release(bs, i)[0].used && Release(bs, i)[0].addr == bs[0].addr
  {
  }

  lemma CarveFirst(bs: seq<Block>, f: nat, need: int)
    requires f < |bs| && !bs[0].used && !bs[f].used
    ensures var out := Carve(bs, f, need);
            |out| > 0 && !out[0].used && out[0].addr == bs[0].addr
  {
  }

  /** A free block starts below the payload of a live one exactly when it comes before it. */
  lemma OnThisSide(bs: seq<Block>, i: nat, f: nat, lo: int, hi: int)
    requires Tiles(bs, lo, hi) && i < |bs| && f < |bs| && bs[i].used && !bs[f].used
    ensures bs[f].addr < bs[i].addr + 8 <==> f < i
  {
    Ascending(bs, i, f, lo, hi);
    Ascending(bs, f, i, lo, hi);
    HeaderOf(bs, i, lo, hi);
  }

  /** Where the walk stops, no free block is left before block i. */
  lemma UsedUpTo(m: Memory, bs: seq<Block>, j: nat, i: nat, lo: int, hi: int)
    requires Tiles(bs, lo, hi) && Stored(m, bs, 0) && HeapRange(lo, hi) && j <= i < |bs| && bs[i].used && !bs[0].used
    requires var next := NextFree(bs[j..], 0); next == 0 || next >= bs[i].addr + 8
    ensures j > 0 && AllUsed(bs[j..i])
    ensures !bs[j - 1].used ==> bs[j - 1].addr != 0
  {
    if NextFree(bs[j..], 0) != 0 {
      var f := MeetFree(m, bs, j);
      OnThisSide(bs, i, f, lo, hi);
      forall k | j <= k < i ensures bs[k].used { assert bs[j..f][k - j].used; }
    } else {
      NoneFree(bs, j, lo, hi);
    }
    BlockInside(bs, j - 1, lo, hi);
  }

  /** What the walk reads from a free block. */
  lemma ReadFree(m: Memory, bs: seq<Block>, f: nat, lo: int, hi: int)
    requires Tiles(bs, lo, hi) && HeapRange(lo, hi) && f < |bs| && !bs[f].used
    requires Header(m, bs[f], NextFree(bs[f + 1..], 0))
    ensures bs[f].addr > 0
    ensures Read(m, bs[f].addr) == NextFree(bs[f + 1..], 0) && Read(m, bs[f].addr + 8) == bs[f].size
  {
    hide Tiles, NextFree, Header, Read;
    BlockInside(bs, f, lo, hi);
    ReadHeader(m, bs[f], NextFree(bs[f + 1..], 0), lo, hi);
  }

  lemma NoneSkipped(bs: seq<Block>, need: int)
    ensures TooSmall(bs, 0, need)
  {
  }

  /** The block chosen lies above every size. */
  lemma ChosenBlock(m: Memory, bs: seq<Block>, f: nat, need: nat, lo: int, hi: int)
    requires Tiles(bs, lo, hi) && Stored(m, bs, 0) && HeapRange(lo, hi) && f < |bs| && f == FirstFit(bs, need)
    ensures !bs[f].used && bs[f].size >= need && bs[f].addr != need
    ensures Read(m, bs[f].addr + 8) == bs[f].size && bs[f].End() == bs[f].addr + bs[f].size
  {
    BlockInside(bs, f, lo, hi);
    StoredAround(m, bs, f, 0);
    ReadFree(m, bs, f, lo, hi);
  }

  /** None of the first i blocks is free and has room. */
  ghost predicate TooSmall(bs: seq<Block>, i: nat, need: int)
    requires i <= |bs|
  {
    forall j :: 0 <= j < i ==> bs[j].used || bs[j].size < need
  }

  lemma SkipUsed(bs: seq<Block>, j: nat, f: nat, need: int)
    requires j <= f < |bs| && TooSmall(bs, j, need) && AllUsed(bs[j..f])
    ensures TooSmall(bs, f, need) && (bs[f].size < need ==> TooSmall(bs, f + 1, need))
  {
    forall k | j <= k < f ensures bs[k].used { assert bs[j..f][k - j].used; }
  }

  lemma FitIs(bs: seq<Block>, i: nat, need: int)
    requires i <= |bs| && (i < |bs| ==> !bs[i].used && bs[i].size >= need) && TooSmall(bs, i, need)
    ensures FirstFit(bs, need) == i
  {
  }

  lemma RestUsed(bs: seq<Block>, j: nat, need: int)
    requires j <= |bs| && TooSmall(bs, j, need) && forall k :: j <= k < |bs| ==> bs[k].used
    ensures TooSmall(bs, |bs|, need)
  {
  }

  lemma {:induction false} NoneFree(bs: seq<Block>, j: nat, lo: int, hi: int)
    requires Tiles(bs, lo, hi) && HeapRange(lo, hi) && j <= |bs| && NextFree(bs[j..], 0) == 0
    ensures forall k :: j <= k < |bs| ==> bs[k].used
    decreases |bs| - j
  {
    if j < |bs| {
      assert bs[j..][1..] == bs[j + 1..];
      BlockInside(bs, j, lo, hi);
      NoneFree(bs, j + 1, lo, hi);
    }
  }
}
