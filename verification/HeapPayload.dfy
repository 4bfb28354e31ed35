// What malloc and free do to the bytes behind the headers: the new object and the released one are
// cleared, and the objects of all other live blocks stay as they are.

module HeapPayload {
  import opened Words
  import opened Blocks
  import opened MemoryBytes
  import opened HeapMemory
  import opened HeapOverlap

  ghost predicate Zero(m: Memory, lo: int, hi: int) { forall k :: lo <= k < hi ==> m(k) == 0 }

  lemma WipeZero(m: Memory, a: int, n: int)
    ensures Zero(Wipe(m, a, n), a, a + n)
  {
  }

  lemma SameZero(m: Memory, w: Memory, lo: int, hi: int)
    requires Zero(m, lo, hi) && Same(m, w, lo, hi)
    ensures Zero(w, lo, hi)
  {
  }

  // ----- malloc -----

  /** With 8 bytes left for the link of the rest, the new object is all zero. */
  lemma CarveClears(m: Memory, b: Block, need: int)
    requires b.size >= 16 && 8 <= need <= b.size
    ensures b.size >= need + 8 ==> Zero(CarveWrites(m, b, need), b.End() - need + 8, b.End())
    ensures Same(m, CarveWrites(m, b, need), b.addr + 16, b.End() - need)
    ensures b.size >= need + 8 ==> Same(m, CarveWrites(m, b, need), b.addr, b.addr + 8)
    ensures forall k :: k < b.addr || b.End() <= k ==> CarveWrites(m, b, need)(k) == m(k)
  {
    hide Byte, Read;
  }

  // ----- free -----

  lemma AttachClears(m: Memory, bs: seq<Block>, q: nat, i: nat, lo: int, hi: int)
    requires Freeing(m, bs, q, i, lo, hi)
    ensures q < |bs| && i < |bs|
    ensures Zero(AttachWrites(m, bs, q, i), bs[i].addr + if LeftFree(bs, i) then 8 else 16, bs[i].End())
    ensures bs[q].End() <= bs[i].addr && HeaderFits(bs[q]) && HeaderFits(bs[i])
  {
    hide Tiles, Stored, NextFree, Write, Wipe, Zero, Same;
    var p, b, next := bs[q], bs[i], NextFree(bs[i + 1..], 0);
    LinkPieces(m, bs, q, i, lo, hi);
    var w := Wipe(m, b.addr + 8, b.size - 8);
    WipeZero(m, b.addr + 8, b.size - 8);
    if LeftFree(bs, i) {
      WriteFrame(w, p.addr + 8, p.size + b.size, b.addr + 8, b.End());
      SameZero(w, Write(w, p.addr + 8, p.size + b.size), b.addr + 8, b.End());
    } else {
      var w1 := Write(w, b.addr, next);
      var w2 := Write(w1, b.addr + 8, b.size);
      ZeroPart(w, b.addr + 8, b.addr + 16, b.End());
      WriteFrame(w, b.addr, next, b.addr + 16, b.End());
      SameZero(w, w1, b.addr + 16, b.End());
      WriteFrame(w1, b.addr + 8, b.size, b.addr + 16, b.End());
      SameZero(w1, w2, b.addr + 16, b.End());
      WriteFrame(w2, p.addr, b.addr, b.addr + 16, b.End());
      SameZero(w2, Write(w2, p.addr, b.addr), b.addr + 16, b.End());
    }
  }

  lemma ZeroPart(m: Memory, lo: int, mid: int, hi: int)
    requires Zero(m, lo, hi) && lo <= mid
    ensures Zero(m, mid, hi)
  {
  }

  /**
   * The released object is zero behind the header that its block may have got: all of it when the block was joined
   * to its left neighbour, and all but 8 bytes otherwise.
   */
  lemma FreeClears(m: Memory, bs: seq<Block>, q: nat, i: nat, lo: int, hi: int)
    requires Freeing(m, bs, q, i, lo, hi)
    ensures q < |bs| && 0 < i < |bs|
    ensures Zero(FreeWrites(m, bs, q, i), bs[i].addr + if bs[i - 1].used then 16 else 8, bs[i].End())
  {
    hide Tiles, Stored, NextFree, Zero, Same, SwallowWrites, AttachWrites;
    AttachClears(m, bs, q, i, lo, hi);
    var w, a, from := AttachWrites(m, bs, q, i), Attached(bs, q, i), bs[i].addr + if LeftFree(bs, i) then 8 else 16;
    if RightFree(bs, i) {
      Neighbours(bs, i, lo, hi);
      if LeftFree(bs, i) { LastIsLeft(bs, q, i); }
      SwallowKeeps(w, a, bs[i + 1], from, bs[i].End());
      SameZero(w, SwallowWrites(w, a, bs[i + 1]), from, bs[i].End());
    }
  }

  /** Swallowing writes the two headers only. */
  lemma SwallowKeeps(m: Memory, a: Block, c: Block, lo: int, hi: int)
    requires hi <= a.addr || a.addr + 16 <= lo
    requires hi <= c.addr || c.addr + 16 <= lo
    ensures Same(m, SwallowWrites(m, a, c), lo, hi)
  {
    hide Write, Read;
    var w1 := Write(m, a.addr + 8, a.size + c.size);
    var w2 := Write(w1, a.addr, Read(w1, c.addr));
    var w3 := Write(w2, c.addr, 0);
    WriteFrame(m, a.addr + 8, a.size + c.size, lo, hi);
    WriteFrame(w1, a.addr, Read(w1, c.addr), lo, hi);
    WriteFrame(w2, c.addr, 0, lo, hi);
    WriteFrame(w3, c.addr + 8, 0, lo, hi);
  }

  /**
   * The object of every other live block stays as it is, and so does its header unless the released block is small
   * and lies right before it.
   */
  lemma FreeKeeps(m: Memory, bs: seq<Block>, q: nat, i: nat, j: nat, lo: int, hi: int)
    requires Freeing(m, bs, q, i, lo, hi) && j < |bs| && j != i && bs[j].used
    ensures Same(m, FreeWrites(m, bs, q, i), bs[j].addr + 8, bs[j].End())
    ensures bs[i].size >= 16 || !bs[i - 1].used || j != i + 1 ==>
              Same(m, FreeWrites(m, bs, q, i), bs[j].addr, bs[j].End())
  {
    hide Tiles, Stored, NextFree, Same, SwallowWrites, GrowWrites, LinkWrites;
    var from := if bs[i].size >= 16 || !bs[i - 1].used || j != i + 1 then 0 else 8;
    KeepsFrom(m, bs, q, i, j, from, lo, hi);
    KeepsFrom(m, bs, q, i, j, 8, lo, hi);
  }

  lemma KeepsFrom(m: Memory, bs: seq<Block>, q: nat, i: nat, j: nat, from: nat, lo: int, hi: int)
    requires Freeing(m, bs, q, i, lo, hi) && j < |bs| && j != i && bs[j].used
    requires from == 0 || from == 8
    requires bs[i].size >= 16 || !bs[i - 1].used || j != i + 1 || from == 8
    ensures Same(m, FreeWrites(m, bs, q, i), bs[j].addr + from, bs[j].End())
  {
    hide Tiles, Stored, NextFree, Same, SwallowWrites, GrowWrites, LinkWrites;
    var p, b, u, next := bs[q], bs[i], bs[j], NextFree(bs[i + 1..], 0);
    Ascending(bs, j, q, lo, hi);
    Ascending(bs, q, j, lo, hi);
    Ascending(bs, j, i, lo, hi);
    Ascending(bs, i, j, lo, hi);
    LinkPieces(m, bs, q, i, lo, hi);
    Neighbour(bs, i, j, lo, hi);
    if LeftFree(bs, i) {
      GrowKeeps(m, p, b, u.addr + from, u.End());
    } else {
      LinkFrame(m, p, b, next, u.addr + from, u.End());
    }
    if RightFree(bs, i) {
      var w := AttachWrites(m, bs, q, i);
      SwallowKeeps(w, Attached(bs, q, i), bs[i + 1], u.addr + from, u.End());
      SameTrans(m, w, FreeWrites(m, bs, q, i), u.addr + from, u.End());
    }
  }

  /** A block behind block i starts where block i ends, or behind the block in between. */
  lemma Neighbour(bs: seq<Block>, i: nat, j: nat, lo: int, hi: int)
    requires Tiles(bs, lo, hi) && i < |bs| && j < |bs| && i != j
    ensures HeaderFits(bs[i]) && HeaderFits(bs[j])
    ensures i + 1 < j ==> bs[i].End() == bs[i + 1].addr && HeaderFits(bs[i + 1]) && bs[i + 1].End() <= bs[j].addr
  {
    TilesOrdered(bs, lo, hi);
    assert bs[i] in bs && bs[j] in bs;
    if i + 1 < j {
      Neighbours(bs, i, lo, hi);
      Ascending(bs, i + 1, j, lo, hi);
    }
  }

  lemma GrowKeeps(m: Memory, p: Block, b: Block, lo: int, hi: int)
    requires hi <= p.addr || p.addr + 16 <= lo
    requires hi <= b.addr || b.End() <= lo
    requires b.size >= 8
    ensures Same(m, GrowWrites(m, p, b), lo, hi)
  {
    hide Write, Wipe;
    WipeFrame(m, b.addr + 8, b.size - 8, lo, hi);
    WriteFrame(Wipe(m, b.addr + 8, b.size - 8), p.addr + 8, p.size + b.size, lo, hi);
  }

  /** All of this together, and what lies outside the heap. */
  lemma FreeBytes(m: Memory, bs: seq<Block>, q: nat, i: nat, lo: int, hi: int)
    requires Freeing(m, bs, q, i, lo, hi)
    ensures q < |bs| && 0 < i < |bs|
    ensures var w := FreeWrites(m, bs, q, i);
            && (forall j :: 0 <= j < |bs| && j != i && bs[j].used ==> Same(m, w, bs[j].addr + 8, bs[j].End()))
            && (forall k :: bs[i].addr + 16 <= k < bs[i].End() ==> w(k) == 0)
            && (!bs[i - 1].used ==> forall k :: bs[i].addr + 8 <= k < bs[i].End() ==> w(k) == 0)
            && forall k :: k < lo || hi <= k ==>
                 w(k) == if i + 1 == |bs| && bs[i - 1].used && hi <= k < bs[i].addr + 16
                         then Byte(bs[i].size, k - bs[i].addr - 8) else m(k)
  {
    FreeClears(m, bs, q, i, lo, hi);
    hide FreeWrites, Freeing, Same, Byte;
    forall k | k < lo || hi <= k
      ensures FreeWrites(m, bs, q, i)(k) == if i + 1 == |bs| && bs[i - 1].used && hi <= k < bs[i].addr + 16
                                            then Byte(bs[i].size, k - bs[i].addr - 8) else m(k)
    {
      FreeOutside(m, bs, q, i, lo, hi, k);
    }
    forall j | 0 <= j < |bs| && j != i && bs[j].used
      ensures Same(m, FreeWrites(m, bs, q, i), bs[j].addr + 8, bs[j].End())
    {
      FreeKeeps(m, bs, q, i, j, lo, hi);
    }
  }
}
