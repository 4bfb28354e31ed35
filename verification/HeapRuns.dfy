// Whole runs of malloc and free, starting from the freshly initialised heap.

module HeapRuns {
  import opened Options
  import opened Blocks
  import opened MemoryBytes
  import opened HeapMemory
  import opened HeapOverlap

  /** A request for `size` bytes, or the release of the pointer returned for the block at `addr`. */
  datatype Call = Malloc(size: nat) | Free(addr: int)

  /** The live block whose header is at addr, or |bs|. */
  function LiveAt(bs: seq<Block>, addr: int): (i: nat)
    ensures i <= |bs|
    ensures i < |bs| ==> bs[i].used && bs[i].addr == addr
    ensures forall j :: 0 <= j < i ==> !(bs[j].used && bs[j].addr == addr)
  {
    if |bs| == 0 || (bs[0].used && bs[0].addr == addr) then 0
    else
      var k := LiveAt(bs[1..], addr);
      assert forall j :: 1 <= j < k + 1 ==> bs[j] == bs[1..][j - 1];
      k + 1
  }

  /**
   * One call that leaves the heap intact, that is the new layout is a tiling whose headers are in memory;
   * None for malloc without room or with less than 16 bytes to remain, and for free of a block that is too small.
   */
  ghost function Step(bs: seq<Block>, call: Call): Option<seq<Block>> {
    match call
    case Malloc(size) =>
      var i := FirstFit(bs, size + 8);
      if i < |bs| && bs[i].size >= size + 24 then Some(Carve(bs, i, size + 8)) else None
    case Free(addr) =>
      var i := LiveAt(bs, addr);
      if i < |bs| && FreeFits(bs, i) && Holdable(bs, i) then Some(Release(bs, i)) else None
  }

  ghost function Run(bs: seq<Block>, calls: seq<Call>): Option<seq<Block>>
    decreases |calls|
  {
    if |calls| == 0 then Some(bs)
    else match Step(bs, calls[0]) case None => None case Some(next) => Run(next, calls[1..])
  }

  /** What every reachable heap satisfies; its first block is free and starts at lo. */
  ghost predicate Intact(bs: seq<Block>, lo: int, hi: int) {
    Tiles(bs, lo, hi) && Coalesced(bs) && |bs| > 0 && !bs[0].used
  }

  lemma StepKeeps(bs: seq<Block>, call: Call, lo: int, hi: int)
    requires Intact(bs, lo, hi) && Step(bs, call).Some?
    ensures Intact(Step(bs, call).value, lo, hi)
    ensures var out := Live(Step(bs, call).value);
            match call
            case Malloc(size) => exists b :: b !in Live(bs) && b.size == size + 8 && b.used && out == Live(bs) + {b}
            case Free(addr) => exists b :: b in Live(bs) && b.addr == addr && out == Live(bs) - {b}
  {
    match call
    case Malloc(size) =>
      var i := FirstFit(bs, size + 8);
      CarveMeaning(bs, i, size + 8, lo, hi);
    case Free(addr) =>
      var i := LiveAt(bs, addr);
      ReleaseMeaning(bs, i, lo, hi);
      assert bs[i] in Live(bs);
  }

  /**
   * After any run of calls the blocks tile the heap without gap or overlap in ascending
   * order, no two free blocks touch, and the first block is free.
   */
  lemma {:induction false} RunKeeps(bs: seq<Block>, calls: seq<Call>, lo: int, hi: int)
    requires Intact(bs, lo, hi) && Run(bs, calls).Some?
    ensures Intact(Run(bs, calls).value, lo, hi)
    decreases |calls|
  {
    if |calls| > 0 {
      StepKeeps(bs, calls[0], lo, hi);
      RunKeeps(Step(bs, calls[0]).value, calls[1..], lo, hi);
    }
  }

  /** The state init_heap leaves. */
  function Fresh(lo: int, hi: int): seq<Block> { [Block(lo, hi - lo, false)] }

  lemma FreshIntact(lo: int, hi: int)
    requires hi - lo >= 16
    ensures Intact(Fresh(lo, hi), lo, hi) && Live(Fresh(lo, hi)) == {}
  {
    assert Fresh(lo, hi)[1..] == [];
  }

  /** Two runs that leave the same blocks live leave the same heap, whatever they did before. */
  lemma SameLiveSameHeap(lo: int, hi: int, calls: seq<Call>, others: seq<Call>)
    requires hi - lo >= 16 && Run(Fresh(lo, hi), calls).Some? && Run(Fresh(lo, hi), others).Some?
    requires Live(Run(Fresh(lo, hi), calls).value) == Live(Run(Fresh(lo, hi), others).value)
    ensures Run(Fresh(lo, hi), calls) == Run(Fresh(lo, hi), others)
  {
    FreshIntact(lo, hi);
    RunKeeps(Fresh(lo, hi), calls, lo, hi);
    RunKeeps(Fresh(lo, hi), others, lo, hi);
    LayoutUnique(Run(Fresh(lo, hi), calls).value, Run(Fresh(lo, hi), others).value, lo, hi);
  }

  /** Once nothing is live the heap is the single initial block again. */
  lemma NothingLive(bs: seq<Block>, lo: int, hi: int)
    requires hi - lo >= 16 && Intact(bs, lo, hi) && Live(bs) == {}
    ensures bs == Fresh(lo, hi)
  {
    FreshIntact(lo, hi);
    LayoutUnique(bs, Fresh(lo, hi), lo, hi);
  }

  // ----- requests of at least 8 bytes -----

  /** Every live block can hold the header of a free one. */
  ghost predicate Roomy(bs: seq<Block>) { forall b :: b in Live(bs) ==> b.size >= 16 }

  predicate Sized(call: Call) { call.Malloc? ==> call.size >= 8 }

  lemma {:induction false} RunRoomy(bs: seq<Block>, calls: seq<Call>, lo: int, hi: int)
    requires Intact(bs, lo, hi) && Roomy(bs) && Run(bs, calls).Some? && forall i :: 0 <= i < |calls| ==> Sized(calls[i])
    ensures Intact(Run(bs, calls).value, lo, hi) && Roomy(Run(bs, calls).value)
    decreases |calls|
  {
    if |calls| > 0 {
      StepKeeps(bs, calls[0], lo, hi);
      assert Sized(calls[0]);
      RunRoomy(Step(bs, calls[0]).value, calls[1..], lo, hi);
    }
  }

  /** Then no release of a live block is refused. */
  lemma FreeSucceeds(bs: seq<Block>, b: Block, lo: int, hi: int)
    requires Intact(bs, lo, hi) && Roomy(bs) && b in Live(bs)
    ensures Step(bs, Free(b.addr)).Some?
    ensures Intact(Step(bs, Free(b.addr)).value, lo, hi) && Live(Step(bs, Free(b.addr)).value) == Live(bs) - {b}
  {
    var j :| 0 <= j < |bs| && bs[j] == b;
    var i := LiveAt(bs, b.addr);
    SameAddress(bs, j, i, lo, hi);
    assert bs[i] == b;
    StepKeeps(bs, Free(b.addr), lo, hi);
    ReleaseMeaning(bs, i, lo, hi);
  }

  function Frees(addrs: seq<int>): seq<Call> { seq(|addrs|, i requires 0 <= i < |addrs| => Free(addrs[i])) }

  /** The addresses name the live blocks, each once: an order in which to free them. */
  ghost predicate Order(bs: seq<Block>, addrs: seq<int>) {
    && (forall i, j :: 0 <= i < j < |addrs| ==> addrs[i] != addrs[j])
    && forall a :: a in addrs <==> exists b :: b in Live(bs) && b.addr == a
  }

  lemma OneAddress(bs: seq<Block>, b: Block, c: Block, lo: int, hi: int)
    requires Tiles(bs, lo, hi) && b in bs && c in bs && b.addr == c.addr
    ensures b == c
  {
    var i :| 0 <= i < |bs| && bs[i] == b;
    var j :| 0 <= j < |bs| && bs[j] == c;
    Ascending(bs, i, j, lo, hi);
    Ascending(bs, j, i, lo, hi);
  }

  /** Freeing the live blocks in whatever order succeeds throughout and leaves the initial heap. */
  lemma {:induction false} FreedInOrder(bs: seq<Block>, addrs: seq<int>, lo: int, hi: int)
    requires hi - lo >= 16 && Intact(bs, lo, hi) && Roomy(bs) && Order(bs, addrs)
    ensures Run(bs, Frees(addrs)) == Some(Fresh(lo, hi))
    decreases |addrs|
  {
    if |addrs| == 0 {
      forall b ensures b in Live(bs) ==> b.addr in addrs {}
      NothingLive(bs, lo, hi);
    } else {
      var a := addrs[0];
      assert a in addrs;
      var b :| b in Live(bs) && b.addr == a;
      FreeSucceeds(bs, b, lo, hi);
      var next := Step(bs, Free(a)).value;
      OrderTail(bs, next, b, addrs, lo, hi);
      FreedInOrder(next, addrs[1..], lo, hi);
      assert Frees(addrs)[1..] == Frees(addrs[1..]) && Frees(addrs)[0] == Free(a);
    }
  }

  lemma OrderTail(bs: seq<Block>, next: seq<Block>, b: Block, addrs: seq<int>, lo: int, hi: int)
    requires Tiles(bs, lo, hi) && b in Live(bs) && Live(next) == Live(bs) - {b} && Order(bs, addrs) && |addrs| > 0
    requires addrs[0] == b.addr
    ensures Order(next, addrs[1..])
  {
    forall x ensures x in addrs[1..] <==> exists c :: c in Live(next) && c.addr == x {
      if x in addrs[1..] {
        assert x in addrs;
        var c :| c in Live(bs) && c.addr == x;
        assert c in Live(next);
      }
      if c :| c in Live(next) && c.addr == x {
        assert c in Live(bs) && x in addrs;
        if c.addr == b.addr { OneAddress(bs, b, c, lo, hi); }
        assert addrs == [addrs[0]] + addrs[1..];
      }
    }
  }

  /**
   * After any run whose requests have at least 8 bytes the live blocks can be freed in every order:
   * no release is refused, and the heap is the single initial block again.
   */
  lemma AllFreed(lo: int, hi: int, calls: seq<Call>, addrs: seq<int>)
    requires hi - lo >= 16 && Run(Fresh(lo, hi), calls).Some? && forall i :: 0 <= i < |calls| ==> Sized(calls[i])
    requires Order(Run(Fresh(lo, hi), calls).value, addrs)
    ensures Run(Run(Fresh(lo, hi), calls).value, Frees(addrs)) == Some(Fresh(lo, hi))
  {
    FreshIntact(lo, hi);
    RunRoomy(Fresh(lo, hi), calls, lo, hi);
    FreedInOrder(Run(Fresh(lo, hi), calls).value, addrs, lo, hi);
  }

  /** Freeing what malloc has just returned always succeeds and undoes it exactly. */
  lemma FreeUndoesMalloc(bs: seq<Block>, size: nat, lo: int, hi: int)
    requires Intact(bs, lo, hi) && Step(bs, Malloc(size)).Some?
    ensures var out := Step(bs, Malloc(size)).value;
            Step(out, Free(bs[FirstFit(bs, size + 8)].End() - size - 8)) == Some(bs)
  {
    hide Tiles, Live, Carve, Coalesced, FirstFit, Release, FreeFits, Holdable, LiveAt;
    var i := FirstFit(bs, size + 8);
    var out := Carve(bs, i, size + 8);
    CarvedBlock(bs, i, size + 8, lo, hi);
    assert Step(bs, Malloc(size)) == Some(out);
  }

  lemma CarvedBlock(bs: seq<Block>, i: nat, need: int, lo: int, hi: int)
    requires Tiles(bs, lo, hi) && Coalesced(bs) && i < |bs| && !bs[i].used
    requires need >= 8 && bs[i].size >= need + 16
    ensures var out := Carve(bs, i, need);
            && LiveAt(out, bs[i].End() - need) == i + 1 && i + 1 < |out|
            && FreeFits(out, i + 1) && Holdable(out, i + 1) && Release(out, i + 1) == bs
  {
    var out, b := Carve(bs, i, need), Block(bs[i].End() - need, need, true);
    CarveMeaning(bs, i, need, lo, hi);
    CarvedPair(bs, i, need);
    hide Carve, Tiles, Coalesced, Live;
    SameAddress(out, i + 1, LiveAt(out, b.addr), lo, hi);
    ReleaseMeaning(out, i + 1, lo, hi);
    LayoutUnique(Release(out, i + 1), bs, lo, hi);
  }

  lemma CarvedPair(bs: seq<Block>, i: nat, need: int)
    requires i < |bs| && !bs[i].used
    ensures var out := Carve(bs, i, need);
            i + 1 < |out| && !out[i].used && out[i + 1] == Block(bs[i].End() - need, need, true)
  {
  }

  lemma SameAddress(bs: seq<Block>, i: nat, j: nat, lo: int, hi: int)
    requires Tiles(bs, lo, hi) && i < |bs| && j <= |bs| && bs[i].used
    requires j < |bs| ==> bs[j].addr == bs[i].addr
    requires forall k :: 0 <= k < j ==> !(bs[k].used && bs[k].addr == bs[i].addr)
    ensures i == j
  {
    if j < |bs| {
      Ascending(bs, i, j, lo, hi);
      Ascending(bs, j, i, lo, hi);
    }
  }

  function Bytes(bs: seq<Block>, used: bool): int {
    if |bs| == 0 then 0 else (if bs[0].used == used then bs[0].size else 0) + Bytes(bs[1..], used)
  }

  /** Free bytes and allocated bytes always add up to the heap. */
  lemma {:induction false} BytesConserved(bs: seq<Block>, lo: int, hi: int)
    requires Tiles(bs, lo, hi)
    ensures Bytes(bs, true) + Bytes(bs, false) == hi - lo
  {
    if |bs| > 0 { BytesConserved(bs[1..], bs[0].End(), hi); }
  }

  /** Requests below 8 bytes lead to blocks below 16. */
  lemma SmallRequests()
    ensures Run(Fresh(1000, 1100), [Malloc(8), Malloc(0), Malloc(0)])
            == Some([Block(1000, 68, false), Block(1068, 8, true), Block(1076, 8, true), Block(1084, 16, true)])
  {
    var b1 := [Block(1000, 84, false), Block(1084, 16, true)];
    var b2 := [Block(1000, 76, false), Block(1076, 8, true), Block(1084, 16, true)];
    var bs := [Block(1000, 68, false), Block(1068, 8, true), Block(1076, 8, true), Block(1084, 16, true)];
    assert FirstFit(Fresh(1000, 1100), 16) == 0 && Carve(Fresh(1000, 1100), 0, 16) == b1;
    assert FirstFit(b1, 8) == 0 && Carve(b1, 0, 8) == b2;
    assert FirstFit(b2, 8) == 0 && Carve(b2, 0, 8) == bs;
    var calls := [Malloc(8), Malloc(0), Malloc(0)];
    assert calls[1..] == [Malloc(0), Malloc(0)] && calls[1..][1..] == [Malloc(0)] && calls[1..][1..][1..] == [];
    assert Run(b2, [Malloc(0)]) == Some(bs) && Run(b1, [Malloc(0), Malloc(0)]) == Some(bs);
  }

  /** Such a block is given back over the size of the next one, so the headers are wrong afterwards. */
  lemma SmallRequestBreaks() returns (m: Memory)
    ensures var bs := [Block(1000, 68, false), Block(1068, 8, true), Block(1076, 8, true), Block(1084, 16, true)];
            Stored(m, bs, 0) && !Stored(FreeWrites(m, bs, 0, 2), Release(bs, 2), 0)
  {
    var bs := [Block(1000, 68, false), Block(1068, 8, true), Block(1076, 8, true), Block(1084, 16, true)];
    m := WithHeaders(bs, 0);
    SmallRequestsIntact(bs);
    hide Stored, Release, FreeWrites, WithHeaders;
    HeadersStored(bs, 0, 1000, 1100);
    hide Intact;
    SmallIsFreed(m, bs);
    FreeStored(m, bs, 0, 2, 1000, 1100);
  }

  lemma SmallRequestsIntact(bs: seq<Block>)
    requires bs == [Block(1000, 68, false), Block(1068, 8, true), Block(1076, 8, true), Block(1084, 16, true)]
    ensures Intact(bs, 1000, 1100)
  {
    FreshIntact(1000, 1100);
    SmallRequests();
    hide Run, Step, Fresh;
    RunKeeps(Fresh(1000, 1100), [Malloc(8), Malloc(0), Malloc(0)], 1000, 1100);
  }

  lemma SmallIsFreed(m: Memory, bs: seq<Block>)
    requires bs == [Block(1000, 68, false), Block(1068, 8, true), Block(1076, 8, true), Block(1084, 16, true)]
    requires Intact(bs, 1000, 1100) && Stored(m, bs, 0)
    ensures Freeing(m, bs, 0, 2, 1000, 1100) && !FreeFits(bs, 2)
  {
    assert bs[0 + 1..2] == [bs[1]];
  }

  /** The same small block before another one of its size: the size written over the neighbour's is the same. */
  lemma SmallRequestAgrees() returns (m: Memory)
    ensures var bs := [Block(1000, 76, false), Block(1076, 8, true), Block(1084, 8, true), Block(1092, 8, true)];
            && Intact(bs, 1000, 1100) && Stored(m, bs, 0)
            && Stored(FreeWrites(m, bs, 0, 2), Release(bs, 2), 0) && !Tiles(Release(bs, 2), 1000, 1100)
  {
    var bs := [Block(1000, 76, false), Block(1076, 8, true), Block(1084, 8, true), Block(1092, 8, true)];
    m := WithHeaders(bs, 0);
    AgreeingIntact(bs);
    hide Stored, Release, FreeWrites, WithHeaders;
    HeadersStored(bs, 0, 1000, 1100);
    hide Intact;
    AgreeingIsFreed(m, bs);
    FreeStored(m, bs, 0, 2, 1000, 1100);
  }

  lemma AgreeingIntact(bs: seq<Block>)
    requires bs == [Block(1000, 76, false), Block(1076, 8, true), Block(1084, 8, true), Block(1092, 8, true)]
    ensures Intact(bs, 1000, 1100)
  {
    TilesBehind(bs[3], [], 1100);
    TilesBehind(bs[2], [bs[3]], 1100);
    TilesBehind(bs[1], [bs[2], bs[3]], 1100);
    TilesBehind(bs[0], [bs[1], bs[2], bs[3]], 1100);
    hide Tiles;
    assert [bs[3]] + [] == [bs[3]] && [bs[2]] + [bs[3]] == [bs[2], bs[3]];
    assert [bs[1]] + [bs[2], bs[3]] == [bs[1], bs[2], bs[3]] && [bs[0]] + [bs[1], bs[2], bs[3]] == bs;
  }

  lemma TilesBehind(b: Block, rest: seq<Block>, hi: int)
    requires HeaderFits(b)
    ensures Tiles([b] + rest, b.addr, hi) <==> Tiles(rest, b.End(), hi)
  {
    assert ([b] + rest)[1..] == rest;
  }

  lemma AgreeingIsFreed(m: Memory, bs: seq<Block>)
    requires bs == [Block(1000, 76, false), Block(1076, 8, true), Block(1084, 8, true), Block(1092, 8, true)]
    requires Intact(bs, 1000, 1100) && Stored(m, bs, 0)
    ensures Freeing(m, bs, 0, 2, 1000, 1100) && FreeFits(bs, 2) && !Tiles(Release(bs, 2), 1000, 1100)
  {
    assert bs[0 + 1..2] == [bs[1]];
    ReleaseMeaning(bs, 2, 1000, 1100);
  }

  /** A request that takes the first fitting block whole leaves it on the list, with size 0. */
  lemma WholeBlockBreaks() returns (m: Memory)
    ensures Stored(m, Fresh(1000, 1100), 0) && FirstFit(Fresh(1000, 1100), 100) == 0
    ensures !Stored(CarveWrites(m, Block(1000, 100, false), 100), Carve(Fresh(1000, 1100), 0, 100), 0)
  {
    m := WithHeaders(Fresh(1000, 1100), 0);
    FreshIntact(1000, 1100);
    HeadersStored(Fresh(1000, 1100), 0, 1000, 1100);
    CarveStored(m, Fresh(1000, 1100), 0, 100, 1000, 1100);
  }
}
