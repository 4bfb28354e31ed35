// Whole runs on the heap's memory: calls of malloc and free, and a program that writes its objects.

module HeapObjects {
  import opened Options
  import opened Blocks
  import opened MemoryBytes
  import opened HeapMemory
  import opened HeapOverlap
  import opened HeapPayload
  import opened HeapRuns

  datatype State = State(mem: Memory, blocks: seq<Block>)

  /** A call, or writes of the program in the object that is live in a block. */
  datatype Event = Called(call: Call) | Wrote(block: Block)

  /** The object of a block. */
  ghost predicate SameObject(m: Memory, w: Memory, b: Block) { Same(m, w, b.addr + 8, b.End()) }

  /** The memories agree outside [lo, hi). */
  ghost predicate SameBut(m: Memory, w: Memory, lo: int, hi: int) { forall k :: k < lo || hi <= k ==> w(k) == m(k) }

  ghost predicate Steps(s: State, t: State, e: Event) {
    match e
    case Called(Malloc(size)) =>
      var i := FirstFit(s.blocks, size + 8);
      && Step(s.blocks, Malloc(size)) == Some(t.blocks) && Stored(t.mem, t.blocks, 0)
      && i < |s.blocks| && SameBut(s.mem, t.mem, s.blocks[i].addr, s.blocks[i].End())
      && Zero(t.mem, s.blocks[i].End() - size, s.blocks[i].End())
    case Called(Free(addr)) =>
      && Step(s.blocks, Free(addr)) == Some(t.blocks) && Stored(t.mem, t.blocks, 0)
      && forall b :: b in Live(s.blocks) && b.addr != addr ==> SameObject(s.mem, t.mem, b)
    case Wrote(b) =>
      b in Live(s.blocks) && t.blocks == s.blocks && SameBut(s.mem, t.mem, b.addr + 8, b.End())
  }

  /** What malloc guarantees is such a step. */
  lemma MallocStep(s: State, t: State, size: nat)
    requires var i := FirstFit(s.blocks, size + 8);
             && i < |s.blocks| && s.blocks[i].size >= size + 24 && t.blocks == Carve(s.blocks, i, size + 8)
             && (Stored(t.mem, t.blocks, 0) <==>
                 CarveFits(s.blocks[i].size - (size + 8), size + 8, NextFree(s.blocks[i + 1..], 0)))
             && (forall k :: k < s.blocks[i].addr || s.blocks[i].End() <= k ==> t.mem(k) == s.mem(k))
             && forall k :: s.blocks[i].End() - size <= k < s.blocks[i].End() ==> t.mem(k) == 0
    ensures Steps(s, t, Called(Malloc(size)))
  {
    hide Stored, Carve, FirstFit;
  }

  /** And so is what free guarantees. */
  lemma FreeStep(s: State, t: State, i: nat, lo: int, hi: int)
    requires Tiles(s.blocks, lo, hi) && i < |s.blocks| && s.blocks[i].used && t.blocks == Release(s.blocks, i)
    requires FreeFits(s.blocks, i) && Holdable(s.blocks, i) && Stored(t.mem, t.blocks, 0)
    requires forall j :: 0 <= j < |s.blocks| && j != i && s.blocks[j].used ==>
               Same(s.mem, t.mem, s.blocks[j].addr + 8, s.blocks[j].End())
    ensures Steps(s, t, Called(Free(s.blocks[i].addr)))
  {
    hide Tiles, Stored, Release, FreeFits, Holdable, Same;
    var addr := s.blocks[i].addr;
    SameAddress(s.blocks, i, LiveAt(s.blocks, addr), lo, hi);
    forall b | b in Live(s.blocks) && b.addr != addr ensures SameObject(s.mem, t.mem, b) {
      var j :| 0 <= j < |s.blocks| && s.blocks[j] == b;
    }
  }

  ghost predicate Runs(states: seq<State>, events: seq<Event>) {
    |states| == |events| + 1 && forall i :: 0 <= i < |events| ==> Steps(states[i], states[i + 1], events[i])
  }

  /** The event ends the object of block b or writes it. */
  predicate Touches(e: Event, b: Block) { e == Called(Free(b.addr)) || e == Wrote(b) }

  lemma ApartBlocks(bs: seq<Block>, b: Block, c: Block, lo: int, hi: int)
    requires Tiles(bs, lo, hi) && b in bs && c in bs && b != c
    ensures b.End() <= c.addr || c.End() <= b.addr
  {
    var i :| 0 <= i < |bs| && bs[i] == b;
    var j :| 0 <= j < |bs| && bs[j] == c;
    Ascending(bs, i, j, lo, hi);
    Ascending(bs, j, i, lo, hi);
  }

  lemma SameOutside(m: Memory, w: Memory, lo: int, hi: int, from: int, to: int)
    requires SameBut(m, w, lo, hi) && (to <= lo || hi <= from)
    ensures Same(m, w, from, to)
  {
  }

  lemma StepKeepsLive(s: State, t: State, e: Event, b: Block, lo: int, hi: int)
    requires Intact(s.blocks, lo, hi) && Steps(s, t, e) && b in Live(s.blocks) && !Touches(e, b)
    ensures b in Live(t.blocks)
  {
    hide Intact, Stored, SameBut, FirstFit, Zero, Step, SameObject, Live;
    match e
    case Called(call) => StepKeeps(s.blocks, call, lo, hi);
    case Wrote(c) =>
  }

  /** One step keeps every object that it neither ends nor writes. */
  lemma StepKeepsObject(s: State, t: State, e: Event, b: Block, lo: int, hi: int)
    requires Intact(s.blocks, lo, hi) && Steps(s, t, e) && b in Live(s.blocks) && !Touches(e, b)
    ensures b in Live(t.blocks) && SameObject(s.mem, t.mem, b)
  {
    StepKeepsLive(s, t, e, b, lo, hi);
    hide Tiles, Stored, Same, SameBut, Zero, Coalesced, Step;
    match e
    case Called(Malloc(size)) =>
      var c := s.blocks[FirstFit(s.blocks, size + 8)];
      ApartBlocks(s.blocks, b, c, lo, hi);
      SameOutside(s.mem, t.mem, c.addr, c.End(), b.addr + 8, b.End());
    case Called(Free(addr)) =>
    case Wrote(c) =>
      ApartBlocks(s.blocks, b, c, lo, hi);
      SameOutside(s.mem, t.mem, c.addr + 8, c.End(), b.addr + 8, b.End());
  }

  /** Writing an object leaves all headers. */
  lemma WritingKeeps(s: State, t: State, b: Block, lo: int, hi: int)
    requires Intact(s.blocks, lo, hi) && Stored(s.mem, s.blocks, 0) && Steps(s, t, Wrote(b))
    ensures Stored(t.mem, t.blocks, 0)
  {
    hide Tiles, Stored, Coalesced, NextFree;
    var bs := s.blocks;
    var i :| 0 <= i < |bs| && bs[i] == b;
    TilesSplit(bs, i, lo, hi);
    BlockInside(bs, i, lo, hi);
    assert bs[i..][1..] == bs[i + 1..];
    AfterBlock(bs, i, lo, hi);
    StoredAround(s.mem, bs, i, 0);
    StoredAround(t.mem, bs, i, 0);
    StoredFrame(s.mem, t.mem, bs[..i], NextFree(bs[i..], 0), lo, b.addr);
    StoredFrame(s.mem, t.mem, bs[i + 1..], 0, b.End(), hi);
    SameHolds(s.mem, t.mem, b.addr, b.addr + 8, b.addr, b.size);
  }

  lemma AfterBlock(bs: seq<Block>, i: nat, lo: int, hi: int)
    requires Tiles(bs, lo, hi) && i < |bs|
    ensures Tiles(bs[i + 1..], bs[i].End(), hi)
  {
    TilesSplit(bs, i, lo, hi);
    assert bs[i..][1..] == bs[i + 1..];
  }

  /** Over every run the heap stays intact with its headers in memory, whatever the program writes in its objects. */
  lemma {:induction false} RunIntact(states: seq<State>, events: seq<Event>, j: nat, lo: int, hi: int)
    requires Runs(states, events) && j <= |events|
    requires Intact(states[0].blocks, lo, hi) && Stored(states[0].mem, states[0].blocks, 0)
    ensures Intact(states[j].blocks, lo, hi) && Stored(states[j].mem, states[j].blocks, 0)
  {
    hide Intact, Stored, Step;
    if j > 0 {
      RunIntact(states, events, j - 1, lo, hi);
      assert Steps(states[j - 1], states[j - 1 + 1], events[j - 1]);
      match events[j - 1]
      case Called(call) => StepKeeps(states[j - 1].blocks, call, lo, hi);
      case Wrote(b) => WritingKeeps(states[j - 1], states[j], b, lo, hi);
    }
  }

  /** Over every run an object that is neither freed nor written stays live with the bytes it had. */
  lemma {:induction false} ObjectKept(states: seq<State>, events: seq<Event>, i: nat, j: nat, b: Block,
                                      lo: int, hi: int)
    requires Runs(states, events) && i <= j <= |events|
    requires Intact(states[0].blocks, lo, hi) && Stored(states[0].mem, states[0].blocks, 0)
    requires b in Live(states[i].blocks) && forall k :: i <= k < j ==> !Touches(events[k], b)
    ensures b in Live(states[j].blocks)
    ensures forall k :: b.addr + 8 <= k < b.End() ==> states[j].mem(k) == states[i].mem(k)
    decreases j
  {
    hide Intact, Stored, Step, Live, Steps, Touches;
    if i < j {
      ObjectKept(states, events, i, j - 1, b, lo, hi);
      RunIntact(states, events, j - 1, lo, hi);
      assert Steps(states[j - 1], states[j - 1 + 1], events[j - 1]);
      StepKeepsObject(states[j - 1], states[j], events[j - 1], b, lo, hi);
    }
  }

  /** Over every run a new object is zero until the program writes it or frees it. */
  lemma ZeroUntilWritten(states: seq<State>, events: seq<Event>, i: nat, j: nat, size: nat, b: Block,
                         lo: int, hi: int)
    requires Runs(states, events) && i < j <= |events| && events[i] == Called(Malloc(size))
    requires Intact(states[0].blocks, lo, hi) && Stored(states[0].mem, states[0].blocks, 0)
    requires b in Live(states[i + 1].blocks) && b !in Live(states[i].blocks)
    requires forall k :: i < k < j ==> !Touches(events[k], b)
    ensures b in Live(states[j].blocks) && b.size == size + 8
    ensures forall k :: b.addr + 8 <= k < b.addr + 8 + size ==> states[j].mem(k) == 0
  {
    hide Stored, Touches;
    RunIntact(states, events, i, lo, hi);
    assert Steps(states[i], states[i + 1], events[i]);
    NewBlock(states[i].blocks, size, b, lo, hi);
    ObjectKept(states, events, i + 1, j, b, lo, hi);
  }

  lemma NewBlock(bs: seq<Block>, size: nat, b: Block, lo: int, hi: int)
    requires Intact(bs, lo, hi) && Step(bs, Malloc(size)).Some?
    requires b in Live(Step(bs, Malloc(size)).value) && b !in Live(bs)
    ensures var i := FirstFit(bs, size + 8);
            i < |bs| && b == Block(bs[i].End() - size - 8, size + 8, true)
  {
    hide Tiles, Coalesced, Live, Carve, FirstFit;
    CarveMeaning(bs, FirstFit(bs, size + 8), size + 8, lo, hi);
  }
}
