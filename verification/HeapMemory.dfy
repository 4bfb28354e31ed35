// The heap's block headers as words in memory, and what malloc and free write there.

module HeapMemory {
  import opened Words
  import opened Blocks
  import opened MemoryBytes

  /** The heap lies above 0, below 2^64, and higher than it is long, as in the upper half. */
  predicate HeapRange(lo: int, hi: int) { 0 < lo && hi - lo < lo && hi < SPACE }

  /** The address of the first free block of bs, or `after` if there is none. */
  ghost function NextFree(bs: seq<Block>, after: int): int {
    if |bs| == 0 then after else if !bs[0].used then bs[0].addr else NextFree(bs[1..], after)
  }

  /** One header: a used block holds its size, a free one the next free block and its size. */
  ghost predicate Header(m: Memory, b: Block, next: int) {
    if b.used then Holds(m, b.addr, b.size)
    else Holds(m, b.addr, next) && Holds(m, b.addr + 8, b.size)
  }

  /** The headers of bs are in memory; the last free block of bs links to `after`. */
  ghost predicate Stored(m: Memory, bs: seq<Block>, after: int) {
    |bs| > 0 ==> Header(m, bs[0], NextFree(bs[1..], after)) && Stored(m, bs[1..], after)
  }

  lemma {:induction false} NextFreeConcat(xs: seq<Block>, ys: seq<Block>, after: int)
    ensures NextFree(xs + ys, after) == NextFree(xs, NextFree(ys, after))
  {
    if |xs| == 0 {
      assert xs + ys == ys;
    } else {
      assert (xs + ys)[1..] == xs[1..] + ys;
      NextFreeConcat(xs[1..], ys, after);
    }
  }

  lemma {:induction false} StoredConcat(m: Memory, xs: seq<Block>, ys: seq<Block>, after: int)
    ensures Stored(m, xs + ys, after) <==> Stored(m, xs, NextFree(ys, after)) && Stored(m, ys, after)
  {
    if |xs| == 0 {
      assert xs + ys == ys;
    } else {
      assert (xs + ys)[1..] == xs[1..] + ys;
      NextFreeConcat(xs[1..], ys, after);
      StoredConcat(m, xs[1..], ys, after);
    }
  }

  lemma {:induction false} StoredFrame(m: Memory, w: Memory, bs: seq<Block>, after: int, lo: int, hi: int)
    requires Stored(m, bs, after) && Tiles(bs, lo, hi) && Same(m, w, lo, hi)
    ensures Stored(w, bs, after)
  {
    if |bs| > 0 {
      TilesOrdered(bs, lo, hi);
      var b := bs[0];
      assert b in bs;
      if !b.used { SameHolds(m, w, lo, hi, b.addr, NextFree(bs[1..], after)); }
      SameHolds(m, w, lo, hi, if b.used then b.addr else b.addr + 8, b.size);
      StoredFrame(m, w, bs[1..], after, b.End(), hi);
    }
  }

  /** The memory around block i: what comes before, the block itself, what comes after. */
  lemma StoredAround(m: Memory, bs: seq<Block>, i: nat, after: int)
    requires i < |bs|
    ensures Stored(m, bs, after) <==>
            && Stored(m, bs[..i], NextFree(bs[i..], after))
            && Header(m, bs[i], NextFree(bs[i + 1..], after))
            && Stored(m, bs[i + 1..], after)
    ensures NextFree(bs, after) == NextFree(bs[..i], NextFree(bs[i..], after))
  {
    assert bs == bs[..i] + bs[i..] && bs[i..][1..] == bs[i + 1..];
    StoredConcat(m, bs[..i], bs[i..], after);
    NextFreeConcat(bs[..i], bs[i..], after);
  }

  lemma StoredOne(m: Memory, b: Block, after: int)
    ensures Stored(m, [b], after) <==> Header(m, b, after)
    ensures NextFree([b], after) == if b.used then after else b.addr
  {
    assert [b][1..] == [];
  }

  /** Changing memory only inside n blocks from k on, and those blocks to parts that are stored there. */
  lemma StoredReplace(m: Memory, w: Memory, bs: seq<Block>, k: nat, n: nat, parts: seq<Block>, lo: int, hi: int)
    requires Tiles(bs, lo, hi) && 0 < n && k + n <= |bs| && Stored(m, bs, 0)
    requires Same(m, w, lo, bs[k].addr) && Same(m, w, bs[k + n - 1].End(), hi)
    requires Stored(w, parts, NextFree(bs[k + n..], 0))
    requires NextFree(parts, NextFree(bs[k + n..], 0)) == NextFree(bs[k..], 0)
    ensures Stored(w, bs[..k] + parts + bs[k + n..], 0)
  {
    StoredAround(m, bs, k, 0);
    StoredAround(m, bs, k + n - 1, 0);
    TilesSplit(bs, k, lo, hi);
    TilesSplit(bs, k + n - 1, lo, hi);
    assert bs[k + n - 1..][1..] == bs[k + n..];
    StoredFrame(m, w, bs[..k], NextFree(bs[k..], 0), lo, bs[k].addr);
    StoredFrame(m, w, bs[k + n..], 0, bs[k + n - 1].End(), hi);
    StoredConcat(w, bs[..k] + parts, bs[k + n..], 0);
    StoredConcat(w, bs[..k], parts, NextFree(bs[k + n..], 0));
  }

  /** Words written in the header of a block can be read back. */
  lemma ReadHeader(m: Memory, b: Block, next: int, lo: int, hi: int)
    requires Header(m, b, next) && HeapRange(lo, hi) && lo <= b.addr && b.End() <= hi && HeaderFits(b)
    requires 0 <= next < SPACE
    ensures b.used ==> Read(m, b.addr) == b.size
    ensures !b.used ==> Read(m, b.addr) == next && Read(m, b.addr + 8) == b.size
  {
    if b.used {
      ReadHolds(m, b.addr, b.size);
    } else {
      ReadHolds(m, b.addr, next);
      ReadHolds(m, b.addr + 8, b.size);
    }
  }

  lemma BlockInside(bs: seq<Block>, i: nat, lo: int, hi: int)
    requires Tiles(bs, lo, hi) && i < |bs|
    ensures lo <= bs[i].addr && bs[i].End() <= hi && HeaderFits(bs[i])
    ensures var next := NextFree(bs[i + 1..], 0);
            next == 0 || bs[i].End() <= next < hi
  {
    TilesOrdered(bs, lo, hi);
    assert bs[i] in bs;
    TilesSplit(bs, i, lo, hi);
    assert bs[i..][1..] == bs[i + 1..];
    NextInRange(bs[i + 1..], bs[i].End(), hi);
  }

  lemma {:induction false} NextInRange(bs: seq<Block>, lo: int, hi: int)
    requires Tiles(bs, lo, hi)
    ensures NextFree(bs, 0) == 0 || lo <= NextFree(bs, 0) < hi
  {
    if |bs| > 0 {
      TilesOrdered(bs[1..], bs[0].End(), hi);
      NextInRange(bs[1..], bs[0].End(), hi);
    }
  }

  // ----- malloc -----

  /** A memory with the headers of a layout, and nothing else. */
  ghost function WithHeaders(bs: seq<Block>, after: int): Memory {
    if |bs| == 0 then k => 0
    else
      var rest, b := WithHeaders(bs[1..], after), bs[0];
      if b.used then Write(rest, b.addr, b.size)
      else Write(Write(rest, b.addr, NextFree(bs[1..], after)), b.addr + 8, b.size)
  }

  /** Every tiling can be stored. */
  lemma {:induction false} HeadersStored(bs: seq<Block>, after: int, lo: int, hi: int)
    requires Tiles(bs, lo, hi)
    ensures Stored(WithHeaders(bs, after), bs, after)
  {
    if |bs| > 0 {
      HeadersStored(bs[1..], after, bs[0].End(), hi);
      var rest, b, next := WithHeaders(bs[1..], after), bs[0], NextFree(bs[1..], after);
      WriteHolds(rest, b.addr, b.size);
      WriteHolds(rest, b.addr, next);
      WriteHolds(Write(rest, b.addr, next), b.addr + 8, b.size);
      WriteKeeps(Write(rest, b.addr, next), b.addr + 8, b.size, b.addr, next);
      StoredFrame(rest, WithHeaders(bs, after), bs[1..], after, b.End(), hi);
    }
  }

  /**
   * The writes of malloc in the tail of block b: the payload is wiped, the block's size field is
   * lowered, as it then reads, by `need`, and the new header gets `need`.
   */
  function CarveWrites(m: Memory, b: Block, need: int): Memory {
    var meta := b.End() - need;
    var wiped := Wipe(m, meta + 8, need - 8);
    Write(Write(wiped, b.addr + 8, (Read(wiped, b.addr + 8) - need) % SPACE), meta, need)
  }

  lemma CarveFrame(m: Memory, b: Block, need: int, lo: int, hi: int)
    requires b.size >= 16 && 8 <= need <= b.size && (hi <= b.addr || b.End() <= lo)
    ensures Same(m, CarveWrites(m, b, need), lo, hi)
  {
    hide Write, Wipe, Read;
    var meta := b.End() - need;
    var w1 := Wipe(m, meta + 8, need - 8);
    var w2 := Write(w1, b.addr + 8, (Read(w1, b.addr + 8) - need) % SPACE);
    var w3 := Write(w2, meta, need);
    WipeFrame(m, meta + 8, need - 8, lo, hi);
    WriteFrame(w1, b.addr + 8, (Read(w1, b.addr + 8) - need) % SPACE, lo, hi);
    WriteFrame(w2, meta, need, lo, hi);
    SameTrans(m, w1, w2, lo, hi);
    SameTrans(m, w2, w3, lo, hi);
  }

  /** A free block becomes a free block and a live one: only the free one's header is in question. */
  lemma PartsStored(m: Memory, w: Memory, bs: seq<Block>, i: nat, f: Block, u: Block, lo: int, hi: int)
    requires Tiles(bs, lo, hi) && i < |bs| && Stored(m, bs, 0) && !bs[i].used
    requires !f.used && f.addr == bs[i].addr && u.used && Holds(w, u.addr, u.size)
    requires Same(m, w, lo, bs[i].addr) && Same(m, w, bs[i].End(), hi)
    ensures Stored(w, bs[..i] + [f, u] + bs[i + 1..], 0) <==> Header(w, f, NextFree(bs[i + 1..], 0))
  {
    var parts, next := [f, u], NextFree(bs[i + 1..], 0);
    assert parts[1..] == [u] && parts[1..][1..] == [];
    assert bs[i..][1..] == bs[i + 1..];
    if Header(w, f, next) {
      StoredReplace(m, w, bs, i, 1, parts, lo, hi);
    } else {
      StoredConcat(w, bs[..i] + parts, bs[i + 1..], 0);
      StoredConcat(w, bs[..i], parts, next);
    }
  }

  // ----- free -----

  /** Growing the free block p on the left over block b. */
  function GrowWrites(m: Memory, p: Block, b: Block): Memory {
    Write(Wipe(m, b.addr + 8, b.size - 8), p.addr + 8, p.size + b.size)
  }

  /** Making block b a free block linked in behind p, whose old successor was `next`. */
  function LinkWrites(m: Memory, p: Block, b: Block, next: int): Memory {
    Write(Write(Write(Wipe(m, b.addr + 8, b.size - 8), b.addr, next), b.addr + 8, b.size), p.addr, b.addr)
  }

  /**
   * Swallowing the free block c on the right, whose link is read after the size has grown, and whose header
   * is cleared.
   */
  function SwallowWrites(m: Memory, a: Block, c: Block): Memory {
    var grown := Write(m, a.addr + 8, a.size + c.size);
    Write(Write(Write(grown, a.addr, Read(grown, c.addr)), c.addr, 0), c.addr + 8, 0)
  }

  lemma GrowStored(m: Memory, bs: seq<Block>, i: nat, lo: int, hi: int)
    requires Tiles(bs, lo, hi) && Stored(m, bs, 0) && i + 1 < |bs| && !bs[i].used && bs[i + 1].used
    ensures Stored(GrowWrites(m, bs[i], bs[i + 1]), Join(bs, i), 0)
  {
    var p, b, w := bs[i], bs[i + 1], GrowWrites(m, bs[i], bs[i + 1]);
    Neighbours(bs, i, lo, hi);
    StoredAround(m, bs, i, 0);
    assert bs[i + 1..][1..] == bs[i + 2..];
    GrowEffect(m, p, b, NextFree(bs[i + 2..], 0), lo, hi);
    hide GrowWrites, Header, Tiles, Stored;
    JoinStored(m, w, bs, i, lo, hi);
  }

  lemma GrowEffect(m: Memory, p: Block, b: Block, next: int, lo: int, hi: int)
    requires p.size >= 16 && b.size >= 8 && p.End() == b.addr && !p.used && Header(m, p, next)
    ensures var w := GrowWrites(m, p, b);
            && Same(m, w, lo, p.addr) && Same(m, w, b.End(), hi)
            && Header(w, p.(size := p.size + b.size), next)
  {
    hide Write, Wipe, Same, Holds;
    var w1 := Wipe(m, b.addr + 8, b.size - 8);
    var w := Write(w1, p.addr + 8, p.size + b.size);
    WipeFrame(m, b.addr + 8, b.size - 8, lo, p.addr);
    WipeFrame(m, b.addr + 8, b.size - 8, b.End(), hi);
    WriteFrame(w1, p.addr + 8, p.size + b.size, lo, p.addr);
    WriteFrame(w1, p.addr + 8, p.size + b.size, b.End(), hi);
    WipeKeeps(m, b.addr + 8, b.size - 8, p.addr, next);
    WriteKeeps(w1, p.addr + 8, p.size + b.size, p.addr, next);
    WriteHolds(w1, p.addr + 8, p.size + b.size);
    SameTrans(m, w1, w, lo, p.addr);
    SameTrans(m, w1, w, b.End(), hi);
  }

  /** Two neighbours have become one block, which is all that changed. */
  lemma JoinStored(m: Memory, w: Memory, bs: seq<Block>, i: nat, lo: int, hi: int)
    requires Tiles(bs, lo, hi) && Stored(m, bs, 0) && i + 1 < |bs| && !bs[i].used
    requires Same(m, w, lo, bs[i].addr) && Same(m, w, bs[i + 1].End(), hi)
    requires Header(w, bs[i].(size := bs[i].size + bs[i + 1].size), NextFree(bs[i + 2..], 0))
    ensures Stored(w, Join(bs, i), 0)
  {
    var joined := bs[i].(size := bs[i].size + bs[i + 1].size);
    hide Header, Tiles;
    assert [joined][1..] == [];
    assert Stored(w, [joined], NextFree(bs[i + 2..], 0));
    StoredReplace(m, w, bs, i, 2, [joined], lo, hi);
  }

  lemma Neighbours(bs: seq<Block>, i: nat, lo: int, hi: int)
    requires Tiles(bs, lo, hi) && i + 1 < |bs|
    ensures lo <= bs[i].addr && bs[i].End() == bs[i + 1].addr && bs[i + 1].End() <= hi
    ensures HeaderFits(bs[i]) && HeaderFits(bs[i + 1])
  {
    TilesSplit(bs, i, lo, hi);
    assert bs[i..][1..][0] == bs[i + 1];
    TilesOrdered(bs, lo, hi);
    assert bs[i] in bs && bs[i + 1] in bs;
  }

  ghost predicate AllUsed(bs: seq<Block>) { forall i :: 0 <= i < |bs| ==> bs[i].used }

  lemma {:induction false} UsedSkip(m: Memory, bs: seq<Block>, x: int, y: int)
    requires AllUsed(bs)
    ensures NextFree(bs, x) == x && (Stored(m, bs, x) <==> Stored(m, bs, y))
  {
    if |bs| > 0 { UsedSkip(m, bs[1..], x, y); }
  }

  /**
   * What memory holds after block i has become the free block f behind q, and the blocks after it
   * have become `rest`: only the header of f and the headers of `rest` are in question.
   */
  lemma LinkAssemble(m: Memory, w: Memory, bs: seq<Block>, q: nat, i: nat, f: Block, rest: seq<Block>, lo: int, hi: int)
    requires Tiles(bs, lo, hi) && Stored(m, bs, 0) && q < i < |bs| && !bs[q].used && bs[i].used && AllUsed(bs[q + 1..i])
    requires !f.used && f.addr == bs[i].addr && Header(w, bs[q], f.addr)
    requires Same(m, w, lo, bs[q].addr) && Same(m, w, bs[q].End(), bs[i].addr)
    ensures Stored(w, bs[..i] + [f] + rest, 0) <==> Header(w, f, NextFree(rest, 0)) && Stored(w, rest, 0)
  {
    hide Tiles, Header, Same, Stored, AllUsed;
    var p, b, next := bs[q], bs[i], NextFree(bs[i + 1..], 0);
    var mids, out := bs[q + 1..i], bs[..i] + [f] + rest;
    LinkPieces(m, bs, q, i, lo, hi);
    StoredFrame(m, w, bs[..q], p.addr, lo, p.addr);
    StoredFrame(m, w, mids, next, p.End(), b.addr);
    UsedSkip(w, mids, next, f.addr);
    UsedSkip(w, mids, f.addr, f.addr);
    assert out[..q] == bs[..q] && out[q] == p && out[q + 1..] == mids + [f] + rest && out[q..][1..] == out[q + 1..];
    StoredOne(w, f, NextFree(rest, 0));
    StoredConcat(w, mids + [f], rest, 0);
    StoredConcat(w, mids, [f], NextFree(rest, 0));
    NextFreeConcat(mids + [f], rest, 0);
    NextFreeConcat(mids, [f], NextFree(rest, 0));
    FirstIsFree(p, out[q + 1..]);
    StoredAround(w, out, q, 0);
  }

  lemma FirstIsFree(b: Block, bs: seq<Block>)
    requires !b.used
    ensures NextFree([b] + bs, 0) == b.addr
  {
  }

  lemma LinkStored(m: Memory, bs: seq<Block>, q: nat, i: nat, lo: int, hi: int)
    requires Tiles(bs, lo, hi) && Stored(m, bs, 0) && q < i < |bs| && !bs[q].used && bs[i].used
    requires AllUsed(bs[q + 1..i]) && bs[i].size >= 16
    ensures Stored(LinkWrites(m, bs[q], bs[i], NextFree(bs[i + 1..], 0)), bs[i := bs[i].(used := false)], 0)
  {
    hide LinkWrites, Tiles, Header, Same, Stored, AllUsed;
    var p, b, next, rest := bs[q], bs[i], NextFree(bs[i + 1..], 0), bs[i + 1..];
    var f, w := b.(used := false), LinkWrites(m, p, b, next);
    LinkPieces(m, bs, q, i, lo, hi);
    LinkFrame(m, p, b, next, lo, p.addr);
    LinkFrame(m, p, b, next, p.End(), b.addr);
    LinkFrame(m, p, b, next, b.End(), hi);
    LinkHeaders(m, p, b, next);
    StoredFrame(m, w, rest, 0, b.End(), hi);
    LinkAssemble(m, w, bs, q, i, f, rest, lo, hi);
    assert bs[i := f] == bs[..i] + [f] + rest;
  }

  /** The stretches of a stored heap around free block q and live block i. */
  lemma LinkPieces(m: Memory, bs: seq<Block>, q: nat, i: nat, lo: int, hi: int)
    requires Tiles(bs, lo, hi) && Stored(m, bs, 0) && q < i < |bs| && !bs[q].used && bs[i].used
    requires AllUsed(bs[q + 1..i])
    ensures var p, b, next, mids := bs[q], bs[i], NextFree(bs[i + 1..], 0), bs[q + 1..i];
            && Header(m, p, next) && Stored(m, bs[..q], p.addr) && Stored(m, mids, next) && Stored(m, bs[i + 1..], 0)
            && Tiles(bs[..q], lo, p.addr) && Tiles(mids, p.End(), b.addr) && Tiles(bs[i + 1..], b.End(), hi)
            && HeaderFits(p) && HeaderFits(b) && p.End() <= b.addr
  {
    TilesSplit(bs, q, lo, hi);
    TilesSplit(bs, i, lo, hi);
    assert bs[q..][1..] == bs[q + 1..] && bs[i..][1..] == bs[i + 1..];
    TilesSplit(bs[q + 1..], i - q - 1, bs[q].End(), hi);
    assert bs[q + 1..][..i - q - 1] == bs[q + 1..i] && bs[q + 1..][i - q - 1..] == bs[i..];
    TilesOrdered(bs, lo, hi);
    assert bs[q] in bs && bs[i] in bs;
    StoredAround(m, bs, q, 0);
    StoredAround(m, bs, i, 0);
    assert bs[q + 1..] == bs[q + 1..i] + bs[i..];
    StoredConcat(m, bs[q + 1..i], bs[i..], 0);
    NextFreeConcat(bs[q + 1..i], bs[i..], 0);
    UsedSkip(m, bs[q + 1..i], NextFree(bs[i..], 0), 0);
  }

  /** Whatever does not meet the two headers and the payload stays. */
  lemma LinkFrame(m: Memory, p: Block, b: Block, next: int, lo: int, hi: int)
    requires p.size >= 16 && b.size >= 8
    requires hi <= p.addr || p.addr + 8 <= lo
    requires hi <= b.addr || (b.End() <= lo && b.addr + 16 <= lo)
    ensures Same(m, LinkWrites(m, p, b, next), lo, hi)
  {
    hide Write, Wipe;
    var w1 := Wipe(m, b.addr + 8, b.size - 8);
    var w2 := Write(w1, b.addr, next);
    var w3 := Write(w2, b.addr + 8, b.size);
    WipeFrame(m, b.addr + 8, b.size - 8, lo, hi);
    WriteFrame(w1, b.addr, next, lo, hi);
    WriteFrame(w2, b.addr + 8, b.size, lo, hi);
    WriteFrame(w3, p.addr, b.addr, lo, hi);
  }

  lemma LinkHeaders(m: Memory, p: Block, b: Block, next: int)
    requires p.size >= 16 && b.size >= 8 && p.End() <= b.addr && Header(m, p, next) && !p.used && b.used
    ensures Header(LinkWrites(m, p, b, next), p, b.addr)
    ensures Header(LinkWrites(m, p, b, next), b.(used := false), next)
  {
    hide Write, Wipe, Holds;
    var w1 := Wipe(m, b.addr + 8, b.size - 8);
    var w2 := Write(w1, b.addr, next);
    var w3 := Write(w2, b.addr + 8, b.size);
    WipeKeeps(m, b.addr + 8, b.size - 8, p.addr + 8, p.size);
    WriteKeeps(w1, b.addr, next, p.addr + 8, p.size);
    WriteKeeps(w2, b.addr + 8, b.size, p.addr + 8, p.size);
    WriteKeeps(w3, p.addr, b.addr, p.addr + 8, p.size);
    WriteHolds(w3, p.addr, b.addr);
    WriteHolds(w1, b.addr, next);
    WriteKeeps(w2, b.addr + 8, b.size, b.addr, next);
    WriteKeeps(w3, p.addr, b.addr, b.addr, next);
    WriteHolds(w2, b.addr + 8, b.size);
    WriteKeeps(w3, p.addr, b.addr, b.addr + 8, b.size);
  }

  lemma SwallowStored(m: Memory, bs: seq<Block>, i: nat, lo: int, hi: int)
    requires Tiles(bs, lo, hi) && Stored(m, bs, 0) && i + 1 < |bs| && !bs[i].used && !bs[i + 1].used
    requires HeapRange(lo, hi)
    ensures Stored(SwallowWrites(m, bs[i], bs[i + 1]), Join(bs, i), 0)
  {
    var a, c, next := bs[i], bs[i + 1], NextFree(bs[i + 2..], 0);
    Neighbours(bs, i, lo, hi);
    BlockInside(bs, i + 1, lo, hi);
    StoredAround(m, bs, i + 1, 0);
    SwallowFrame(m, a, c, lo, a.addr);
    SwallowFrame(m, a, c, c.End(), hi);
    SwallowHeader(m, a, c, next);
    hide SwallowWrites, Header, Tiles, Stored;
    JoinStored(m, SwallowWrites(m, a, c), bs, i, lo, hi);
  }

  lemma SwallowHeader(m: Memory, a: Block, c: Block, next: int)
    requires a.size >= 16 && c.size >= 16 && a.End() == c.addr && !a.used && !c.used && Header(m, c, next)
    requires 0 <= next < SPACE
    ensures Header(SwallowWrites(m, a, c), a.(size := a.size + c.size), next)
  {
    hide Write, Read, Holds;
    var size := a.size + c.size;
    var w1 := Write(m, a.addr + 8, size);
    WriteKeeps(m, a.addr + 8, size, c.addr, next);
    ReadHolds(w1, c.addr, next);
    var w2 := Write(w1, a.addr, next);
    var w3 := Write(w2, c.addr, 0);
    WriteHolds(m, a.addr + 8, size);
    WriteKeeps(w1, a.addr, next, a.addr + 8, size);
    WriteKeeps(w2, c.addr, 0, a.addr + 8, size);
    WriteKeeps(w3, c.addr + 8, 0, a.addr + 8, size);
    WriteHolds(w1, a.addr, next);
    WriteKeeps(w2, c.addr, 0, a.addr, next);
    WriteKeeps(w3, c.addr + 8, 0, a.addr, next);
  }

  lemma SwallowFrame(m: Memory, a: Block, c: Block, lo: int, hi: int)
    requires a.size >= 8 && c.size >= 16 && a.End() == c.addr && (hi <= a.addr || c.End() <= lo)
    ensures Same(m, SwallowWrites(m, a, c), lo, hi)
  {
    hide Write, Read;
    var w1 := Write(m, a.addr + 8, a.size + c.size);
    var w2 := Write(w1, a.addr, Read(w1, c.addr));
    var w3 := Write(w2, c.addr, 0);
    var w4 := Write(w3, c.addr + 8, 0);
    WriteFrame(m, a.addr + 8, a.size + c.size, lo, hi);
    WriteFrame(w1, a.addr, Read(w1, c.addr), lo, hi);
    WriteFrame(w2, c.addr, 0, lo, hi);
    WriteFrame(w3, c.addr + 8, 0, lo, hi);
    SameTrans(m, w1, w2, lo, hi);
    SameTrans(m, w2, w3, lo, hi);
    SameTrans(m, w3, w4, lo, hi);
  }

  /** The code's adjacency test: the next free block starts where block i ends. */
  lemma NextAdjacent(bs: seq<Block>, i: nat, lo: int, hi: int)
    requires Tiles(bs, lo, hi) && i < |bs| && 0 < lo
    ensures bs[i].End() == NextFree(bs[i + 1..], 0) <==> i + 1 < |bs| && !bs[i + 1].used
  {
    BlockInside(bs, i, lo, hi);
    if i + 1 < |bs| {
      Neighbours(bs, i, lo, hi);
      BlockInside(bs, i + 1, lo, hi);
      assert bs[i + 1..][1..] == bs[i + 2..];
    }
  }

  /** The first free block from position j on, as the walk over the list meets it. */
  lemma {:induction false} MeetFree(m: Memory, bs: seq<Block>, j: nat) returns (f: nat)
    requires Stored(m, bs, 0) && j <= |bs| && NextFree(bs[j..], 0) != 0
    ensures j <= f < |bs| && !bs[f].used && bs[f].addr == NextFree(bs[j..], 0)
    ensures AllUsed(bs[j..f]) && Header(m, bs[f], NextFree(bs[f + 1..], 0))
    decreases |bs| - j
  {
    assert j < |bs| ==> bs[j..][1..] == bs[j + 1..] && bs[j..][0] == bs[j];
    if !bs[j].used {
      f := j;
      StoredAround(m, bs, f, 0);
    } else {
      f := MeetFree(m, bs, j + 1);
      assert bs[j..f] == [bs[j]] + bs[j + 1..f];
    }
  }
}
