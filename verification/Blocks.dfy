// The heap as a sequence of blocks: what malloc and free of libc/src/memory/heap.c do to
// it, and why the layout is determined by the live allocations alone.

module Blocks {

  /** `addr` is where the header lies; `size` includes the header. */
  datatype Block = Block(addr: int, size: int, used: bool) {
    function End(): int { addr + size }
  }

  /** The blocks fill [lo, hi) in order, without gap or overlap, each holding its own header. */
  ghost predicate Tiles(bs: seq<Block>, lo: int, hi: int) {
    if |bs| == 0 then lo == hi
    else bs[0].addr == lo && HeaderFits(bs[0]) && Tiles(bs[1..], bs[0].End(), hi)
  }

  /** 16 bytes in a free block, 8 in a used one. */
  predicate HeaderFits(b: Block) { b.size >= if b.used then 8 else 16 }

  /** No two free blocks touch. */
  ghost predicate Coalesced(bs: seq<Block>) {
    forall i {:trigger bs[i].used} :: 0 <= i < |bs| - 1 ==> bs[i].used || bs[i + 1].used
  }

  ghost function Live(bs: seq<Block>): set<Block> {
    set b | b in bs && b.used
  }

  // ----- tilings -----

  lemma {:induction false} TilesConcat(xs: seq<Block>, ys: seq<Block>, lo: int, mid: int, hi: int)
    requires Tiles(xs, lo, mid)
    ensures Tiles(xs + ys, lo, hi) <==> Tiles(ys, mid, hi)
  {
    if |xs| == 0 {
      assert xs + ys == ys;
    } else {
      assert (xs + ys)[1..] == xs[1..] + ys;
      TilesConcat(xs[1..], ys, xs[0].End(), mid, hi);
    }
  }

  /** A tiling splits at every position. */
  lemma {:induction false} TilesSplit(bs: seq<Block>, k: nat, lo: int, hi: int)
    requires Tiles(bs, lo, hi) && k <= |bs|
    ensures var mid := if k < |bs| then bs[k].addr else hi;
            Tiles(bs[..k], lo, mid) && Tiles(bs[k..], mid, hi) && lo <= mid <= hi
  {
    TilesOrdered(bs, lo, hi);
    if k == 0 {
      assert bs[..0] == [] && bs[0..] == bs;
    } else {
      TilesSplit(bs[1..], k - 1, bs[0].End(), hi);
      assert bs[..k][1..] == bs[1..][..k - 1] && bs[k..] == bs[1..][k - 1..];
    }
  }

  /** Every block lies inside the tiled range. */
  lemma {:induction false} TilesOrdered(bs: seq<Block>, lo: int, hi: int)
    requires Tiles(bs, lo, hi)
    ensures lo <= hi
    ensures forall b :: b in bs ==> lo <= b.addr && b.End() <= hi && HeaderFits(b)
  {
    if |bs| > 0 {
      TilesOrdered(bs[1..], bs[0].End(), hi);
      forall b | b in bs ensures lo <= b.addr && b.End() <= hi && HeaderFits(b) {
        assert b == bs[0] || b in bs[1..];
      }
    }
  }

  /** Positions and addresses ascend together. */
  lemma Ascending(bs: seq<Block>, i: nat, j: nat, lo: int, hi: int)
    requires Tiles(bs, lo, hi) && i < |bs| && j < |bs|
    ensures i < j <==> bs[i].addr < bs[j].addr
    ensures i < j ==> bs[i].End() <= bs[j].addr
  {
    TilesSplit(bs, i, lo, hi);
    TilesSplit(bs, j, lo, hi);
    assert bs[i..][1..] == bs[i + 1..] && bs[j..][1..] == bs[j + 1..];
    TilesOrdered(bs[i + 1..], bs[i].End(), hi);
    TilesOrdered(bs[j + 1..], bs[j].End(), hi);
    TilesOrdered(bs, lo, hi);
    assert i < j ==> bs[j] == bs[i + 1..][j - i - 1];
    assert j < i ==> bs[i] == bs[j + 1..][i - j - 1];
  }

  /** Replacing one block by blocks that tile its range. */
  lemma TilesReplace(bs: seq<Block>, k: nat, n: nat, parts: seq<Block>, lo: int, hi: int)
    requires Tiles(bs, lo, hi) && 0 < n && k + n <= |bs|
    requires Tiles(parts, bs[k].addr, bs[k + n - 1].End())
    ensures Tiles(bs[..k] + parts + bs[k + n..], lo, hi)
  {
    TilesSplit(bs, k, lo, hi);
    TilesSplit(bs, k + n, lo, hi);
    TilesSplit(bs, k + n - 1, lo, hi);
    var e := bs[k + n - 1].End();
    assert bs[k + n - 1..][1..] == bs[k + n..];
    assert Tiles(bs[k + n..], e, hi);
    TilesConcat(bs[..k], parts, lo, bs[k].addr, e);
    TilesConcat(bs[..k] + parts, bs[k + n..], lo, e, hi);
  }

  // ----- the layout is determined by the live blocks -----

  /**
   * Two coalesced tilings of the same range with the same live blocks are equal: the heap's
   * layout does not remember in which order it came about.
   */
  lemma {:induction false} LayoutUnique(as_: seq<Block>, bs: seq<Block>, lo: int, hi: int)
    requires Tiles(as_, lo, hi) && Tiles(bs, lo, hi) && Coalesced(as_) && Coalesced(bs)
    requires Live(as_) == Live(bs)
    ensures as_ == bs
  {
    TilesOrdered(as_, lo, hi);
    TilesOrdered(bs, lo, hi);
    if |as_| > 0 && |bs| > 0 {
      FirstAgrees(as_, bs, lo, hi);
      FirstAgrees(bs, as_, lo, hi);
      assert as_[0] == bs[0];
      LiveTail(as_, lo, hi);
      LiveTail(bs, lo, hi);
      CoalescedTail(as_);
      CoalescedTail(bs);
      LayoutUnique(as_[1..], bs[1..], as_[0].End(), hi);
      assert as_ == [as_[0]] + as_[1..] && bs == [bs[0]] + bs[1..];
    }
  }

  lemma CoalescedTail(bs: seq<Block>)
    requires Coalesced(bs) && |bs| > 0
    ensures Coalesced(bs[1..])
  {
    forall i | 0 <= i < |bs[1..]| - 1 ensures bs[1..][i].used || bs[1..][i + 1].used {
      assert bs[i + 1].used || bs[i + 2].used;
    }
  }

  lemma LiveTail(bs: seq<Block>, lo: int, hi: int)
    requires Tiles(bs, lo, hi) && |bs| > 0
    ensures Live(bs[1..]) == Live(bs) - {bs[0]}
  {
    TilesOrdered(bs[1..], bs[0].End(), hi);
    assert bs == [bs[0]] + bs[1..];
  }

  /** A live first block is first in the other tiling; a free one is at least as long there. */
  lemma FirstAgrees(as_: seq<Block>, bs: seq<Block>, lo: int, hi: int)
    requires Tiles(as_, lo, hi) && Tiles(bs, lo, hi) && Coalesced(as_)
    requires Live(as_) == Live(bs) && |as_| > 0 && |bs| > 0
    ensures as_[0].used ==> as_[0] == bs[0]
    ensures !as_[0].used && !bs[0].used ==> bs[0].size <= as_[0].size
  {
    TilesOrdered(bs[1..], bs[0].End(), hi);
    TilesOrdered(as_[1..], as_[0].End(), hi);
    assert bs == [bs[0]] + bs[1..];
    assert |as_| > 1 ==> as_[1..][0] == as_[1];
    if as_[0].used {
      assert as_[0] in Live(bs);
    } else if |as_| > 1 && as_[1].used {
      assert as_[1] in Live(as_);
    }
  }

  lemma LiveConcat(xs: seq<Block>, ys: seq<Block>)
    ensures Live(xs + ys) == Live(xs) + Live(ys)
  {
  }

  /** A block is found once only. */
  lemma OccursOnce(bs: seq<Block>, i: nat, lo: int, hi: int)
    requires Tiles(bs, lo, hi) && i < |bs|
    ensures bs[i] !in bs[..i] && bs[i] !in bs[i + 1..]
    ensures bs == bs[..i] + [bs[i]] + bs[i + 1..]
  {
    TilesSplit(bs, i, lo, hi);
    assert bs[i..][1..] == bs[i + 1..];
    TilesOrdered(bs[..i], lo, bs[i].addr);
    TilesOrdered(bs[i + 1..], bs[i].End(), hi);
    TilesOrdered(bs, lo, hi);
    assert HeaderFits(bs[i]);
  }

  /** Replacing block i changes the live set by that block and its replacement only. */
  lemma LiveReplace(bs: seq<Block>, i: nat, parts: seq<Block>, lo: int, hi: int)
    requires Tiles(bs, lo, hi) && i < |bs|
    ensures Live(bs[..i] + parts + bs[i + 1..]) == Live(bs) - {bs[i]} + Live(parts)
  {
    OccursOnce(bs, i, lo, hi);
    LiveConcat(bs[..i] + parts, bs[i + 1..]);
    LiveConcat(bs[..i], parts);
    LiveConcat(bs[..i] + [bs[i]], bs[i + 1..]);
    LiveConcat(bs[..i], [bs[i]]);
  }

  // ----- malloc -----

  /** The first free block with room for `need` bytes, or |bs|. */
  function FirstFit(bs: seq<Block>, need: int): (i: nat)
    ensures i <= |bs|
    ensures i < |bs| ==> !bs[i].used && bs[i].size >= need
    ensures forall j :: 0 <= j < i ==> bs[j].used || bs[j].size < need
  {
    if |bs| == 0 || (!bs[0].used && bs[0].size >= need) then 0
    else
      var k := FirstFit(bs[1..], need);
      assert forall j :: 1 <= j < k + 1 ==> bs[j] == bs[1..][j - 1];
      k + 1
  }

  /** Cuts a live block of `need` bytes off the end of free block i. */
  function Carve(bs: seq<Block>, i: nat, need: int): seq<Block>
    requires i < |bs|
  {
    var rest := bs[i].size - need;
    bs[..i] + [bs[i].(size := rest), Block(bs[i].addr + rest, need, true)] + bs[i + 1..]
  }

  lemma CarveMeaning(bs: seq<Block>, i: nat, need: int, lo: int, hi: int)
    requires Tiles(bs, lo, hi) && Coalesced(bs) && i < |bs| && !bs[i].used
    requires need >= 8 && bs[i].size >= need + 16
    ensures var out := Carve(bs, i, need);
            var new_ := Block(bs[i].End() - need, need, true);
            && Tiles(out, lo, hi) && Coalesced(out)
            && new_ !in bs && Live(out) == Live(bs) + {new_}
  {
    var rest := bs[i].size - need;
    var parts := [bs[i].(size := rest), Block(bs[i].addr + rest, need, true)];
    TilesOrdered(bs, lo, hi);
    assert parts[1..] == [parts[1]] && parts[1..][1..] == [];
    TilesReplace(bs, i, 1, parts, lo, hi);
    CarveCoalesced(bs, i, need);
    LiveReplace(bs, i, parts, lo, hi);
    assert Live(parts) == {parts[1]};
    InsideOne(bs, i, parts[1], lo, hi);
  }

  /** No block of a tiling starts strictly inside another. */
  lemma InsideOne(bs: seq<Block>, i: nat, b: Block, lo: int, hi: int)
    requires Tiles(bs, lo, hi) && i < |bs| && bs[i].addr < b.addr < bs[i].End()
    ensures b !in bs
  {
    OccursOnce(bs, i, lo, hi);
    TilesSplit(bs, i, lo, hi);
    assert bs[i..][1..] == bs[i + 1..];
    TilesOrdered(bs[..i], lo, bs[i].addr);
    TilesOrdered(bs[i + 1..], bs[i].End(), hi);
    TilesOrdered(bs, lo, hi);
  }

  lemma CarveCoalesced(bs: seq<Block>, i: nat, need: int)
    requires Coalesced(bs) && i < |bs| && !bs[i].used
    ensures Coalesced(Carve(bs, i, need))
  {
    var out := Carve(bs, i, need);
    forall j | 0 <= j < |out| - 1 ensures out[j].used || out[j + 1].used {
      if j < i {
        assert bs[j].used || bs[j + 1].used;
      } else if j > i + 1 {
        assert out[j] == bs[j - 1] && out[j + 1] == bs[j];
        assert bs[j - 1].used || bs[j].used;
      }
    }
  }

  // ----- free -----

  /** Blocks i and i + 1 as one block with the first one's header. */
  function Join(bs: seq<Block>, i: nat): seq<Block>
    requires i + 1 < |bs|
  {
    bs[..i] + [bs[i].(size := bs[i].size + bs[i + 1].size)] + bs[i + 2..]
  }

  /** Joins blocks i and i + 1 when both are free. */
  function MergeAt(bs: seq<Block>, i: nat): seq<Block>
    requires i < |bs|
  {
    if i + 1 < |bs| && !bs[i].used && !bs[i + 1].used
    then Join(bs, i) else bs
  }

  predicate LeftFree(bs: seq<Block>, i: nat)
    requires i < |bs|
  {
    i > 0 && !bs[i - 1].used
  }

  /** Frees block i: joined with its left neighbour first, then with the right one. */
  function Release(bs: seq<Block>, i: nat): seq<Block>
    requires i < |bs|
  {
    if LeftFree(bs, i) then MergeAt(Join(bs, i - 1), i - 1)
    else MergeAt(bs[i := bs[i].(used := false)], i)
  }

  /** Everything is coalesced except perhaps at the one place between i and i + 1. */
  ghost predicate CoalescedBut(bs: seq<Block>, k: int) {
    forall i {:trigger bs[i].used} :: 0 <= i < |bs| - 1 && i != k ==> bs[i].used || bs[i + 1].used
  }

  lemma MergeMeaning(bs: seq<Block>, i: nat, lo: int, hi: int)
    requires Tiles(bs, lo, hi) && i < |bs|
    ensures Tiles(MergeAt(bs, i), lo, hi) && Live(MergeAt(bs, i)) == Live(bs)
    ensures CoalescedBut(bs, i) ==> Coalesced(MergeAt(bs, i))
  {
    if i + 1 < |bs| && !bs[i].used && !bs[i + 1].used {
      JoinTiles(bs, i, lo, hi);
      LiveJoin(bs, i, lo, hi);
      if CoalescedBut(bs, i) { JoinCoalesced(bs, i); }
    }
  }

  lemma JoinTiles(bs: seq<Block>, i: nat, lo: int, hi: int)
    requires Tiles(bs, lo, hi) && i + 1 < |bs| && !bs[i].used
    ensures Tiles(Join(bs, i), lo, hi)
  {
    var m := bs[i].(size := bs[i].size + bs[i + 1].size);
    TilesOrdered(bs, lo, hi);
    TilesSplit(bs, i + 1, lo, hi);
    TilesSplit(bs, i, lo, hi);
    assert bs[i..][1..] == bs[i + 1..];
    TilesReplace(bs, i, 2, [m], lo, hi);
  }

  lemma LiveJoin(bs: seq<Block>, i: nat, lo: int, hi: int)
    requires Tiles(bs, lo, hi) && i + 1 < |bs| && !bs[i].used
    ensures Live(Join(bs, i)) == Live(bs) - {bs[i + 1]}
  {
    var m := bs[i].(size := bs[i].size + bs[i + 1].size);
    LiveReplace(bs, i + 1, [], lo, hi);
    var mid := bs[..i + 1] + [] + bs[i + 2..];
    assert mid == bs[..i] + [bs[i]] + bs[i + 2..];
    LiveConcat(bs[..i] + [bs[i]], bs[i + 2..]);
    LiveConcat(bs[..i], [bs[i]]);
    LiveConcat(bs[..i] + [m], bs[i + 2..]);
    LiveConcat(bs[..i], [m]);
  }

  lemma JoinCoalesced(bs: seq<Block>, i: nat)
    requires i + 1 < |bs| && !bs[i].used
    requires forall j {:trigger bs[j].used} ::
               0 <= j < |bs| - 1 && j != i && (j != i + 1 || !bs[i + 1].used) ==> bs[j].used || bs[j + 1].used
    ensures if bs[i + 1].used then CoalescedBut(Join(bs, i), i) else Coalesced(Join(bs, i))
  {
    var out := Join(bs, i);
    forall j | 0 <= j < |out| - 1 && (j != i || !bs[i + 1].used) ensures out[j].used || out[j + 1].used {
      if j < i { assert bs[j].used || bs[j + 1].used; } else { assert bs[j + 1].used || bs[j + 2].used; }
    }
  }

  predicate RightFree(bs: seq<Block>, i: nat)
    requires i < |bs|
  {
    i + 1 < |bs| && !bs[i + 1].used
  }

  /** The block that block i ends up in has room for the 16-byte header of a free block. */
  predicate Holdable(bs: seq<Block>, i: nat)
    requires i < |bs|
  {
    LeftFree(bs, i) || bs[i].size >= 16 || RightFree(bs, i)
  }

  /**
   * Freeing takes exactly that block out of the live set and leaves no two free blocks touching; the
   * result is a tiling again exactly when its header has room.
   */
  lemma ReleaseMeaning(bs: seq<Block>, i: nat, lo: int, hi: int)
    requires Tiles(bs, lo, hi) && Coalesced(bs) && i < |bs| && bs[i].used
    ensures Coalesced(Release(bs, i)) && Live(Release(bs, i)) == Live(bs) - {bs[i]}
    ensures Tiles(Release(bs, i), lo, hi) <==> Holdable(bs, i)
  {
    hide Tiles, Live;
    if LeftFree(bs, i) {
      JoinTiles(bs, i - 1, lo, hi);
      LiveJoin(bs, i - 1, lo, hi);
      JoinCoalesced(bs, i - 1);
      MergeMeaning(Join(bs, i - 1), i - 1, lo, hi);
    } else if RightFree(bs, i) {
      UnusedAndJoined(bs, i, lo, hi);
    } else {
      UnuseMeaning(bs, i, lo, hi);
    }
  }

  lemma UnuseMeaning(bs: seq<Block>, i: nat, lo: int, hi: int)
    requires Tiles(bs, lo, hi) && Coalesced(bs) && i < |bs| && bs[i].used && !LeftFree(bs, i)
    ensures var out := bs[i := bs[i].(used := false)];
            && (Tiles(out, lo, hi) <==> bs[i].size >= 16) && Live(out) == Live(bs) - {bs[i]}
            && CoalescedBut(out, i) && (!RightFree(bs, i) ==> Coalesced(out))
  {
    var f := bs[i].(used := false);
    var out := bs[i := f];
    TilesOrdered(bs, lo, hi);
    if f.size >= 16 { TilesReplace(bs, i, 1, [f], lo, hi); }
    if Tiles(out, lo, hi) {
      TilesOrdered(out, lo, hi);
      assert out[i] in out;
    }
    assert out == bs[..i] + [f] + bs[i + 1..];
    LiveReplace(bs, i, [f], lo, hi);
    forall j | 0 <= j < |out| - 1 && (j != i || !RightFree(bs, i)) ensures out[j].used || out[j + 1].used {
      assert bs[j].used || bs[j + 1].used;
    }
  }

  lemma UnusedAndJoined(bs: seq<Block>, i: nat, lo: int, hi: int)
    requires Tiles(bs, lo, hi) && Coalesced(bs) && i < |bs| && bs[i].used && !LeftFree(bs, i) && RightFree(bs, i)
    ensures Tiles(Release(bs, i), lo, hi) && Coalesced(Release(bs, i)) && Live(Release(bs, i)) == Live(bs) - {bs[i]}
  {
    hide Tiles, Live;
    var c, out := bs[i + 1], Release(bs, i);
    var joined := bs[i].(used := false).(size := bs[i].size + c.size);
    assert out == bs[..i] + [joined] + bs[i + 2..];
    PairTiles(bs, i, lo, hi);
    TilesReplace(bs, i, 2, [joined], lo, hi);
    LiveReplace(bs, i, [joined], lo, hi);
    FreeNotLive(bs[..i], joined, c, bs[i + 2..]);
    assert bs[i + 1..] == [c] + bs[i + 2..];
    forall j | 0 <= j < |out| - 1 ensures out[j].used || out[j + 1].used {
      if j < i { assert bs[j].used || bs[j + 1].used; } else { assert bs[j + 1].used || bs[j + 2].used; }
    }
  }

  lemma PairTiles(bs: seq<Block>, i: nat, lo: int, hi: int)
    requires Tiles(bs, lo, hi) && i + 1 < |bs|
    ensures bs[i].End() == bs[i + 1].addr && HeaderFits(bs[i]) && HeaderFits(bs[i + 1])
    ensures bs[i + 1].size >= 16 ==>
              Tiles([bs[i].(used := false).(size := bs[i].size + bs[i + 1].size)], bs[i].addr, bs[i + 1].End())
  {
    TilesSplit(bs, i, lo, hi);
    HeaderOf(bs, i, lo, hi);
    HeaderOf(bs, i + 1, lo, hi);
    assert bs[i..][1..][0] == bs[i + 1];
    assert [bs[i].(used := false).(size := bs[i].size + bs[i + 1].size)][1..] == [];
  }

  lemma HeaderOf(bs: seq<Block>, i: nat, lo: int, hi: int)
    requires Tiles(bs, lo, hi) && i < |bs|
    ensures HeaderFits(bs[i])
  {
    TilesOrdered(bs, lo, hi);
    assert bs[i] in bs;
  }

  /** Free blocks do not show among the live ones. */
  lemma FreeNotLive(xs: seq<Block>, f: Block, c: Block, ys: seq<Block>)
    requires !f.used && !c.used
    ensures Live(xs + [f] + ys) == Live(xs + [f] + ([c] + ys)) && Live([f]) == {}
  {
    LiveConcat(xs + [f], ys);
    LiveConcat(xs + [f], [c] + ys);
    LiveConcat([c], ys);
  }
}
