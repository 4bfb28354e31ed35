// Headers that do not fit: which bytes of a neighbour malloc and free then overwrite, and when
// the headers in memory are nevertheless those of the new layout.

module HeapOverlap {
  import opened Words
  import opened Blocks
  import opened MemoryBytes
  import opened HeapMemory

  // ----- words that overlap in part -----

  lemma DivBelow(v: int, n: nat)
    requires 0 <= v < SPACE && n <= 8
    ensures 0 <= v / Pow256(n) < Pow256(8 - n) && v / Pow256(n) % Pow256(8 - n) == v / Pow256(n)
  {
    PowSum(n, 8 - n);
    TwoDigits(v, Pow256(n), Pow256(8 - n));
    assert v % SPACE == v && v / SPACE == 0;
  }

  lemma HighBytes(v: int, x: int, n: nat)
    requires n <= 8 && 0 <= v < SPACE && 0 <= x < SPACE
    ensures (forall j :: n <= j < 8 ==> Byte(v, j) == Byte(x, j)) <==> v / Pow256(n) == x / Pow256(n)
  {
    hide Byte, Pow256;
    var y, z := v / Pow256(n), x / Pow256(n);
    forall j | 0 <= j < 8 - n ensures Byte(v, n + j) == Byte(y, j) && Byte(x, n + j) == Byte(z, j) {
      DropBytes(v, n, j);
      DropBytes(x, n, j);
    }
    DivBelow(v, n);
    DivBelow(x, n);
    LowBytes(y, z, 8 - n);
    if y == z {
      forall j | n <= j < 8 ensures Byte(v, j) == Byte(x, j) { assert Byte(v, n + (j - n)) == Byte(y, j - n); }
    }
    if forall j :: n <= j < 8 ==> Byte(v, j) == Byte(x, j) {
      forall j | 0 <= j < 8 - n ensures Byte(y, j) == Byte(z, j) { assert Byte(v, n + j) == Byte(x, n + j); }
    }
  }

  /** A write d bytes into a word leaves it standing exactly when the low bytes written are its high bytes. */
  lemma OverlaidHead(m: Memory, a: int, v: int, d: nat, x: int)
    requires Holds(m, a, v) && d < 8 && 0 <= v < SPACE
    ensures Holds(Write(m, a + d, x), a, v) <==> x % Pow256(8 - d) == v / Pow256(d)
  {
    hide Byte, Pow256;
    var w, y := Write(m, a + d, x), v / Pow256(d);
    forall j | 0 <= j < 8 - d ensures Byte(v, d + j) == Byte(y, j) && w(a + d + j) == Byte(x, j) { DropBytes(v, d, j); }
    LowBytes(x, y, 8 - d);
    DivBelow(v, d);
    if Holds(w, a, v) {
      forall j | 0 <= j < 8 - d ensures Byte(x, j) == Byte(y, j) { assert w(a + d + j) == Byte(v, a + d + j - a); }
    }
    if x % Pow256(8 - d) == y {
      forall k | a <= k < a + 8 ensures w(k) == Byte(v, k - a) {
        if k < a + d {
          assert m(k) == Byte(v, k - a);
        } else {
          var j := k - a - d;
          assert w(a + d + j) == Byte(x, j) == Byte(y, j) == Byte(v, d + j);
        }
      }
    }
  }

  /** A write that starts d bytes before the word y and reaches into it. */
  lemma OverlaidTail(m: Memory, a: int, y: int, d: nat, x: int, v: int)
    requires Holds(m, a, y) && d <= 8 && 0 <= y < SPACE && 0 <= v < SPACE
    ensures Holds(Write(m, a - d, x), a, v) <==>
              x / Pow256(d) % Pow256(8 - d) == v % Pow256(8 - d) && y / Pow256(8 - d) == v / Pow256(8 - d)
  {
    hide Byte, Pow256;
    var w, z := Write(m, a - d, x), x / Pow256(d);
    forall j | 0 <= j < 8 - d ensures w(a + j) == Byte(z, j) { DropBytes(x, d, j); }
    forall j | 8 - d <= j < 8 ensures w(a + j) == Byte(y, j) { assert m(a + j) == Byte(y, a + j - a); }
    LowBytes(z, v, 8 - d);
    HighBytes(y, v, 8 - d);
    if Holds(w, a, v) {
      forall j | 0 <= j < 8 ensures w(a + j) == Byte(v, j) { assert w(a + j) == Byte(v, a + j - a); }
    }
    if (forall j :: 0 <= j < 8 - d ==> Byte(z, j) == Byte(v, j))
        && (forall j :: 8 - d <= j < 8 ==> Byte(y, j) == Byte(v, j)) {
      forall k | a <= k < a + 8 ensures w(k) == Byte(v, k - a) {
        var j := k - a;
        assert w(a + j) == Byte(v, j);
      }
    }
  }

  lemma WriteIff(m: Memory, a: int, v: int, k: int, x: int)
    requires k + 8 <= a || a + 8 <= k
    ensures Holds(Write(m, a, v), k, x) <==> Holds(m, k, x)
  {
    hide Byte;
    if Holds(Write(m, a, v), k, x) {
      forall j | k <= j < k + 8 ensures m(j) == Byte(x, j - k) { assert Write(m, a, v)(j) == Byte(x, j - k); }
    }
  }

  /** The word y with its low n bytes replaced by x. */
  function Replaced(y: int, n: nat, x: int): int { x + Pow256(n) * (y / Pow256(n)) }

  lemma ReplacedIs(y: int, n: nat, x: int)
    requires n <= 8 && 0 <= y < SPACE && 0 <= x < Pow256(n)
    ensures var v := Replaced(y, n, x);
            0 <= v < SPACE && v % Pow256(n) == x && v / Pow256(n) == y / Pow256(n)
    ensures Replaced(y, n, x) == y <==> x == y % Pow256(n)
  {
    var p, q := Pow256(n), y / Pow256(n);
    DivBelow(y, n);
    PowSum(n, 8 - n);
    InRange(p, Pow256(8 - n), q, x);
    DivUnique(Replaced(y, n, x), p, q, x);
    assert y == p * q + y % p;
  }

  // ----- malloc -----

  /**
   * When the rest of a block that malloc cuts `need` bytes from keeps its header: 16 bytes remain; or
   * the new header overwrites bytes of the size that are the same in both; or even the link.
   */
  predicate CarveFits(rest: int, need: int, next: int) {
    || rest >= 16
    || (8 <= rest && need % Pow256(16 - rest) == rest / Pow256(rest - 8))
    || (0 < rest < 8 && need == next / Pow256(rest) + rest * Pow256(8 - rest) && need + rest < Pow256(rest))
  }

  /** malloc leaves the headers of the carved layout in memory exactly then. */
  lemma CarveStored(m: Memory, bs: seq<Block>, i: nat, need: int, lo: int, hi: int)
    requires Tiles(bs, lo, hi) && Stored(m, bs, 0) && HeapRange(lo, hi)
    requires i < |bs| && !bs[i].used && 8 <= need <= bs[i].size
    ensures Stored(CarveWrites(m, bs[i], need), Carve(bs, i, need), 0) <==>
              CarveFits(bs[i].size - need, need, NextFree(bs[i + 1..], 0))
  {
    hide CarveWrites, Stored, Header, NextFree, Tiles, Same, CarveFits;
    var w, b, rest := CarveWrites(m, bs[i], need), bs[i], bs[i].size - need;
    var next := NextFree(bs[i + 1..], 0);
    BlockInside(bs, i, lo, hi);
    StoredAround(m, bs, i, 0);
    CarveFrame(m, b, need, lo, b.addr);
    CarveFrame(m, b, need, b.End(), hi);
    CarveHeader(m, b, need, next, lo, hi);
    PartsStored(m, w, bs, i, b.(size := rest), Block(b.addr + rest, need, true), lo, hi);
  }

  lemma CarveHeader(m: Memory, b: Block, need: int, next: int, lo: int, hi: int)
    requires !b.used && b.size >= 16 && Header(m, b, next) && 8 <= need <= b.size
    requires HeapRange(lo, hi) && lo <= b.addr && b.End() <= hi && 0 <= next < SPACE && (next == 0 || next > hi - lo)
    ensures var w, rest := CarveWrites(m, b, need), b.size - need;
            Holds(w, b.addr + rest, need) && (Header(w, b.(size := rest), next) <==> CarveFits(rest, need, next))
  {
    var rest, size := b.size - need, b.addr + 8;
    var wiped := Wipe(m, b.addr + rest + 8, need - 8);
    WriteHolds(Write(wiped, size, (Read(wiped, size) - need) % SPACE), b.addr + rest, need);
    if rest >= 8 { CarveAfterLink(m, b, need, next); } else { CarveOverLink(m, b, need, next, lo, hi); }
  }

  /** The new header leaves the link alone. */
  lemma CarveAfterLink(m: Memory, b: Block, need: int, next: int)
    requires !b.used && Header(m, b, next) && 8 <= need && need + 8 <= b.size < SPACE
    ensures var rest := b.size - need;
            Header(CarveWrites(m, b, need), b.(size := rest), next) <==> CarveFits(rest, need, next)
  {
    hide Write, Wipe, Read, Holds, Pow256;
    var rest, size := b.size - need, b.addr + 8;
    var meta := b.addr + rest;
    var w1 := Wipe(m, meta + 8, need - 8);
    WipeKeeps(m, meta + 8, need - 8, b.addr, next);
    WipeKeeps(m, meta + 8, need - 8, size, b.size);
    ReadHolds(w1, size, b.size);
    var w2 := Write(w1, size, rest);
    WriteKeeps(w1, size, rest, b.addr, next);
    WriteHolds(w1, size, rest);
    WriteKeeps(w2, meta, need, b.addr, next);
    assert CarveWrites(m, b, need) == Write(w2, meta, need);
    if rest >= 16 {
      WriteKeeps(w2, meta, need, size, rest);
    } else {
      OverlaidHead(w2, size, rest, rest - 8, need);
    }
  }

  /** The new header reaches into the link as well. */
  lemma CarveOverLink(m: Memory, b: Block, need: int, next: int, lo: int, hi: int)
    requires !b.used && b.size >= 16 && Header(m, b, next) && 8 <= need <= b.size < need + 8
    requires HeapRange(lo, hi) && lo <= b.addr && b.End() <= hi && 0 <= next < SPACE && (next == 0 || next > hi - lo)
    ensures var rest := b.size - need;
            Header(CarveWrites(m, b, need), b.(size := rest), next) <==> CarveFits(rest, need, next)
  {
    hide Write, Wipe, Read, Holds, Pow256, CarveFits;
    var rest, size := b.size - need, b.addr + 8;
    var meta := b.addr + rest;
    var w1 := Wipe(m, meta + 8, need - 8);
    WipeKeeps(m, meta + 8, need - 8, b.addr, next);
    WipedSize(m, size, b.size, rest, need - 8);
    var low := b.size % Pow256(rest);
    ReadHolds(w1, size, low);
    var left := (low - need) % SPACE;
    var w2 := Write(w1, size, left);
    WriteKeeps(w1, size, left, b.addr, next);
    WriteHolds(w1, size, left);
    OverlaidHead(w2, b.addr, next, rest, need);
    OverlaidTail(w2, size, left, 8 - rest, need, rest);
    assert meta == b.addr + rest == size - (8 - rest);
    assert CarveWrites(m, b, need) == Write(w2, meta, need);
    OverLinkFits(rest, need, next, left, hi - lo);
  }

  /** The wipe leaves the low `rest` bytes of the size. */
  lemma WipedSize(m: Memory, a: int, v: int, n: nat, len: int)
    requires Holds(m, a, v) && n < 8 && 0 <= v < SPACE && n + len >= 8
    ensures 0 <= v % Pow256(n) < SPACE && Holds(Wipe(m, a + n, len), a, v % Pow256(n))
  {
    hide Byte, Pow256;
    var low, w := v % Pow256(n), Wipe(m, a + n, len);
    DivBelow(v, n);
    PowSum(n, 8 - n);
    InRange(Pow256(n), Pow256(8 - n), 0, low);
    LowBytes(v, low, n);
    DivUnique(low, Pow256(n), 0, low);
    HighBytes(low, 0, n);
    ZeroBytes();
    DivUnique(0, Pow256(n), 0, 0);
    forall k | a <= k < a + 8 ensures w(k) == Byte(low, k - a) {
      var j := k - a;
      assert m(k) == Byte(v, k - a);
      if j < n { assert Byte(v, j) == Byte(low, j); } else { assert Byte(low, j) == Byte(0, j); }
    }
  }

  lemma ZeroBytes()
    ensures forall j :: 0 <= j < 8 ==> Byte(0, j) == 0
  {
  }

  /** The conditions on link and size in closed form. */
  lemma OverLinkFits(rest: nat, need: int, next: int, left: int, length: int)
    requires rest < 8 <= need && need + rest <= length < 0x8000_0000_0000_0000 && 0 <= next < SPACE
    requires next == 0 || next > length
    requires left == ((need + rest) % Pow256(rest) - need) % SPACE
    ensures CarveFits(rest, need, next) <==>
              && need % Pow256(8 - rest) == next / Pow256(rest)
              && need / Pow256(8 - rest) % Pow256(rest) == rest % Pow256(rest)
              && left / Pow256(rest) == rest / Pow256(rest)
  {
    if rest == 0 {
      NothingLeft(need, next);
    } else {
      hide Pow256;
      LeftFits(rest, need, left);
      DivBelow(need, 8 - rest);
      RestSmall(rest);
      DivBelow(next, rest);
      var p, q, n := Pow256(8 - rest), next / Pow256(rest), Pow256(rest);
      DivUnique(rest, n, 0, rest);
      DigitsOf(need, p, n, rest, q);
    }
  }

  lemma NothingLeft(need: int, next: int)
    requires 0 < need < SPACE && 0 <= next < SPACE && (next == 0 || next > need)
    ensures !(need % Pow256(8) == next / Pow256(0))
  {
    assert need % SPACE == need && next / 1 == next;
  }

  /** A number is its two digits to the base p, whenever the upper one is below n. */
  lemma DigitsOf(need: int, p: int, n: int, rest: int, q: int)
    requires p > 0 && 0 <= rest < n && 0 <= q < p && 0 <= need / p < n
    ensures need == q + rest * p <==> need % p == q && need / p % n == rest
  {
    assert need == p * (need / p) + need % p;
    DivUnique(need / p, n, 0, need / p);
    if need == q + rest * p { DivUnique(need, p, rest, q); }
  }

  lemma RestSmall(rest: nat)
    requires 0 < rest < 8
    ensures rest < Pow256(rest)
  {
  }

  lemma LeftFits(rest: nat, need: int, left: int)
    requires 0 < rest < 8 <= need && need + rest < 0x8000_0000_0000_0000
    requires left == ((need + rest) % Pow256(rest) - need) % SPACE
    ensures left / Pow256(rest) == 0 <==> need + rest < Pow256(rest)
  {
    var p := Pow256(rest);
    assert p <= 0x100_0000_0000_0000 && rest < p;
    if need + rest < p {
      assert left == rest;
    } else {
      assert (need + rest) % p <= need + rest - p;
      assert left == (need + rest) % p - need + SPACE;
      assert left >= p;
      Quotient1(left, p);
    }
  }

  lemma Quotient1(v: int, p: int)
    requires 0 < p <= v
    ensures v / p != 0
  {
    assert v == p * (v / p) + v % p;
  }

  // ----- free -----

  /**
   * When freeing live block i leaves the right headers: it is joined to the left, or has 16 bytes, or
   * lies last; or the words that its new header overwrites are the same afterwards.
   */
  ghost predicate FreeFits(bs: seq<Block>, i: nat)
    requires i < |bs|
  {
    var s := bs[i].size;
    || LeftFree(bs, i) || s >= 16 || i + 1 == |bs|
    || (8 <= s && bs[i + 1].used && bs[i + 1].size % Pow256(16 - s) == s / Pow256(s - 8))
    || (8 <= s && !bs[i + 1].used && s + bs[i + 1].size < Pow256(s - 8)
        && NextFree(bs[i + 2..], 0) % Pow256(16 - s) == 0)
  }

  /** The block that block i has become when it was joined to, or linked behind, free block q. */
  function Attached(bs: seq<Block>, q: nat, i: nat): Block
    requires q < |bs| && i < |bs|
  {
    if LeftFree(bs, i) then bs[q].(size := bs[q].size + bs[i].size) else bs[i].(used := false)
  }

  ghost function AttachWrites(m: Memory, bs: seq<Block>, q: nat, i: nat): Memory
    requires q < |bs| && i < |bs|
  {
    if LeftFree(bs, i) then GrowWrites(m, bs[q], bs[i]) else LinkWrites(m, bs[q], bs[i], NextFree(bs[i + 1..], 0))
  }

  /** Memory after free of block i, where q is the last free block before it. */
  ghost function FreeWrites(m: Memory, bs: seq<Block>, q: nat, i: nat): Memory
    requires q < |bs| && i < |bs|
  {
    var w := AttachWrites(m, bs, q, i);
    if RightFree(bs, i) then SwallowWrites(w, Attached(bs, q, i), bs[i + 1]) else w
  }

  /** q is the last free block before live block i of a stored heap. */
  ghost predicate Freeing(m: Memory, bs: seq<Block>, q: nat, i: nat, lo: int, hi: int) {
    && Tiles(bs, lo, hi) && Coalesced(bs) && Stored(m, bs, 0) && HeapRange(lo, hi)
    && q < i < |bs| && !bs[q].used && bs[i].used && AllUsed(bs[q + 1..i])
  }

  /** free leaves the headers of the new layout in memory exactly then. */
  lemma FreeStored(m: Memory, bs: seq<Block>, q: nat, i: nat, lo: int, hi: int)
    requires Freeing(m, bs, q, i, lo, hi)
    ensures Stored(FreeWrites(m, bs, q, i), Release(bs, i), 0) <==> FreeFits(bs, i)
  {
    hide Tiles, Stored, Pow256;
    BlockInside(bs, i, lo, hi);
    if LeftFree(bs, i) || bs[i].size >= 16 {
      RoomyFree(m, bs, q, i, lo, hi);
    } else if RightFree(bs, i) {
      SmallBeforeFree(m, bs, q, i, lo, hi);
    } else {
      SmallBeforeUsed(m, bs, q, i, lo, hi);
    }
  }

  /** The usual case: first attached, then joined with the right neighbour. */
  lemma RoomyFree(m: Memory, bs: seq<Block>, q: nat, i: nat, lo: int, hi: int)
    requires Freeing(m, bs, q, i, lo, hi) && (LeftFree(bs, i) || bs[i].size >= 16)
    ensures Stored(FreeWrites(m, bs, q, i), Release(bs, i), 0)
  {
    hide Tiles, Stored, GrowWrites, LinkWrites, SwallowWrites, AllUsed, NextFree;
    var w := AttachWrites(m, bs, q, i);
    if LeftFree(bs, i) {
      LastIsLeft(bs, q, i);
      GrowStored(m, bs, i - 1, lo, hi);
      JoinTiles(bs, i - 1, lo, hi);
      if RightFree(bs, i) { SwallowStored(w, Join(bs, i - 1), i - 1, lo, hi); }
    } else {
      LinkStored(m, bs, q, i, lo, hi);
      UnuseMeaning(bs, i, lo, hi);
      if RightFree(bs, i) { SwallowStored(w, bs[i := bs[i].(used := false)], i, lo, hi); }
    }
  }

  lemma LastIsLeft(bs: seq<Block>, q: nat, i: nat)
    requires q < i < |bs| && AllUsed(bs[q + 1..i]) && LeftFree(bs, i)
    ensures q == i - 1
  {
    forall k | q < k < i ensures bs[k].used { assert bs[q + 1..i][k - q - 1] == bs[k]; }
  }

  /** A small block linked in before a live one, or at the end of the heap. */
  lemma SmallBeforeUsed(m: Memory, bs: seq<Block>, q: nat, i: nat, lo: int, hi: int)
    requires Freeing(m, bs, q, i, lo, hi) && !LeftFree(bs, i) && bs[i].size < 16 && !RightFree(bs, i)
    ensures Stored(FreeWrites(m, bs, q, i), Release(bs, i), 0) <==> FreeFits(bs, i)
  {
    hide Tiles, Stored, LinkWrites, AllUsed, NextFree, Header, Same, Holds, Pow256;
    var p, b, next, rest := bs[q], bs[i], NextFree(bs[i + 1..], 0), bs[i + 1..];
    var w, f := LinkWrites(m, p, b, next), b.(used := false);
    LinkPieces(m, bs, q, i, lo, hi);
    LinkFrame(m, p, b, next, lo, p.addr);
    LinkFrame(m, p, b, next, p.End(), b.addr);
    LinkHeaders(m, p, b, next);
    LinkAssemble(m, w, bs, q, i, f, rest, lo, hi);
    assert Release(bs, i) == bs[..i] + [f] + rest;
    if |rest| == 0 {
      StoredNone(w, rest);
    } else {
      NeighbourWord(m, p, b, next, bs, i, lo, hi);
    }
  }

  lemma StoredNone(w: Memory, bs: seq<Block>)
    requires |bs| == 0
    ensures Stored(w, bs, 0)
  {
  }

  /** Only the size of the live neighbour is in question. */
  lemma NeighbourWord(m: Memory, p: Block, b: Block, next: int, bs: seq<Block>, i: nat, lo: int, hi: int)
    requires Tiles(bs, lo, hi) && Stored(m, bs, 0) && HeapRange(lo, hi) && i + 1 < |bs| && bs[i] == b && bs[i + 1].used
    requires p.size >= 16 && p.End() <= b.addr && 8 <= b.size < 16
    ensures Stored(LinkWrites(m, p, b, next), bs[i + 1..], 0) <==>
              bs[i + 1].size % Pow256(16 - b.size) == b.size / Pow256(b.size - 8)
  {
    hide Tiles, Stored, LinkWrites, NextFree, Same, Holds, Pow256;
    var u, after, w := bs[i + 1], bs[i + 2..], LinkWrites(m, p, b, next);
    Neighbours(bs, i, lo, hi);
    StoredAround(m, bs, i + 1, 0);
    TilesSplit(bs, i + 1, lo, hi);
    assert bs[i + 1..] == [u] + after && bs[i + 1..][1..] == after;
    AfterFirst(bs[i + 1..], u.addr, hi);
    LinkFrame(m, p, b, next, u.End(), hi);
    StoredFrame(m, w, after, 0, u.End(), hi);
    StoredConcat(w, [u], after, 0);
    StoredOne(w, u, NextFree(after, 0));
    OverNeighbour(m, p, b, next, u);
  }

  lemma AfterFirst(bs: seq<Block>, lo: int, hi: int)
    requires Tiles(bs, lo, hi) && |bs| > 0
    ensures Tiles(bs[1..], bs[0].End(), hi)
  {
  }

  lemma OverNeighbour(m: Memory, p: Block, b: Block, next: int, u: Block)
    requires p.size >= 16 && p.End() <= b.addr && 8 <= b.size < 16 && u.addr == b.End() && Holds(m, u.addr, u.size)
    requires 0 <= u.size < SPACE
    ensures Holds(LinkWrites(m, p, b, next), u.addr, u.size) <==>
        u.size % Pow256(16 - b.size) == b.size / Pow256(b.size - 8)
  {
    hide Write, Wipe, Holds, Pow256;
    var s := b.size;
    var w1 := Wipe(m, b.addr + 8, s - 8);
    var w2 := Write(w1, b.addr, next);
    var w3 := Write(w2, b.addr + 8, s);
    WipeKeeps(m, b.addr + 8, s - 8, u.addr, u.size);
    WriteKeeps(w1, b.addr, next, u.addr, u.size);
    assert b.addr + 8 == u.addr - (s - 8);
    OverlaidTail(w2, u.addr, u.size, s - 8, s, u.size);
    DivBelow(s, s - 8);
    WriteIff(w3, p.addr, b.addr, u.addr, u.size);
  }

  /** A small block linked in before a free one, which it then swallows. */
  lemma SmallBeforeFree(m: Memory, bs: seq<Block>, q: nat, i: nat, lo: int, hi: int)
    requires Freeing(m, bs, q, i, lo, hi) && !LeftFree(bs, i) && bs[i].size < 16 && RightFree(bs, i)
    ensures Stored(FreeWrites(m, bs, q, i), Release(bs, i), 0) <==> FreeFits(bs, i)
  {
    hide *;
    SmallPieces(m, bs, q, i, lo, hi);
    var p, b, c, after := bs[q], bs[i], bs[i + 1], bs[i + 2..];
    var next, n2 := NextFree(bs[i + 1..], 0), NextFree(after, 0);
    var f, joined := b.(used := false), b.(used := false).(size := b.size + c.size);
    var w := SwallowWrites(LinkWrites(m, p, b, next), f, c);
    SmallFrames(m, p, b, c, next, lo, hi);
    StoredFrame(m, w, after, 0, c.End(), hi);
    LinkAssemble(m, w, bs, q, i, joined, after, lo, hi);
    ReleaseJoined(bs, i);
    SmallSwallow(m, p, b, c, next, n2);
    SmallMeans(m, bs, q, i);
  }

  lemma SmallPieces(m: Memory, bs: seq<Block>, q: nat, i: nat, lo: int, hi: int)
    requires Freeing(m, bs, q, i, lo, hi) && !LeftFree(bs, i) && bs[i].size < 16 && RightFree(bs, i)
    ensures q < i && i + 1 < |bs| && !bs[q].used && bs[i].used && AllUsed(bs[q + 1..i])
    ensures var p, b, c := bs[q], bs[i], bs[i + 1];
            && p.size >= 16 && p.End() <= b.addr && 8 <= b.size && b.End() == c.addr && c.size >= 16 && !c.used
            && b.size + c.size < SPACE && 0 <= NextFree(bs[i + 2..], 0) < SPACE
            && Header(m, p, NextFree(bs[i + 1..], 0)) && Header(m, c, NextFree(bs[i + 2..], 0))
            && Stored(m, bs[i + 2..], 0) && Tiles(bs[i + 2..], c.End(), hi)
    ensures Tiles(bs, lo, hi) && Stored(m, bs, 0)
  {
    hide Tiles, Stored, AllUsed, NextFree, Header;
    LinkPieces(m, bs, q, i, lo, hi);
    PairTiles(bs, i, lo, hi);
    BlockInside(bs, i + 1, lo, hi);
    BlockInside(bs, i, lo, hi);
    StoredAround(m, bs, i + 1, 0);
    TilesSplit(bs, i + 1, lo, hi);
    assert bs[i + 1..][1..] == bs[i + 2..];
    AfterFirst(bs[i + 1..], bs[i + 1].addr, hi);
  }

  lemma SmallMeans(m: Memory, bs: seq<Block>, q: nat, i: nat)
    requires q < |bs| && i < |bs| && !LeftFree(bs, i) && 8 <= bs[i].size < 16 && RightFree(bs, i)
    ensures FreeWrites(m, bs, q, i)
            == SwallowWrites(LinkWrites(m, bs[q], bs[i], NextFree(bs[i + 1..], 0)), bs[i].(used := false), bs[i + 1])
    ensures FreeFits(bs, i) <==>
              bs[i].size + bs[i + 1].size < Pow256(bs[i].size - 8)
                  && NextFree(bs[i + 2..], 0) % Pow256(16 - bs[i].size) == 0
  {
  }

  lemma ReleaseJoined(bs: seq<Block>, i: nat)
    requires i < |bs| && !LeftFree(bs, i) && RightFree(bs, i)
    ensures Release(bs, i) == bs[..i] + [bs[i].(used := false).(size := bs[i].size + bs[i + 1].size)] + bs[i + 2..]
  {
  }

  lemma SmallFrames(m: Memory, p: Block, b: Block, c: Block, next: int, lo: int, hi: int)
    requires !p.used && b.used && p.size >= 16 && p.End() <= b.addr && 8 <= b.size < 16 && c.addr == b.End()
    requires c.size >= 16
    requires Header(m, p, next)
    ensures var w := SwallowWrites(LinkWrites(m, p, b, next), b.(used := false), c);
            && Same(m, w, lo, p.addr) && Same(m, w, p.End(), b.addr) && Same(m, w, c.End(), hi)
            && Header(w, p, b.addr)
  {
    hide LinkWrites, SwallowWrites, Holds;
    var f, w0 := b.(used := false), LinkWrites(m, p, b, next);
    var w := SwallowWrites(w0, f, c);
    LinkFrame(m, p, b, next, lo, p.addr);
    LinkFrame(m, p, b, next, p.End(), b.addr);
    LinkFrame(m, p, b, next, c.End(), hi);
    SwallowFrame(w0, f, c, lo, p.addr);
    SwallowFrame(w0, f, c, p.End(), b.addr);
    SwallowFrame(w0, f, c, c.End(), hi);
    SwallowFrame(w0, f, c, p.addr, p.addr + 16);
    LinkHeaders(m, p, b, next);
    SameHolds(w0, w, p.addr, p.addr + 16, p.addr, b.addr);
    SameHolds(w0, w, p.addr, p.addr + 16, p.addr + 8, p.size);
  }

  /**
   * The header of the joined block: its link is read from overwritten bytes, and clearing c's header clears
   * bytes of its size.
   */
  lemma SmallSwallow(m: Memory, p: Block, b: Block, c: Block, next: int, n2: int)
    requires p.size >= 16 && p.End() <= b.addr && 8 <= b.size < 16 && c.addr == b.End() && c.size >= 16
    requires !c.used && Header(m, c, n2)
    requires 0 <= n2 < SPACE && b.size + c.size < SPACE
    ensures var f, size := b.(used := false), b.size + c.size;
            Header(SwallowWrites(LinkWrites(m, p, b, next), f, c), f.(size := size), n2) <==>
            size < Pow256(b.size - 8) && n2 % Pow256(16 - b.size) == 0
  {
    hide Write, LinkWrites, Read, Holds, Pow256;
    var a, s, t := b.addr, b.size, b.size + c.size;
    var w0 := LinkWrites(m, p, b, next);
    var w1 := Write(w0, a + 8, t);
    var low := t / Pow256(s - 8) % Pow256(16 - s);
    var link := Replaced(n2, 16 - s, low);
    DivBelow(t, s - 8);
    ReplacedIs(n2, 16 - s, low);
    LinkRead(m, p, b, next, c.addr, n2, t, link);
    var w2 := Write(w1, a, link);
    var w3 := Write(w2, c.addr, 0);
    WriteHolds(w0, a + 8, t);
    WriteKeeps(w1, a, link, a + 8, t);
    OverlaidHead(w2, a + 8, t, s - 8, 0);
    WriteIff(w3, c.addr + 8, 0, a + 8, t);
    ZeroFits(t, s);
    WriteHolds(w1, a, link);
    WriteIff(w2, c.addr, 0, a, n2);
    WriteIff(w3, c.addr + 8, 0, a, n2);
    if Holds(w2, a, n2) { HoldsUnique(w2, a, n2, link); }
  }

  lemma ZeroFits(t: int, s: nat)
    requires 8 <= s < 16 && 0 <= t < SPACE
    ensures 0 % Pow256(16 - s) == 0 && (t / Pow256(s - 8) == 0 <==> t < Pow256(s - 8))
  {
    var p := Pow256(s - 8);
    if t < p { DivUnique(t, p, 0, t); } else { Quotient1(t, p); }
    DivUnique(0, Pow256(16 - s), 0, 0);
  }

  /** What the link of c reads as once the grown size lies over its low bytes. */
  lemma LinkRead(m: Memory, p: Block, b: Block, next: int, ca: int, n2: int, t: int, link: int)
    requires p.size >= 16 && p.End() <= b.addr && 8 <= b.size < 16 && ca == b.End() && Holds(m, ca, n2)
    requires 0 <= n2 < SPACE && 0 <= link < SPACE
    requires link % Pow256(16 - b.size) == t / Pow256(b.size - 8) % Pow256(16 - b.size)
    requires link / Pow256(16 - b.size) == n2 / Pow256(16 - b.size)
    ensures Read(Write(LinkWrites(m, p, b, next), b.addr + 8, t), ca) == link
  {
    hide LinkWrites, Read, Pow256, Byte;
    var s, w0 := b.size, LinkWrites(m, p, b, next);
    var w1, over := Write(w0, b.addr + 8, t), Write(m, b.addr + 8, t);
    assert b.addr + 8 == ca - (s - 8);
    OverlaidTail(m, ca, n2, s - 8, t, link);
    LinkFrame(m, p, b, next, b.addr + 16, ca + 8);
    forall k | ca <= k < ca + 8 ensures w1(k) == Byte(link, k - ca) {
      assert over(k) == Byte(link, k - ca);
      assert k >= b.addr + 16 ==> w0(k) == m(k);
    }
    ReadHolds(w1, ca, link);
  }

  /** A small block at the end of the heap writes behind the heap, and nothing else does. */
  lemma FreeOutside(m: Memory, bs: seq<Block>, q: nat, i: nat, lo: int, hi: int, k: int)
    requires Freeing(m, bs, q, i, lo, hi) && (k < lo || hi <= k)
    ensures var b := bs[i];
            FreeWrites(m, bs, q, i)(k) ==
            if i + 1 == |bs| && !LeftFree(bs, i) && hi <= k < b.addr + 16 then Byte(b.size, k - b.addr - 8) else m(k)
  {
    hide Tiles, Stored, NextFree, Byte, Read;
    var p, b := bs[q], bs[i];
    TilesSplit(bs, q, lo, hi);
    BlockInside(bs, q, lo, hi);
    BlockInside(bs, i, lo, hi);
    LinkPieces(m, bs, q, i, lo, hi);
    if i + 1 < |bs| {
      Neighbours(bs, i, lo, hi);
    } else {
      TilesSplit(bs, i, lo, hi);
      assert bs[i..] == [b];
      LastEnds(b, b.addr, hi);
    }
    if LeftFree(bs, i) { LastIsLeft(bs, q, i); }
  }

  lemma LastEnds(b: Block, lo: int, hi: int)
    requires Tiles([b], lo, hi)
    ensures b.End() == hi
  {
    assert [b][1..] == [];
  }
}
