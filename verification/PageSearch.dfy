// The search for a range of physical pages over the bitmaps of all usable regions.

module PageSearch {
  import opened Bits
  import opened Marking

  /** struct memory: a usable region and the bitmap of its used pages. */
  datatype Region = Region(ptr: int, size: nat, bits: seq<bv8>)

  datatype Search = Missing | At(region: nat, start: nat)

  /** The state of the search inside one region: `done` with the page where the range starts. */
  datatype Scan = Scan(done: bool, size: nat, start: nat)

  /** No page of [lo, hi) is used, and all of them are in the bitmap. */
  ghost predicate Clear(bits: seq<bv8>, lo: nat, hi: int) {
    hi <= 8 * |bits| && forall p :: lo <= p < hi ==> !UsedPage(bits, p)
  }

  ghost predicate UsedPage(bits: seq<bv8>, p: nat) { p / 8 < |bits| && BitOf(bits, p) }

  // ----- alloc_physical_page_range -----

  /** Pages k, k + 1, ... of a region: a used page is recorded itself; a full byte leaves the count alone. */
  function Walk(bits: seq<bv8>, length: nat, k: nat, size: nat, start: nat): Scan
    decreases 8 * |bits| - k
  {
    if k >= 8 * |bits| then Scan(false, size, start)
    else if bits[k / 8] == 0xFF then Walk(bits, length, k + 1, size, k)
    else if Bit(bits[k / 8], k % 8) then Walk(bits, length, k + 1, 0, k)
    else if size + 1 >= length then Scan(true, size + 1, start)
    else Walk(bits, length, k + 1, size + 1, start)
  }

  /** Region after region, the count and the recorded page carried over. */
  function Find(rs: seq<Region>, length: nat, m: nat, size: nat, start: nat): Search
    decreases |rs| - m
  {
    if m >= |rs| then Missing
    else
      var w := Walk(rs[m].bits, length, 0, size, start);
      if w.done then At(m, w.start) else Find(rs, length, m + 1, w.size, w.start)
  }

  lemma WalkStep(bits: seq<bv8>, length: nat, k: nat, size: nat, start: nat)
    ensures Walk(bits, length, k, size, start) ==
              if k >= 8 * |bits| then Scan(false, size, start)
              else if bits[k / 8] == 0xFF then Walk(bits, length, k + 1, size, k)
              else if Bit(bits[k / 8], k % 8) then Walk(bits, length, k + 1, 0, k)
              else if size + 1 >= length then Scan(true, size + 1, start)
              else Walk(bits, length, k + 1, size + 1, start)
  {
  }

  /** One page of the walk: a used page is recorded, a free one counted. */
  lemma PageStep(bits: seq<bv8>, length: nat, k: nat, size: nat, start: nat)
    requires k < 8 * |bits|
    ensures UsedPage(bits, k) ==>
              Walk(bits, length, k, size, start)
              == Walk(bits, length, k + 1, if bits[k / 8] == 0xFF then size else 0, k)
    ensures !UsedPage(bits, k) ==>
              Walk(bits, length, k, size, start)
              == if size + 1 >= length then Scan(true, size + 1, start) else Walk(bits, length, k + 1, size + 1, start)
  {
    if bits[k / 8] == 0xFF { AllBits(bits[k / 8], k % 8); }
  }

  lemma WalkPast(bits: seq<bv8>, length: nat, k: nat, size: nat, start: nat)
    requires k >= 8 * |bits|
    ensures !Walk(bits, length, k, size, start).done
  {
  }

  lemma WalkEnd(bits: seq<bv8>, length: nat, size: nat, start: nat)
    ensures Walk(bits, length, 8 * |bits|, size, start) == Scan(false, size, start)
  {
  }

  lemma FindStep(rs: seq<Region>, length: nat, m: nat, size: nat, start: nat)
    ensures Find(rs, length, m, size, start) ==
              if m >= |rs| then Missing
              else
                var w := Walk(rs[m].bits, length, 0, size, start);
                if w.done then At(m, w.start) else Find(rs, length, m + 1, w.size, w.start)
  {
  }

  // ----- the same in terms of the bitmaps -----

  /** A position of the search: a page of region m, or the end of it. */
  ghost predicate Position(rs: seq<Region>, m: nat, k: nat) {
    if m < |rs| then k <= 8 * |rs[m].bits| else m == |rs| && k == 0
  }

  /** The free pages before a position, back to the last used page whose byte is not full. */
  ghost function CountBack(rs: seq<Region>, m: nat, k: nat): nat
    requires Position(rs, m, k)
    decreases m, k
  {
    if k == 0 then if m == 0 then 0 else CountBack(rs, m - 1, 8 * |rs[m - 1].bits|)
    else if !UsedPage(rs[m].bits, k - 1) then 1 + CountBack(rs, m, k - 1)
    else if rs[m].bits[(k - 1) / 8] == 0xFF then CountBack(rs, m, k - 1)
    else 0
  }

  /** The last used page before a position, counted in its own region; 0 if there is none. */
  ghost function LastUsed(rs: seq<Region>, m: nat, k: nat): nat
    requires Position(rs, m, k)
    decreases m, k
  {
    if k == 0 then if m == 0 then 0 else LastUsed(rs, m - 1, 8 * |rs[m - 1].bits|)
    else if UsedPage(rs[m].bits, k - 1) then k - 1
    else LastUsed(rs, m, k - 1)
  }

  /** Page k of region m is free, and with it `length` pages have been counted. */
  ghost predicate Enough(rs: seq<Region>, length: nat, m: nat, k: nat) {
    m < |rs| && k < 8 * |rs[m].bits| && !UsedPage(rs[m].bits, k) && CountBack(rs, m, k) + 1 >= length
  }

  /** No page before the position is enough. */
  ghost predicate NoneBefore(rs: seq<Region>, length: nat, m: nat, k: nat) {
    forall i, j :: 0 <= i && 0 <= j && (i < m || (i == m && j < k)) ==> !Enough(rs, length, i, j)
  }

  ghost predicate FirstEnough(rs: seq<Region>, length: nat, m: nat, k: nat) {
    Enough(rs, length, m, k) && NoneBefore(rs, length, m, k)
  }

  lemma CountStep(rs: seq<Region>, m: nat, k: nat)
    requires m < |rs| && k < 8 * |rs[m].bits|
    ensures CountBack(rs, m, k + 1) ==
            if !UsedPage(rs[m].bits, k) then 1 + CountBack(rs, m, k)
            else if rs[m].bits[k / 8] == 0xFF then CountBack(rs, m, k)
            else 0
    ensures LastUsed(rs, m, k + 1) == if UsedPage(rs[m].bits, k) then k else LastUsed(rs, m, k)
  {
  }

  lemma NoneBehind(rs: seq<Region>, length: nat, m: nat, k: nat)
    requires NoneBefore(rs, length, m, k)
    ensures !Enough(rs, length, m, k) ==> NoneBefore(rs, length, m, k + 1)
    ensures m < |rs| && k == 8 * |rs[m].bits| ==> NoneBefore(rs, length, m + 1, 0)
  {
    hide CountBack;
  }

  /** The walk through region m keeps count and recorded page as stated, and ends at the first page that is enough. */
  lemma {:induction false} WalkCounts(rs: seq<Region>, length: nat, m: nat, k: nat) returns (e: nat)
    requires m < |rs| && k <= 8 * |rs[m].bits| && NoneBefore(rs, length, m, k)
    ensures var w, end := Walk(rs[m].bits, length, k, CountBack(rs, m, k), LastUsed(rs, m, k)), 8 * |rs[m].bits|;
            if w.done then FirstEnough(rs, length, m, e) && w.start == LastUsed(rs, m, e)
            else NoneBefore(rs, length, m + 1, 0) && w == Scan(false, CountBack(rs, m, end), LastUsed(rs, m, end))
    decreases 8 * |rs[m].bits| - k
  {
    var bits := rs[m].bits;
    hide Walk, UsedPage, CountBack, LastUsed, NoneBefore;
    NoneBehind(rs, length, m, k);
    if k == 8 * |bits| {
      e := k;
      WalkEnd(bits, length, CountBack(rs, m, k), LastUsed(rs, m, k));
    } else {
      PageStep(bits, length, k, CountBack(rs, m, k), LastUsed(rs, m, k));
      CountStep(rs, m, k);
      if Enough(rs, length, m, k) {
        e := k;
      } else {
        e := WalkCounts(rs, length, m, k + 1);
      }
    }
  }

  lemma {:induction false} FindCounts(rs: seq<Region>, length: nat, m: nat) returns (k: nat)
    requires m <= |rs| && NoneBefore(rs, length, m, 0)
    ensures match Find(rs, length, m, CountBack(rs, m, 0), LastUsed(rs, m, 0))
            case Missing => NoneBefore(rs, length, |rs|, 0)
            case At(i, start) => FirstEnough(rs, length, i, k) && start == LastUsed(rs, i, k)
    decreases |rs| - m
  {
    hide FirstEnough, NoneBefore, Walk;
    k := 0;
    if m < |rs| {
      k := WalkCounts(rs, length, m, 0);
      if !Walk(rs[m].bits, length, 0, CountBack(rs, m, 0), LastUsed(rs, m, 0)).done {
        k := FindCounts(rs, length, m + 1);
      }
    }
  }

  /**
   * The search ends at the first page that is enough and returns the last used page before it; without one it
   * fails.
   */
  lemma FindExact(rs: seq<Region>, length: nat)
    ensures Find(rs, length, 0, 0, 0) == Missing <==> forall m, k :: !Enough(rs, length, m, k)
    ensures forall m, k :: FirstEnough(rs, length, m, k) ==> Find(rs, length, 0, 0, 0) == At(m, LastUsed(rs, m, k))
  {
    var j := FindCounts(rs, length, 0);
    hide CountBack, LastUsed, Find;
    forall m, k | FirstEnough(rs, length, m, k) ensures Find(rs, length, 0, 0, 0) == At(m, LastUsed(rs, m, k)) {
      var r := Find(rs, length, 0, 0, 0);
      if r.At? {
        FirstIsFirst(rs, length, m, k, r.region, j);
      }
    }
  }

  lemma FirstIsFirst(rs: seq<Region>, length: nat, m: nat, k: nat, i: nat, j: nat)
    requires FirstEnough(rs, length, m, k) && FirstEnough(rs, length, i, j)
    ensures m == i && k == j
  {
  }

  /**
   * Inside a region entered with c pages counted and page s recorded, the range found is free
   * exactly when the rest to be counted is free at the start of the region, and the range at s is.
   */
  lemma {:induction false} WalkExact(bits: seq<bv8>, length: nat, c: nat, s: nat, k: nat, size: nat, start: nat)
    requires 0 < length && c < length && size < length
    requires || (start == s && size == c + k && forall p :: 0 <= p < k ==> !UsedPage(bits, p))
             || (UsedPage(bits, start) && exists u :: c <= c + u < length && UsedPage(bits, u))
    ensures var w := Walk(bits, length, k, size, start);
            w.done ==> (Clear(bits, w.start, w.start + length) <==>
                Clear(bits, 0, length - c) && Clear(bits, s, s + length))
    decreases 8 * |bits| - k
  {
    hide Walk, UsedPage;
    if k >= 8 * |bits| {
      WalkPast(bits, length, k, size, start);
    } else {
      PageStep(bits, length, k, size, start);
      if UsedPage(bits, k) {
        if start == s && size == c + k && forall p :: 0 <= p < k ==> !UsedPage(bits, p) {
          assert c <= c + k < length && UsedPage(bits, k);
        }
        WalkExact(bits, length, c, s, k + 1, if bits[k / 8] == 0xFF then size else 0, k);
      } else if size + 1 < length {
        WalkExact(bits, length, c, s, k + 1, size + 1, start);
      }
    }
  }

  /** Before the first page that is enough the count stays below the length. */
  lemma {:induction false} CountShort(rs: seq<Region>, length: nat, m: nat, k: nat)
    requires 0 < length && Position(rs, m, k) && NoneBefore(rs, length, m, k)
    ensures CountBack(rs, m, k) < length
    decreases m, k
  {
    if k > 0 {
      CountShort(rs, length, m, k - 1);
      assert !Enough(rs, length, m, k - 1);
    } else if m > 0 {
      CountShort(rs, length, m - 1, 8 * |rs[m - 1].bits|);
    }
  }

  /**
   * The range returned is free and inside its region exactly when what was left to count at the
   * start of that region is free there, and so is the range at the page recorded before it.
   */
  lemma RangeExact(rs: seq<Region>, length: nat, m: nat, k: nat)
    requires 0 < length && FirstEnough(rs, length, m, k)
    ensures Find(rs, length, 0, 0, 0) == At(m, LastUsed(rs, m, k))
    ensures var bits, start, before := rs[m].bits, LastUsed(rs, m, k), LastUsed(rs, m, 0);
            Clear(bits, start, start + length) <==>
            Clear(bits, 0, length - CountBack(rs, m, 0)) && Clear(bits, before, before + length)
  {
    hide Walk, UsedPage, Clear, CountBack, LastUsed, Find, NoneBefore;
    FindExact(rs, length);
    NoneAtStart(rs, length, m, k);
    CountShort(rs, length, m, 0);
    var e := WalkCounts(rs, length, m, 0);
    StopsThere(rs, length, m, k, e);
    WalkExact(rs[m].bits, length, CountBack(rs, m, 0), LastUsed(rs, m, 0), 0, CountBack(rs, m, 0), LastUsed(rs, m, 0));
  }

  lemma NoneAtStart(rs: seq<Region>, length: nat, m: nat, k: nat)
    requires NoneBefore(rs, length, m, k)
    ensures NoneBefore(rs, length, m, 0)
  {
  }

  lemma StopsThere(rs: seq<Region>, length: nat, m: nat, k: nat, e: nat)
    requires FirstEnough(rs, length, m, k)
    ensures !NoneBefore(rs, length, m + 1, 0)
    ensures FirstEnough(rs, length, m, e) ==> e == k
  {
    hide CountBack;
    assert Enough(rs, length, m, k);
    if FirstEnough(rs, length, m, e) { FirstIsFirst(rs, length, m, k, m, e); }
  }

  /** In the first region: exactly when its first `length` pages are free, and then those are returned. */
  lemma FirstRangeExact(rs: seq<Region>, length: nat)
    requires 0 < length && |rs| > 0
    ensures var r := Find(rs, length, 0, 0, 0);
            r.At? && r.region == 0 ==> (Clear(rs[0].bits, r.start, r.start + length) <==> Clear(rs[0].bits, 0, length))
    ensures Clear(rs[0].bits, 0, length) ==> Find(rs, length, 0, 0, 0) == At(0, 0)
  {
    var r := Find(rs, length, 0, 0, 0);
    NothingBefore(rs, length);
    var k := FindCounts(rs, length, 0);
    hide Walk, UsedPage, Clear, CountBack, LastUsed, NoneBefore, FirstEnough;
    if r.At? && r.region == 0 {
      RangeExact(rs, length, 0, k);
    }
    if Clear(rs[0].bits, 0, length) {
      WalkFree(rs[0].bits, length, 0, 0, 0);
    }
  }

  lemma NothingBefore(rs: seq<Region>, length: nat)
    requires |rs| > 0
    ensures NoneBefore(rs, length, 0, 0) && CountBack(rs, 0, 0) == 0 && LastUsed(rs, 0, 0) == 0
  {
  }

  /** The pages of a free run are all counted. */
  lemma {:induction false} CountClear(rs: seq<Region>, m: nat, lo: nat, n: nat)
    requires m < |rs| && Clear(rs[m].bits, lo, lo + n)
    ensures CountBack(rs, m, lo + n) >= n
    decreases n
  {
    if n > 0 {
      assert !UsedPage(rs[m].bits, lo + n - 1);
      CountClear(rs, m, lo, n - 1);
    }
  }

  /** A free run long enough is never missed. */
  lemma NeverMissed(rs: seq<Region>, length: nat, i: nat, lo: nat)
    requires 0 < length && i < |rs| && Clear(rs[i].bits, lo, lo + length)
    ensures Find(rs, length, 0, 0, 0).At?
  {
    var k := lo + length - 1;
    CountClear(rs, i, lo, length - 1);
    assert !UsedPage(rs[i].bits, k);
    assert Enough(rs, length, i, k);
    FindExact(rs, length);
  }

  /** Over free pages everything is counted and nothing recorded, from one region to the next. */
  lemma {:induction false} CountFree(rs: seq<Region>, m: nat, k: nat)
    requires m < |rs| && m <= 1 && k <= 8 * |rs[m].bits| && Clear(rs[m].bits, 0, k)
    requires m == 1 ==> Clear(rs[0].bits, 0, 8 * |rs[0].bits|)
    ensures CountBack(rs, m, k) == k + (if m == 1 then 8 * |rs[0].bits| else 0) && LastUsed(rs, m, k) == 0
    decreases m, k
  {
    if k > 0 {
      CountFree(rs, m, k - 1);
    } else if m == 1 {
      CountFree(rs, 0, 8 * |rs[0].bits|);
    }
  }

  /**
   * A range larger than a free first region is counted on into the second, but starts at the first
   * page of that one: it lies inside exactly when the second region alone has room.
   */
  lemma LargeRangeExact(rs: seq<Region>, length: nat)
    requires |rs| >= 2 && Clear(rs[0].bits, 0, 8 * |rs[0].bits|) && Clear(rs[1].bits, 0, 8 * |rs[1].bits|)
    requires 8 * |rs[0].bits| < length <= 8 * |rs[0].bits| + 8 * |rs[1].bits|
    ensures Find(rs, length, 0, 0, 0) == At(1, 0)
    ensures Clear(rs[1].bits, 0, length) <==> length <= 8 * |rs[1].bits|
  {
    var k := length - 8 * |rs[0].bits| - 1;
    CountFree(rs, 1, k);
    forall j: nat | j < 8 * |rs[0].bits| ensures !Enough(rs, length, 0, j) { CountFree(rs, 0, j); }
    forall j: nat | j < k ensures !Enough(rs, length, 1, j) { CountFree(rs, 1, j); }
    assert FirstEnough(rs, length, 1, k);
    FindExact(rs, length);
  }

  // ----- two allocations in a row -----

  lemma {:induction false} WalkUsed(bits: seq<bv8>, length: nat, k: nat, n: nat, start: nat)
    requires k < n <= 8 * |bits| && forall p :: k <= p < n ==> UsedPage(bits, p)
    ensures Walk(bits, length, k, 0, start) == Walk(bits, length, n, 0, n - 1)
    decreases n - k
  {
    assert UsedPage(bits, k);
    if k + 1 < n { WalkUsed(bits, length, k + 1, n, k); }
  }

  lemma {:induction false} WalkFree(bits: seq<bv8>, length: nat, k: nat, size: nat, start: nat)
    requires size < length && Clear(bits, k, k + (length - size))
    ensures Walk(bits, length, k, size, start) == Scan(true, length, start)
    decreases length - size
  {
    assert !UsedPage(bits, k);
    if bits[k / 8] == 0xFF {
      AllBits(bits[k / 8], k % 8);
    } else if size + 1 < length {
      WalkFree(bits, length, k + 1, size + 1, start);
    }
  }

  /** The bits set by markUsedArea, pass by pass. */
  function MarkedBits(bits: seq<bv8>, arr: nat, offset: nat, n: nat): (r: seq<bv8>)
    requires n == 0 || arr + (n - 1) / 8 < |bits|
    ensures |r| == |bits|
  {
    if n == 0 then bits else SetIn(MarkedBits(bits, arr, offset, n - 1), MarkedAt(arr, offset, n - 1))
  }

  lemma NoneMarked(bits: seq<bv8>, arr: nat, offset: nat)
    ensures MarkedBits(bits, arr, offset, 0) == bits
  {
  }

  lemma MarkStep(bits: seq<bv8>, arr: nat, offset: nat, n: nat)
    requires arr + n / 8 < |bits|
    ensures n == 0 || arr + (n - 1) / 8 < |bits|
    ensures var m, b := MarkedBits(bits, arr, offset, n), arr + n / 8;
            MarkedBits(bits, arr, offset, n + 1) == m[b := m[b] | ((1 as bv8) << ((arr + n + offset) % 8))]
  {
    var p := MarkedAt(arr, offset, n);
    assert p / 8 == arr + n / 8 && p % 8 == (arr + n + offset) % 8;
  }

  lemma {:induction false} MarkedBitsAre(bits: seq<bv8>, arr: nat, offset: nat, n: nat, p: nat)
    requires (n == 0 || arr + (n - 1) / 8 < |bits|) && p / 8 < |bits|
    ensures BitOf(MarkedBits(bits, arr, offset, n), p) <==> BitOf(bits, p) || Marked(arr, offset, n, p)
  {
    if n > 0 {
      MarkedBitsAre(bits, arr, offset, n - 1, p);
      SetInBits(MarkedBits(bits, arr, offset, n - 1), MarkedAt(arr, offset, n - 1), p);
      assert Marked(arr, offset, n - 1, p) ==> Marked(arr, offset, n, p);
      if i :| 0 <= i < n && MarkedAt(arr, offset, i) == p {
        if i < n - 1 { assert Marked(arr, offset, n - 1, p); }
      }
    }
  }

  /**
   * Two ranges allocated one after the other from a free start always share a page: the second
   * starts at the last page of the first.
   */
  lemma SecondOverlaps(rs: seq<Region>, first: nat, second: nat)
    requires |rs| > 0 && 0 < first && 0 < second && Clear(rs[0].bits, 0, first + second)
    ensures Find(rs, first, 0, 0, 0) == At(0, 0)
    ensures var after := rs[0 := rs[0].(bits := MarkedBits(rs[0].bits, 0, 0, first))];
            Find(after, second, 0, 0, 0) == At(0, first - 1)
  {
    var bits := rs[0].bits;
    assert Clear(bits, 0, 0 + (first - 0));
    WalkFree(bits, first, 0, 0, 0);
    var used := MarkedBits(bits, 0, 0, first);
    forall p: nat | p < first + second ensures UsedPage(used, p) <==> p < first {
      assert !UsedPage(bits, p);
      MarkedBitsAre(bits, 0, 0, first, p);
      MarkingExact(0, 0, first);
      assert Marked(0, 0, first, p) <==> Asked(0, 0, first, p);
    }
    WalkUsed(used, second, 0, first, 0);
    WalkFree(used, second, first, 0, first - 1);
  }
}
