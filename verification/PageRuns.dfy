// Runs of physical page allocations: which of them hand out no page twice.

module PageRuns {
  import opened Bits
  import opened Marking
  import opened PageSearch
  import opened PhysicalPages

  datatype Call = Single | Range(length: nat)

  /** The call hands out page p of region m. */
  ghost predicate Gives(s: Frames, c: Call, m: nat, p: nat) {
    match c
    case Single => m == s.firstFreeMem && p == s.firstFreePage
    case Range(length) =>
      var r := Find(s.mem, length, 0, 0, 0);
      r.At? && r.region == m && r.start <= p < r.start + length
  }

  ghost predicate Share(s: Frames, c: Call, t: Frames, d: Call) {
    exists m, p :: Gives(s, c, m, p) && Gives(t, d, m, p)
  }

  /** The state after a call; it stays when the call finds nothing or leaves the bitmaps. */
  function After(s: Frames, c: Call): Frames {
    match c
    case Single => if HasCursor(s) then WithPage(s) else s
    case Range(length) =>
      var r := Find(s.mem, length, 0, 0, 0);
      if r.At? && r.region < |s.mem| && (length == 0 || r.start / 8 + (length - 1) / 8 < |s.mem[r.region].bits|)
      then WithRange(s, r.region, r.start / 8, r.start % 8, length)
      else s
  }

  function StateAt(s: Frames, calls: seq<Call>, i: nat): Frames
    requires i <= |calls|
  {
    if i == 0 then s else After(StateAt(s, calls, i - 1), calls[i - 1])
  }

  /** The pages a run asks for. */
  function Pages(calls: seq<Call>): nat {
    if calls == [] then 0
    else Pages(calls[..|calls| - 1]) + match calls[|calls| - 1] case Single => 1 case Range(length) => length
  }

  predicate Sensible(c: Call) { c.Range? ==> c.length > 0 }

  ghost predicate NothingTwice(s: Frames, calls: seq<Call>) {
    forall i, j :: 0 <= i < j < |calls| ==> !Share(StateAt(s, calls, i), calls[i], StateAt(s, calls, j), calls[j])
  }

  /** The first n pages of the first region are used and the next `free` ones are not. */
  ghost predicate UsedUpTo(s: Frames, n: nat, free: nat) {
    && |s.mem| > 0 && n + free <= 8 * |s.mem[0].bits|
    && (forall p :: 0 <= p < n ==> UsedPage(s.mem[0].bits, p))
    && (forall p :: n <= p < n + free ==> !UsedPage(s.mem[0].bits, p))
  }

  /**
   * In every state: the single page after a range is a page of that range exactly when the cursor stood behind the
   * range's first page, or was reset to the first page of all and the range starts there.  The reset comes when
   * the cursor's index is not below the region's size in bytes, with which it is compared.
   */
  lemma SingleSharesExact(s: Frames, length: nat)
    requires 0 < length && Find(s.mem, length, 0, 0, 0).At?
    requires var r := Find(s.mem, length, 0, 0, 0);
             r.region < |s.mem| && r.start / 8 + (length - 1) / 8 < |s.mem[r.region].bits|
    ensures var r := Find(s.mem, length, 0, 0, 0);
            var moved := if r.start == s.firstFreePage then s.firstFreePage + length else s.firstFreePage;
            Share(s, Range(length), After(s, Range(length)), Single) <==>
            if r.region != s.firstFreeMem then false
            else if moved < s.mem[r.region].size then r.start < s.firstFreePage < r.start + length
            else r.region == r.start == 0
  {
    hide Find;
    var r, t := Find(s.mem, length, 0, 0, 0), After(s, Range(length));
    assert Share(s, Range(length), t, Single) <==> Gives(s, Range(length), t.firstFreeMem, t.firstFreePage) by {
      assert Gives(t, Single, t.firstFreeMem, t.firstFreePage);
    }
  }

  /** With a used start the range begins at its last page, which was handed out already. */
  lemma RangeBehindUsed(s: Frames, n: nat, length: nat)
    requires 0 < n && 0 < length && UsedUpTo(s, n, length)
    ensures Find(s.mem, length, 0, 0, 0) == At(0, n - 1)
  {
    WalkUsed(s.mem[0].bits, length, 0, n, 0);
    WalkFree(s.mem[0].bits, length, n, 0, n - 1);
  }

  lemma FirstSingle(s: Frames, free: nat)
    requires Fresh(s, free + 1)
    ensures HasCursor(s)
    ensures var t := After(s, Single);
            UsedUpTo(t, 1, free) && t.firstFreeMem == 0 && t.firstFreePage == 0
  {
    var bits := s.mem[0].bits;
    forall p: nat | p < free + 1 ensures UsedPage(SetIn(bits, 0), p) <==> p == 0 {
      assert !UsedPage(bits, p);
      SetInBits(bits, 0, p);
    }
  }

  lemma FirstRange(s: Frames, length: nat, free: nat)
    requires Fresh(s, length + free) && 0 < length
    ensures Find(s.mem, length, 0, 0, 0) == At(0, 0)
    ensures var t := After(s, Range(length));
            UsedUpTo(t, length, free) && t.firstFreeMem == 0 && (free > 0 ==> t.firstFreePage == length && HasCursor(t))
  {
    assert Clear(s.mem[0].bits, 0, length);
    FreshRange(s, length);
    var bits, after := s.mem[0].bits, MarkedBits(s.mem[0].bits, 0, 0, length);
    forall p: nat | p < length + free ensures UsedPage(after, p) <==> p < length { assert !UsedPage(bits, p); }
  }

  /** After a range and a single page both are used, and the cursor is still at the page. */
  lemma SingleThen(t: Frames, n: nat, free: nat)
    requires UsedUpTo(t, n, free + 1) && t.firstFreeMem == 0 && t.firstFreePage == n && HasCursor(t)
    ensures var u := After(t, Single);
            UsedUpTo(u, n + 1, free) && u.firstFreeMem == 0 && u.firstFreePage == n
  {
    var bits := t.mem[0].bits;
    forall p: nat | p < n + free + 1 ensures UsedPage(SetIn(bits, n), p) <==> p < n + 1 {
      assert UsedPage(bits, p) <==> p < n;
      SetInBits(bits, n, p);
    }
  }

  /** Two calls from a free start share no page exactly when a range comes first and a single page second. */
  lemma PairExact(s: Frames, c: Call, d: Call)
    requires Sensible(c) && Sensible(d) && Fresh(s, Pages([c]) + Pages([d]))
    ensures !Share(s, c, After(s, c), d) <==> c.Range? && d.Single?
  {
    assert Pages([c]) == (match c case Single => 1 case Range(l) => l) by { assert [c][..0] == []; }
    assert Pages([d]) == (match d case Single => 1 case Range(l) => l) by { assert [d][..0] == []; }
    var t := After(s, c);
    if c.Single? {
      FirstSingle(s, Pages([d]));
      if d.Range? { RangeBehindUsed(t, 1, d.length); }
      assert Gives(s, c, 0, 0) && Gives(t, d, 0, 0);
    } else {
      FirstRange(s, c.length, Pages([d]));
      if d.Range? {
        RangeBehindUsed(t, c.length, d.length);
        assert Gives(s, c, 0, c.length - 1) && Gives(t, d, 0, c.length - 1);
      }
    }
  }

  /** A third call always repeats a page. */
  lemma ThirdRepeats(s: Frames, length: nat, d: Call)
    requires 0 < length && Sensible(d) && Fresh(s, length + 1 + Pages([d]))
    ensures var t := After(s, Range(length));
            Share(t, Single, After(t, Single), d)
  {
    var t := After(s, Range(length));
    assert [d][..0] == [];
    FirstRange(s, length, 1 + Pages([d]));
    SingleThen(t, length, Pages([d]));
    var u := After(t, Single);
    if d.Range? { RangeBehindUsed(u, length + 1, d.length); }
    assert Gives(t, Single, 0, length) && Gives(u, d, 0, length);
  }

  lemma Enough(s: Frames, n: nat, m: nat)
    requires Fresh(s, n) && m <= n
    ensures Fresh(s, m)
  {
  }

  lemma {:induction false} PagesOfPrefix(calls: seq<Call>, n: nat)
    requires n <= |calls|
    ensures Pages(calls[..n]) <= Pages(calls)
    decreases |calls| - n
  {
    if n < |calls| {
      PagesOfPrefix(calls, n + 1);
      assert calls[..n + 1][..n] == calls[..n];
    } else {
      assert calls[..n] == calls;
    }
  }

  function FirstThree(calls: seq<Call>): seq<Call> { if |calls| <= 3 then calls else calls[..3] }

  /**
   * Over every run of allocations from a free start with room for the first three of them: no page is
   * handed out twice if and only if there is one call at most, or a range followed by one single page.
   */
  lemma RunExact(s: Frames, calls: seq<Call>)
    requires Fresh(s, Pages(FirstThree(calls)))
    requires forall i :: 0 <= i < |FirstThree(calls)| ==> Sensible(FirstThree(calls)[i])
    ensures NothingTwice(s, calls) <==> |calls| <= 1 || (|calls| == 2 && calls[0].Range? && calls[1].Single?)
  {
    var first := FirstThree(calls);
    if |calls| >= 2 {
      PagesOfTwo(first);
      Enough(s, Pages(first), Pages([calls[0]]) + Pages([calls[1]]));
      assert Sensible(first[0]) && Sensible(first[1]);
      PairExact(s, calls[0], calls[1]);
      assert StateAt(s, calls, 0) == s && StateAt(s, calls, 1) == After(s, calls[0]);
      if |calls| >= 3 && calls[0].Range? && calls[1].Single? {
        PagesOfThree(first);
        assert Sensible(first[2]);
        Enough(s, Pages(first), calls[0].length + 1 + Pages([calls[2]]));
        ThirdRepeats(s, calls[0].length, calls[2]);
        assert StateAt(s, calls, 2) == After(StateAt(s, calls, 1), calls[1]);
      }
    }
  }

  lemma PagesOfTwo(calls: seq<Call>)
    requires |calls| >= 2
    ensures Pages([calls[0]]) + Pages([calls[1]]) <= Pages(calls)
  {
    PagesOfPrefix(calls, 2);
    assert calls[..2] == [calls[0], calls[1]] && [calls[0], calls[1]][..1] == [calls[0]];
    assert [calls[1]][..0] == [];
  }

  lemma PagesOfThree(calls: seq<Call>)
    requires |calls| >= 3 && calls[0].Range? && calls[1].Single?
    ensures calls[0].length + 1 + Pages([calls[2]]) <= Pages(calls)
  {
    PagesOfPrefix(calls, 3);
    PagesOfLast(calls[..3]);
    PagesOfTwo(calls[..2]);
    assert calls[..3][..2] == calls[..2] && calls[..2][0] == calls[0] && calls[..2][1] == calls[1];
    PagesOfOne(calls[0]);
    PagesOfOne(calls[1]);
  }

  lemma PagesOfOne(c: Call)
    ensures Pages([c]) == match c case Single => 1 case Range(length) => length
  {
    assert [c][..0] == [];
  }

  lemma PagesOfLast(calls: seq<Call>)
    requires calls != []
    ensures Pages(calls) == Pages(calls[..|calls| - 1]) + Pages([calls[|calls| - 1]])
  {
    PagesOfOne(calls[|calls| - 1]);
  }
}
