// The address translator itself: linked entries, a size field and a one-entry cache, updated
// in place.  Every method is tied to the list functions of RunList, Lookup, Insertion and
// Removal, whose meaning is proved there.

module Translator {
  import opened Words
  import opened RunList
  import opened Lookup
  import opened Insertion
  import opened Removal
  import opened Slots

  class Entry {
    var virt: Word
    var phys: Word
    var length: Word
    var next: Entry?

    constructor (virt: Word, phys: Word, length: Word, next: Entry?)
      ensures AsRun() == Run(virt, phys, length) && this.next == next
    {
      this.virt, this.phys, this.length, this.next := virt, phys, length, next;
    }

    function AsRun(): Run
      reads this
    {
      Run(virt, phys, length)
    }
  }

  /** No node twice.  Stated over Nth so that it is only used where a lemma asks for it. */
  ghost predicate Distinct(ns: seq<Entry>) {
    forall i, j {:trigger Nth(ns, i), Nth(ns, j)} :: 0 <= i < j < |ns| ==> Nth(ns, i) != Nth(ns, j)
  }

  ghost function Nth(ns: seq<Entry>, i: nat): Entry
    requires i < |ns|
  {
    ns[i]
  }

  lemma OthersDiffer(ns: seq<Entry>, i: nat)
    requires Distinct(ns) && i < |ns|
    ensures forall j :: 0 <= j < |ns| && j != i ==> ns[j] != ns[i]
  {
    forall j | 0 <= j < |ns| && j != i ensures ns[j] != ns[i] {
      assert Nth(ns, j) != Nth(ns, i);
    }
  }

  lemma InsertDistinct(ns: seq<Entry>, k: nat, e: Entry)
    requires k <= |ns| && Distinct(ns) && e !in ns
    ensures Distinct(ns[..k] + [e] + ns[k..])
  {
    var out := ns[..k] + [e] + ns[k..];
    forall i, j | 0 <= i < j < |out| ensures Nth(out, i) != Nth(out, j) {
      if i != k && j != k {
        assert Nth(ns, if i < k then i else i - 1) != Nth(ns, if j < k then j else j - 1);
      }
    }
  }

  ghost predicate Linked(ns: seq<Entry>)
    reads ns
  {
    forall i {:trigger ns[i].next} :: 0 <= i < |ns| ==> ns[i].next == NodeAt(ns, i + 1)
  }

  ghost function NodeAt(ns: seq<Entry>, i: nat): Entry? {
    if i < |ns| then ns[i] else null
  }

  ghost function RunsOf(ns: seq<Entry>): (rs: seq<Run>)
    reads ns
    ensures |rs| == |ns| && forall i :: 0 <= i < |rs| ==> rs[i] == ns[i].AsRun()
  {
    seq(|ns|, i requires 0 <= i < |ns| reads ns => ns[i].AsRun())
  }

  lemma LinkedInsert(ns: seq<Entry>, k: nat, e: Entry)
    requires 0 < k <= |ns| && ns[k - 1].next == e && e.next == NodeAt(ns, k)
    requires forall i {:trigger ns[i].next} :: 0 <= i < |ns| && i != k - 1 ==> ns[i].next == NodeAt(ns, i + 1)
    ensures Linked(ns[..k] + [e] + ns[k..])
  {
    var out := ns[..k] + [e] + ns[k..];
    forall i | 0 <= i < |out| ensures out[i].next == NodeAt(out, i + 1) {
      if i > k { assert out[i] == ns[i - 1]; }
    }
  }

  lemma RunsInsert(ns: seq<Entry>, k: nat, e: Entry)
    requires k <= |ns|
    ensures RunsOf(ns[..k] + [e] + ns[k..]) == RunsOf(ns)[..k] + [e.AsRun()] + RunsOf(ns)[k..]
  {
  }

  lemma LinkedWithout(ns: seq<Entry>, k: nat)
    requires k < |ns| && Distinct(ns)
    requires forall i {:trigger ns[i].next} :: 0 <= i < |ns| ==>
        ns[i].next == NodeAt(ns, if i + 1 == k then k + 1 else i + 1)
    ensures Linked(ns[..k] + ns[k + 1..])
  {
    var out := ns[..k] + ns[k + 1..];
    forall i | 0 <= i < |out| ensures out[i].next == NodeAt(out, i + 1) {
      assert out[i] == ns[if i < k then i else i + 1];
    }
  }

  lemma DistinctWithout(ns: seq<Entry>, k: nat)
    requires k < |ns| && Distinct(ns)
    ensures Distinct(ns[..k] + ns[k + 1..]) && ns[k] !in ns[..k] + ns[k + 1..]
  {
    var out := ns[..k] + ns[k + 1..];
    OthersDiffer(ns, k);
    forall i, j | 0 <= i < j < |out| ensures Nth(out, i) != Nth(out, j) {
      assert Nth(ns, if i < k then i else i + 1) != Nth(ns, if j < k then j else j + 1);
    }
  }

  lemma InWithout(ns: seq<Entry>, k: nat)
    requires k < |ns| && Distinct(ns)
    ensures forall e :: e in ns ==> (e in ns[..k] + ns[k + 1..] <==> e != ns[k])
    ensures forall e :: e in ns[..k] + ns[k + 1..] ==> e in ns
  {
    OthersDiffer(ns, k);
    forall i | 0 <= i < |ns| && i != k ensures ns[i] in ns[..k] + ns[k + 1..] {
      assert ns[i] == (ns[..k] + ns[k + 1..])[if i < k then i else i - 1];
    }
  }

  lemma RunsWithout(ns: seq<Entry>, k: nat)
    requires k < |ns|
    ensures RunsOf(ns[..k] + ns[k + 1..]) == Without(RunsOf(ns), k)
  {
  }

  lemma SplitSplice(rs: seq<Run>, i: nat, a: Run, b: Run)
    requires i < |rs|
    ensures rs[i := a][..i + 1] + [b] + rs[i := a][i + 1..] == Splice(rs, i, [a, b])
    ensures rs[i := a] == Splice(rs, i, [a])
  {
  }

  /** What the three ways of cutting entry i do to the flipped list. */
  lemma FlippedCut(rs: seq<Run>, i: nat, page: Word, length: Word)
    requires i < |rs| && rs[i].Flip().Hits(page) && rs[i].len != length
    ensures var fs, r := FlipAll(rs), rs[i];
            var cut := Cut(fs[i], page, length);
            var before := Sub(page, r.phys);
            var rest := Run(Add(Add(r.virt, before), length), Add(page, length), Sub(Sub(r.len, before), length));
            && (r.phys == page ==>
                  |cut| == 1 && Splice(fs, i, cut) ==
                    FlipAll(rs[i := Run(Add(r.virt, length), Add(r.phys, length), Sub(r.len, length))]))
            && (r.phys != page && Add(r.phys, r.len) == Add(page, length) ==>
                  |cut| == 1 && Splice(fs, i, cut) == FlipAll(rs[i := r.(len := Sub(r.len, length))]))
            && (r.phys != page && Add(r.phys, r.len) != Add(page, length) ==>
                  |cut| == 2 && Splice(fs, i, cut) ==
                    FlipAll(rs[i := r.(len := before)][..i + 1] + [rest] + rs[i := r.(len := before)][i + 1..]))
  {
  }

  lemma FlipWithout(rs: seq<Run>, i: nat)
    requires i < |rs|
    ensures FlipAll(Without(rs, i)) == Without(FlipAll(rs), i)
  {
  }

  // ----- the entries during a removal -----

  /** One entry is new, behind entry i; or none is. */
  ghost predicate Grown(ns: seq<Entry>, out: seq<Entry>, i: nat, grows: bool) {
    if grows then i + 1 < |out| && out[i + 1] !in ns && i < |ns| && out == ns[..i + 1] + [out[i + 1]] + ns[i + 1..]
    else out == ns
  }

  /**
   * From position i on the list holds the last of the entries there were at the start, os, behind an
   * entry that was just split off if `grew`; `back` says which of them is still to be released.
   */
  ghost predicate Tracked(os: seq<Entry>, ns: seq<Entry>, rs: seq<Run>, i: nat, grew: bool,
                          page: Word, length: Word, back: nat)
  {
    var k := if grew then i + 1 else i;
    && |rs| == |ns| && k <= |ns| && |ns| - k <= |os| && ns[k..] == os[|os| - (|ns| - k)..]
    && (grew ==> i < |ns| && ns[i] !in os && !Split(rs[i], page, length))
    && back == BackAt(rs, i, grew, page, length)
  }

  /** The entry released is the one `back` from the end, or none of those there were. */
  ghost predicate Gone(os: seq<Entry>, back: nat, released: Entry) {
    if 0 < back <= |os| then released == os[|os| - back] else released !in os
  }

  lemma TrackedStart(os: seq<Entry>, rs: seq<Run>, page: Word, length: Word)
    requires |os| == |rs|
    ensures Tracked(os, os, rs, 0, false, page, length, ReleasedBack(rs, 0, page, length))
  {
  }

  lemma TrackedEnds(os: seq<Entry>, ns: seq<Entry>, rs: seq<Run>, i: nat, grew: bool,
                    page: Word, length: Word, back: nat)
    requires Tracked(os, ns, rs, i, grew, page, length, back) && i + 1 >= |ns|
    ensures back == 0
  {
  }

  lemma GoneIs(os: seq<Entry>, back: nat, released: Entry?)
    requires Distinct(os) && back <= |os|
    requires if released == null then back == 0 else Gone(os, back, released)
    ensures back > 0 ==> released == os[|os| - back]
    ensures forall at :: 0 <= at < |os| ==> (os[at] == released <==> at == |os| - back)
  {
    if back > 0 { OthersDiffer(os, |os| - back); }
  }

  lemma VisitFacts(os: seq<Entry>, ns: seq<Entry>, rs: seq<Run>, i: nat, grew: bool,
                   page: Word, length: Word, back: nat)
    requires Tracked(os, ns, rs, i, grew, page, length, back) && i + 1 < |ns|
    requires Rest(rs, i, false, page, length) != Endless
    ensures Whole(rs[i], page, length) ==> Gone(os, back, ns[i])
    ensures !Whole(rs[i], page, length) ==> back == ReleasedBack(rs, i, page, length)
    ensures !Whole(rs[i], page, length) ==> ns[i + 1..] == os[|os| - (|ns| - i - 1)..] && |ns| - i - 1 <= |os|
    ensures !rs[i].Hits(page) ==> Tracked(os, ns, rs, i + 1, false, page, length, back)
    ensures rs[i].Hits(page) && !Whole(rs[i], page, length) ==> !Loops(rs[i], page, length)
  {
    hide Split, Loops, Cut, RemoveFrom;
    assert !grew ==> ns[i] == ns[i..][0] == os[|os| - (|ns| - i)..][0] && ns[i + 1..] == ns[i..][1..];
    GoesOn(rs, i, page, length);
    if !Whole(rs[i], page, length) && grew { BackNow(rs, i, page, length); }
    if !rs[i].Hits(page) { BackStep(rs, i, page, length); }
  }

  lemma CutTracked(os: seq<Entry>, ns: seq<Entry>, out: seq<Entry>, rs: seq<Run>, i: nat,
                   page: Word, length: Word, back: nat)
    requires i + 1 < |rs| == |ns| && rs[i].Hits(page) && !Whole(rs[i], page, length) && !Loops(rs[i], page, length)
    requires |ns| - i - 1 <= |os| && ns[i + 1..] == os[|os| - (|ns| - i - 1)..]
    requires back == ReleasedBack(rs, i, page, length)
    requires Grown(ns, out, i, |Cut(rs[i], page, length)| == 2)
    requires |out| > i + 1 && out[i + 1] in os ==> out[i + 1] in ns
    ensures var cut := Cut(rs[i], page, length);
            Tracked(os, out, Splice(rs, i, cut), i + 1, |cut| == 2, page, length, back)
  {
    hide Cut, Loops, ReleasedBack, BackAt, Split;
    BackStep(rs, i, page, length);
    if |Cut(rs[i], page, length)| == 2 { assert out[i + 2..] == ns[i + 1..]; }
  }

  /** `size - 1` in 32-bit arithmetic, the bound of the add and remove loops. */
  function LastIndex(size: nat): nat {
    if size == 0 then 0xFFFF_FFFF else size - 1
  }

  class AddressTranslator {
    var size: nat
    var first: Entry?
    var cache: Entry?
    ghost var nodes: seq<Entry>
    ghost var cacheAt: nat

    /** The entries form an acyclic list of `size` nodes. */
    ghost predicate Valid()
      reads this, nodes
    {
      && size == |nodes|
      && Distinct(nodes)
      && first == NodeAt(nodes, 0)
      && Linked(nodes)
    }

    /** The cache is a node of the list. */
    ghost predicate Cached()
      reads this
    {
      cacheAt < |nodes| && cache == nodes[cacheAt]
    }

    ghost function Runs(): (rs: seq<Run>)
      reads this, nodes
      ensures |rs| == |nodes|
    {
      RunsOf(nodes)
    }

    /** The position of a walk: `entry` is node i, or null at the end, and `prev` the node before it. */
    ghost predicate At(prev: Entry?, entry: Entry?, i: nat)
      reads this
    {
      && i <= |nodes| && entry == NodeAt(nodes, i)
      && prev == (if i == 0 then null else nodes[i - 1])
    }

    lemma AtNode(prev: Entry?, entry: Entry?, i: nat)
      requires At(prev, entry, i)
      ensures i <= |nodes| && (entry == null <==> i == |nodes|)
      ensures entry != null ==> entry in nodes
      ensures prev != null ==> prev in nodes
    {
    }

    lemma NextAt(entry: Entry, i: nat)
      requires Valid() && i < |nodes| && entry == nodes[i]
      ensures At(entry, entry.next, i + 1)
    {
    }

    lemma DistinctNodes()
      requires Valid()
      ensures Distinct(nodes)
    {
    }

    lemma NextNode(i: nat)
      requires Valid() && i + 1 < |nodes|
      ensures nodes[i].next == nodes[i + 1]
    {
    }

    lemma FirstIs()
      requires Valid() && |nodes| > 0
      ensures first == nodes[0]
    {
    }

    lemma FirstAt()
      requires Valid()
      ensures At(null, first, 0) && size == |nodes|
    {
    }

    /** The list as the physical operations see it. */
    ghost function Flipped(): (fs: seq<Run>)
      reads this, nodes
      ensures |fs| == |nodes|
    {
      FlipAll(Runs())
    }

    constructor ()
      ensures Valid() && Runs() == [] && cache == null
    {
      size, first, cache, nodes := 0, null, null, [];
    }

    method AddEntry(virt: Word, phys: Word, length: Word)
      requires Valid()
      modifies this, nodes
      ensures Valid() && Cached()
      ensures forall e :: e in nodes ==> e in old(nodes) || fresh(e)
      ensures Added(Runs(), cacheAt) == AddRun(old(Runs()), Run(PageOf(virt), PageOf(phys), length))
    {
      var r := Run(PageOf(virt), PageOf(phys), length);
      ghost var rs := Runs();
      if size == 0 {
        AddFirst(r);
        return;
      }
      hide RunsOf, AddFrom, AddRun, Continues, Grow, NodeAt, AddressTranslator.Valid, AddressTranslator.At;
      FirstAt();
      FirstIs();
      AddRunStart(rs, r);
      var entry: Entry := first;
      var i := 0;
      while i < LastIndex(size)
        invariant Valid() && size == |nodes| && nodes == old(nodes) && rs == Runs()
        invariant 0 <= i < |nodes| && entry == nodes[i]
        invariant AddRun(rs, r) == AddFrom(rs, i, r)
        decreases |nodes| - i
      {
        AddFromStep(rs, i, r);
        NextNode(i);
        if Continues(entry.AsRun(), r) {
          ExtendEntry(entry, i, length);
          return;
        }
        if entry.next.virt > r.virt { break; }
        entry := entry.next;
        i := i + 1;
      }
      AddFromStep(rs, i, r);
      if Continues(entry.AsRun(), r) {
        ExtendEntry(entry, i, length);
        return;
      }
      InsertAfter(entry, i, r);
    }

    method AddFirst(r: Run)
      requires Valid() && size == 0
      modifies this
      ensures Valid() && Cached() && cacheAt == 0
      ensures |nodes| == 1 && fresh(nodes[0]) && Runs() == [r]
    {
      first := new Entry(r.virt, r.phys, r.len, null);
      size := size + 1;
      cache := first;
      nodes, cacheAt := [first], 0;
    }

    method ExtendEntry(entry: Entry, ghost i: nat, length: Word)
      requires Valid() && i < |nodes| && entry == nodes[i]
      modifies this`cache, this`cacheAt, entry`length
      ensures Valid() && Cached() && cacheAt == i
      ensures Runs() == old(Runs())[i := Grow(old(Runs())[i], length)]
    {
      OthersDiffer(nodes, i);
      entry.length := Add(entry.length, length);
      cache := entry;
      cacheAt := i;
    }

    /** Links a new entry for r behind `entry`. */
    method LinkAfter(entry: Entry, ghost i: nat, r: Run) returns (newEntry: Entry)
      requires Valid() && i < |nodes| && entry == nodes[i]
      modifies this`size, this`nodes, entry`next
      ensures Valid() && fresh(newEntry) && nodes == old(nodes)[..i + 1] + [newEntry] + old(nodes)[i + 1..]
      ensures Runs() == old(Runs())[..i + 1] + [r] + old(Runs())[i + 1..]
    {
      OthersDiffer(nodes, i);
      newEntry := new Entry(r.virt, r.phys, r.len, entry.next);
      entry.next := newEntry;
      size := size + 1;
      assert RunsOf(nodes) == old(Runs());
      InsertDistinct(nodes, i + 1, newEntry);
      LinkedInsert(nodes, i + 1, newEntry);
      RunsInsert(nodes, i + 1, newEntry);
      nodes := nodes[..i + 1] + [newEntry] + nodes[i + 1..];
    }

    method InsertAfter(entry: Entry, ghost i: nat, r: Run)
      requires Valid() && i < |nodes| && entry == nodes[i]
      modifies this, entry`next
      ensures Valid() && Cached() && cacheAt == i + 1
      ensures forall e :: e in nodes ==> e in old(nodes) || fresh(e)
      ensures Runs() == old(Runs())[..i + 1] + [r] + old(Runs())[i + 1..]
    {
      var newEntry := LinkAfter(entry, i, r);
      cache, cacheAt := newEntry, i + 1;
    }

    /** The scan over the virtual side that four operations share; it does not touch the cache. */
    method ScanVirtual(page: Word) returns (entry: Entry?, ghost at: nat)
      requires Valid()
      ensures at == FirstHit(Runs(), page) && entry == NodeAt(nodes, at)
    {
      entry := first;
      var i := 0;
      while i < size
        invariant 0 <= i <= size && entry == NodeAt(nodes, i)
        invariant forall j :: 0 <= j < i ==> !Runs()[j].Hits(page)
      {
        if entry.AsRun().Hits(page) {
          FirstHitIs(Runs(), i, page);
          return entry, i;
        }
        entry := entry.next;
        i := i + 1;
      }
      return null, size;
    }

    method ScanPhysical(page: Word) returns (entry: Entry?, ghost at: nat)
      requires Valid()
      ensures at == FirstHit(FlipAll(Runs()), page) && entry == NodeAt(nodes, at)
    {
      entry := first;
      var i := 0;
      while i < size
        invariant 0 <= i <= size && entry == NodeAt(nodes, i)
        invariant forall j :: 0 <= j < i ==> !FlipAll(Runs())[j].Hits(page)
      {
        if entry.AsRun().Flip().Hits(page) {
          FirstHitIs(FlipAll(Runs()), i, page);
          return entry, i;
        }
        entry := entry.next;
        i := i + 1;
      }
      return null, size;
    }

    method TranslateVirtual(virt: Word) returns (value: Word)
      requires Valid() && Cached()
      modifies this`cache, this`cacheAt
      ensures Valid() && Cached() && Runs() == old(Runs())
      ensures Answer(value, cacheAt) == Translate(Runs(), old(cacheAt), virt)
      ensures old(cache.virt) != PageOf(virt) && (forall i :: 0 <= i < |Runs()| ==> !Runs()[i].Hits(PageOf(virt))) ==>
                value == 0x3FFC_0000_0000_0000
    {
      var page, offset := PageOf(virt), OffsetOf(virt);
      if cache.virt == page {
        return Add(Add(cache.phys, Sub(page, cache.virt)), offset);
      }
      var entry, i := ScanVirtual(page);
      if entry != null {
        cache, cacheAt := entry, i;
        return Add(Add(cache.phys, Sub(page, entry.virt)), offset);
      }
      return INVALID;
    }

    method TranslatePhysical(phys: Word) returns (value: Word)
      requires Valid() && Cached()
      modifies this`cache, this`cacheAt
      ensures Valid() && Cached() && Runs() == old(Runs())
      ensures Answer(value, cacheAt) == Translate(FlipAll(Runs()), old(cacheAt), phys)
      ensures old(cache.phys) != PageOf(phys)
              && (forall i :: 0 <= i < |Runs()| ==> !Runs()[i].Flip().Hits(PageOf(phys))) ==>
                value == 0x3FFC_0000_0000_0000
    {
      var page, offset := PageOf(phys), OffsetOf(phys);
      if cache.phys == page {
        return Add(Add(cache.virt, Sub(page, cache.phys)), offset);
      }
      var entry, i := ScanPhysical(page);
      if entry != null {
        cache, cacheAt := entry, i;
        return Add(Add(cache.virt, Sub(page, entry.phys)), offset);
      }
      return INVALID;
    }

    method ContainsVirtual(virt: Word) returns (found: bool)
      requires Valid() && Cached()
      modifies this`cache, this`cacheAt
      ensures Valid() && Cached() && Runs() == old(Runs())
      ensures found <==> Contains(Runs(), old(cacheAt), virt)
      ensures cacheAt == Translate(Runs(), old(cacheAt), virt).cache
    {
      var page := PageOf(virt);
      if cache.virt == page { return true; }
      var entry, i := ScanVirtual(page);
      if entry != null {
        cache, cacheAt := entry, i;
        return true;
      }
      return false;
    }

    /** The statement that should consult the cache has no effect, so only the scan decides. */
    method ContainsPhysically(phys: Word) returns (found: bool)
      requires Valid() && Cached()
      modifies this`cache, this`cacheAt
      ensures Valid() && Cached() && Runs() == old(Runs())
      ensures found <==> FirstHit(FlipAll(Runs()), PageOf(phys)) < |Runs()|
      ensures cacheAt == if found then FirstHit(FlipAll(Runs()), PageOf(phys)) else old(cacheAt)
    {
      var entry, i := ScanPhysical(PageOf(phys));
      if entry != null {
        cache, cacheAt := entry, i;
        return true;
      }
      return false;
    }

    method ContainsLevel(addr: Word, level: nat) returns (found: bool)
      requires Valid() && Cached() && 1 <= level <= 4
      modifies this`cache, this`cacheAt
      ensures Valid() && Cached() && Runs() == old(Runs())
      ensures found <==> Slots.ContainsLevel(Runs(), old(cacheAt), addr, level)
      ensures if !found || CacheTest(Runs(), old(cacheAt), addr, level) then cacheAt == old(cacheAt)
              else FirstTouch(Runs(), cacheAt, addr, level)
    {
      var base := Base(addr, level);
      if base == SPACE - Size(level) && cache.virt % 2 == 1 { return true; }
      var entry := first;
      var i := 0;
      while i < size
        invariant 0 <= i <= size && entry == NodeAt(nodes, i)
        invariant forall j :: 0 <= j < i ==> !Touches(Runs()[j], base, level)
      {
        if Touches(entry.AsRun(), base, level) {
          assert Touches(Runs()[i], base, level);
          cache, cacheAt := entry, i;
          return true;
        }
        entry := entry.next;
        i := i + 1;
      }
      return false;
    }

    /**
     * The outcome `ok == false` is the dereference of a null `entry`: with no entries at all,
     * or after free has zeroed the entry the loop goes on from.
     */
    method RemoveEntryVirtual(virt: Word, length: Word) returns (ok: bool, ghost released: Entry?)
      requires Valid() && Remove(Runs(), PageOf(virt), length) != Endless
      modifies this, nodes
      ensures ok <==> Remove(old(Runs()), PageOf(virt), length).Done?
      ensures ok ==> Valid() && Runs() == Remove(old(Runs()), PageOf(virt), length).runs
      ensures cache == old(cache)
      ensures var k := ReleasedAt(old(Runs()), PageOf(virt), length);
              && (k < |old(nodes)| ==> released == old(nodes)[k])
              && (ok && old(Cached()) ==> (Cached() <==> old(cacheAt) != k) && (cache in nodes <==> old(cacheAt) != k))
    {
      var page := PageOf(virt);
      hide RemoveFrom, Remove, Rest, Remaining, ReleasedBack, BackAt, Split, FlipAll, RunsOf;
      hide AddressTranslator.Valid, AddressTranslator.At, Tracked, Gone, Linked, Distinct, Loops;
      DistinctNodes();
      ghost var out, back := Remove(Runs(), page, length), ReleasedBack(Runs(), 0, page, length);
      RestStart(Runs(), page, length);
      TrackedStart(nodes, Runs(), page, length);
      FirstAt();
      var prev: Entry?, entry: Entry?, i := null, first, 0;
      released := null;
      ghost var grew := false;
      AtNode(prev, entry, i);
      while i < LastIndex(size)
        invariant Valid() && size == |nodes| && cache == old(cache)
        invariant forall e :: e in nodes ==> e in old(nodes) || fresh(e)
        invariant if released == null then At(prev, entry, i) else entry == null && |nodes| > 0
        invariant out == Rest(Runs(), i, released != null, page, length)
        invariant |nodes| == 0 ==> i == 0
        invariant old(cache in nodes) ==> (cache in nodes <==> cache != released)
        invariant released == null ==> Tracked(old(nodes), nodes, Runs(), i, grew, page, length, back)
        invariant released != null ==> Gone(old(nodes), back, released)
        decreases if entry == null then 0 else Remaining(Runs(), i, page, length)
      {
        if released == null { AtNode(prev, entry, i); }
        if entry == null {
          RestNull(Runs(), i, released != null, page, length);
          if released == null { TrackedEnds(old(nodes), nodes, Runs(), i, grew, page, length, back); }
          GoneIs(old(nodes), back, released);
          return false, released;
        }
        RemainingPositive(Runs(), i, page, length);
        released, grew := VisitVirtual(prev, entry, i, page, length, old(nodes), grew, back);
        prev := entry;
        entry := entry.next;
        i := i + 1;
      }
      RestEnd(Runs(), i, released != null, page, length);
      if released == null { TrackedEnds(old(nodes), nodes, Runs(), i, grew, page, length, back); }
      FindCached();
      GoneIs(old(nodes), back, released);
      return true, released;
    }

    /** The position of the cached entry, if it is still in the list. */
    ghost method FindCached()
      requires Valid()
      modifies this`cacheAt
      ensures Valid() && Runs() == old(Runs())
      ensures Cached() <==> cache in nodes
    {
      if at :| 0 <= at < |nodes| && nodes[at] == cache { cacheAt := at; }
    }

    /** One iteration of the removal loop. */
    method VisitVirtual(prev: Entry?, entry: Entry, ghost i: nat, page: Word, length: Word,
                        ghost os: seq<Entry>, ghost grew: bool, ghost back: nat)
        returns (ghost released: Entry?, ghost grows: bool)
      requires Valid() && i + 1 < |nodes| && At(prev, entry, i)
      requires Rest(Runs(), i, false, page, length) != Endless
      requires Tracked(os, nodes, Runs(), i, grew, page, length, back)
      modifies this`size, this`first, this`nodes, if prev == null then {entry} else {entry, prev}
      ensures Valid() && size == |nodes| > 0
      ensures forall e :: e in nodes ==> e in old(nodes) || fresh(e)
      ensures old(cache in nodes) ==> (cache in nodes <==> cache != released)
      ensures Rest(old(Runs()), i, false, page, length) == Rest(Runs(), i + 1, released != null, page, length)
      ensures released == null ==> At(entry, entry.next, i + 1)
      ensures released == null ==>
                Remaining(Runs(), i + 1, page, length) < old(Remaining(Runs(), i, page, length))
      ensures released == null ==> Tracked(os, nodes, Runs(), i + 1, grows, page, length, back)
      ensures released != null ==> released == entry && entry.next == null && Gone(os, back, released)
    {
      released, grows := null, false;
      ghost var ns, rs := nodes, Runs();
      VisitFacts(os, ns, rs, i, grew, page, length, back);
      RestStep(rs, i, page, length);
      AtNode(prev, entry, i);
      FirstAt();
      hide ReleasedBack, BackAt, Tracked, Gone, Grown, Rest, Remaining, RemoveFrom, Splice, Cut, Without, Split, Loops;
      hide RunsOf, Distinct, Linked, FlipAll, AddressTranslator.Valid, AddressTranslator.At;
      if entry.AsRun().Hits(page) {
        if entry.length == length {
          InWithout(nodes, i);
          Release(prev, entry, i);
          released := entry;
        } else {
          grows := |Cut(rs[i], page, length)| == 2;
          CutEntry(entry, i, page, length);
          CutTracked(os, ns, nodes, rs, i, page, length, back);
        }
      }
      FirstAt();
      if released == null { NextAt(entry, i); }
    }

    method RemoveEntryPhysical(phys: Word, length: Word) returns (ok: bool, ghost released: Entry?)
      requires Valid() && Remove(Flipped(), PageOf(phys), length) != Endless
      modifies this, nodes
      ensures ok <==> Remove(old(Flipped()), PageOf(phys), length).Done?
      ensures ok ==> Valid() && Flipped() == Remove(old(Flipped()), PageOf(phys), length).runs
      ensures cache == old(cache)
      ensures var k := ReleasedAt(old(Flipped()), PageOf(phys), length);
              && (k < |old(nodes)| ==> released == old(nodes)[k])
              && (ok && old(Cached()) ==> (Cached() <==> old(cacheAt) != k) && (cache in nodes <==> old(cacheAt) != k))
    {
      var page := PageOf(phys);
      hide RemoveFrom, Remove, Rest, Remaining, ReleasedBack, BackAt, Split, FlipAll, RunsOf;
      hide AddressTranslator.Valid, AddressTranslator.At, Tracked, Gone, Linked, Distinct, Loops;
      DistinctNodes();
      ghost var out, back := Remove(Flipped(), page, length), ReleasedBack(Flipped(), 0, page, length);
      RestStart(Flipped(), page, length);
      TrackedStart(nodes, Flipped(), page, length);
      FirstAt();
      var prev: Entry?, entry: Entry?, i := null, first, 0;
      released := null;
      ghost var grew := false;
      AtNode(prev, entry, i);
      while i < LastIndex(size)
        invariant Valid() && size == |nodes| && cache == old(cache)
        invariant forall e :: e in nodes ==> e in old(nodes) || fresh(e)
        invariant if released == null then At(prev, entry, i) else entry == null && |nodes| > 0
        invariant out == Rest(Flipped(), i, released != null, page, length)
        invariant |nodes| == 0 ==> i == 0
        invariant old(cache in nodes) ==> (cache in nodes <==> cache != released)
        invariant released == null ==> Tracked(old(nodes), nodes, Flipped(), i, grew, page, length, back)
        invariant released != null ==> Gone(old(nodes), back, released)
        decreases if entry == null then 0 else Remaining(Flipped(), i, page, length)
      {
        if released == null { AtNode(prev, entry, i); }
        if entry == null {
          RestNull(Flipped(), i, released != null, page, length);
          if released == null { TrackedEnds(old(nodes), nodes, Flipped(), i, grew, page, length, back); }
          GoneIs(old(nodes), back, released);
          return false, released;
        }
        RemainingPositive(Flipped(), i, page, length);
        released, grew := VisitPhysical(prev, entry, i, page, length, old(nodes), grew, back);
        prev := entry;
        entry := entry.next;
        i := i + 1;
      }
      RestEnd(Flipped(), i, released != null, page, length);
      if released == null { TrackedEnds(old(nodes), nodes, Flipped(), i, grew, page, length, back); }
      FindCached();
      GoneIs(old(nodes), back, released);
      return true, released;
    }

    /** One iteration of the removal loop. */
    method VisitPhysical(prev: Entry?, entry: Entry, ghost i: nat, page: Word, length: Word,
                        ghost os: seq<Entry>, ghost grew: bool, ghost back: nat)
        returns (ghost released: Entry?, ghost grows: bool)
      requires Valid() && i + 1 < |nodes| && At(prev, entry, i)
      requires Rest(Flipped(), i, false, page, length) != Endless
      requires Tracked(os, nodes, Flipped(), i, grew, page, length, back)
      modifies this`size, this`first, this`nodes, if prev == null then {entry} else {entry, prev}
      ensures Valid() && size == |nodes| > 0
      ensures forall e :: e in nodes ==> e in old(nodes) || fresh(e)
      ensures old(cache in nodes) ==> (cache in nodes <==> cache != released)
      ensures Rest(old(Flipped()), i, false, page, length) == Rest(Flipped(), i + 1, released != null, page, length)
      ensures released == null ==> At(entry, entry.next, i + 1)
      ensures released == null ==>
                Remaining(Flipped(), i + 1, page, length) < old(Remaining(Flipped(), i, page, length))
      ensures released == null ==> Tracked(os, nodes, Flipped(), i + 1, grows, page, length, back)
      ensures released != null ==> released == entry && entry.next == null && Gone(os, back, released)
    {
      released, grows := null, false;
      ghost var ns, rs := nodes, Flipped();
      VisitFacts(os, ns, rs, i, grew, page, length, back);
      RestStep(rs, i, page, length);
      AtNode(prev, entry, i);
      FirstAt();
      hide ReleasedBack, BackAt, Tracked, Gone, Grown, Rest, Remaining, RemoveFrom, Splice, Cut, Without, Split, Loops;
      hide RunsOf, Distinct, Linked, FlipAll, AddressTranslator.Valid, AddressTranslator.At;
      if entry.AsRun().Flip().Hits(page) {
        if entry.length == length {
          InWithout(nodes, i);
          FlipWithout(Runs(), i);
          Release(prev, entry, i);
          released := entry;
        } else {
          grows := |Cut(rs[i], page, length)| == 2;
          CutEntryPhysical(entry, i, page, length);
          CutTracked(os, ns, nodes, rs, i, page, length, back);
        }
      }
      FirstAt();
      if released == null { NextAt(entry, i); }
    }

    /** Trims the front, trims the back, or splits, in the code's order. */
    method CutEntry(entry: Entry, ghost i: nat, page: Word, length: Word)
      requires Valid() && i < |nodes| && entry == nodes[i]
      requires entry.AsRun().Hits(page) && entry.length != length
      modifies this`size, this`nodes, entry
      ensures Valid() && Runs() == Splice(old(Runs()), i, Cut(old(Runs())[i], page, length))
      ensures i < |nodes| && entry == nodes[i]
      ensures old(cache in nodes) ==> cache in nodes
      ensures forall e :: e in nodes ==> e in old(nodes) || fresh(e)
      ensures Grown(old(nodes), nodes, i, |Cut(old(Runs())[i], page, length)| == 2)
    {
      ghost var rs, cut := Runs(), Cut(Runs()[i], page, length);
      if |cut| == 1 { SplitSplice(rs, i, cut[0], cut[0]); } else { SplitSplice(rs, i, cut[0], cut[1]); }
      if entry.virt == page {
        TrimFront(entry, i, length);
      } else if Add(entry.virt, entry.length) == Add(page, length) {
        Resize(entry, i, Sub(entry.length, length));
      } else {
        var before := Sub(page, entry.virt);
        var after := Sub(Sub(entry.length, before), length);
        Resize(entry, i, before);
        var rest := Run(Add(page, length), Add(Add(entry.phys, before), length), after);
        var newEntry := LinkAfter(entry, i, rest);
      }
    }

    /** The same for a range named by its physical addresses. */
    method CutEntryPhysical(entry: Entry, ghost i: nat, page: Word, length: Word)
      requires Valid() && i < |nodes| && entry == nodes[i]
      requires entry.AsRun().Flip().Hits(page) && entry.length != length
      modifies this`size, this`nodes, entry
      ensures Valid() && FlipAll(Runs()) == Splice(FlipAll(old(Runs())), i, Cut(FlipAll(old(Runs()))[i], page, length))
      ensures i < |nodes| && entry == nodes[i]
      ensures old(cache in nodes) ==> cache in nodes
      ensures forall e :: e in nodes ==> e in old(nodes) || fresh(e)
      ensures Grown(old(nodes), nodes, i, |Cut(FlipAll(old(Runs()))[i], page, length)| == 2)
    {
      ghost var rs := Runs();
      FlippedCut(rs, i, page, length);
      hide FlipAll, Cut, Splice;
      if entry.phys == page {
        TrimFront(entry, i, length);
      } else if Add(entry.phys, entry.length) == Add(page, length) {
        Resize(entry, i, Sub(entry.length, length));
      } else {
        var before := Sub(page, entry.phys);
        var after := Sub(Sub(entry.length, before), length);
        Resize(entry, i, before);
        var rest := Run(Add(Add(entry.virt, before), length), Add(page, length), after);
        var newEntry := LinkAfter(entry, i, rest);
      }
    }

    /** Takes entry i out of the list and zeroes it, as free does. */
    method Release(prev: Entry?, entry: Entry, ghost i: nat)
      requires Valid() && At(prev, entry, i)
      modifies this`size, this`first, this`nodes, if prev == null then {entry} else {entry, prev}
      ensures Valid() && nodes == old(nodes)[..i] + old(nodes)[i + 1..]
      ensures Runs() == Without(old(Runs()), i) && entry.next == null
    {
      ghost var ns := nodes;
      OthersDiffer(nodes, i);
      if i > 0 { OthersDiffer(nodes, i - 1); }
      DistinctWithout(nodes, i);
      nodes := nodes[..i] + nodes[i + 1..];
      RunsWithout(ns, i);
      if prev == null { first := entry.next; } else { prev.next := entry.next; }
      size := size - 1;
      LinkedWithout(ns, i);
      assert RunsOf(nodes) == Without(old(Runs()), i);
      entry.virt, entry.phys, entry.length, entry.next := 0, 0, 0, null;
    }

    method TrimFront(entry: Entry, ghost i: nat, length: Word)
      requires Valid() && i < |nodes| && entry == nodes[i]
      modifies entry`virt, entry`phys, entry`length
      ensures Valid()
      ensures var r := old(Runs())[i];
              Runs() == old(Runs())[i := Run(Add(r.virt, length), Add(r.phys, length), Sub(r.len, length))]
    {
      OthersDiffer(nodes, i);
      entry.virt, entry.phys, entry.length :=
        Add(entry.virt, length), Add(entry.phys, length), Sub(entry.length, length);
    }

    method Resize(entry: Entry, ghost i: nat, length: Word)
      requires Valid() && i < |nodes| && entry == nodes[i]
      modifies entry`length
      ensures Valid()
      ensures Runs() == old(Runs())[i := old(Runs())[i].(len := length)]
    {
      OthersDiffer(nodes, i);
      entry.length := length;
    }
  }

  /** A translator whose cache is the zeroed entry that it has just released. */
  method DanglingCache() returns (t: AddressTranslator)
    ensures fresh(t) && t.Valid() && |t.nodes| == 1 && t.cache != null && t.cache !in t.nodes
  {
    ReleasesFirst();
    LooksUpFirst();
    hide *;
    hide AddRun, Remove, ReleasedAt, Translate;
    t := new AddressTranslator();
    assert |t.Runs()| == 0 && t.nodes == [];
    t.AddEntry(0x1000, 0x9000, 0x1000);
    forall i | 0 <= i < |t.nodes| ensures fresh(t.nodes[i]) {
      var e := t.nodes[i];
      assert e in t.nodes;
    }
    t.AddEntry(0x5000, 0x20000, 0x1000);
    forall i | 0 <= i < |t.nodes| ensures fresh(t.nodes[i]) {
      var e := t.nodes[i];
      assert e in t.nodes;
    }
    var value := t.TranslateVirtual(0x1000);
    var ok, released := t.RemoveEntryVirtual(0x1000, 0x1000);
  }

  lemma LooksUpFirst()
    ensures PageOf(0x1000) == 0x1000 && PageOf(0x9000) == 0x9000
    ensures PageOf(0x5000) == 0x5000 && PageOf(0x20000) == 0x20000
    ensures var a, b := Run(0x1000, 0x9000, 0x1000), Run(0x5000, 0x20000, 0x1000);
            && AddRun([], a) == Added([a], 0) && AddRun([a], b) == Added([a, b], 1)
            && Translate([a, b], 1, 0x1000).cache == 0
  {
    var a, b := Run(0x1000, 0x9000, 0x1000), Run(0x5000, 0x20000, 0x1000);
    assert a.Hits(0x1000) && [a][..1] + [b] + [a][1..] == [a, b];
  }
}
