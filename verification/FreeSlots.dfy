// When map_next_to returns and which page it takes, in terms of the 512 GiB slots that no run reaches, and how
// many calls a run can make.

module FreeSlots {
  import opened Options
  import opened Words
  import opened RunList
  import opened Insertion
  import opened Slots
  import opened Mapping

  /** No run holds a byte of the page or ends where it starts. */
  ghost predicate PageFree(rs: seq<Run>, page: Word) {
    forall i :: 0 <= i < |rs| ==> rs[i].virt + rs[i].len < page || page + 0x1000 <= rs[i].virt
  }

  /** No run reaches the 512 GiB slot of a. */
  ghost predicate SlotFree(rs: seq<Run>, a: Word) { NoneReaches(rs, a, 0x80_0000_0000) }

  /** c starts the lowest free slot above a, when the slot that starts at `but` does not count. */
  ghost predicate NextFree(rs: seq<Run>, a: Word, but: int, c: Word) {
    && a < c != but && c % 0x80_0000_0000 == 0 && SlotFree(rs, c)
    && forall b: Word :: a < b < c && b % 0x80_0000_0000 == 0 ==> !SlotFree(rs, b) || b == but
  }

  /** The page of a call: the cursor's own if it is free, else the first of the lowest free slot above. */
  ghost predicate Chosen(s: Space, page: Word) {
    if PageFree(s.runs, s.cursor) then page == s.cursor else NextFree(s.runs, s.cursor, 0, page)
  }

  /** The page of a call and the next cursor, a free slot above it that the page does not end at. */
  ghost predicate Takes(s: Space, page: Word, next: Word) {
    Chosen(s, page) && NextFree(s.runs, page, page + 0x1000, next)
  }

  lemma SlotFreeExact(rs: seq<Run>, a: Word)
    requires AllSound(rs)
    ensures SlotFree(rs, a) <==> !Occupied(rs, a, 1)
  {
    OccupiedExact(rs, a, 1, 0x80_0000_0000);
  }

  lemma PageFreeExact(rs: seq<Run>, page: Word)
    requires AllSound(rs) && BelowTop(rs) && page % PAGE == 0
    ensures PageFree(rs, page) <==> !Occupied(rs, page, 4)
  {
    OccupiedExact(rs, page, 4, 0x1000);
    forall i | 0 <= i < |rs|
      ensures Reaches(rs[i], page, 0x1000) <==> !(rs[i].virt + rs[i].len < page || page + 0x1000 <= rs[i].virt)
    {
      assert rs[i].Sound();
    }
  }

  lemma NextOnce(rs: seq<Run>, a: Word, but: int, c: Word, d: Word)
    requires NextFree(rs, a, but, c) && NextFree(rs, a, but, d)
    ensures c == d
  {
    hide SlotFree;
  }

  /** The search goes past a slot that is not free to the lowest free one above. */
  lemma SearchExact(rs: seq<Run>, a: Word, c: Word)
    requires AllSound(rs) && a > 0 && !SlotFree(rs, a)
    ensures FirstFree(rs, a) == Some(c) <==> NextFree(rs, a, 0, c)
  {
    FirstFreeMeaning(rs, a);
    forall b: Word ensures SlotFree(rs, b) <==> !Occupied(rs, b, 1) { SlotFreeExact(rs, b); }
    hide FirstFree, Occupied, SlotFree, AllSound;
    if FirstFree(rs, a).Some? {
      var d := FirstFree(rs, a).value;
      assert NextFree(rs, a, 0, d);
      if NextFree(rs, a, 0, c) { NextOnce(rs, a, 0, c, d); }
    }
  }

  lemma SlotTakesPage(rs: seq<Run>, page: Word)
    requires AllSound(rs) && BelowTop(rs) && page % PAGE == 0 && SlotFree(rs, page)
    ensures PageFree(rs, page)
  {
    PageFreeExact(rs, page);
    SlotFreeExact(rs, page);
    hide Occupied;
    if Occupied(rs, page, 4) {
      OccupiedCoarser(rs, page, 3);
      OccupiedCoarser(rs, page, 2);
      OccupiedCoarser(rs, page, 1);
    }
  }

  lemma TargetExact(s: Space, page: Word)
    requires Good(s)
    ensures Chosen(s, page) <==> Target(s) == Some(page)
  {
    PageFreeExact(s.runs, s.cursor);
    if !PageFree(s.runs, s.cursor) {
      if SlotFree(s.runs, s.cursor) { SlotTakesPage(s.runs, s.cursor); }
      SearchExact(s.runs, s.cursor, page);
    }
  }

  /** A page takes its own slot, and the next one when it ends there. */
  lemma PageTakes(rs: seq<Run>, k: nat, r: Run, c: Word)
    requires k <= |rs| && r.len == PAGE && r.virt % PAGE == 0 && r.virt + PAGE < SPACE
    requires c % 0x80_0000_0000 == 0 && c > r.virt
    ensures SlotFree(rs[..k] + [r] + rs[k..], c) <==> SlotFree(rs, c) && c != r.virt + 0x1000
  {
    SlotAligned(c);
    AlignedGap(r.virt, c);
    InsertedFree(rs, k, r, c);
  }

  lemma AlignedGap(a: Word, c: Word)
    requires a % PAGE == 0 && c % PAGE == 0 && a < c
    ensures a + PAGE <= c
  {
  }

  lemma InsertedFree(rs: seq<Run>, k: nat, r: Run, c: Word)
    requires k <= |rs|
    ensures SlotFree(rs[..k] + [r] + rs[k..], c) <==> SlotFree(rs, c) && !Reaches(r, c, 0x80_0000_0000)
  {
    hide Reaches;
    var out := rs[..k] + [r] + rs[k..];
    if SlotFree(out, c) {
      assert out[k] == r;
      forall i | 0 <= i < |rs| ensures !Reaches(rs[i], c, 0x80_0000_0000) {
        assert out[if i < k then i else i + 1] == rs[i];
      }
    }
  }

  /** After the page is mapped, the search for the next cursor. */
  lemma CursorExact(s: Space, phys: Word, next: Word)
    requires Good(s) && Low(s) && RealPage(phys) && Target(s).Some?
    ensures var page := Target(s).value;
            FirstFree(AddRun(s.runs, Page(page, phys)).runs, page) == Some(next) <==>
            NextFree(s.runs, page, page + 0x1000, next)
  {
    hide FirstFree, AddRun, Sorted, BelowTop, AllSound, SlotFree, Good;
    var page := Target(s).value;
    var r := Page(page, phys);
    TargetFree(s);
    LowTarget(s);
    PageSound(page, phys);
    var k := AddTarget(s, r);
    var out := AddRun(s.runs, r).runs;
    InsertedFree(s.runs, k, r, page);
    SearchExact(out, page, next);
    forall b: Word | b > page && b % 0x80_0000_0000 == 0
      ensures SlotFree(out, b) <==> SlotFree(s.runs, b) && b != page + 0x1000
    {
      PageTakes(s.runs, k, r, b);
    }
  }

  /**
   * One call below the last page, in full: it returns a page and leaves a cursor exactly when these are the page
   * to choose and the lowest free slot above it.  Otherwise there are no such two, and it aborts.
   */
  lemma MapNextExact(s: Space, phys: Word, page: Word, next: Word)
    requires Good(s) && Low(s) && RealPage(phys)
    ensures Takes(s, page, next) <==>
            var out := MapNext(s, phys);
            out.Returns? && out.virt == page && out.space.cursor == next
  {
    hide AddRun, FirstFree, NextFree, Chosen, RealPage, Occupied, Target;
    TargetExact(s, page);
    if Target(s) == Some(page) { CursorExact(s, phys, next); }
  }

  /** At the last page: a call returns exactly when no run reaches its slot, and leaves the cursor there. */
  lemma LastPageExact(s: Space, phys: Word)
    requires Good(s) && !Low(s) && RealPage(phys)
    ensures MapNext(s, phys).Returns? <==> SlotFree(s.runs, s.cursor)
    ensures MapNext(s, phys).Returns? ==> MapNext(s, phys).virt == s.cursor == MapNext(s, phys).space.cursor
  {
    hide AddRun, FirstFree, Sorted, RealPage, SlotFree, PageFree, Chosen, Good;
    LastIsCursor(s);
    if MapNext(s, phys).Returns? { LastStays(s, phys); }
    if Target(s).Some? {
      TargetFree(s);
      var page := Target(s).value;
      var r := Page(page, phys);
      PageSound(page, phys);
      var k := AddTarget(s, r);
      var out := AddRun(s.runs, r).runs;
      InsertedFree(s.runs, k, r, page);
      SlotFreeExact(out, page);
      LastSearch(out, page);
    } else {
      LastTarget(s);
    }
  }

  lemma LastSearch(rs: seq<Run>, a: Word)
    requires a + PAGE == SPACE
    ensures FirstFree(rs, a) == if Occupied(rs, a, 1) then None else Some(a)
  {
    assert NextSlot(a) == 0;
  }

  lemma LastTarget(s: Space)
    requires Good(s) && s.cursor + PAGE == SPACE && Target(s).None?
    ensures !SlotFree(s.runs, s.cursor)
  {
    LastSearch(s.runs, s.cursor);
    SlotFreeExact(s.runs, s.cursor);
  }

  // ----- how many calls return -----

  /** The number of free slots from the one that starts at b up. */
  ghost function FreeFrom(rs: seq<Run>, b: nat): nat
    decreases SPACE - b
  {
    if b >= SPACE then 0 else (if SlotFree(rs, b) then 1 else 0) + FreeFrom(rs, b + 0x80_0000_0000)
  }

  lemma NextStart(a: Word, c: Word)
    requires a % 0x80_0000_0000 == c % 0x80_0000_0000 == 0
    ensures (a + 0x80_0000_0000) % 0x80_0000_0000 == 0
    ensures a < c ==> a + 0x80_0000_0000 <= c
  {
  }

  lemma {:induction false} CountSame(rs: seq<Run>, out: seq<Run>, b: nat)
    requires b % 0x80_0000_0000 == 0
    requires forall c: Word :: b <= c && c % 0x80_0000_0000 == 0 ==> (SlotFree(out, c) <==> SlotFree(rs, c))
    ensures FreeFrom(out, b) == FreeFrom(rs, b)
    decreases SPACE - b
  {
    if b < SPACE {
      NextStart(b, b);
      CountSame(rs, out, b + 0x80_0000_0000);
    }
  }

  /** No slot from b up to c is free. */
  lemma {:induction false} CountSkips(rs: seq<Run>, b: nat, c: Word)
    requires b % 0x80_0000_0000 == c % 0x80_0000_0000 == 0 && b <= c
    requires forall a: Word :: b <= a < c && a % 0x80_0000_0000 == 0 ==> !SlotFree(rs, a)
    ensures FreeFrom(rs, b) == FreeFrom(rs, c)
    decreases SPACE - b
  {
    hide SlotFree;
    if b < c {
      NextStart(b, c);
      CountSkips(rs, b + 0x80_0000_0000, c);
    }
  }

  lemma {:induction false} LowestFrom(rs: seq<Run>, b: nat) returns (c: Word)
    requires b % 0x80_0000_0000 == 0 && FreeFrom(rs, b) > 0
    ensures b <= c && c % 0x80_0000_0000 == 0 && SlotFree(rs, c)
    ensures forall a: Word :: b <= a < c && a % 0x80_0000_0000 == 0 ==> !SlotFree(rs, a)
    decreases SPACE - b
  {
    hide SlotFree;
    if SlotFree(rs, b) {
      c := b;
    } else {
      NextStart(b, b);
      c := LowestFrom(rs, b + 0x80_0000_0000);
      forall a: Word | b <= a < c && a % 0x80_0000_0000 == 0 ensures !SlotFree(rs, a) {
        if a > b { NextStart(b, a); }
      }
    }
  }

  /** Between calls: the cursor starts a free slot. */
  ghost predicate Ready(s: Space) {
    Good(s) && Low(s) && s.cursor % 0x80_0000_0000 == 0 && SlotFree(s.runs, s.cursor)
  }

  lemma FreeAbove(rs: seq<Run>, a: Word, but: int)
    requires a % 0x80_0000_0000 == 0 && SlotFree(rs, a) && but == a + 0x1000
    ensures FreeFrom(rs, a) >= 2 <==> exists c: Word :: NextFree(rs, a, but, c)
    ensures forall c: Word :: NextFree(rs, a, but, c) ==> FreeFrom(rs, c) == FreeFrom(rs, a) - 1
  {
    hide SlotFree;
    NextStart(a, a);
    var b := a + 0x80_0000_0000;
    assert FreeFrom(rs, a) == 1 + FreeFrom(rs, b);
    forall c: Word | NextFree(rs, a, but, c) ensures FreeFrom(rs, c) == FreeFrom(rs, b) && FreeFrom(rs, c) > 0 {
      NextStart(a, c);
      CountSkips(rs, b, c);
    }
    if FreeFrom(rs, b) > 0 {
      var c := LowestFrom(rs, b);
      forall d: Word | a < d < c && d % 0x80_0000_0000 == 0 ensures !SlotFree(rs, d) { NextStart(a, d); }
      assert NextFree(rs, a, but, c);
    }
  }

  /** What a call that returns leaves: the slots above the new cursor are as free as before. */
  lemma AfterCall(s: Space, phys: Word)
    requires Good(s) && Low(s) && RealPage(phys) && MapNext(s, phys).Returns?
    ensures var out := MapNext(s, phys);
            Ready(out.space) && FreeFrom(out.space.runs, out.space.cursor) == FreeFrom(s.runs, out.space.cursor)
  {
    hide AddRun, FirstFree, Sorted, AllSound, BelowTop, RealPage, Occupied, SlotFree, FreeFrom, Target, Extends;
    var out := MapNext(s, phys);
    MapStep(s, phys);
    MapNextExact(s, phys, out.virt, out.space.cursor);
    SlotsKept(s, phys);
    CountSame(s.runs, out.space.runs, out.space.cursor);
  }

  lemma SlotsKept(s: Space, phys: Word)
    requires Good(s) && Low(s) && RealPage(phys) && MapNext(s, phys).Returns?
    ensures var out := MapNext(s, phys);
            forall b: Word :: b > out.virt && b % 0x80_0000_0000 == 0 ==>
              (SlotFree(out.space.runs, b) <==> SlotFree(s.runs, b) && b != out.virt + 0x1000)
  {
    hide FirstFree, AddRun, Sorted, BelowTop, AllSound, SlotFree, Good;
    var page := Target(s).value;
    var r := Page(page, phys);
    TargetFree(s);
    LowTarget(s);
    PageSound(page, phys);
    var k := AddTarget(s, r);
    forall b: Word | b > page && b % 0x80_0000_0000 == 0
      ensures SlotFree(AddRun(s.runs, r).runs, b) <==> SlotFree(s.runs, b) && b != page + 0x1000
    {
      PageTakes(s.runs, k, r, b);
    }
  }

  /** From a cursor that starts a free slot, a call returns exactly when there is another one above. */
  lemma ReadyCall(s: Space, phys: Word)
    requires Ready(s) && RealPage(phys)
    ensures MapNext(s, phys).Returns? <==> FreeFrom(s.runs, s.cursor) >= 2
    ensures MapNext(s, phys).Returns? ==>
              var t := MapNext(s, phys).space;
              Ready(t) && FreeFrom(t.runs, t.cursor) == FreeFrom(s.runs, s.cursor) - 1
  {
    SlotTakesPage(s.runs, s.cursor);
    var but := s.cursor + 0x1000;
    FreeAbove(s.runs, s.cursor, but);
    hide AddRun, FirstFree, Sorted, AllSound, BelowTop, RealPage, Occupied, SlotFree, FreeFrom, Target, PageFree;
    hide NextFree, MapNext;
    if MapNext(s, phys).Returns? {
      var out := MapNext(s, phys);
      MapNextExact(s, phys, out.virt, out.space.cursor);
      AfterCall(s, phys);
    }
    if next: Word :| NextFree(s.runs, s.cursor, but, next) {
      MapNextExact(s, phys, s.cursor, next);
    }
  }

  /** Over every run: after n calls the count of free slots from the cursor up has gone down by n. */
  lemma {:induction false} RunCounts(s: Space, physs: seq<Word>)
    requires Ready(s) && forall i :: 0 <= i < |physs| ==> RealPage(physs[i])
    ensures Calls(s, physs).Ran? <==> |physs| < FreeFrom(s.runs, s.cursor)
    ensures Calls(s, physs).Ran? ==>
              var t := Calls(s, physs).space;
              Ready(t) && FreeFrom(t.runs, t.cursor) == FreeFrom(s.runs, s.cursor) - |physs|
  {
    hide Ready, MapNext, FreeFrom, RealPage;
    if |physs| == 0 {
      StartCounts(s);
    } else {
      var n := |physs| - 1;
      RunCounts(s, physs[..n]);
      if Calls(s, physs[..n]).Ran? { ReadyCall(Calls(s, physs[..n]).space, physs[n]); }
    }
  }

  lemma StartCounts(s: Space)
    requires Ready(s)
    ensures FreeFrom(s.runs, s.cursor) > 0
  {
    hide SlotFree, Good;
  }

  /**
   * From every cursor below the last page: if the first call can return, leaving the cursor `next`, then exactly
   * as many calls return as there are free slots from `next` up; otherwise none does.
   */
  lemma CallsExact(s: Space, physs: seq<Word>, page: Word, next: Word)
    requires Good(s) && Low(s) && (forall i :: 0 <= i < |physs| ==> RealPage(physs[i])) && Takes(s, page, next)
    ensures Calls(s, physs).Ran? <==> |physs| <= FreeFrom(s.runs, next)
  {
    hide MapNext, FreeFrom, RealPage, Good, Low, Takes, Ready;
    if |physs| > 0 {
      MapNextExact(s, physs[0], page, next);
      AfterCall(s, physs[0]);
      var t := MapNext(s, physs[0]).space;
      RunCounts(t, physs[1..]);
      FirstApart(s, physs);
    }
  }

  /** A run of calls is the first one and a run of the others. */
  lemma {:induction false} FirstApart(s: Space, physs: seq<Word>)
    requires |physs| > 0 && MapNext(s, physs[0]).Returns?
    ensures var rest := Calls(MapNext(s, physs[0]).space, physs[1..]);
            && (Calls(s, physs).Ran? <==> rest.Ran?)
            && (rest.Ran? ==> Calls(s, physs).space == rest.space)
  {
    hide MapNext;
    var n := |physs| - 1;
    if n > 0 {
      FirstApart(s, physs[..n]);
      assert physs[..n][1..] == physs[1..][..n - 1];
    } else {
      assert Calls(s, physs[..n]) == Ran(s, []);
    }
  }

  lemma NoCalls(s: Space, physs: seq<Word>)
    requires Good(s) && Low(s) && |physs| > 0 && (forall i :: 0 <= i < |physs| ==> RealPage(physs[i]))
    requires forall page: Word, next: Word :: !Takes(s, page, next)
    ensures Calls(s, physs).Failed?
  {
    hide MapNext, RealPage, Good, Low, Takes;
    var n := |physs| - 1;
    if n > 0 {
      NoCalls(s, physs[..n]);
    } else {
      assert Calls(s, physs[..n]) == Ran(s, []);
      if MapNext(s, physs[0]).Returns? {
        var out := MapNext(s, physs[0]);
        MapNextExact(s, physs[0], out.virt, out.space.cursor);
      }
    }
  }

  /** The kernel's first page in use and its first cursor: the page goes to the next slot up. */
  lemma KernelStart()
    ensures var s := Space([Run(0xFFFF_8000_0000_0000, 0, 0x1000)], 0xFFFF_8000_0000_0000);
            var out := MapNext(s, 0x5000);
            && out.Returns? && out.virt == 0xFFFF_8080_0000_0000 && out.space.cursor == 0xFFFF_8100_0000_0000
  {
    var s := Space([Run(0xFFFF_8000_0000_0000, 0, 0x1000)], 0xFFFF_8000_0000_0000);
    var r := s.runs[0];
    assert !PageFree(s.runs, s.cursor);
    forall b: Word | b % 0x80_0000_0000 == 0 && b > s.cursor ensures SlotFree(s.runs, b) && b >= 0xFFFF_8080_0000_0000 {
      assert !Reaches(r, b, 0x80_0000_0000);
    }
    assert Takes(s, 0xFFFF_8080_0000_0000, 0xFFFF_8100_0000_0000);
    MapNextExact(s, 0x5000, 0xFFFF_8080_0000_0000, 0xFFFF_8100_0000_0000);
  }
}
