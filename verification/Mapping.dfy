// map_next_to over whole runs: which virtual pages it hands out, and what they translate to.

module Mapping {
  import opened Options
  import opened Words
  import opened RunList
  import opened Lookup
  import opened Insertion
  import opened Slots

  /** The translator's list and the process's next free virtual page. */
  datatype Space = Space(runs: seq<Run>, cursor: Word)

  datatype Step = Aborts | Returns(space: Space, virt: Word)

  /** Page-map indices 256 to 511; find_free_virt aborts below. */
  predicate HighHalf(a: Word) { a >= 0xFFFF_8000_0000_0000 }

  /** The page map_next_to uses: the cursor if its page is free, else what find_free_virt finds. */
  function Target(s: Space): Option<Word> {
    if Occupied(s.runs, s.cursor, 4) then FirstFree(s.runs, s.cursor) else Some(s.cursor)
  }

  function Page(virt: Word, phys: Word): Run { Run(virt, PageOf(phys), PAGE) }

  /** map_next_to.  Both searches may abort, the second one after the page has been mapped. */
  function MapNext(s: Space, phys: Word): Step {
    if !HighHalf(s.cursor) || Target(s).None? then Aborts
    else
      var virt := Target(s).value;
      var runs := AddRun(s.runs, Page(virt, phys)).runs;
      match FirstFree(runs, virt)
      case None => Aborts
      case Some(next) => Returns(Space(runs, next), virt)
  }

  ghost predicate Good(s: Space) {
    && AllSound(s.runs) && Sorted(s.runs) && BelowTop(s.runs) && AvoidsInvalid(s.runs)
    && (forall i :: 0 <= i < |s.runs| ==> LowPhys(s.runs[i]))
    && |s.runs| > 0 && s.runs[0].virt <= s.cursor
    && HighHalf(s.cursor) && s.cursor % PAGE == 0
  }

  /** The cursor is not the very last page. */
  predicate Low(s: Space) { s.cursor + PAGE < SPACE }

  /** A physical page that exists: below 2^64 and not next to the reserved value. */
  predicate RealPage(phys: Word) {
    PageOf(phys) + PAGE < SPACE && !(PageOf(phys) <= INVALID <= PageOf(phys) + PAGE)
  }

  /** Nothing lies in the target page or ends where it starts. */
  lemma TargetFree(s: Space)
    requires Good(s) && Target(s).Some?
    ensures var t := Target(s).value;
            && s.cursor <= t && t % PAGE == 0 && HighHalf(t) && t + PAGE <= SPACE
            && (t + PAGE == SPACE ==> t == s.cursor)
            && forall i :: 0 <= i < |s.runs| ==>
                 s.runs[i].virt + s.runs[i].len < t || t + PAGE <= s.runs[i].virt
  {
    var t := Target(s).value;
    if Occupied(s.runs, s.cursor, 4) { FirstFreeMeaning(s.runs, s.cursor); }
    var level := if Occupied(s.runs, s.cursor, 4) then 1 else 4;
    assert !Occupied(s.runs, t, level);
    assert t % PAGE == 0 by { if t % SLOT == 0 { SlotAligned(t); } }
    OccupiedExact(s.runs, t, level, Size(level));
    forall i | 0 <= i < |s.runs|
      ensures s.runs[i].virt + s.runs[i].len < t || t + PAGE <= s.runs[i].virt
    {
      SlotAround(t, level);
      assert s.runs[i].Sound();
      assert !Reaches(s.runs[i], t, Size(level));
    }
    if t != s.cursor { SlotRoom(t); }
    LastPage(t);
  }

  lemma LastPage(t: Word)
    requires t % PAGE == 0
    ensures t + PAGE <= SPACE
  {
    assert t == t / PAGE * 0x1000;
  }

  lemma SlotAligned(t: Word)
    requires t % SLOT == 0
    ensures t % PAGE == 0
  {
    assert t == t / SLOT * 0x800_0000 * 0x1000;
  }

  lemma SlotRoom(t: Word)
    requires t % SLOT == 0
    ensures t + PAGE < SPACE
  {
    assert t == t / SLOT * SLOT;
  }

  lemma SlotAround(t: Word, level: nat)
    requires t % PAGE == 0 && (level == 1 || level == 4)
    ensures Base(t, level) <= t && t + PAGE <= Base(t, level) + Size(level)
  {
    if level == 1 {
      BaseNested(t, 1);
      BaseNested(t, 2);
      BaseNested(t, 3);
    }
  }

  /**
   * One call: the page was free, is mapped afterwards, and below the last page the cursor moves
   * on to an empty slot; at the last page it stays.
   */
  lemma MapStep(s: Space, phys: Word)
    requires Good(s) && RealPage(phys) && MapNext(s, phys).Returns?
    ensures var out := MapNext(s, phys);
            && s.cursor <= out.virt && out.virt % PAGE == 0
            && Unmapped(s.runs, out.virt)
            && Extends(s.runs, out.space.runs, Page(out.virt, phys))
            && !EndsSomewhere(s.runs, out.virt)
            && (Low(s) ==>
                  && Good(out.space) && Low(out.space)
                  && Base(out.virt, 1) + SLOT <= out.space.cursor && out.space.cursor % SLOT == 0
                  && (forall x :: EndsSomewhere(out.space.runs, x) ==>
                      x == out.virt + PAGE || EndsSomewhere(s.runs, x)))
            && (!Low(s) ==> out.virt == s.cursor == out.space.cursor)
  {
    hide FirstFree, AddRun, Sorted, BelowTop, AvoidsInvalid, AllSound, Extends, Occupied;
    var out := MapNext(s, phys);
    var r := Page(out.virt, phys);
    TargetFree(s);
    PageSound(out.virt, phys);
    var k := AddTarget(s, r);
    if Low(s) {
      LowTarget(s);
      InsertKeeps(s.runs, k, r);
      assert out.space.runs[k] == r;
      CursorMoves(out.space.runs, k, out.space.cursor);
      SlotAligned(out.space.cursor);
      SlotRoom(out.space.cursor);
    } else {
      LastStays(s, phys);
    }
  }

  lemma AddTarget(s: Space, r: Run) returns (k: nat)
    requires Good(s) && Target(s).Some? && r.Sound() && LowPhys(r) && r.virt == Target(s).value && r.len == PAGE
    ensures 0 < k <= |s.runs| && AddRun(s.runs, r).runs == s.runs[..k] + [r] + s.runs[k..]
    ensures AllSound(AddRun(s.runs, r).runs) && Sorted(AddRun(s.runs, r).runs)
    ensures Extends(s.runs, AddRun(s.runs, r).runs, r)
    ensures Unmapped(s.runs, r.virt) && !EndsSomewhere(s.runs, r.virt)
  {
    TargetFree(s);
    k := AddPage(s.runs, r);
  }

  lemma LowTarget(s: Space)
    requires Good(s) && Low(s) && Target(s).Some?
    ensures Target(s).value + PAGE < SPACE && Target(s).value > 0
  {
    TargetFree(s);
  }

  /** At the last page the search can only come back to it. */
  lemma LastStays(s: Space, phys: Word)
    requires s.cursor + PAGE == SPACE && MapNext(s, phys).Returns?
    ensures MapNext(s, phys).virt == s.cursor == MapNext(s, phys).space.cursor
  {
    hide AddRun;
    LastIsLast(s.runs, s.cursor);
    LastIsLast(AddRun(s.runs, Page(s.cursor, phys)).runs, s.cursor);
  }

  lemma LastIsLast(rs: seq<Run>, a: Word)
    requires a + PAGE == SPACE
    ensures FirstFree(rs, a).Some? ==> FirstFree(rs, a).value == a
  {
    assert NextSlot(a) == 0;
  }

  ghost predicate EndsSomewhere(rs: seq<Run>, x: int) {
    exists i :: 0 <= i < |rs| && rs[i].virt + rs[i].len == x
  }

  lemma PageSound(virt: Word, phys: Word)
    requires virt % PAGE == 0 && virt + PAGE <= SPACE && RealPage(phys)
    ensures Page(virt, phys).Sound() && LowPhys(Page(virt, phys))
  {
    assert PageOf(phys) % PAGE == 0;
  }

  /** A page that no run ends at is inserted as a run of its own. */
  lemma AddPage(rs: seq<Run>, r: Run) returns (k: nat)
    requires AllSound(rs) && Sorted(rs) && Fits(rs, r) && |rs| > 0 && rs[0].virt <= r.virt
    requires forall i :: 0 <= i < |rs| ==> rs[i].virt + rs[i].len != r.virt
    ensures 0 < k <= |rs| && AddRun(rs, r).runs == rs[..k] + [r] + rs[k..]
    ensures AllSound(AddRun(rs, r).runs) && Sorted(AddRun(rs, r).runs) && Extends(rs, AddRun(rs, r).runs, r)
  {
    k := SlotExists(rs, r.virt);
    AddFromSlot(rs, 0, k, r);
    AddAtSlot(rs, k, r);
    assert rs[k].Sound() && !Continues(rs[k], r);
    k := k + 1;
  }

  lemma InsertKeeps(rs: seq<Run>, k: nat, r: Run)
    requires 0 < k <= |rs| && BelowTop(rs) && AvoidsInvalid(rs) && LowPhys(r) && r.virt + r.len < SPACE
    requires forall i :: 0 <= i < |rs| ==> LowPhys(rs[i])
    requires !(r.phys <= INVALID <= r.phys + r.len)
    ensures var out := rs[..k] + [r] + rs[k..];
            && BelowTop(out) && AvoidsInvalid(out) && out[0] == rs[0]
            && (forall i :: 0 <= i < |out| ==> LowPhys(out[i]))
            && (forall x :: EndsSomewhere(out, x) ==> x == r.virt + r.len || EndsSomewhere(rs, x))
  {
    var out := rs[..k] + [r] + rs[k..];
    forall i | 0 <= i < |out| ensures out[i] == if i < k then rs[i] else if i == k then r else rs[i - 1] {}
    forall x | EndsSomewhere(out, x) ensures x == r.virt + r.len || EndsSomewhere(rs, x) {
      var i :| 0 <= i < |out| && out[i].virt + out[i].len == x;
      if i != k { assert rs[if i < k then i else i - 1].virt + rs[if i < k then i else i - 1].len == x; }
    }
  }

  lemma CursorMoves(rs: seq<Run>, k: nat, next: Word)
    requires k < |rs| && rs[k].len == PAGE && rs[k].virt + PAGE < SPACE && rs[k].virt > 0
    requires FirstFree(rs, rs[k].virt) == Some(next)
    ensures Base(rs[k].virt, 1) + SLOT <= next && next % SLOT == 0 && next > rs[k].virt
  {
    assert Touches(rs[k], Base(rs[k].virt, 1), 1);
    FirstFreeMeaning(rs, rs[k].virt);
    NextBase(rs[k].virt, next);
  }

  lemma NextBase(a: Word, b: Word)
    requires b % SLOT == 0 && b > a
    ensures Base(a, 1) + SLOT <= b
  {
    var x, y := a / SLOT, b / SLOT;
    assert a == x * SLOT + a % SLOT && b == y * SLOT;
    assert x < y;
  }

  // ----- runs of calls -----

  datatype Outcome = Failed | Ran(space: Space, virts: seq<Word>)

  /** A run of map_next_to calls, none of which aborts. */
  function Calls(s: Space, physs: seq<Word>): (out: Outcome)
    ensures out.Ran? ==> |out.virts| == |physs|
  {
    if |physs| == 0 then Ran(s, [])
    else
      var n := |physs| - 1;
      match Calls(s, physs[..n])
      case Failed => Failed
      case Ran(t, virts) =>
        match MapNext(t, physs[n])
        case Aborts => Failed
        case Returns(u, virt) => Ran(u, virts + [virt])
  }

  /** v translates to p, and no run ends at v, so no lookup of v goes astray. */
  ghost predicate Settled(rs: seq<Run>, v: Word, p: Word) {
    Maps(rs, v, p) && !EndsSomewhere(rs, v)
  }

  /** What a run of calls from `start` has established. */
  ghost predicate Progress(start: Word, physs: seq<Word>, t: Space, virts: seq<Word>) {
    && Good(t) && Low(t) && |virts| == |physs|
    && Base(start, 1) + |physs| * SLOT <= t.cursor
    && (if |physs| == 0 then t.cursor == start else t.cursor % SLOT == 0)
    && (forall i :: 0 <= i < |virts| ==> virts[i] < t.cursor)
    && (forall i, j :: 0 <= i < j < |virts| ==> Base(virts[i], 1) + SLOT <= Base(virts[j], 1))
    && (forall i :: 0 <= i < |virts| ==> Settled(t.runs, virts[i], PageOf(physs[i])))
  }

  /**
   * Over every run of calls from below the last page: each call uses a 512 GiB slot of its own,
   * above all earlier ones, and all pages stay mapped to the frames given.
   */
  lemma {:induction false} MapRun(s: Space, physs: seq<Word>)
    requires Good(s) && Low(s) && (forall i :: 0 <= i < |physs| ==> RealPage(physs[i])) && Calls(s, physs).Ran?
    ensures Progress(s.cursor, physs, Calls(s, physs).space, Calls(s, physs).virts)
  {
    hide MapNext;
    if |physs| > 0 {
      var n := |physs| - 1;
      MapRun(s, physs[..n]);
      var before := Calls(s, physs[..n]);
      RunStep(s.cursor, physs[..n], before.space, before.virts, physs[n]);
      assert physs == physs[..n] + [physs[n]];
    }
  }

  lemma RunStep(start: Word, physs: seq<Word>, s: Space, virts: seq<Word>, phys: Word)
    requires Progress(start, physs, s, virts) && RealPage(phys) && MapNext(s, phys).Returns?
    ensures Progress(start, physs + [phys], MapNext(s, phys).space, virts + [MapNext(s, phys).virt])
  {
    hide Good, Low, MapNext, Extends, Settled, Unmapped, RealPage, EndsSomewhere;
    var n, out := |physs|, MapNext(s, phys);
    var virt, vs, ps := out.virt, virts + [out.virt], physs + [phys];
    MapStep(s, phys);
    SettledNow(s.runs, out.space.runs, virt, phys);
    CursorClimbs(start, n, s.cursor, virt, out.space.cursor);
    forall i | 0 <= i < n
      ensures Settled(out.space.runs, virts[i], PageOf(physs[i]))
      ensures Base(virts[i], 1) + SLOT <= Base(virt, 1)
    {
      SettledStill(s.runs, out.space.runs, virts[i], PageOf(physs[i]), virt, phys);
      NextBase(virts[i], s.cursor);
      BaseAbove(s.cursor, virt);
    }
    forall i | 0 <= i < |vs| ensures Settled(out.space.runs, vs[i], PageOf(ps[i])) && vs[i] < out.space.cursor {
      if i < n { assert vs[i] == virts[i] && ps[i] == physs[i]; }
    }
    forall i, j | 0 <= i < j < |vs| ensures Base(vs[i], 1) + SLOT <= Base(vs[j], 1) {
      if j < n { assert vs[i] == virts[i] && vs[j] == virts[j]; }
    }
  }

  lemma BaseAbove(b: Word, a: Word)
    requires b % SLOT == 0 && b <= a
    ensures b <= Base(a, 1)
  {
    var x, y := a / SLOT, b / SLOT;
    assert a == x * SLOT + a % SLOT && b == y * SLOT;
    assert y <= x;
  }

  lemma CursorClimbs(start: Word, n: nat, cursor: Word, virt: Word, next: Word)
    requires Base(start, 1) + n * SLOT <= cursor && (n > 0 ==> cursor % SLOT == 0) && (n == 0 ==> cursor == start)
    requires cursor <= virt && Base(virt, 1) + SLOT <= next
    ensures Base(start, 1) + (n + 1) * SLOT <= next
  {
    if n > 0 { BaseAbove(cursor, virt); } else { BaseAbove(Base(start, 1), virt); }
  }

  lemma SettledNow(rs: seq<Run>, out: seq<Run>, virt: Word, phys: Word)
    requires Extends(rs, out, Page(virt, phys)) && !EndsSomewhere(rs, virt)
    requires forall x :: EndsSomewhere(out, x) ==> x == virt + PAGE || EndsSomewhere(rs, x)
    ensures Settled(out, virt, PageOf(phys))
  {
    assert Page(virt, phys).Covers(virt);
  }

  lemma SettledStill(rs: seq<Run>, out: seq<Run>, v: Word, p: Word, virt: Word, phys: Word)
    requires Settled(rs, v, p) && v < virt && Extends(rs, out, Page(virt, phys))
    requires forall x :: EndsSomewhere(out, x) ==> x == virt + PAGE || EndsSomewhere(rs, x)
    ensures Settled(out, v, p)
  {
  }

  lemma StaysGood(s: Space, physs: seq<Word>)
    requires Good(s) && Low(s) && (forall i :: 0 <= i < |physs| ==> RealPage(physs[i])) && Calls(s, physs).Ran?
    ensures Good(Calls(s, physs).space) && Low(Calls(s, physs).space)
  {
    MapRun(s, physs);
  }

  /** Each page was unmapped just before the call that handed it out. */
  lemma FreshJustBefore(s: Space, physs: seq<Word>, i: nat)
    requires Good(s) && Low(s) && (forall j :: 0 <= j < |physs| ==> RealPage(physs[j])) && Calls(s, physs).Ran?
    requires i < |physs|
    ensures Calls(s, physs[..i]).Ran?
    ensures Unmapped(Calls(s, physs[..i]).space.runs, Calls(s, physs).virts[i])
  {
    hide MapNext, Good, Low, Unmapped, Extends, EndsSomewhere, RealPage;
    var n := |physs| - 1;
    if i < n {
      assert physs[..n][..i] == physs[..i];
      FreshJustBefore(s, physs[..n], i);
    } else {
      StaysGood(s, physs[..n]);
      MapStep(Calls(s, physs[..n]).space, physs[n]);
    }
  }

  /** No byte of the page at v is mapped. */
  ghost predicate Unmapped(rs: seq<Run>, v: int) {
    forall a :: v <= a < v + PAGE ==> !Mapped(rs, a)
  }

  /** At the end of the run every page handed out translates to its frame, whatever is cached. */
  lemma AllTranslate(s: Space, physs: seq<Word>, i: nat, cache: nat)
    requires Good(s) && Low(s) && (forall j :: 0 <= j < |physs| ==> RealPage(physs[j])) && Calls(s, physs).Ran?
    requires i < |physs| && cache < |Calls(s, physs).space.runs|
    ensures Translate(Calls(s, physs).space.runs, cache, Calls(s, physs).virts[i]).value == PageOf(physs[i])
  {
    MapRun(s, physs);
    var rs, v := Calls(s, physs).space.runs, Calls(s, physs).virts[i];
    VirtAligned(s, physs, i);
    forall j | 0 <= j < |rs| ensures !EndsAt(rs[j], v) {}
    TranslateExact(rs, cache, v);
    var k :| 0 <= k < |rs| && rs[k].Covers(v) && PageOf(physs[i]) == rs[k].phys + (v - rs[k].virt);
    MapsAt(rs, k, v);
  }

  lemma VirtAligned(s: Space, physs: seq<Word>, i: nat)
    requires Good(s) && Low(s) && (forall j :: 0 <= j < |physs| ==> RealPage(physs[j])) && Calls(s, physs).Ran?
    requires i < |physs|
    ensures PageOf(Calls(s, physs).virts[i]) == Calls(s, physs).virts[i]
  {
    hide MapNext, Good, Low, RealPage, PageOf;
    var n := |physs| - 1;
    if i < n {
      VirtAligned(s, physs[..n], i);
    } else {
      StaysGood(s, physs[..n]);
      ReturnedAligned(Calls(s, physs[..n]).space, physs[n]);
    }
  }

  lemma ReturnedAligned(s: Space, phys: Word)
    requires Good(s) && MapNext(s, phys).Returns?
    ensures PageOf(MapNext(s, phys).virt) == MapNext(s, phys).virt
  {
    hide Good, AddRun, FirstFree;
    TargetFree(s);
  }

  /** From the lowest high-half slot at most 255 calls return; from slot k, at most 511 - k. */
  lemma CallsBounded(s: Space, physs: seq<Word>)
    requires Good(s) && Low(s) && (forall j :: 0 <= j < |physs| ==> RealPage(physs[j])) && Calls(s, physs).Ran?
    ensures |physs| <= 511 - s.cursor / SLOT % 512
  {
    MapRun(s, physs);
    SlotsAbove(s.cursor, |physs|);
  }

  lemma SlotsAbove(a: Word, n: nat)
    requires HighHalf(a) && Base(a, 1) + n * SLOT < SPACE
    ensures n <= 511 - a / SLOT % 512
  {
    var q := a / SLOT;
    assert Base(a, 1) == q * SLOT;
    assert 0x1FF_FF00 <= q < 0x200_0000 && q % 512 == q - 0x1FF_FE00;
  }

  // ----- the last page of the address space -----

  /** From the last page every call hands out that page again, on any list: its run ends at 2^64 and is not found. */
  lemma {:induction false} LastPageRepeats(s: Space, physs: seq<Word>)
    requires s.cursor + PAGE == SPACE && Calls(s, physs).Ran?
    ensures Calls(s, physs).space.cursor == s.cursor
    ensures forall i :: 0 <= i < |physs| ==> Calls(s, physs).virts[i] == s.cursor
  {
    hide MapNext;
    if |physs| > 0 {
      var n := |physs| - 1;
      LastPageRepeats(s, physs[..n]);
      LastStays(Calls(s, physs[..n]).space, physs[n]);
    }
  }

  /**
   * The pages handed out by two or more calls are pairwise different exactly when the cursor starts below the
   * last page.
   */
  lemma DistinctExact(s: Space, physs: seq<Word>)
    requires Good(s) && (forall j :: 0 <= j < |physs| ==> RealPage(physs[j])) && Calls(s, physs).Ran? && |physs| >= 2
    ensures var virts := Calls(s, physs).virts;
            (forall i, j :: 0 <= i < j < |virts| ==> virts[i] != virts[j]) <==> Low(s)
  {
    var virts := Calls(s, physs).virts;
    if Low(s) {
      MapRun(s, physs);
      forall i, j | 0 <= i < j < |virts| ensures virts[i] != virts[j] {
        assert Base(virts[i], 1) + SLOT <= Base(virts[j], 1);
      }
    } else {
      LastPage(s.cursor);
      LastPageRepeats(s, physs);
      assert virts[0] == virts[1];
    }
  }

  /** After the run every page handed out translates to its frame, whatever is cached. */
  ghost predicate AllFound(s: Space, physs: seq<Word>)
    requires Calls(s, physs).Ran?
  {
    var out := Calls(s, physs);
    forall i: nat, cache: nat :: i < |physs| && cache < |out.space.runs| ==>
        Found(out.space.runs, cache, out.virts[i], physs[i])
  }

  ghost predicate Found(rs: seq<Run>, cache: nat, virt: Word, phys: Word)
    requires cache < |rs|
  {
    Translate(rs, cache, virt).value == PageOf(phys)
  }

  /** Exactly when the cursor starts below the last page. */
  lemma TranslateAllExact(s: Space, physs: seq<Word>)
    requires Good(s) && (forall j :: 0 <= j < |physs| ==> RealPage(physs[j])) && Calls(s, physs).Ran? && |physs| >= 1
    ensures AllFound(s, physs) <==> Low(s)
  {
    hide Good, Translate, Calls, RealPage;
    var out := Calls(s, physs);
    if Low(s) {
      forall i: nat, cache: nat | i < |physs| && cache < |out.space.runs|
        ensures Found(out.space.runs, cache, out.virts[i], physs[i])
      {
        AllTranslate(s, physs, i, cache);
      }
    } else {
      LastIsCursor(s);
      LastPageRepeats(s, physs);
      OnlyTops(s, physs);
      LastNotFound(s, out.space.runs);
      NotInvalid(physs[0]);
      assert !Found(out.space.runs, 0, out.virts[0], physs[0]);
    }
  }

  lemma LastIsCursor(s: Space)
    requires Good(s) && !Low(s)
    ensures s.cursor + PAGE == SPACE
  {
    LastPage(s.cursor);
  }

  lemma NotInvalid(phys: Word)
    requires RealPage(phys)
    ensures PageOf(phys) != INVALID
  {
  }

  /** A run of exactly the last page. */
  predicate IsTop(r: Run) { r.virt + PAGE == SPACE && r.len == PAGE }

  /** Calls from the last page add runs of that page only, behind the first run. */
  lemma {:induction false} OnlyTops(s: Space, physs: seq<Word>)
    requires Good(s) && s.cursor + PAGE == SPACE && Calls(s, physs).Ran?
    ensures var out := Calls(s, physs).space.runs;
            |out| > 0 && out[0] == s.runs[0] && forall i :: 0 <= i < |out| ==> out[i] in s.runs || IsTop(out[i])
    ensures |physs| > 0 ==> forall i :: 0 <= i < |s.runs| ==> !EndsAt(s.runs[i], s.cursor)
  {
    hide MapNext, Sorted, AddRun, Occupied;
    if |physs| > 0 {
      var n := |physs| - 1;
      OnlyTops(s, physs[..n]);
      LastPageRepeats(s, physs[..n]);
      var before := Calls(s, physs[..n]).space;
      if n == 0 { NoneEndsAtLast(s, physs[0]); }
      TopAdded(before, physs[n], s.runs);
    }
  }

  lemma NoneEndsAtLast(s: Space, phys: Word)
    requires Good(s) && s.cursor + PAGE == SPACE && MapNext(s, phys).Returns?
    ensures forall i :: 0 <= i < |s.runs| ==> !EndsAt(s.runs[i], s.cursor)
  {
    TargetFree(s);
    LastStays(s, phys);
  }

  lemma TopAdded(t: Space, phys: Word, rs: seq<Run>)
    requires t.cursor + PAGE == SPACE && MapNext(t, phys).Returns? && |t.runs| > 0
    requires forall i :: 0 <= i < |rs| ==> !EndsAt(rs[i], t.cursor) && rs[i].virt + rs[i].len < SPACE
    requires forall i :: 0 <= i < |t.runs| ==> t.runs[i] in rs || IsTop(t.runs[i])
    ensures var out := MapNext(t, phys).space.runs;
            |out| > 0 && out[0] == t.runs[0] && forall i :: 0 <= i < |out| ==> out[i] in rs || IsTop(out[i])
  {
    hide FirstFree, Occupied;
    LastStays(t, phys);
    var r := Page(t.cursor, phys);
    forall i | 0 <= i < |t.runs| ensures !Continues(t.runs[i], r) {
      if !IsTop(t.runs[i]) {
        var j :| 0 <= j < |rs| && rs[j] == t.runs[i];
      }
    }
    var k := AddFromInserts(t.runs, 0, r);
  }

  /** The last page is not found by the scan. */
  lemma LastNotFound(s: Space, out: seq<Run>)
    requires Good(s) && s.cursor + PAGE == SPACE && |out| > 0 && out[0] == s.runs[0]
    requires forall i :: 0 <= i < |s.runs| ==> !EndsAt(s.runs[i], s.cursor)
    requires forall i :: 0 <= i < |out| ==> out[i] in s.runs || IsTop(out[i])
    ensures Translate(out, 0, s.cursor).value == INVALID
  {
    var page := s.cursor;
    assert PageOf(page) == page;
    forall i | 0 <= i < |out| ensures !out[i].Hits(page) {
      if out[i] in s.runs {
        var j :| 0 <= j < |s.runs| && s.runs[j] == out[i];
        EndsBefore(s.runs[j], page);
      }
    }
    assert s.runs[0].virt + s.runs[0].len < SPACE && s.runs[0].Sound();
    EndsBefore(s.runs[0], page);
  }

  lemma EndsBefore(r: Run, page: Word)
    requires r.Sound() && r.virt + r.len < SPACE && page + PAGE == SPACE && !EndsAt(r, page)
    ensures r.End() < page && r.virt < page
  {
    AlignedSum(r.virt, r.len);
    AlignedSum(page, r.virt + r.len);
    var d := page - (r.virt + r.len);
    if d < 0 { BelowNull(d); }
  }

  lemma BelowNull(d: int)
    requires -PAGE < d < 0
    ensures d % PAGE == d + PAGE
  {
  }

  /** Two calls on a concrete list that both return the last page. */
  lemma TopPageRepeats()
    ensures var top := SPACE - PAGE;
            var s := Space([Run(0xFFFF_8000_0000_0000, 0, 0x1000)], top);
            && MapNext(s, 0x5000).Returns? && MapNext(s, 0x5000).virt == top
            && MapNext(MapNext(s, 0x5000).space, 0x6000).Returns?
            && MapNext(MapNext(s, 0x5000).space, 0x6000).virt == top
  {
    var top: Word := SPACE - PAGE;
    var r0 := Run(0xFFFF_8000_0000_0000, 0, 0x1000);
    var s := Space([r0], top);
    var r1 := Page(top, 0x5000);
    assert AddRun(s.runs, r1).runs == [r0, r1];
    assert !Occupied([r0, r1], top, 1) && !Occupied([r0, r1], top, 4);
    assert MapNext(s, 0x5000) == Returns(Space([r0, r1], top), top);
    var r2 := Page(top, 0x6000);
    assert AddFrom([r0, r1], 0, r2) == AddFrom([r0, r1], 1, r2);
    assert AddRun([r0, r1], r2).runs == [r0, r1, r2];
    assert !Occupied([r0, r1, r2], top, 1);
  }
}
