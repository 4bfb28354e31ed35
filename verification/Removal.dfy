// Removing a range: releasing, trimming and splitting entries, and when that is right.

module Removal {
  import opened Words
  import opened RunList

  /** Fault: the loop followed the `next` field of an entry it had just released.  Endless: it never stops. */
  datatype Removal = Done(runs: seq<Run>) | Fault | Endless

  /** What one loop iteration does to a run that passes the test, when it is not released. */
  function Cut(r: Run, page: Word, length: Word): (parts: seq<Run>)
    requires r.Hits(page) && r.len != length
    ensures |parts| == 1 || (|parts| == 2 && r.virt < page && parts[1].virt == Add(page, length))
    ensures |parts| == 2 <==> r.virt != page && r.End() != Add(page, length)
  {
    if r.virt == page then [Run(Add(r.virt, length), Add(r.phys, length), Sub(r.len, length))]
    else if r.End() == Add(page, length) then [r.(len := Sub(r.len, length))]
    else
      var before := Sub(page, r.virt);
      [r.(len := before), Run(Add(page, length), Add(Add(r.phys, before), length), Sub(Sub(r.len, before), length))]
  }

  /** Drops run i. */
  function Without(rs: seq<Run>, i: nat): seq<Run>
    requires i < |rs|
  {
    rs[..i] + rs[i + 1..]
  }

  /** Puts `parts` in the place of run i. */
  function Splice(rs: seq<Run>, i: nat, parts: seq<Run>): seq<Run>
    requires i < |rs|
  {
    rs[..i] + parts + rs[i + 1..]
  }

  /** The run holds the page or ends there, and is neither released nor trimmed at the front. */
  predicate Split(r: Run, page: Word, length: Word) {
    r.virt < page <= r.virt + r.len < SPACE && r.len != length
  }

  /** The run passes the test and has exactly the length to remove. */
  predicate Whole(r: Run, page: Word, length: Word) { r.Hits(page) && r.len == length }

  /** A split by a range that passes 2^64; what is split off is not released at once. */
  predicate Loops(r: Run, page: Word, length: Word) {
    page + length >= SPACE && Split(r, page, length) && r.virt + r.len - (page + length - SPACE) != length
  }

  /** How far the loop is from its end; a run that has been split off is passed over once more. */
  ghost function Remaining(rs: seq<Run>, i: nat, page: Word, length: Word): int {
    2 * (|rs| - i) - (if i < |rs| && !Split(rs[i], page, length) then 1 else 0)
  }

  /** What a split leaves behind the range is not split again, unless the loop never ends. */
  lemma SplitOnce(r: Run, page: Word, length: Word)
    requires r.Hits(page) && r.len != length && !Loops(r, page, length)
    ensures var parts := Cut(r, page, length);
            |parts| == 2 ==> Split(r, page, length) && !Split(parts[1], page, length)
    ensures var parts := Cut(r, page, length);
            |parts| == 2 && page + length < SPACE ==> !Whole(parts[1], page, length)
  {
  }

  /**
   * The loop of translator_remove_entry_virtual from position i on.  It runs while
   * i < size - 1, so it never looks at the last run.  An entry that is released is zeroed
   * by free, so going on from it dereferences a null pointer.
   */
  function RemoveFrom(rs: seq<Run>, i: nat, page: Word, length: Word): Removal
    decreases Remaining(rs, i, page, length)
  {
    if i + 1 >= |rs| then Done(rs)
    else if !rs[i].Hits(page) then RemoveFrom(rs, i + 1, page, length)
    else if rs[i].len == length then
      if i + 1 < |rs| - 2 then Fault else Done(Without(rs, i))
    else if Loops(rs[i], page, length) then Endless
    else
      SplitOnce(rs[i], page, length);
      RemoveFrom(Splice(rs, i, Cut(rs[i], page, length)), i + 1, page, length)
  }

  /** translator_remove_entry_virtual.  With no entries, size - 1 wraps and the loop reads a null `first`. */
  function Remove(rs: seq<Run>, page: Word, length: Word): Removal {
    if |rs| == 0 then Fault else RemoveFrom(rs, 0, page, length)
  }

  /** What is still to come at position i, before (or after) an entry has been released. */
  function Rest(rs: seq<Run>, i: nat, released: bool, page: Word, length: Word): Removal {
    if |rs| == 0 then Fault
    else if !released then RemoveFrom(rs, i, page, length)
    else if i < |rs| - 1 then Fault else Done(rs)
  }

  /** The list is sound and denotes the old mapping without the range. */
  ghost predicate Removes(old_: seq<Run>, new_: seq<Run>, page: int, length: int) {
    AllSound(new_) && forall v, p :: Maps(new_, v, p) <==> Maps(old_, v, p) && !(page <= v < page + length)
  }

  /** The range is a whole number of pages lying inside run k. */
  ghost predicate Inside(rs: seq<Run>, k: nat, page: Word, length: Word) {
    && k < |rs| && 0 < length && page % PAGE == 0 && length % PAGE == 0
    && rs[k].virt <= page && page + length <= rs[k].virt + rs[k].len
    && page + length <= SPACE
  }

  /**
   * When removal works: the run is not the last one and stays below 2^64; no run that the
   * loop visits ends exactly where the range starts; and a run released whole is among the
   * two before the last, so that the loop stops right after it.
   */
  ghost predicate Removable(rs: seq<Run>, k: nat, page: Word, length: Word)
    requires k < |rs|
  {
    && k < |rs| - 1 && rs[k].virt + rs[k].len < SPACE
    && (forall j :: 0 <= j < |rs| - 1 && (j < k || rs[k].len != length) ==> !EndsAt(rs[j], page))
    && (rs[k].len == length ==> k >= |rs| - 3)
  }

  /** The intended result. */
  function Carved(rs: seq<Run>, k: nat, page: Word, length: Word): seq<Run>
    requires k < |rs| && rs[k].Hits(page)
  {
    if rs[k].len == length then Without(rs, k) else Splice(rs, k, Cut(rs[k], page, length))
  }

  lemma {:induction false} RemoveFromNoHit(rs: seq<Run>, i: nat, k: nat, page: Word, length: Word)
    requires i <= k < |rs| && forall j :: i <= j < k && j < |rs| - 1 ==> !rs[j].Hits(page)
    ensures RemoveFrom(rs, i, page, length) == RemoveFrom(rs, k, page, length)
    decreases k - i
  {
    if i < k { RemoveFromNoHit(rs, i + 1, k, page, length); }
  }

  lemma RestStart(rs: seq<Run>, page: Word, length: Word)
    ensures Remove(rs, page, length) == Rest(rs, 0, false, page, length)
  {
  }

  /** One iteration, and what is still to come after it. */
  lemma RestStep(rs: seq<Run>, i: nat, page: Word, length: Word)
    requires i + 1 < |rs| && Rest(rs, i, false, page, length) != Endless
    ensures !rs[i].Hits(page) ==>
              && Rest(rs, i, false, page, length) == Rest(rs, i + 1, false, page, length)
              && Remaining(rs, i + 1, page, length) < Remaining(rs, i, page, length)
    ensures Whole(rs[i], page, length) ==>
              Rest(rs, i, false, page, length) == Rest(Without(rs, i), i + 1, true, page, length)
    ensures rs[i].Hits(page) && rs[i].len != length ==>
              var next := Splice(rs, i, Cut(rs[i], page, length));
              && Rest(rs, i, false, page, length) == Rest(next, i + 1, false, page, length)
              && Remaining(next, i + 1, page, length) < Remaining(rs, i, page, length)
  {
    if rs[i].Hits(page) && rs[i].len != length {
      SplitOnce(rs[i], page, length);
      var parts := Cut(rs[i], page, length);
      if |parts| == 2 { assert Splice(rs, i, parts)[i + 1] == parts[1]; }
    }
  }

  /** No entry to go on from. */
  lemma RestNull(rs: seq<Run>, i: nat, released: bool, page: Word, length: Word)
    requires |rs| == 0 || (released && i + 1 < |rs|)
    ensures Rest(rs, i, released, page, length) == Fault
  {
  }

  lemma RestEnd(rs: seq<Run>, i: nat, released: bool, page: Word, length: Word)
    requires 0 < |rs| <= i + 1
    ensures Rest(rs, i, released, page, length) == Done(rs)
  {
  }

  lemma RemainingPositive(rs: seq<Run>, i: nat, page: Word, length: Word)
    requires i < |rs|
    ensures Remaining(rs, i, page, length) > 0
  {
  }

  /** What the loop has passed stays as it is. */
  lemma {:induction false} PrefixKept(rs: seq<Run>, i: nat, page: Word, length: Word)
    requires i <= |rs|
    ensures var out := RemoveFrom(rs, i, page, length);
            out.Done? ==> i <= |out.runs| && out.runs[..i] == rs[..i]
    decreases Remaining(rs, i, page, length)
  {
    if i + 1 >= |rs| {
    } else if !rs[i].Hits(page) {
      PrefixKept(rs, i + 1, page, length);
      assert rs[..i] == rs[..i + 1][..i];
      var out := RemoveFrom(rs, i + 1, page, length);
      if out.Done? { assert out.runs[..i] == out.runs[..i + 1][..i]; }
    } else if rs[i].len == length {
      assert Without(rs, i)[..i] == rs[..i];
    } else if !Loops(rs[i], page, length) {
      SplitOnce(rs[i], page, length);
      var next := Splice(rs, i, Cut(rs[i], page, length));
      PrefixKept(next, i + 1, page, length);
      var out := RemoveFrom(next, i + 1, page, length);
      if out.Done? {
        assert out.runs[..i] == out.runs[..i + 1][..i];
        assert next[..i + 1][..i] == rs[..i];
      }
    }
  }

  /** Parts of r, in order on both sides. */
  ghost predicate Fragments(parts: seq<Run>, r: Run) {
    && (forall i :: 0 <= i < |parts| ==>
          && r.virt <= parts[i].virt && parts[i].virt + parts[i].len <= r.virt + r.len
          && r.phys <= parts[i].phys && parts[i].phys + parts[i].len <= r.phys + r.len)
    && (forall i, j :: 0 <= i < j < |parts| ==>
          && parts[i].virt + parts[i].len <= parts[j].virt
          && parts[i].phys + parts[i].len <= parts[j].phys)
  }

  /** Cutting a run that holds the range leaves sound parts that cover the run minus the range. */
  lemma CutMeaning(r: Run, page: Word, length: Word)
    requires r.Sound() && 0 < length && r.virt + r.len < SPACE && r.len != length
    requires page % PAGE == 0 && length % PAGE == 0
    requires r.virt <= page && page + length <= r.virt + r.len
    ensures Fragments(Cut(r, page, length), r)
    ensures Removes([r], Cut(r, page, length), page, length)
  {
    var c := Cut(r, page, length);
    CutSound(r, page, length);
    forall v, p ensures Maps(c, v, p) <==> Maps([r], v, p) && !(page <= v < page + length) {
      MapsOne(r, v, p);
      MapsOne(c[0], v, p);
      if |c| == 2 {
        MapsConcat([c[0]], [c[1]], v, p);
        MapsOne(c[1], v, p);
        assert c == [c[0]] + [c[1]];
      } else {
        assert c == [c[0]];
      }
    }
  }

  /** When the range lies inside the run, nothing in Cut wraps. */
  lemma CutForm(r: Run, page: Word, length: Word)
    requires 0 < length && r.virt + r.len < SPACE && r.phys + r.len <= SPACE && r.len != length
    requires r.virt <= page && page + length <= r.virt + r.len
    ensures var before, after := page - r.virt, r.virt + r.len - (page + length);
            Cut(r, page, length) ==
            if before == 0 then [Run(page + length, r.phys + length, after)]
            else if after == 0 then [r.(len := before)]
            else [r.(len := before), Run(page + length, r.phys + before + length, after)]
  {
  }

  lemma CutSound(r: Run, page: Word, length: Word)
    requires r.Sound() && 0 < length && r.virt + r.len < SPACE && r.len != length
    requires page % PAGE == 0 && length % PAGE == 0
    requires r.virt <= page && page + length <= r.virt + r.len
    ensures Fragments(Cut(r, page, length), r)
    ensures AllSound(Cut(r, page, length))
    ensures forall i :: 0 <= i < |Cut(r, page, length)| ==>
              Cut(r, page, length)[i].phys == r.phys + (Cut(r, page, length)[i].virt - r.virt)
  {
    CutForm(r, page, length);
    hide Cut;
    var before, after := page - r.virt, r.virt + r.len - (page + length);
    AlignedSum(page, r.virt);
    AlignedSum(page, length);
    AlignedSum(r.virt, r.len);
    AlignedSum(r.virt + r.len, page + length);
    AlignedSum(r.phys, before);
    AlignedSum(r.phys + before, length);
    var c := Cut(r, page, length);
    assert c[0].Sound();
    assert |c| == 2 ==> c[1].Sound();
  }

  lemma SpliceMaps(rs: seq<Run>, k: nat, parts: seq<Run>, v: int, p: int)
    requires k < |rs|
    ensures Maps(Splice(rs, k, parts), v, p) <==> Maps(Without(rs, k), v, p) || Maps(parts, v, p)
    ensures Maps(rs, v, p) <==> Maps(Without(rs, k), v, p) || Maps([rs[k]], v, p)
  {
    MapsConcat(rs[..k] + parts, rs[k + 1..], v, p);
    MapsConcat(rs[..k], parts, v, p);
    MapsConcat(rs[..k], rs[k + 1..], v, p);
    MapsConcat(rs[..k] + [rs[k]], rs[k + 1..], v, p);
    MapsConcat(rs[..k], [rs[k]], v, p);
    assert rs == rs[..k] + [rs[k]] + rs[k + 1..];
  }

  lemma SpliceRemoves(rs: seq<Run>, k: nat, parts: seq<Run>, page: Word, length: Word)
    requires AllSound(rs) && Disjoint(rs) && AllSound(parts) && Inside(rs, k, page, length)
    requires Removes([rs[k]], parts, page, length)
    ensures Removes(rs, Splice(rs, k, parts), page, length)
  {
    var ns := Splice(rs, k, parts);
    forall v, p ensures Maps(ns, v, p) <==> Maps(rs, v, p) && !(page <= v < page + length) {
      SpliceMaps(rs, k, parts, v, p);
      if Maps(Without(rs, k), v, p) && page <= v < page + length {
        var i :| 0 <= i < |Without(rs, k)| && Without(rs, k)[i].Covers(v);
        CoverUnique(rs, if i < k then i else i + 1, k, v);
      }
    }
  }

  /** The run that position i of a spliced list comes from. */
  function Origin(k: nat, n: nat, i: nat): nat {
    if i < k then i else if i < k + n then k else i - n + 1
  }

  lemma SpliceKeepsOrder(rs: seq<Run>, k: nat, parts: seq<Run>)
    requires k < |rs| && Fragments(parts, rs[k])
    ensures Sorted(rs) ==> Sorted(Splice(rs, k, parts))
    ensures Disjoint(rs) ==> Disjoint(Splice(rs, k, parts))
  {
    var ns, n := Splice(rs, k, parts), |parts|;
    forall i, j | 0 <= i < j < |ns|
      ensures Sorted(rs) ==> ns[i].virt + ns[i].len <= ns[j].virt
      ensures Disjoint(rs) ==> Apart(ns[i], ns[j])
    {
      var i', j' := Origin(k, n, i), Origin(k, n, j);
      assert rs[i'].virt <= ns[i].virt && ns[i].virt + ns[i].len <= rs[i'].virt + rs[i'].len;
      assert rs[j'].virt <= ns[j].virt && ns[j].virt + ns[j].len <= rs[j'].virt + rs[j'].len;
      if i' < j' {
        assert Sorted(rs) ==> rs[i'].virt + rs[i'].len <= rs[j'].virt;
        assert Disjoint(rs) ==> Apart(rs[i'], rs[j']);
      } else {
        assert ns[i] == parts[i - k] && ns[j] == parts[j - k];
      }
    }
  }

  lemma SpliceFlips(rs: seq<Run>, k: nat, parts: seq<Run>)
    requires k < |rs|
    ensures FlipAll(Splice(rs, k, parts)) == Splice(FlipAll(rs), k, FlipAll(parts))
    ensures Fragments(parts, rs[k]) ==> Fragments(FlipAll(parts), FlipAll(rs)[k])
  {
  }

  /** The intended result is the old mapping without the range, in order and disjoint as before. */
  lemma CarvedMeaning(rs: seq<Run>, k: nat, page: Word, length: Word)
    requires AllSound(rs) && Disjoint(rs) && Inside(rs, k, page, length)
    requires rs[k].virt + rs[k].len < SPACE
    ensures var out := Carved(rs, k, page, length);
            && Removes(rs, out, page, length)
            && Disjoint(out) && (Sorted(rs) ==> Sorted(out))
            && (Disjoint(FlipAll(rs)) ==> Disjoint(FlipAll(out)))
  {
    var parts := if rs[k].len == length then [] else Cut(rs[k], page, length);
    assert Carved(rs, k, page, length) == Splice(rs, k, parts);
    if rs[k].len == length {
      assert Removes([rs[k]], [], page, length);
    } else {
      CutMeaning(rs[k], page, length);
    }
    SpliceRemoves(rs, k, parts, page, length);
    SpliceKeepsOrder(rs, k, parts);
    SpliceFlips(rs, k, parts);
    SpliceKeepsOrder(FlipAll(rs), k, FlipAll(parts));
  }

  lemma RemovableWorks(rs: seq<Run>, k: nat, page: Word, length: Word)
    requires AllSound(rs) && Disjoint(rs) && Inside(rs, k, page, length) && Removable(rs, k, page, length)
    ensures Remove(rs, page, length) == Done(Carved(rs, k, page, length))
  {
    forall j | 0 <= j < k ensures !rs[j].Hits(page) { CoversOrEnds(rs, j, k, page); }
    RemoveFromNoHit(rs, 0, k, page, length);
    if rs[k].len != length {
      var ns := Carved(rs, k, page, length);
      forall j | k < j < |ns| - 1 ensures !ns[j].Hits(page) {
        var o := Origin(k, |Cut(rs[k], page, length)|, j);
        if o > k { assert ns[j] == rs[o]; CoversOrEnds(rs, o, k, page); }
      }
      RemoveFromNoHit(ns, k + 1, |ns| - 1, page, length);
    }
  }

  lemma CoversOrEnds(rs: seq<Run>, j: nat, k: nat, page: Word)
    requires Disjoint(rs) && AllSound(rs) && j < |rs| && k < |rs| && j != k && rs[k].Covers(page)
    ensures rs[j].Hits(page) <==> EndsAt(rs[j], page)
  {
    if rs[j].Covers(page) { CoverUnique(rs, j, k, page); }
  }

  /** A visited run that ends where the range starts is released, or split into a run of negative size. */
  lemma StrayBreaks(rs: seq<Run>, i: nat, j: nat, page: Word, length: Word)
    requires AllSound(rs) && Disjoint(rs) && 0 < length && page + length < SPACE
    requires i <= j < |rs| - 1 && EndsAt(rs[j], page)
    requires forall m :: i <= m < j ==> !rs[m].Hits(page)
    ensures var out := RemoveFrom(rs, i, page, length);
            out.Done? ==> !AllSound(out.runs) || !Mapped(out.runs, rs[j].virt)
  {
    RemoveFromNoHit(rs, i, j, page, length);
    assert rs[j].Hits(page);
    if rs[j].len == length {
      var out := Without(rs, j);
      if Mapped(out, rs[j].virt) {
        var m :| 0 <= m < |out| && out[m].Covers(rs[j].virt);
        CoverUnique(rs, if m < j then m else m + 1, j, rs[j].virt);
        assert false;
      }
    } else {
      var parts := Cut(rs[j], page, length);
      var ns := Splice(rs, j, parts);
      assert ns[j + 1] == parts[1] && !parts[1].Sound() && !parts[1].Hits(page);
      PrefixKept(ns, j + 2, page, length);
      var out := RemoveFrom(ns, j + 2, page, length);
      assert RemoveFrom(ns, j + 1, page, length) == out;
      if out.Done? {
        assert out.runs[j + 1] == out.runs[..j + 2][j + 1] == ns[..j + 2][j + 1];
      }
    }
  }

  /**
   * For a page range inside one run, removal leaves exactly the old mapping minus the range
   * if and only if the range is Removable.
   */
  lemma RemoveExact(rs: seq<Run>, k: nat, page: Word, length: Word)
    requires AllSound(rs) && Disjoint(rs) && Inside(rs, k, page, length)
    ensures var out := Remove(rs, page, length);
            (out.Done? && Removes(rs, out.runs, page, length)) <==> Removable(rs, k, page, length)
  {
    if Removable(rs, k, page, length) {
      RemovableWorks(rs, k, page, length);
      CarvedMeaning(rs, k, page, length);
    } else {
      RemoveBreaks(rs, k, page, length);
    }
  }

  lemma StillMapped(rs: seq<Run>, out: seq<Run>, k: nat, j: nat, page: Word, length: Word)
    requires Inside(rs, k, page, length) && j < |rs| && rs[j].Sound() && EndsAt(rs[j], page)
    requires !Mapped(out, rs[j].virt)
    ensures !Removes(rs, out, page, length)
  {
    var v, p := rs[j].virt, rs[j].phys;
    assert rs[j].Covers(v);
    assert Maps(rs, v, p) && !Maps(out, v, p);
  }

  /** A run that does not pass the test stays. */
  lemma {:induction false} MissedStays(rs: seq<Run>, i: nat, k: nat, page: Word, length: Word)
    requires k < |rs| && !rs[k].Hits(page)
    ensures var out := RemoveFrom(rs, i, page, length); out.Done? ==> rs[k] in out.runs
    decreases Remaining(rs, i, page, length)
  {
    if i + 1 < |rs| && !Whole(rs[i], page, length) {
      if !rs[i].Hits(page) {
        MissedStays(rs, i + 1, k, page, length);
      } else if !Loops(rs[i], page, length) {
        SplitOnce(rs[i], page, length);
        var parts := Cut(rs[i], page, length);
        var k' := if k < i then k else k + |parts| - 1;
        assert Splice(rs, i, parts)[k'] == rs[k];
        MissedStays(Splice(rs, i, parts), i + 1, k', page, length);
      }
    } else if i + 1 < |rs| {
      assert Without(rs, i)[if k < i then k else k - 1] == rs[k];
    }
  }

  /** A range in a run that reaches 2^64 is never removed: the computed end of the run is 0. */
  lemma TopStays(rs: seq<Run>, k: nat, page: Word, length: Word)
    requires Inside(rs, k, page, length) && rs[k].virt + rs[k].len == SPACE
    ensures var out := Remove(rs, page, length);
            && (out.Done? ==> rs[k] in out.runs)
            && !(out.Done? && Removes(rs, out.runs, page, length))
  {
    MissedStays(rs, 0, k, page, length);
    var out := Remove(rs, page, length);
    if out.Done? {
      var i :| 0 <= i < |out.runs| && out.runs[i] == rs[k];
      assert Maps(out.runs, page, rs[k].phys + (page - rs[k].virt));
    }
  }

  lemma RemoveBreaks(rs: seq<Run>, k: nat, page: Word, length: Word)
    requires AllSound(rs) && Disjoint(rs) && Inside(rs, k, page, length) && !Removable(rs, k, page, length)
    ensures var out := Remove(rs, page, length);
            !(out.Done? && Removes(rs, out.runs, page, length))
  {
    var out := Remove(rs, page, length);
    if rs[k].virt + rs[k].len >= SPACE {
      assert rs[k].Sound();
      TopStays(rs, k, page, length);
      return;
    }
    var n := |rs| - 1;
    var h := FirstHit(rs[..n], page);
    assert forall m :: 0 <= m < h ==> rs[m] == rs[..n][m];
    if h == n {
      RemoveFromNoHit(rs, 0, n, page, length);
      assert Maps(rs, page, rs[k].phys + (page - rs[k].virt));
    } else if h != k {
      CoversOrEnds(rs, h, k, page);
      StrayBreaks(rs, 0, h, page, length);
      if out.Done? && !Mapped(out.runs, rs[h].virt) { StillMapped(rs, out.runs, k, h, page, length); }
    } else {
      forall m | 0 <= m < k ensures !EndsAt(rs[m], page) { assert !rs[m].Hits(page); }
      RemoveFromNoHit(rs, 0, k, page, length);
      assert rs[k].virt + rs[k].len < SPACE;
      if rs[k].len != length {
        var j :| k < j < n && EndsAt(rs[j], page);
        LaterStrayBreaks(rs, k, j, page, length);
        if out.Done? && !Mapped(out.runs, rs[j].virt) { StillMapped(rs, out.runs, k, j, page, length); }
      }
    }
  }

  lemma LaterStrayBreaks(rs: seq<Run>, k: nat, j: nat, page: Word, length: Word)
    requires AllSound(rs) && Disjoint(rs) && Inside(rs, k, page, length)
    requires rs[k].virt + rs[k].len < SPACE && rs[k].len != length
    requires k < j < |rs| - 1 && EndsAt(rs[j], page)
    ensures var out := RemoveFrom(rs, k, page, length);
            out.Done? ==> !AllSound(out.runs) || !Mapped(out.runs, rs[j].virt)
  {
    hide *;
    CutGoesOn(rs, k, page, length);
    var parts := Cut(rs[k], page, length);
    CarvedMeaning(rs, k, page, length);
    StillSound(rs, Splice(rs, k, parts), page, length);
    var j' := j + |parts| - 1;
    SpliceBehind(rs, k, parts, j');
    MissedBetween(rs, k, j, page, length);
    StrayBreaks(Splice(rs, k, parts), k + 1, j', page, length);
  }

  lemma StillSound(rs: seq<Run>, out: seq<Run>, page: Word, length: Word)
    requires Removes(rs, out, page, length)
    ensures AllSound(out)
  {
  }

  /** From the cut run up to the next one that ends at the start of the range, nothing is hit. */
  lemma MissedBetween(rs: seq<Run>, k: nat, j: nat, page: Word, length: Word)
    requires AllSound(rs) && Disjoint(rs) && Inside(rs, k, page, length)
    requires rs[k].virt + rs[k].len < SPACE && rs[k].len != length
    requires k < j < |rs| - 1 && EndsAt(rs[j], page)
    ensures var parts := Cut(rs[k], page, length);
            forall m :: k < m < j + |parts| - 1 ==> !Splice(rs, k, parts)[m].Hits(page)
  {
    hide *;
    CutGoesOn(rs, k, page, length);
    var parts := Cut(rs[k], page, length);
    SpliceBehind(rs, k, parts, j + |parts| - 1);
    forall m | k < m < j + |parts| - 1 ensures !Splice(rs, k, parts)[m].Hits(page) {
      if m < k + |parts| {
        SecondPart(rs, k, page, length);
      } else {
        SpliceBehind(rs, k, parts, m);
        OneStray(rs, m - |parts| + 1, j, k, page);
      }
    }
  }

  /** Only one run ends at the start of the range, and only the run around it holds it. */
  lemma OneStray(rs: seq<Run>, m: nat, j: nat, k: nat, page: Word)
    requires AllSound(rs) && Disjoint(rs) && k < |rs| && rs[k].Covers(page)
    requires m < |rs| && m != k && m != j && j < |rs| && EndsAt(rs[j], page)
    ensures !rs[m].Hits(page)
  {
    CoversOrEnds(rs, m, k, page);
    if EndsAt(rs[m], page) { EndUnique(rs, m, j, page); }
  }

  lemma SpliceBehind(rs: seq<Run>, k: nat, parts: seq<Run>, m: nat)
    requires k < |rs| && k + |parts| <= m < |rs| + |parts| - 1
    ensures |Splice(rs, k, parts)| == |rs| + |parts| - 1 && Splice(rs, k, parts)[m] == rs[m - |parts| + 1]
  {
  }

  /** The loop goes on behind the first part of a run that it cuts. */
  lemma CutGoesOn(rs: seq<Run>, k: nat, page: Word, length: Word)
    requires Inside(rs, k, page, length) && k + 1 < |rs|
    requires rs[k].virt + rs[k].len < SPACE && rs[k].len != length
    ensures 0 < length && page + length < SPACE && rs[k].Hits(page) && rs[k].Covers(page)
    ensures Carved(rs, k, page, length) == Splice(rs, k, Cut(rs[k], page, length))
    ensures RemoveFrom(rs, k, page, length) == RemoveFrom(Splice(rs, k, Cut(rs[k], page, length)), k + 1, page, length)
  {
  }

  lemma SecondPart(rs: seq<Run>, k: nat, page: Word, length: Word)
    requires Inside(rs, k, page, length) && rs[k].Hits(page) && rs[k].len != length
    ensures var parts := Cut(rs[k], page, length);
            |parts| == 2 ==> !Splice(rs, k, parts)[k + 1].Hits(page)
  {
  }

  /** Naming the range by its physical addresses gives the same list, whenever both forms work. */
  lemma RemoveEitherWay(rs: seq<Run>, k: nat, virt: Word, length: Word)
    requires AllSound(rs) && Disjoint(rs) && Disjoint(FlipAll(rs)) && Inside(rs, k, virt, length)
    requires Inside(FlipAll(rs), k, Add(rs[k].phys, virt - rs[k].virt), length)
    requires Removable(rs, k, virt, length)
    ensures Remove(rs, virt, length).Done?
    ensures var phys := Add(rs[k].phys, virt - rs[k].virt);
            var out := Remove(FlipAll(rs), phys, length);
            (out.Done? && FlipAll(out.runs) == Remove(rs, virt, length).runs) <==>
            Removable(FlipAll(rs), k, phys, length)
  {
    var phys := Add(rs[k].phys, virt - rs[k].virt);
    var fs := FlipAll(rs);
    RemovableWorks(rs, k, virt, length);
    if Removable(fs, k, phys, length) {
      RemovableWorks(fs, k, phys, length);
      CarvedFlips(rs, k, virt, phys, length);
    } else {
      RemoveBreaks(fs, k, phys, length);
      CarvedMeaning(rs, k, virt, length);
      var out := Remove(fs, phys, length);
      if out.Done? && FlipAll(out.runs) == Carved(rs, k, virt, length) {
        FlippedRemoves(rs, out.runs, k, virt, phys, length);
      }
    }
  }

  lemma CarvedFlips(rs: seq<Run>, k: nat, virt: Word, phys: Word, length: Word)
    requires AllSound(rs) && Inside(rs, k, virt, length) && Inside(FlipAll(rs), k, phys, length)
    requires phys == rs[k].phys + (virt - rs[k].virt)
    requires rs[k].virt + rs[k].len < SPACE && rs[k].phys + rs[k].len < SPACE
    ensures FlipAll(Carved(FlipAll(rs), k, phys, length)) == Carved(rs, k, virt, length)
  {
    var fs := FlipAll(rs);
    if rs[k].len != length {
      CutForm(rs[k], virt, length);
      CutForm(fs[k], phys, length);
      assert FlipAll(Cut(fs[k], phys, length)) == Cut(rs[k], virt, length);
      SpliceFlips(fs, k, Cut(fs[k], phys, length));
      assert FlipAll(fs) == rs;
    }
  }

  lemma FlippedRemoves(rs: seq<Run>, fo: seq<Run>, k: nat, virt: Word, phys: Word, length: Word)
    requires AllSound(rs) && Disjoint(rs) && Disjoint(FlipAll(rs)) && Inside(rs, k, virt, length)
    requires phys == rs[k].phys + (virt - rs[k].virt)
    requires Removes(rs, FlipAll(fo), virt, length)
    ensures Removes(FlipAll(rs), fo, phys, length)
  {
    var fs := FlipAll(rs);
    assert FlipAll(FlipAll(fo)) == fo;
    forall i | 0 <= i < |fo| ensures fo[i].Sound() { assert FlipAll(fo)[i].Sound(); }
    forall v, p ensures Maps(fo, p, v) <==> Maps(fs, p, v) && !(phys <= p < phys + length) {
      FlipMaps(FlipAll(fo), v, p);
      FlipMaps(rs, v, p);
      if Maps(rs, v, p) {
        var i :| 0 <= i < |rs| && rs[i].Covers(v) && p == rs[i].phys + (v - rs[i].virt);
        assert fs[i].Covers(p);
        if virt <= v < virt + length { CoverUnique(rs, i, k, v); }
        if phys <= p < phys + length { CoverUnique(fs, i, k, p); }
      }
    }
  }

  // ----- empty ranges, and ranges that pass 2^64 -----

  /** A run may be split at the page of an empty range, but the list denotes the same mapping. */
  lemma {:induction false} EmptyRangeKeeps(rs: seq<Run>, i: nat, page: Word)
    requires AllSound(rs) && page % PAGE == 0
    ensures var out := RemoveFrom(rs, i, page, 0);
            out.Done? && AllSound(out.runs) && forall v, p :: Maps(out.runs, v, p) <==> Maps(rs, v, p)
    decreases Remaining(rs, i, page, 0)
  {
    if i + 1 >= |rs| {
    } else if !rs[i].Hits(page) {
      EmptyRangeKeeps(rs, i + 1, page);
    } else {
      assert rs[i].Sound();
      SplitOnce(rs[i], page, 0);
      var next := Splice(rs, i, Cut(rs[i], page, 0));
      EmptyCut(rs[i], page);
      forall v, p ensures Maps(next, v, p) <==> Maps(rs, v, p) { SpliceMaps(rs, i, Cut(rs[i], page, 0), v, p); }
      hide Maps, Cut, Splice;
      SpliceSound(rs, i, Cut(rs[i], page, 0));
      EmptyRangeKeeps(next, i + 1, page);
    }
  }

  lemma SpliceSound(rs: seq<Run>, i: nat, parts: seq<Run>)
    requires i < |rs| && AllSound(rs) && AllSound(parts)
    ensures AllSound(Splice(rs, i, parts))
  {
  }

  lemma EmptyCut(r: Run, page: Word)
    requires r.Sound() && r.Hits(page) && page % PAGE == 0
    ensures AllSound(Cut(r, page, 0))
    ensures forall v, p :: Maps(Cut(r, page, 0), v, p) <==> Maps([r], v, p)
  {
    var parts, before := Cut(r, page, 0), page - r.virt;
    forall v, p ensures Maps(parts, v, p) <==> Maps([r], v, p) {
      MapsOne(r, v, p);
      if |parts| == 2 {
        assert parts == [parts[0]] + [parts[1]];
        MapsConcat([parts[0]], [parts[1]], v, p);
        MapsOne(parts[0], v, p);
        MapsOne(parts[1], v, p);
      } else {
        assert parts == [r];
      }
    }
    if |parts| == 2 {
      AlignedSum(page, r.virt);
      AlignedSum(r.phys, before);
      AlignedSum(r.len, before);
    }
  }

  // ----- when the loop ends -----

  /** The loop before an iteration, or what it has come to. */
  datatype Loop = At(runs: seq<Run>, i: nat) | Ended(out: Removal)

  /** The test of the loop and one iteration, as the code performs them for any range. */
  function Iteration(l: Loop, page: Word, length: Word): Loop {
    if l.Ended? then l
    else
      var rs, i := l.runs, l.i;
      if i + 1 >= |rs| then Ended(Done(rs))
      else if !rs[i].Hits(page) then At(rs, i + 1)
      else if rs[i].len == length then Ended(if i + 1 < |rs| - 2 then Fault else Done(Without(rs, i)))
      else At(Splice(rs, i, Cut(rs[i], page, length)), i + 1)
  }

  function Iterated(l: Loop, page: Word, length: Word, n: nat): Loop
    decreases n
  {
    if n == 0 then l else Iterated(Iteration(l, page, length), page, length, n - 1)
  }

  /** The loop comes to what RemoveFrom says after finitely many iterations. */
  lemma {:induction false} LoopEnds(rs: seq<Run>, i: nat, page: Word, length: Word) returns (n: nat)
    requires RemoveFrom(rs, i, page, length) != Endless
    ensures Iterated(At(rs, i), page, length, n) == Ended(RemoveFrom(rs, i, page, length))
    decreases Remaining(rs, i, page, length)
  {
    n := 0;
    if i + 1 < |rs| && !Whole(rs[i], page, length) {
      if !rs[i].Hits(page) {
        n := LoopEnds(rs, i + 1, page, length);
      } else {
        SplitOnce(rs[i], page, length);
        n := LoopEnds(Splice(rs, i, Cut(rs[i], page, length)), i + 1, page, length);
      }
    }
    n := n + 1;
  }

  /** What is split off ends where the run did, and the next iteration splits it again. */
  lemma SplitAgain(r: Run, page: Word, length: Word)
    requires Loops(r, page, length)
    ensures r.Hits(page)
    ensures var parts := Cut(r, page, length);
            |parts| == 2 && Loops(parts[1], page, length)
  {
  }

  lemma {:induction false} LoopsForever(rs: seq<Run>, i: nat, page: Word, length: Word, n: nat)
    requires i + 1 < |rs| && Loops(rs[i], page, length)
    ensures Iterated(At(rs, i), page, length, n).At?
    decreases n
  {
    if n > 0 {
      SplitAgain(rs[i], page, length);
      hide Cut, Loops;
      LoopsForever(Splice(rs, i, Cut(rs[i], page, length)), i + 1, page, length, n - 1);
    }
  }

  lemma {:induction false} LoopGoesOn(rs: seq<Run>, i: nat, page: Word, length: Word, n: nat)
    requires RemoveFrom(rs, i, page, length) == Endless
    ensures Iterated(At(rs, i), page, length, n).At?
    decreases Remaining(rs, i, page, length)
  {
    if n > 0 {
      if !rs[i].Hits(page) {
        LoopGoesOn(rs, i + 1, page, length, n - 1);
      } else if Loops(rs[i], page, length) {
        LoopsForever(rs, i, page, length, n);
      } else {
        SplitOnce(rs[i], page, length);
        LoopGoesOn(Splice(rs, i, Cut(rs[i], page, length)), i + 1, page, length, n - 1);
      }
    }
  }

  /** Run j is the first that is split or released, and what is split off it is split for ever. */
  ghost predicate LoopsAt(rs: seq<Run>, i: nat, j: nat, page: Word, length: Word) {
    && i <= j < |rs| - 1 && Loops(rs[j], page, length)
    && forall m :: i <= m < j ==> !Split(rs[m], page, length) && !Whole(rs[m], page, length)
  }

  lemma {:induction false} EndlessFrom(rs: seq<Run>, i: nat, page: Word, length: Word)
    ensures RemoveFrom(rs, i, page, length) == Endless <==> exists j :: LoopsAt(rs, i, j, page, length)
    decreases Remaining(rs, i, page, length)
  {
    if i + 1 < |rs| && !Whole(rs[i], page, length) {
      if Loops(rs[i], page, length) {
        SplitAgain(rs[i], page, length);
        assert LoopsAt(rs, i, i, page, length);
      } else if !rs[i].Hits(page) {
        EndlessFrom(rs, i + 1, page, length);
        LaterLoop(rs, rs, i, i + 1, page, length);
      } else {
        SplitOnce(rs[i], page, length);
        var parts := Cut(rs[i], page, length);
        var next := Splice(rs, i, parts);
        EndlessFrom(next, i + 1, page, length);
        if |parts| == 1 {
          LaterLoop(rs, next, i, i + 1, page, length);
        } else {
          SplitEnds(rs, i, i + 1, page, length);
        }
      }
    }
  }

  /** A run that is not split leaves the later ones where they are. */
  lemma LaterLoop(rs: seq<Run>, next: seq<Run>, i: nat, k: nat, page: Word, length: Word)
    requires i < |rs| == |next| && k == i + 1 && next[k..] == rs[k..]
    requires !Whole(rs[i], page, length) && (Split(rs[i], page, length) ==> page + length < SPACE)
    ensures (exists j :: LoopsAt(next, k, j, page, length)) <==> exists j :: LoopsAt(rs, i, j, page, length)
  {
    assert forall m :: i < m < |rs| ==> next[m] == next[k..][m - k] == rs[k..][m - k] == rs[m];
    if j :| LoopsAt(next, k, j, page, length) { assert LoopsAt(rs, i, j, page, length); }
    if j :| LoopsAt(rs, i, j, page, length) { assert LoopsAt(next, k, j, page, length); }
  }

  /** Otherwise what is split off is released next, or the range does not pass 2^64. */
  lemma SplitEnds(rs: seq<Run>, i: nat, k: nat, page: Word, length: Word)
    requires k == i + 1 < |rs| && rs[i].Hits(page) && rs[i].len != length && !Loops(rs[i], page, length)
    requires |Cut(rs[i], page, length)| == 2
    ensures !(exists j :: LoopsAt(rs, i, j, page, length))
    ensures !(exists j :: LoopsAt(Splice(rs, i, Cut(rs[i], page, length)), k, j, page, length))
  {
    SplitOnce(rs[i], page, length);
    var parts := Cut(rs[i], page, length);
    assert Splice(rs, i, parts)[i + 1] == parts[1];
    assert page + length >= SPACE ==> Whole(parts[1], page, length);
  }

  /**
   * The call never returns if and only if the range passes 2^64 and some run but the last is split,
   * with none before it split or released, unless what is split off has just the length to release.
   */
  lemma EndlessExact(rs: seq<Run>, page: Word, length: Word)
    requires |rs| > 0
    ensures (forall n :: Iterated(At(rs, 0), page, length, n).At?) <==> exists j :: LoopsAt(rs, 0, j, page, length)
    ensures Remove(rs, page, length) == Endless <==> exists j :: LoopsAt(rs, 0, j, page, length)
  {
    EndlessFrom(rs, 0, page, length);
    if RemoveFrom(rs, 0, page, length) == Endless {
      forall n ensures Iterated(At(rs, 0), page, length, n).At? { LoopGoesOn(rs, 0, page, length, n); }
    } else {
      var n := LoopEnds(rs, 0, page, length);
      assert !Iterated(At(rs, 0), page, length, n).At?;
    }
  }

  /** A range from the middle of a run past 2^64. */
  lemma PassingTopNeverEnds()
    ensures Remove([Run(0x1000, 0x9000, 0x3000), Run(0x8000, 0x20000, 0x1000)], 0x2000, SPACE - 0x1000) == Endless
  {
    var rs := [Run(0x1000, 0x9000, 0x3000), Run(0x8000, 0x20000, 0x1000)];
    assert LoopsAt(rs, 0, 0, 0x2000, SPACE - 0x1000);
    EndlessExact(rs, 0x2000, SPACE - 0x1000);
  }

  // ----- which entry is released -----

  /** How far from the end the first run lies that is released; 0 when none is, or one that was only split off. */
  function ReleasedBack(rs: seq<Run>, i: nat, page: Word, length: Word): (d: nat)
    ensures d <= |rs| && (i + d > |rs| ==> d == 0)
    decreases |rs| - i
  {
    if i + 1 >= |rs| then 0
    else if Whole(rs[i], page, length) then |rs| - i
    else if page + length >= SPACE && Split(rs[i], page, length) then 0
    else ReleasedBack(rs, i + 1, page, length)
  }

  lemma GoesOn(rs: seq<Run>, i: nat, page: Word, length: Word)
    requires i + 1 < |rs| && Rest(rs, i, false, page, length) != Endless
    ensures !Whole(rs[i], page, length) ==> !Loops(rs[i], page, length)
  {
  }

  /** The index of the run that is released, or the length. */
  function ReleasedAt(rs: seq<Run>, page: Word, length: Word): nat { |rs| - ReleasedBack(rs, 0, page, length) }

  /** It is the first run but the last that passes the test and has just the length to remove. */
  lemma {:induction false} ReleasedFirst(rs: seq<Run>, i: nat, page: Word, length: Word)
    requires page + length < SPACE && i <= |rs|
    ensures var k := |rs| - ReleasedBack(rs, i, page, length);
            && (k < |rs| ==> i <= k < |rs| - 1 && Whole(rs[k], page, length))
            && forall j :: i <= j < |rs| - 1 && j < k ==> !Whole(rs[j], page, length)
    decreases |rs| - i
  {
    if i + 1 < |rs| && !Whole(rs[i], page, length) { ReleasedFirst(rs, i + 1, page, length); }
  }

  /** A removal that works releases the run of the range or none. */
  lemma ReleasedRemovable(rs: seq<Run>, k: nat, page: Word, length: Word)
    requires AllSound(rs) && Disjoint(rs) && Inside(rs, k, page, length) && Removable(rs, k, page, length)
    ensures ReleasedAt(rs, page, length) == if rs[k].len == length then k else |rs|
  {
    ReleasedFirst(rs, 0, page, length);
    assert rs[k].Hits(page);
    forall j | 0 <= j < |rs| - 1 && j != k && (j < k || rs[k].len != length) ensures !Whole(rs[j], page, length) {
      CoversOrEnds(rs, j, k, page);
    }
  }

  /** The only entry released is the first of two, which a lookup of its page has left in the cache. */
  lemma ReleasesFirst()
    ensures var rs := [Run(0x1000, 0x9000, 0x1000), Run(0x5000, 0x20000, 0x1000)];
            ReleasedAt(rs, 0x1000, 0x1000) == 0 && Remove(rs, 0x1000, 0x1000) == Done([rs[1]])
  {
    var rs := [Run(0x1000, 0x9000, 0x1000), Run(0x5000, 0x20000, 0x1000)];
    assert rs[0].Hits(0x1000) && Without(rs, 0) == [rs[1]];
  }

  /** The same at a run that was split off one iteration before. */
  function BackAt(rs: seq<Run>, i: nat, grew: bool, page: Word, length: Word): nat {
    if !grew then ReleasedBack(rs, i, page, length)
    else if i < |rs| && Whole(rs[i], page, length) then 0
    else ReleasedBack(rs, i + 1, page, length)
  }

  lemma BackNow(rs: seq<Run>, i: nat, page: Word, length: Word)
    requires i < |rs| && !Whole(rs[i], page, length) && !Split(rs[i], page, length)
    ensures BackAt(rs, i, true, page, length) == ReleasedBack(rs, i, page, length)
  {
  }

  lemma {:induction false} BackSame(rs: seq<Run>, ns: seq<Run>, i: nat, j: nat, page: Word, length: Word)
    requires i <= |rs| && j <= |ns| && rs[i..] == ns[j..]
    ensures ReleasedBack(rs, i, page, length) == ReleasedBack(ns, j, page, length)
    decreases |rs| - i
  {
    if i + 1 < |rs| {
      assert rs[i] == rs[i..][0] && ns[j] == ns[j..][0];
      assert rs[i + 1..] == rs[i..][1..] && ns[j + 1..] == ns[j..][1..];
      BackSame(rs, ns, i + 1, j + 1, page, length);
    }
  }

  /** An iteration that releases nothing keeps the distance. */
  lemma BackStep(rs: seq<Run>, i: nat, page: Word, length: Word)
    requires i + 1 < |rs| && !Whole(rs[i], page, length) && !Loops(rs[i], page, length)
    ensures !rs[i].Hits(page) ==> BackAt(rs, i + 1, false, page, length) == ReleasedBack(rs, i, page, length)
    ensures rs[i].Hits(page) ==>
              var parts := Cut(rs[i], page, length);
              var ns, grew := Splice(rs, i, parts), |parts| == 2;
              && i + 1 < |ns| && BackAt(ns, i + 1, grew, page, length) == ReleasedBack(rs, i, page, length)
              && (grew ==> !Split(ns[i + 1], page, length))
  {
    if rs[i].Hits(page) {
      SplitOnce(rs[i], page, length);
      var parts := Cut(rs[i], page, length);
      var ns := Splice(rs, i, parts);
      BackSame(rs, ns, i + 1, i + |parts|, page, length);
      if |parts| == 2 { assert ns[i + 1] == parts[1]; }
      assert |parts| == 2 && page + length >= SPACE ==> Whole(parts[1], page, length);
    }
  }

  // ----- concrete ranges that removal gets wrong -----

  /** The last run is never looked at. */
  lemma LastStays()
    ensures var rs := [Run(0x1000, 0x9000, 0x1000)];
            Remove(rs, 0x1000, 0x1000) == Done(rs) && Maps(rs, 0x1000, 0x9000)
  {
    var rs := [Run(0x1000, 0x9000, 0x1000)];
    assert rs[0].Covers(0x1000);
  }

  /** Releasing a whole run with more than two behind it goes on from the released entry. */
  lemma EarlyReleaseFaults(rs: seq<Run>)
    requires |rs| > 3 && rs[0] == Run(0x1000, 0x9000, 0x1000)
    ensures Remove(rs, 0x1000, 0x1000) == Fault
  {
    assert rs[0].Hits(0x1000);
  }

  /** A run that ends where the range starts is split, and a run of nearly 2^64 bytes appears. */
  lemma StraySplits()
    ensures var a, b, c := Run(0x1000, 0x9000, 0x2000), Run(0x3000, 0x20000, 0x2000), Run(0x8000, 0x30000, 0x1000);
            Remove([a, b, c], 0x3000, 0x1000)
            == Done([a, Run(0x4000, 0xC000, SPACE - 0x1000), Run(0x4000, 0x21000, 0x1000), c])
  {
    var a, b, c := Run(0x1000, 0x9000, 0x2000), Run(0x3000, 0x20000, 0x2000), Run(0x8000, 0x30000, 0x1000);
    var bogus, trimmed := Run(0x4000, 0xC000, SPACE - 0x1000), Run(0x4000, 0x21000, 0x1000);
    assert a.Hits(0x3000) && Cut(a, 0x3000, 0x1000) == [a, bogus];
    assert Splice([a, b, c], 0, [a, bogus]) == [a, bogus, b, c];
    assert !bogus.Hits(0x3000) && b.Hits(0x3000) && Cut(b, 0x3000, 0x1000) == [trimmed];
    assert Splice([a, bogus, b, c], 2, [trimmed]) == [a, bogus, trimmed, c];
    assert RemoveFrom([a, bogus, trimmed, c], 3, 0x3000, 0x1000) == Done([a, bogus, trimmed, c]);
    assert RemoveFrom([a, bogus, b, c], 2, 0x3000, 0x1000) == Done([a, bogus, trimmed, c]);
    assert RemoveFrom([a, bogus, b, c], 1, 0x3000, 0x1000) == Done([a, bogus, trimmed, c]);
  }
}
