// Adding a run: merging with the predecessor or inserting after it.

module Insertion {
  import opened Words
  import opened RunList

  datatype Added = Added(runs: seq<Run>, cache: nat)

  /** The new run continues r on both sides. */
  predicate Continues(r: Run, new_: Run) {
    r.End() == new_.virt && Add(r.phys, r.len) == new_.phys
  }

  function Grow(r: Run, extra: Word): Run { r.(len := Add(r.len, extra)) }

  /** The loop of translator_add_entry from position i on, and what follows it. */
  function AddFrom(rs: seq<Run>, i: nat, r: Run): Added
    requires i < |rs|
    decreases |rs| - i
  {
    if Continues(rs[i], r) then Added(rs[i := Grow(rs[i], r.len)], i)
    else if i < |rs| - 1 && rs[i + 1].virt <= r.virt then AddFrom(rs, i + 1, r)
    else Added(rs[..i + 1] + [r] + rs[i + 1..], i + 1)
  }

  lemma AddFromStep(rs: seq<Run>, i: nat, r: Run)
    requires i < |rs|
    ensures AddFrom(rs, i, r) ==
            if Continues(rs[i], r) then Added(rs[i := Grow(rs[i], r.len)], i)
            else if i < |rs| - 1 && rs[i + 1].virt <= r.virt then AddFrom(rs, i + 1, r)
            else Added(rs[..i + 1] + [r] + rs[i + 1..], i + 1)
  {
  }

  /** translator_add_entry, on page-aligned addresses. */
  function AddRun(rs: seq<Run>, r: Run): Added {
    if |rs| == 0 then Added([r], 0) else AddFrom(rs, 0, r)
  }

  lemma AddRunStart(rs: seq<Run>, r: Run)
    requires |rs| > 0
    ensures AddRun(rs, r) == AddFrom(rs, 0, r)
  {
  }

  /** The position after which a sorted list takes a run starting at v. */
  ghost predicate Slot(rs: seq<Run>, i: nat, v: Word) {
    && i < |rs|
    && (forall j :: 0 <= j <= i ==> rs[j].virt <= v)
    && (forall j :: i < j < |rs| ==> v < rs[j].virt)
  }

  ghost predicate Fits(rs: seq<Run>, r: Run) {
    && r.Sound() && LowPhys(r)
    && forall i :: 0 <= i < |rs| ==> Apart(rs[i], r) && LowPhys(rs[i])
  }

  lemma {:induction false} AddFromSlot(rs: seq<Run>, i: nat, k: nat, r: Run)
    requires AllSound(rs) && Sorted(rs) && Fits(rs, r)
    requires i <= k && Slot(rs, k, r.virt)
    ensures AddFrom(rs, i, r) ==
            if Continues(rs[k], r) then Added(rs[k := Grow(rs[k], r.len)], k)
            else Added(rs[..k + 1] + [r] + rs[k + 1..], k + 1)
    decreases k - i
  {
    hide AllSound, Sorted, Fits, Slot, Continues, Grow;
    SlotAhead(rs, i, k, r);
    if i < k { AddFromSlot(rs, i + 1, k, r); }
  }

  /** Before its slot the new run continues no entry, and the next entry does not lie above it. */
  lemma SlotAhead(rs: seq<Run>, i: nat, k: nat, r: Run)
    requires AllSound(rs) && Sorted(rs) && Fits(rs, r) && i <= k && Slot(rs, k, r.virt)
    ensures k < |rs| && (i < k ==> !Continues(rs[i], r) && rs[i + 1].virt <= r.virt)
    ensures i == k && k + 1 < |rs| ==> r.virt < rs[k + 1].virt
  {
    if i < k {
      assert rs[k].Sound() && rs[i].Sound() && Apart(rs[k], r);
      assert rs[i].virt + rs[i].len <= rs[k].virt <= r.virt;
    }
  }

  lemma SlotExists(rs: seq<Run>, v: Word) returns (k: nat)
    requires AllSound(rs) && Sorted(rs) && |rs| > 0 && rs[0].virt <= v
    ensures Slot(rs, k, v)
  {
    k := 0;
    while k + 1 < |rs| && rs[k + 1].virt <= v
      invariant k < |rs|
      invariant forall j :: 0 <= j <= k ==> rs[j].virt <= v
    {
      k := k + 1;
    }
    forall j | k < j < |rs| ensures v < rs[j].virt {
      if j > k + 1 { assert rs[k + 1].virt + rs[k + 1].len <= rs[j].virt; }
    }
  }

  /** The mapping grows by exactly the new run. */
  ghost predicate Extends(old_: seq<Run>, new_: seq<Run>, r: Run) {
    forall v, p :: Maps(new_, v, p) <==> Maps(old_, v, p) || (r.Covers(v) && p == r.phys + (v - r.virt))
  }

  lemma InsertExtends(rs: seq<Run>, k: nat, r: Run)
    requires k <= |rs|
    ensures Extends(rs, rs[..k] + [r] + rs[k..], r)
  {
    forall v, p
      ensures Maps(rs[..k] + [r] + rs[k..], v, p) <==>
              Maps(rs, v, p) || (r.Covers(v) && p == r.phys + (v - r.virt))
    {
      MapsConcat(rs[..k] + [r], rs[k..], v, p);
      MapsConcat(rs[..k], [r], v, p);
      MapsConcat(rs[..k], rs[k..], v, p);
      MapsOne(r, v, p);
      assert rs == rs[..k] + rs[k..];
    }
  }

  lemma GrowExtends(rs: seq<Run>, k: nat, r: Run)
    requires k < |rs| && rs[k].Sound() && r.Sound() && LowPhys(r)
    requires rs[k].virt + rs[k].len == r.virt && rs[k].phys + rs[k].len == r.phys
    ensures Extends(rs, rs[k := Grow(rs[k], r.len)], r)
  {
    var g := Grow(rs[k], r.len);
    var ns := rs[k := g];
    assert g.len == rs[k].len + r.len;
    forall v, p ensures Maps(ns, v, p) <==> Maps(rs, v, p) || (r.Covers(v) && p == r.phys + (v - r.virt)) {
      if Maps(ns, v, p) {
        var i :| 0 <= i < |ns| && ns[i].Covers(v) && p == ns[i].phys + (v - ns[i].virt);
        assert rs[i].Covers(v) || (i == k && r.Covers(v));
      }
      if Maps(rs, v, p) {
        var i :| 0 <= i < |rs| && rs[i].Covers(v) && p == rs[i].phys + (v - rs[i].virt);
        assert ns[i].Covers(v);
      }
      if r.Covers(v) && p == r.phys + (v - r.virt) { assert ns[k].Covers(v); }
    }
  }

  /**
   * Adding a run that fits keeps the list sound and sorted exactly when the run is not
   * below the first one: the code never inserts in front of the head.
   */
  lemma AddSortedExact(rs: seq<Run>, r: Run)
    requires AllSound(rs) && Sorted(rs) && Fits(rs, r)
    ensures var out := AddRun(rs, r).runs;
            (AllSound(out) && Sorted(out)) <==> (|rs| == 0 || rs[0].virt <= r.virt)
  {
    if |rs| > 0 {
      if rs[0].virt <= r.virt {
        var k := SlotExists(rs, r.virt);
        AddFromSlot(rs, 0, k, r);
        AddAtSlot(rs, k, r);
      } else {
        var out := AddRun(rs, r).runs;
        forall j | 0 <= j < |rs| ensures r.virt < rs[j].virt {
          if j > 0 { assert rs[0].virt + rs[0].len <= rs[j].virt; }
        }
        if !Continues(rs[0], r) {
          assert out == rs[..1] + [r] + rs[1..];
          assert out[0] == rs[0] && out[1] == r;
        } else {
          assert out[0].virt == rs[0].virt;
          assert !out[0].Sound() || !AllSound(out);
        }
      }
    }
  }

  lemma AddAtSlot(rs: seq<Run>, k: nat, r: Run)
    requires AllSound(rs) && Sorted(rs) && Fits(rs, r) && Slot(rs, k, r.virt)
    ensures var out := if Continues(rs[k], r) then rs[k := Grow(rs[k], r.len)]
                       else rs[..k + 1] + [r] + rs[k + 1..];
            AllSound(out) && Sorted(out) && Extends(rs, out, r)
  {
    assert Apart(rs[k], r);
    forall j | k < j < |rs| ensures r.virt + r.len <= rs[j].virt { assert Apart(rs[j], r) && rs[j].Sound(); }
    if Continues(rs[k], r) {
      GrowExtends(rs, k, r);
      assert Grow(rs[k], r.len).Sound();
    } else {
      InsertExtends(rs, k + 1, r);
      forall j | 0 <= j <= k ensures rs[j].virt + rs[j].len <= r.virt {
        if j < k { assert rs[j].virt + rs[j].len <= rs[k].virt; }
      }
      InsertSorted(rs, k + 1, r);
    }
  }

  /**
   * In a sorted list a run that is not below the first entry lengthens the entry that ends where it starts on both
   * sides, if there is one, and otherwise becomes an entry of its own; either way the cache is that entry.
   */
  lemma MergesExact(rs: seq<Run>, r: Run)
    requires AllSound(rs) && Sorted(rs) && Fits(rs, r) && |rs| > 0 && rs[0].virt <= r.virt
    ensures var out := AddRun(rs, r);
            && out.cache < |out.runs|
            && (forall i :: 0 <= i < |rs| && rs[i].virt + rs[i].len == r.virt && rs[i].phys + rs[i].len == r.phys ==>
                  |out.runs| == |rs| && out.cache == i
                  && out.runs[i] == rs[i].(len := rs[i].len + r.len))
            && ((forall i :: 0 <= i < |rs| ==> rs[i].virt + rs[i].len != r.virt || rs[i].phys + rs[i].len != r.phys) ==>
                  |out.runs| == |rs| + 1 && out.runs[out.cache] == r)
  {
    var k := SlotExists(rs, r.virt);
    AddFromSlot(rs, 0, k, r);
    AddRunStart(rs, r);
    assert rs[k].Sound() && Apart(rs[k], r);
    forall i | 0 <= i < |rs| && rs[i].virt + rs[i].len == r.virt ensures i == k {
      assert rs[i].Sound();
      SortedPair(rs, i, k);
    }
  }

  lemma SortedPair(rs: seq<Run>, i: nat, k: nat)
    requires Sorted(rs) && i < |rs| && k < |rs|
    ensures i < k ==> rs[i].virt + rs[i].len <= rs[k].virt
  {
  }

  lemma InsertSorted(rs: seq<Run>, k: nat, r: Run)
    requires AllSound(rs) && Sorted(rs) && r.Sound() && k <= |rs|
    requires forall j :: 0 <= j < k ==> rs[j].virt + rs[j].len <= r.virt
    requires forall j :: k <= j < |rs| ==> r.virt + r.len <= rs[j].virt
    ensures AllSound(rs[..k] + [r] + rs[k..]) && Sorted(rs[..k] + [r] + rs[k..])
  {
  }

  /** The new run would be merged with a first entry that reaches 2^64, across the wrap. */
  predicate MergesAcrossTop(rs: seq<Run>, r: Run) { |rs| > 0 && r.virt < rs[0].virt && Continues(rs[0], r) }

  /**
   * The mapping grows by exactly the new run, wherever it goes, unless it is merged across the top of the
   * address space.
   */
  lemma AddMeaning(rs: seq<Run>, r: Run)
    requires AllSound(rs) && Sorted(rs) && Fits(rs, r)
    ensures Extends(rs, AddRun(rs, r).runs, r) <==> !MergesAcrossTop(rs, r)
  {
    if |rs| == 0 {
      InsertExtends(rs, 0, r);
      assert rs[..0] + [r] + rs[0..] == [r];
    } else if rs[0].virt <= r.virt {
      var k := SlotExists(rs, r.virt);
      AddFromSlot(rs, 0, k, r);
      AddAtSlot(rs, k, r);
    } else if Continues(rs[0], r) {
      var out := AddRun(rs, r).runs;
      var v := rs[0].virt + rs[0].len;
      assert v == SPACE && out[0].Covers(v);
      assert Maps(out, v, out[0].phys + (v - out[0].virt));
    } else {
      BelowFirst(rs, r);
      InsertExtends(rs, 1, r);
    }
  }

  lemma BelowFirst(rs: seq<Run>, r: Run)
    requires AllSound(rs) && Sorted(rs) && |rs| > 0 && r.virt < rs[0].virt && !Continues(rs[0], r)
    ensures AddRun(rs, r) == Added(rs[..1] + [r] + rs[1..], 1)
  {
    if |rs| > 1 { assert rs[0].virt + rs[0].len <= rs[1].virt && rs[0].Sound(); }
  }

  /** An entry that nothing continues is inserted behind some entry, and is the only new one. */
  lemma {:induction false} AddFromInserts(rs: seq<Run>, i: nat, r: Run) returns (k: nat)
    requires i < |rs| && forall j :: 0 <= j < |rs| ==> !Continues(rs[j], r)
    ensures 0 < k <= |rs| && AddFrom(rs, i, r) == Added(rs[..k] + [r] + rs[k..], k)
    decreases |rs| - i
  {
    if i < |rs| - 1 && rs[i + 1].virt <= r.virt { k := AddFromInserts(rs, i + 1, r); } else { k := i + 1; }
  }
}
