// Looking an address up: the scan, the one-entry cache, and when the answer is right.

module Lookup {
  import opened Words
  import opened RunList

  datatype Answer = Answer(value: Word, cache: nat)

  /** translator_translate_virtual, with the cache given as an index into the list. */
  function Translate(rs: seq<Run>, cache: nat, a: Word): Answer
    requires cache < |rs|
  {
    var page := PageOf(a);
    if rs[cache].virt == page then
      Answer(Add(rs[cache].phys, OffsetOf(a)), cache)
    else
      var i := FirstHit(rs, page);
      if i < |rs| then Answer(Add(rs[i].Image(page), OffsetOf(a)), i)
      else Answer(INVALID, cache)
  }

  /** translator_contains_virtual. */
  predicate Contains(rs: seq<Run>, cache: nat, a: Word)
    requires cache < |rs|
  {
    rs[cache].virt == PageOf(a) || FirstHit(rs, PageOf(a)) < |rs|
  }

  /** The answer is what the denoted mapping says. */
  ghost predicate Right(rs: seq<Run>, a: int, value: int) {
    if Mapped(rs, a) then Maps(rs, a, value) else value == 0x3FFC_0000_0000_0000
  }

  /** No run's image touches the reserved "invalid" value; true of all real addresses. */
  ghost predicate AvoidsInvalid(rs: seq<Run>) {
    forall i :: 0 <= i < |rs| ==> !(rs[i].phys <= INVALID <= rs[i].phys + rs[i].len)
  }

  /**
   * The lookups that work: the cached run starts at the page; or every run that ends exactly
   * at the page comes after the run holding the page (which must then stay below 2^64), or
   * is continued by that run on the physical side; and a run that reaches 2^64 is never
   * found on its own account.
   */
  ghost predicate Clear(rs: seq<Run>, cache: nat, page: Word)
    requires cache < |rs|
  {
    rs[cache].virt == page ||
    ((forall j :: 0 <= j < |rs| && EndsAt(rs[j], page) ==> Harmless(rs, j, page)) &&
     (forall k :: 0 <= k < |rs| && rs[k].Covers(page) && rs[k].virt + rs[k].len == SPACE ==>
                    exists j :: 0 <= j < |rs| && EndsAt(rs[j], page)))
  }

  ghost predicate Harmless(rs: seq<Run>, j: nat, page: Word)
    requires j < |rs|
  {
    exists k :: 0 <= k < |rs| && rs[k].Covers(page) &&
                ((k < j && rs[k].virt + rs[k].len < SPACE) || rs[k].phys == Add(rs[j].phys, rs[j].len))
  }

  /** A translation is right exactly in the Clear case. */
  lemma TranslateExact(rs: seq<Run>, cache: nat, a: Word)
    requires AllSound(rs) && Disjoint(rs) && AvoidsInvalid(rs) && cache < |rs|
    ensures Right(rs, a, Translate(rs, cache, a).value) <==> Clear(rs, cache, PageOf(a))
  {
    var page := PageOf(a);
    forall i | 0 <= i < |rs| ensures rs[i].Covers(page) <==> rs[i].Covers(a) {
      CoversPage(rs[i], a);
    }
    if rs[cache].virt == page {
      CoversPage(rs[cache], a);
      MapsAt(rs, cache, a);
    } else if k :| 0 <= k < |rs| && rs[k].Covers(page) {
      MappedCase(rs, cache, a, k);
    } else {
      UnmappedCase(rs, cache, a);
    }
  }

  lemma MappedCase(rs: seq<Run>, cache: nat, a: Word, k: nat)
    requires AllSound(rs) && Disjoint(rs) && AvoidsInvalid(rs) && cache < |rs|
    requires rs[cache].virt != PageOf(a) && k < |rs| && rs[k].Covers(PageOf(a))
    ensures Right(rs, a, Translate(rs, cache, a).value) <==> Clear(rs, cache, PageOf(a))
  {
    hide *;
    var page, i := PageOf(a), FirstHit(rs, PageOf(a));
    TargetOf(rs, a, k);
    ScanValue(rs, cache, a);
    HitAmongTwo(rs, k, page);
    if j :| 0 <= j < |rs| && EndsAt(rs[j], page) {
      ClearWithEnd(rs, cache, page, k, j);
      EndImage(rs, k, j, page);
      AddInjective(rs[j].Image(page), rs[k].Image(page), OffsetOf(a));
    } else {
      ClearWithoutEnd(rs, cache, page, k);
    }
  }

  /** The right answer, as the code computes it from the run that holds the page. */
  lemma TargetOf(rs: seq<Run>, a: Word, k: nat)
    requires AllSound(rs) && Disjoint(rs) && AvoidsInvalid(rs) && k < |rs| && rs[k].Covers(PageOf(a))
    ensures rs[k].virt <= PageOf(a)
    ensures forall v :: Right(rs, a, v) <==> v == Add(rs[k].Image(PageOf(a)), OffsetOf(a))
    ensures Add(rs[k].Image(PageOf(a)), OffsetOf(a)) != INVALID
  {
    assert rs[k].Sound();
    CoversPage(rs[k], a);
    MapsAt(rs, k, a);
  }

  /** What a lookup that the cache does not answer returns. */
  lemma ScanValue(rs: seq<Run>, cache: nat, a: Word)
    requires cache < |rs| && rs[cache].virt != PageOf(a)
    ensures var i := FirstHit(rs, PageOf(a));
            && (i < |rs| ==> rs[i].virt <= PageOf(a))
            && Translate(rs, cache, a).value == if i < |rs| then Add(rs[i].Image(PageOf(a)), OffsetOf(a)) else INVALID
  {
  }

  /** When one run ends at the page and another holds it, the second one starts there. */
  lemma EndImage(rs: seq<Run>, k: nat, j: nat, page: Word)
    requires AllSound(rs) && Disjoint(rs) && k < |rs| && rs[k].Covers(page) && j < |rs| && EndsAt(rs[j], page)
    ensures rs[k].virt <= page && rs[k].Image(page) == rs[k].phys
    ensures rs[j].virt <= page && rs[j].Image(page) == Add(rs[j].phys, rs[j].len)
  {
    if k < j { assert Apart(rs[k], rs[j]); } else { assert Apart(rs[j], rs[k]); }
    assert rs[k].Sound() && rs[j].Sound();
  }

  lemma AddInjective(x: Word, y: Word, offset: Word)
    ensures Add(x, offset) == Add(y, offset) <==> x == y
  {
  }

  /** The scan stops at the run holding the page or at one ending there, whichever comes first. */
  lemma HitAmongTwo(rs: seq<Run>, k: nat, page: Word)
    requires AllSound(rs) && Disjoint(rs) && k < |rs| && rs[k].Covers(page)
    ensures var i, low := FirstHit(rs, page), rs[k].virt + rs[k].len < SPACE;
            && (forall j :: 0 <= j < |rs| && EndsAt(rs[j], page) ==> i == if k < j && low then k else j)
            && ((forall j :: 0 <= j < |rs| ==> !EndsAt(rs[j], page)) ==> i == if low then k else |rs|)
  {
    var i := FirstHit(rs, page);
    if i < |rs| && !EndsAt(rs[i], page) { CoverUnique(rs, i, k, page); }
    forall j | 0 <= j < |rs| && EndsAt(rs[j], page)
      ensures i == if k < j && rs[k].virt + rs[k].len < SPACE then k else j
    {
      assert rs[j].Hits(page);
      if EndsAt(rs[i], page) { EndUnique(rs, i, j, page); }
    }
  }

  lemma ClearWithEnd(rs: seq<Run>, cache: nat, page: Word, k: nat, j: nat)
    requires AllSound(rs) && Disjoint(rs) && cache < |rs| && rs[cache].virt != page
    requires k < |rs| && rs[k].Covers(page) && j < |rs| && EndsAt(rs[j], page)
    ensures Clear(rs, cache, page) <==>
            (k < j && rs[k].virt + rs[k].len < SPACE) || rs[k].phys == Add(rs[j].phys, rs[j].len)
  {
    forall m | 0 <= m < |rs| && rs[m].Covers(page) ensures m == k { CoverUnique(rs, m, k, page); }
    forall m | 0 <= m < |rs| && EndsAt(rs[m], page) ensures m == j { EndUnique(rs, m, j, page); }
    assert Harmless(rs, j, page) <==>
           ((k < j && rs[k].virt + rs[k].len < SPACE) || rs[k].phys == Add(rs[j].phys, rs[j].len));
  }

  lemma ClearWithoutEnd(rs: seq<Run>, cache: nat, page: Word, k: nat)
    requires AllSound(rs) && Disjoint(rs) && cache < |rs| && rs[cache].virt != page
    requires k < |rs| && rs[k].Covers(page) && forall j :: 0 <= j < |rs| ==> !EndsAt(rs[j], page)
    ensures Clear(rs, cache, page) <==> rs[k].virt + rs[k].len < SPACE
  {
    assert rs[k].Sound();
    forall m | 0 <= m < |rs| && rs[m].Covers(page) ensures m == k { CoverUnique(rs, m, k, page); }
  }

  lemma UnmappedCase(rs: seq<Run>, cache: nat, a: Word)
    requires AllSound(rs) && Disjoint(rs) && AvoidsInvalid(rs) && cache < |rs|
    requires rs[cache].virt != PageOf(a) && !Mapped(rs, PageOf(a)) && !Mapped(rs, a)
    ensures Right(rs, a, Translate(rs, cache, a).value) <==> Clear(rs, cache, PageOf(a))
  {
    var page := PageOf(a);
    var i := FirstHit(rs, page);
    if i < |rs| {
      assert EndsAt(rs[i], page);
      assert Translate(rs, cache, a).value != INVALID;
    } else {
      forall j | 0 <= j < |rs| ensures !EndsAt(rs[j], page) { assert !rs[j].Hits(page); }
    }
  }

  /** The scan finds something exactly when a run below 2^64 holds the page or a run ends there. */
  lemma FoundExact(rs: seq<Run>, page: Word)
    requires AllSound(rs)
    ensures FirstHit(rs, page) < |rs| <==>
            exists i :: 0 <= i < |rs| && (EndsAt(rs[i], page) || (rs[i].Covers(page) && rs[i].virt + rs[i].len < SPACE))
  {
    var i := FirstHit(rs, page);
    if i < |rs| {
      assert EndsAt(rs[i], page) || rs[i].Covers(page);
    } else {
      forall j | 0 <= j < |rs|
        ensures !EndsAt(rs[j], page) && !(rs[j].Covers(page) && rs[j].virt + rs[j].len < SPACE)
      {
        assert !rs[j].Hits(page);
      }
    }
  }

  /** A lookup that the cache does not answer moves the cache to the first run whose test holds, if there is one. */
  lemma CacheMoves(rs: seq<Run>, cache: nat, a: Word)
    requires cache < |rs|
    ensures var page, out := PageOf(a), Translate(rs, cache, a);
            && out.cache < |rs|
            && (rs[cache].virt == page ==> out.cache == cache)
            && (rs[cache].virt != page && out.cache != cache ==> rs[out.cache].Hits(page))
            && (rs[cache].virt != page && (exists i :: 0 <= i < |rs| && rs[i].Hits(page)) ==>
                  rs[out.cache].Hits(page) && forall j :: 0 <= j < out.cache ==> !rs[j].Hits(page))
            && (rs[cache].virt != page && (forall i :: 0 <= i < |rs| ==> !rs[i].Hits(page)) ==>
                  out == Answer(0x3FFC_0000_0000_0000, cache))
  {
  }

  /**
   * translator_contains_virtual tells whether the address is mapped exactly when no run that counts only for
   * its inclusive end decides: one that ends at an unmapped page, or the missing end of one that reaches 2^64.
   */
  lemma ContainsExact(rs: seq<Run>, cache: nat, a: Word)
    requires AllSound(rs) && cache < |rs|
    ensures (Contains(rs, cache, a) <==> Mapped(rs, a)) <==>
            if !Mapped(rs, a) then forall i :: 0 <= i < |rs| ==> !EndsAt(rs[i], PageOf(a))
            else
              || rs[cache].virt == PageOf(a)
              || exists i :: 0 <= i < |rs| && (EndsAt(rs[i], PageOf(a)) ||
                                               (rs[i].Covers(a) && rs[i].virt + rs[i].len < SPACE))
  {
    FoundExact(rs, PageOf(a));
    forall i | 0 <= i < |rs| ensures rs[i].Covers(PageOf(a)) <==> rs[i].Covers(a) { CoversPage(rs[i], a); }
    assert rs[cache].virt == PageOf(a) ==> rs[cache].Covers(a) by { assert rs[cache].Sound(); }
  }

  /** With both sides disjoint, clear lookups in the two directions undo each other. */
  lemma RoundTrip(rs: seq<Run>, cache: nat, back: nat, a: Word)
    requires AllSound(rs) && Disjoint(rs) && Disjoint(FlipAll(rs))
    requires AvoidsInvalid(rs) && AvoidsInvalid(FlipAll(rs))
    requires cache < |rs| && back < |rs| && Mapped(rs, a)
    requires Clear(rs, cache, PageOf(a))
    ensures var b := Translate(rs, cache, a).value;
            Maps(rs, a, b) && (Clear(FlipAll(rs), back, PageOf(b)) <==> Translate(FlipAll(rs), back, b).value == a)
  {
    var fs := FlipAll(rs);
    TranslateExact(rs, cache, a);
    var b := Translate(rs, cache, a).value;
    var k :| 0 <= k < |rs| && rs[k].Covers(a) && b == rs[k].phys + (a - rs[k].virt);
    MapsAt(fs, k, b);
    TranslateExact(fs, back, b);
  }
}
