// The one-entry cache over whole runs: when it never shows, and what every lookup then answers.

module TranslatorRuns {
  import opened Options
  import opened Words
  import opened RunList
  import opened Lookup
  import opened Insertion
  import opened Removal

  predicate Touches(r: Run, s: Run) { r.virt + r.len == s.virt }

  predicate Follows(r: Run, s: Run) { s.phys == Add(r.phys, r.len) }

  predicate ReachesTop(r: Run) { r.virt + r.len == SPACE }

  /**
   * A run behind which another starts is continued by it on the other side, or comes later in the list.
   * A run that reaches 2^64 is one page, and alone or continuing the run before it.
   */
  ghost predicate Seamless(rs: seq<Run>) {
    && (forall j, k :: 0 <= j < |rs| && 0 <= k < |rs| && Touches(rs[j], rs[k]) ==>
          (k < j && !ReachesTop(rs[k])) || Follows(rs[j], rs[k]))
    && forall k :: 0 <= k < |rs| && ReachesTop(rs[k]) ==> rs[k].len == PAGE && (|rs| == 1 || Continued(rs, k))
  }

  ghost predicate Continued(rs: seq<Run>, k: nat)
    requires k < |rs|
  {
    exists j :: 0 <= j < |rs| && Touches(rs[j], rs[k]) && Follows(rs[j], rs[k])
  }

  /** Every mapped address is translated as the list denotes, whatever the cache holds. */
  ghost predicate CacheInvisible(rs: seq<Run>) {
    forall c: nat, a: Word :: c < |rs| && Mapped(rs, a) ==> Right(rs, a, Translate(rs, c, a).value)
  }

  /** Exactly when the cache never shows. */
  lemma CacheExact(rs: seq<Run>)
    requires AllSound(rs) && Disjoint(rs) && AvoidsInvalid(rs)
    ensures CacheInvisible(rs) <==> Seamless(rs)
  {
    if Seamless(rs) {
      forall c: nat, a: Word | c < |rs| && Mapped(rs, a) ensures Right(rs, a, Translate(rs, c, a).value) {
        SeamlessClear(rs, c, a);
        TranslateExact(rs, c, a);
      }
    } else if j, k :| 0 <= j < |rs| && 0 <= k < |rs| && Touches(rs[j], rs[k]) &&
                     !((k < j && !ReachesTop(rs[k])) || Follows(rs[j], rs[k])) {
      SeamShows(rs, j, k);
    } else {
      var k :| 0 <= k < |rs| && ReachesTop(rs[k]) && !(rs[k].len == PAGE && (|rs| == 1 || Continued(rs, k)));
      TopShows(rs, k);
    }
  }

  lemma SeamlessClear(rs: seq<Run>, c: nat, a: Word)
    requires AllSound(rs) && Disjoint(rs) && Seamless(rs) && c < |rs| && Mapped(rs, a)
    ensures Clear(rs, c, PageOf(a))
  {
    var page := PageOf(a);
    var k :| 0 <= k < |rs| && rs[k].Covers(a);
    CoversPage(rs[k], a);
    assert rs[k].Sound();
    forall j | 0 <= j < |rs| && EndsAt(rs[j], page) ensures Harmless(rs, j, page) {
      if j < k { assert Apart(rs[j], rs[k]); } else { assert Apart(rs[k], rs[j]); }
      assert rs[j].Sound() && Touches(rs[j], rs[k]);
    }
    forall m | 0 <= m < |rs| && rs[m].Covers(page) ensures m == k { CoverUnique(rs, m, k, page); }
    if ReachesTop(rs[k]) {
      TopPage(rs[k], page);
      if |rs| > 1 {
        var j :| 0 <= j < |rs| && Touches(rs[j], rs[k]) && Follows(rs[j], rs[k]);
        assert EndsAt(rs[j], page);
      }
    }
  }

  /** The only page of a one-page run is where it starts. */
  lemma TopPage(r: Run, page: Word)
    requires r.Sound() && r.len == PAGE && r.Covers(page) && page % PAGE == 0
    ensures r.virt == page
  {
    AlignedSum(page, r.virt);
    assert page - r.virt == (page - r.virt) / PAGE * 0x1000;
  }

  /** Between runs j and k the page of k is found through j unless the cache already holds k. */
  lemma SeamShows(rs: seq<Run>, j: nat, k: nat)
    requires AllSound(rs) && Disjoint(rs) && AvoidsInvalid(rs) && j < |rs| && k < |rs| && Touches(rs[j], rs[k])
    requires !(k < j && !ReachesTop(rs[k])) && !Follows(rs[j], rs[k])
    ensures !CacheInvisible(rs)
  {
    var a := rs[k].virt;
    assert rs[j].Sound() && rs[k].Sound() && PageOf(a) == a && rs[k].Covers(a);
    MapsAt(rs, k, a);
    TranslateExact(rs, j, a);
    forall m | 0 <= m < |rs| && rs[m].Covers(a) ensures m == k { CoverUnique(rs, m, k, a); }
    assert EndsAt(rs[j], a) && !Harmless(rs, j, a);
    assert !Right(rs, a, Translate(rs, j, a).value);
  }

  /** A run that reaches 2^64 is found through the cache or through the run before it only. */
  lemma TopShows(rs: seq<Run>, k: nat)
    requires AllSound(rs) && Disjoint(rs) && AvoidsInvalid(rs) && k < |rs| && ReachesTop(rs[k])
    requires !(rs[k].len == PAGE && (|rs| == 1 || Continued(rs, k)))
    ensures !CacheInvisible(rs)
  {
    var r := rs[k];
    assert r.Sound();
    var a, c := if r.len == PAGE then r.virt else r.virt + PAGE, if r.len == PAGE && k == 0 then 1 else 0;
    assert r.len >= PAGE by { assert r.len == r.len / PAGE * 0x1000; }
    AlignedSum(r.virt, PAGE);
    if r.len > PAGE { AlignedSum(r.len, PAGE); }
    assert r.Covers(a) && PageOf(a) == a;
    MapsAt(rs, k, a);
    TranslateExact(rs, c, a);
    assert rs[c].virt != a by {
      assert rs[c].Sound();
      if c != k && rs[c].virt == a { CoverUnique(rs, c, k, a); }
    }
    forall m | 0 <= m < |rs| && rs[m].Covers(a) ensures m == k { CoverUnique(rs, m, k, a); }
    forall j | 0 <= j < |rs| && EndsAt(rs[j], a) ensures !Harmless(rs, j, a) {
      assert rs[j].Sound();
      assert r.len == PAGE ==> Touches(rs[j], rs[k]);
    }
    forall j | 0 <= j < |rs| && r.len > PAGE ensures !EndsAt(rs[j], a) {
      assert rs[j].Sound();
      if rs[j].Covers(a - 1) { CoverUnique(rs, j, k, a - 1); }
    }
    assert !Right(rs, a, Translate(rs, c, a).value);
  }

  /** The cache decides the answer at a seam: the same list gives two answers for one address. */
  lemma CacheShows()
    ensures var rs := [Run(0x1000, 0x5000, 0x1000), Run(0x2000, 0x9000, 0x1000)];
            Translate(rs, 1, 0x2000).value == 0x9000 && Translate(rs, 0, 0x2000).value == 0x6000
  {
    var rs := [Run(0x1000, 0x5000, 0x1000), Run(0x2000, 0x9000, 0x1000)];
    assert rs[0].Hits(0x2000);
  }

  /** An address that nothing maps gets the invalid value exactly when no run ends at its page. */
  lemma UnmappedExact(rs: seq<Run>, c: nat, a: Word)
    requires AllSound(rs) && Disjoint(rs) && AvoidsInvalid(rs) && c < |rs| && !Mapped(rs, a)
    ensures Translate(rs, c, a).value == 0x3FFC_0000_0000_0000 <==>
            forall j :: 0 <= j < |rs| ==> !EndsAt(rs[j], PageOf(a))
  {
    var page := PageOf(a);
    forall k | 0 <= k < |rs| ensures !rs[k].Covers(page) { CoversPage(rs[k], a); }
    assert rs[c].Sound() && rs[c].virt != page;
    TranslateExact(rs, c, a);
    if j :| 0 <= j < |rs| && EndsAt(rs[j], page) { assert !Harmless(rs, j, page); }
  }

  // ----- one addition, anywhere in the list -----

  /** The bounds every run keeps. */
  ghost predicate Bounded(r: Run) {
    r.virt + r.len < SPACE && r.phys + r.len < SPACE && !(r.phys <= INVALID <= r.phys + r.len)
  }

  ghost predicate Clean(rs: seq<Run>) {
    AllSound(rs) && Disjoint(rs) && forall i :: 0 <= i < |rs| ==> Bounded(rs[i])
  }

  /** What a caller can check on one side before adding a run. */
  ghost predicate Free(rs: seq<Run>, r: Run) {
    r.Sound() && Bounded(r) && forall i :: 0 <= i < |rs| ==> Apart(rs[i], r)
  }

  /** Run r inserted at place p, or merged with the run there. */
  function Put(rs: seq<Run>, r: Run, p: nat, merged: bool): seq<Run>
    requires if merged then p < |rs| else p <= |rs|
  {
    if merged then rs[p := Grow(rs[p], r.len)] else rs[..p] + [r] + rs[p..]
  }

  /** translator_add_entry does one of the two, whatever the order of the list, and caches the place. */
  lemma AddForm(rs: seq<Run>, r: Run) returns (merged: bool)
    ensures var p := AddRun(rs, r).cache;
            && (if merged then p < |rs| && Continues(rs[p], r) else p <= |rs|)
            && AddRun(rs, r).runs == Put(rs, r, p, merged)
  {
    merged := false;
    if |rs| > 0 { merged := AddFromForm(rs, 0, r); }
  }

  lemma {:induction false} AddFromForm(rs: seq<Run>, i: nat, r: Run) returns (merged: bool)
    requires i < |rs|
    ensures var p := AddFrom(rs, i, r).cache;
            && (if merged then p < |rs| && Continues(rs[p], r) else p <= |rs|)
            && AddFrom(rs, i, r).runs == Put(rs, r, p, merged)
    decreases |rs| - i
  {
    merged := Continues(rs[i], r);
    if !merged && i < |rs| - 1 && rs[i + 1].virt <= r.virt { merged := AddFromForm(rs, i + 1, r); }
  }

  lemma PutFlips(rs: seq<Run>, r: Run, p: nat, merged: bool)
    requires if merged then p < |rs| else p <= |rs|
    ensures FlipAll(Put(rs, r, p, merged)) == Put(FlipAll(rs), r.Flip(), p, merged)
  {
  }

  /** The place in the old list of entry i of the new one, if it is not the new run itself. */
  function Before(p: nat, merged: bool, i: nat): nat { if merged || i < p then i else if i > p then i - 1 else 0 }

  lemma Joined(rs: seq<Run>, r: Run, p: nat)
    requires Clean(rs) && Free(rs, r) && p < |rs| && Continues(rs[p], r)
    ensures rs[p].virt + rs[p].len == r.virt && rs[p].phys + rs[p].len == r.phys
    ensures Grow(rs[p], r.len) == Run(rs[p].virt, rs[p].phys, rs[p].len + r.len)
  {
    assert Bounded(rs[p]);
  }

  lemma PutClean(rs: seq<Run>, r: Run, p: nat, merged: bool)
    requires Clean(rs) && Free(rs, r) && if merged then p < |rs| && Continues(rs[p], r) else p <= |rs|
    ensures var out := Put(rs, r, p, merged);
            Clean(out) && Extends(rs, out, r) && p < |out| && out[p].Covers(r.virt)
  {
    var out := Put(rs, r, p, merged);
    if merged {
      Joined(rs, r, p);
      GrowExtends(rs, p, r);
      GrowBounds(rs, r, p);
      forall i | 0 <= i < |rs| && i != p ensures Apart(rs[i], out[p]) { ApartFromBoth(rs, r, p, i); }
    } else {
      InsertExtends(rs, p, r);
    }
    forall i | 0 <= i < |out| ensures out[i].Sound() && Bounded(out[i]) {
      if i != p { assert out[i] == rs[Before(p, merged, i)]; }
    }
    forall i, j | 0 <= i < j < |out| ensures Apart(out[i], out[j]) {
      if i != p { assert out[i] == rs[Before(p, merged, i)]; }
      if j != p { assert out[j] == rs[Before(p, merged, j)]; }
    }
  }

  lemma GrowBounds(rs: seq<Run>, r: Run, p: nat)
    requires Clean(rs) && Free(rs, r) && p < |rs| && Continues(rs[p], r)
    ensures Grow(rs[p], r.len).Sound() && Bounded(Grow(rs[p], r.len))
  {
    Joined(rs, r, p);
    AlignedSum(rs[p].len, r.len);
    assert rs[p].Sound() && Bounded(rs[p]);
  }

  lemma ApartFromBoth(rs: seq<Run>, r: Run, p: nat, i: nat)
    requires Clean(rs) && Free(rs, r) && p < |rs| && Continues(rs[p], r) && i < |rs| && i != p
    ensures Apart(rs[i], Grow(rs[p], r.len)) && Apart(Grow(rs[p], r.len), rs[i])
  {
    Joined(rs, r, p);
    assert rs[i].Sound() && Apart(rs[i], r);
    if i < p { assert Apart(rs[i], rs[p]); } else { assert Apart(rs[p], rs[i]); }
  }

  /**
   * The new run continues every run it touches from above, and is continued by those it touches from
   * below, unless it is put before the one in the list, or behind the other.
   */
  ghost predicate Joins(rs: seq<Run>, r: Run, p: nat) {
    forall i :: 0 <= i < |rs| ==>
      && (Touches(rs[i], r) ==> Follows(rs[i], r) || p <= i)
      && (Touches(r, rs[i]) ==> Follows(r, rs[i]) || i < p)
  }

  /** Entry k does not show behind entry j. */
  ghost predicate Seam(rs: seq<Run>, j: nat, k: nat)
    requires j < |rs| && k < |rs|
  {
    Touches(rs[j], rs[k]) ==> k < j || Follows(rs[j], rs[k])
  }

  ghost predicate AllSeams(rs: seq<Run>) { forall j, k :: 0 <= j < |rs| && 0 <= k < |rs| ==> Seam(rs, j, k) }

  lemma SeamlessIs(rs: seq<Run>)
    requires Clean(rs)
    ensures Seamless(rs) <==> AllSeams(rs)
  {
    forall k | 0 <= k < |rs| ensures !ReachesTop(rs[k]) { assert Bounded(rs[k]); }
    if Seamless(rs) { forall j, k | 0 <= j < |rs| && 0 <= k < |rs| ensures Seam(rs, j, k) {} }
    if AllSeams(rs) {
      forall j, k | 0 <= j < |rs| && 0 <= k < |rs| && Touches(rs[j], rs[k]) ensures k < j || Follows(rs[j], rs[k]) {
        assert Seam(rs, j, k);
      }
    }
  }

  /** A clean list stays seamless exactly when the new run joins in. */
  lemma PutSeamless(rs: seq<Run>, r: Run, p: nat, merged: bool)
    requires Clean(rs) && Free(rs, r) && if merged then p < |rs| && Continues(rs[p], r) else p <= |rs|
    ensures Seamless(Put(rs, r, p, merged)) <==> Seamless(rs) && Joins(rs, r, p)
  {
    hide *;
    PutClean(rs, r, p, merged);
    SeamlessIs(rs);
    SeamlessIs(Put(rs, r, p, merged));
    if merged { MergedSeams(rs, r, p); } else { InsertedSeams(rs, r, p); }
  }

  lemma InsertedSeams(rs: seq<Run>, r: Run, p: nat)
    requires Free(rs, r) && p <= |rs|
    ensures AllSeams(Put(rs, r, p, false)) <==> AllSeams(rs) && Joins(rs, r, p)
  {
    var out := Put(rs, r, p, false);
    if AllSeams(out) {
      forall j, k | 0 <= j < |rs| && 0 <= k < |rs| ensures Seam(rs, j, k) {
        assert Seam(out, if j < p then j else j + 1, if k < p then k else k + 1);
      }
      forall i | 0 <= i < |rs|
        ensures Touches(rs[i], r) ==> Follows(rs[i], r) || p <= i
        ensures Touches(r, rs[i]) ==> Follows(r, rs[i]) || i < p
      {
        assert Seam(out, if i < p then i else i + 1, p) && Seam(out, p, if i < p then i else i + 1);
      }
    }
    if AllSeams(rs) && Joins(rs, r, p) {
      forall j, k | 0 <= j < |out| && 0 <= k < |out| ensures Seam(out, j, k) {
        var j', k' := Before(p, false, j), Before(p, false, k);
        if j != p && k != p { assert Seam(rs, j', k'); }
      }
    }
  }

  lemma MergedSeams(rs: seq<Run>, r: Run, p: nat)
    requires Clean(rs) && Free(rs, r) && p < |rs| && Continues(rs[p], r)
    ensures AllSeams(Put(rs, r, p, true)) <==> AllSeams(rs) && Joins(rs, r, p)
  {
    var out := Put(rs, r, p, true);
    Joined(rs, r, p);
    forall k | 0 <= k < |rs|
      ensures !Touches(rs[p], rs[k]) && (Touches(rs[k], r) ==> k == p)
      ensures Seam(out, p, k) <==> (Touches(r, rs[k]) ==> Follows(r, rs[k]) || k < p)
    {
      MergedAt(rs, r, p, k);
    }
    forall j, k | 0 <= j < |rs| && 0 <= k < |rs| && j != p ensures Seam(out, j, k) <==> Seam(rs, j, k) {}
    hide Seam, Put, Touches;
    if AllSeams(out) {
      forall j, k | 0 <= j < |rs| && 0 <= k < |rs| ensures Seam(rs, j, k) { if j == p { NoTouch(rs, p, k); } }
    }
    if AllSeams(rs) && Joins(rs, r, p) { forall j, k | 0 <= j < |out| && 0 <= k < |out| ensures Seam(out, j, k) {} }
  }

  lemma NoTouch(rs: seq<Run>, j: nat, k: nat)
    requires j < |rs| && k < |rs| && !Touches(rs[j], rs[k])
    ensures Seam(rs, j, k)
  {
  }

  /** Behind the merged entry lies what lies behind the new run; no other entry ends or starts where it does. */
  lemma MergedAt(rs: seq<Run>, r: Run, p: nat, k: nat)
    requires Clean(rs) && Free(rs, r) && p < |rs| && Continues(rs[p], r) && k < |rs|
    ensures !Touches(rs[p], rs[k]) && (Touches(rs[k], r) ==> k == p)
    ensures Seam(Put(rs, r, p, true), p, k) <==> (Touches(r, rs[k]) ==> Follows(r, rs[k]) || k < p)
  {
    Joined(rs, r, p);
    assert rs[k].Sound() && rs[p].Sound() && Bounded(rs[p]) && Apart(rs[k], r);
    if k < p { assert Apart(rs[k], rs[p]); } else if p < k { assert Apart(rs[p], rs[k]); }
  }

  // ----- one removal -----

  /** One or two parts of r, each at its old place on both sides, not touching each other. */
  ghost predicate Pieces(parts: seq<Run>, r: Run) {
    && |parts| <= 2 && (|parts| == 2 ==> parts[0].virt + parts[0].len < parts[1].virt)
    && forall i :: 0 <= i < |parts| ==> Piece(parts[i], r)
  }

  predicate Piece(p: Run, r: Run) {
    && p.Sound() && r.virt <= p.virt && p.virt + p.len <= r.virt + r.len
    && p.phys == r.phys + (p.virt - r.virt)
  }

  lemma PiecesFlip(parts: seq<Run>, r: Run)
    requires Pieces(parts, r)
    ensures Pieces(FlipAll(parts), r.Flip())
  {
    forall i | 0 <= i < |parts| ensures Piece(FlipAll(parts)[i], r.Flip()) { assert Piece(parts[i], r); }
    if |parts| == 2 { assert Piece(parts[0], r) && Piece(parts[1], r); }
  }

  lemma CutPieces(r: Run, page: Word, length: Word)
    requires r.Sound() && 0 < length && r.virt + r.len < SPACE && r.len != length
    requires page % PAGE == 0 && length % PAGE == 0
    requires r.virt <= page && page + length <= r.virt + r.len
    ensures Pieces(Cut(r, page, length), r)
  {
    CutSound(r, page, length);
    CutForm(r, page, length);
    var c := Cut(r, page, length);
    forall i | 0 <= i < |c| ensures Piece(c[i], r) { assert c[i].Sound(); }
  }

  lemma SpliceClean(rs: seq<Run>, k: nat, parts: seq<Run>)
    requires Clean(rs) && k < |rs| && Pieces(parts, rs[k])
    ensures Clean(Splice(rs, k, parts))
  {
    var out := Splice(rs, k, parts);
    forall i | 0 <= i < |out| ensures out[i].Sound() && Bounded(out[i]) {
      if k <= i < k + |parts| {
        assert Piece(parts[i - k], rs[k]) && Bounded(rs[k]);
      } else {
        assert out[i] == rs[Origin(k, |parts|, i)];
      }
    }
    assert Fragments(parts, rs[k]) by {
      forall i | 0 <= i < |parts| ensures Piece(parts[i], rs[k]) {}
    }
    SpliceKeepsOrder(rs, k, parts);
  }

  /** No new seam appears at the ends of the parts. */
  lemma SpliceSeams(rs: seq<Run>, k: nat, parts: seq<Run>)
    requires Clean(rs) && k < |rs| && Pieces(parts, rs[k]) && AllSeams(rs)
    ensures AllSeams(Splice(rs, k, parts))
  {
    var out, n := Splice(rs, k, parts), |parts|;
    forall i, j | 0 <= i < |out| && 0 <= j < |out| ensures Seam(out, i, j) {
      var i', j' := Origin(k, n, i), Origin(k, n, j);
      assert Seam(rs, i', j');
      if k <= i < k + n && k <= j < k + n {
        assert Piece(parts[i - k], rs[k]) && Piece(parts[j - k], rs[k]);
      } else if k <= i < k + n {
        assert out[j] == rs[j'];
        PieceEnds(rs, k, parts[i - k], j');
      } else if k <= j < k + n {
        assert out[i] == rs[i'];
        PieceStarts(rs, k, parts[j - k], i');
      } else {
        assert out[i] == rs[i'] && out[j] == rs[j'];
      }
    }
  }

  /** Another run that a part touches is touched by the whole run. */
  lemma PieceEnds(rs: seq<Run>, k: nat, p: Run, j: nat)
    requires Clean(rs) && k < |rs| && j < |rs| && j != k && Piece(p, rs[k])
    ensures Touches(p, rs[j]) ==> Touches(rs[k], rs[j]) && (Follows(rs[k], rs[j]) ==> Follows(p, rs[j]))
  {
    assert rs[j].Sound() && rs[k].Sound() && Bounded(rs[k]);
    if j < k { assert Apart(rs[j], rs[k]); } else { assert Apart(rs[k], rs[j]); }
  }

  lemma PieceStarts(rs: seq<Run>, k: nat, p: Run, i: nat)
    requires Clean(rs) && k < |rs| && i < |rs| && i != k && Piece(p, rs[k])
    ensures Touches(rs[i], p) ==> Touches(rs[i], rs[k]) && (Follows(rs[i], rs[k]) ==> Follows(rs[i], p))
  {
    assert rs[i].Sound() && rs[k].Sound();
    if i < k { assert Apart(rs[i], rs[k]); } else { assert Apart(rs[k], rs[i]); }
  }

  /** A removal that works keeps both sides clean, and seamless if they were. */
  lemma CarveKeeps(rs: seq<Run>, k: nat, page: Word, length: Word)
    requires Clean(rs) && Clean(FlipAll(rs)) && Inside(rs, k, page, length) && Removable(rs, k, page, length)
    ensures var out := Carved(rs, k, page, length);
            && |out| > 0 && Clean(out) && Clean(FlipAll(out)) && Removes(rs, out, page, length)
            && (Seamless(rs) ==> Seamless(out)) && (Seamless(FlipAll(rs)) ==> Seamless(FlipAll(out)))
  {
    assert rs[k].Sound();
    var parts := if rs[k].len == length then [] else Cut(rs[k], page, length);
    if rs[k].len != length { CutPieces(rs[k], page, length); }
    assert Carved(rs, k, page, length) == Splice(rs, k, parts);
    CarvedMeaning(rs, k, page, length);
    PiecesFlip(parts, rs[k]);
    SpliceFlips(rs, k, parts);
    SpliceBoth(rs, k, parts);
    assert FlipAll(rs)[k] == rs[k].Flip();
    SpliceBoth(FlipAll(rs), k, FlipAll(parts));
  }

  lemma SpliceBoth(rs: seq<Run>, k: nat, parts: seq<Run>)
    requires Clean(rs) && k < |rs| && Pieces(parts, rs[k])
    ensures Clean(Splice(rs, k, parts)) && (Seamless(rs) ==> Seamless(Splice(rs, k, parts)))
  {
    hide *;
    SpliceClean(rs, k, parts);
    SeamlessIs(rs);
    SeamlessIs(Splice(rs, k, parts));
    if AllSeams(rs) { SpliceSeams(rs, k, parts); }
  }

  // ----- runs of calls -----

  /**
   * An addition; a removal by virtual or by physical addresses; or a lookup of any kind and in either
   * direction.  Lookups may leave any entry in the cache; a removal leaves the cached entry somewhere
   * in the list, unless it releases it.
   */
  datatype Op =
    | AddOp(run: Run)
    | RemoveOp(page: Word, length: Word, cache: nat)
    | RemovePhysOp(page: Word, length: Word, cache: nat)
    | Look(cache: nat)

  /** The list and the position of the cached entry, None for a pointer to no entry of it. */
  datatype View = View(runs: seq<Run>, cache: Option<nat>)

  function Removed(rs: seq<Run>, page: Word, length: Word): seq<Run> {
    match Remove(rs, page, length)
    case Done(out) => out
    case _ => rs
  }

  /** Where the cached entry is after a removal. */
  function Kept(rs: seq<Run>, page: Word, length: Word, was: Option<nat>, now: nat): Option<nat> {
    if was.None? || was.value == ReleasedAt(rs, page, length) then None else Some(now)
  }

  function After(s: View, o: Op): View {
    match o
    case AddOp(r) => View(AddRun(s.runs, r).runs, Some(AddRun(s.runs, r).cache))
    case RemoveOp(page, length, c) => View(Removed(s.runs, page, length), Kept(s.runs, page, length, s.cache, c))
    case RemovePhysOp(page, length, c) =>
      var fs := FlipAll(s.runs);
      View(FlipAll(Removed(fs, page, length)), Kept(fs, page, length, s.cache, c))
    case Look(c) => s.(cache := Some(c))
  }

  function StateAfter(ops: seq<Op>): View {
    if |ops| == 0 then View([], None) else After(StateAfter(ops[..|ops| - 1]), ops[|ops| - 1])
  }

  /** Virtual address v was sent to p by an addition, and neither of them was removed since. */
  ghost predicate Denotes(ops: seq<Op>, v: int, p: int) {
    if |ops| == 0 then false
    else
      var before := Denotes(ops[..|ops| - 1], v, p);
      match ops[|ops| - 1]
      case AddOp(r) => before || (r.Covers(v) && p == r.phys + (v - r.virt))
      case RemoveOp(page, length, _) => before && !(page <= v < page + length)
      case RemovePhysOp(page, length, _) => before && !(page <= p < page + length)
      case Look(_) => before
  }

  /** The range lies in one run, and the loop removes just that. */
  ghost predicate RangeRemovable(rs: seq<Run>, page: Word, length: Word) {
    exists k :: 0 <= k < |rs| && Inside(rs, k, page, length) && Removable(rs, k, page, length)
  }

  /** A run that is added is free on both sides; a removal is one that works; lookups read the cache. */
  ghost predicate Enabled(s: View, o: Op) {
    match o
    case AddOp(r) => Free(s.runs, r) && Free(FlipAll(s.runs), r.Flip())
    case RemoveOp(page, length, c) =>
      RangeRemovable(s.runs, page, length) && c < |Removed(s.runs, page, length)|
    case RemovePhysOp(page, length, c) =>
      RangeRemovable(FlipAll(s.runs), page, length) && c < |Removed(FlipAll(s.runs), page, length)|
    case Look(c) => s.cache.Some? && c < |s.runs|
  }

  ghost predicate Legal(ops: seq<Op>) {
    forall i :: 0 <= i < |ops| ==> Enabled(StateAfter(ops[..i]), ops[i])
  }

  ghost predicate Good(s: View) {
    Clean(s.runs) && Clean(FlipAll(s.runs)) && (s.cache.Some? ==> s.cache.value < |s.runs|)
  }

  lemma AddKeeps(s: View, r: Run)
    requires Good(s) && Enabled(s, AddOp(r))
    ensures Good(After(s, AddOp(r))) && Extends(s.runs, After(s, AddOp(r)).runs, r)
    ensures Seamless(After(s, AddOp(r)).runs) <==> Seamless(s.runs) && Joins(s.runs, r, AddRun(s.runs, r).cache)
    ensures Seamless(FlipAll(After(s, AddOp(r)).runs)) <==>
            Seamless(FlipAll(s.runs)) && Joins(FlipAll(s.runs), r.Flip(), AddRun(s.runs, r).cache)
  {
    hide Clean, Free, Seamless, Joins, Extends, AddRun, Put;
    var p := AddRun(s.runs, r).cache;
    var merged := AddForm(s.runs, r);
    PutClean(s.runs, r, p, merged);
    PutSeamless(s.runs, r, p, merged);
    PutFlips(s.runs, r, p, merged);
    PutClean(FlipAll(s.runs), r.Flip(), p, merged);
    PutSeamless(FlipAll(s.runs), r.Flip(), p, merged);
  }

  lemma RemovedKeeps(rs: seq<Run>, page: Word, length: Word)
    requires Clean(rs) && Clean(FlipAll(rs)) && RangeRemovable(rs, page, length)
    ensures Remove(rs, page, length).Done?
    ensures var out := Removed(rs, page, length);
            && |out| > 0 && Clean(out) && Clean(FlipAll(out)) && Removes(rs, out, page, length)
            && (Seamless(rs) ==> Seamless(out)) && (Seamless(FlipAll(rs)) ==> Seamless(FlipAll(out)))
  {
    var k :| 0 <= k < |rs| && Inside(rs, k, page, length) && Removable(rs, k, page, length);
    RemovableWorks(rs, k, page, length);
    CarveKeeps(rs, k, page, length);
  }

  lemma FlipTwice(rs: seq<Run>)
    ensures FlipAll(FlipAll(rs)) == rs
  {
  }

  lemma StepKeeps(s: View, o: Op)
    requires Good(s) && Enabled(s, o) && !o.AddOp?
    ensures Good(After(s, o))
    ensures Seamless(s.runs) ==> Seamless(After(s, o).runs)
    ensures Seamless(FlipAll(s.runs)) ==> Seamless(FlipAll(After(s, o).runs))
  {
    hide Clean, Seamless, Removes, Removed, FlipAll, RangeRemovable;
    match o
    case RemoveOp(page, length, _) => RemovedKeeps(s.runs, page, length);
    case RemovePhysOp(page, length, _) =>
      FlipTwice(s.runs);
      RemovedKeeps(FlipAll(s.runs), page, length);
      FlipTwice(Removed(FlipAll(s.runs), page, length));
    case Look(_) =>
  }

  lemma LegalBefore(ops: seq<Op>)
    requires Legal(ops) && |ops| > 0
    ensures var n := |ops| - 1;
            Legal(ops[..n]) && Enabled(StateAfter(ops[..n]), ops[n])
  {
    hide Enabled, StateAfter;
    var n := |ops| - 1;
    assert ops[..n] == ops[..|ops| - 1];
    forall i | 0 <= i < n ensures Enabled(StateAfter(ops[..n][..i]), ops[..n][i]) { assert ops[..n][..i] == ops[..i]; }
  }

  lemma GoodEmpty()
    ensures Good(View([], None)) && Seamless([]) && FlipAll([]) == []
  {
  }

  /** Over every run the list denotes exactly what was added and not removed since. */
  lemma {:induction false} RunDenotes(ops: seq<Op>)
    requires Legal(ops)
    ensures Good(StateAfter(ops))
    ensures forall v, p :: Maps(StateAfter(ops).runs, v, p) <==> Denotes(ops, v, p)
  {
    hide Good, Maps, Enabled, Legal, Seamless, Joins, After, FlipAll;
    if |ops| == 0 {
      GoodEmpty();
      NothingMapped();
    } else {
      var before, o := ops[..|ops| - 1], ops[|ops| - 1];
      LegalBefore(ops);
      RunDenotes(before);
      var s := StateAfter(before);
      if o.AddOp? { AddKeeps(s, o.run); } else { StepKeeps(s, o); }
      forall v, p ensures Maps(StateAfter(ops).runs, v, p) <==> Denotes(ops, v, p) { StepDenotes(s, o, v, p); }
    }
  }

  lemma NothingMapped()
    ensures forall v, p :: !Maps([], v, p)
  {
  }

  lemma StepDenotes(s: View, o: Op, v: int, p: int)
    requires Good(s) && Enabled(s, o)
    ensures Maps(After(s, o).runs, v, p) <==>
            match o
            case AddOp(r) => Maps(s.runs, v, p) || (r.Covers(v) && p == r.phys + (v - r.virt))
            case RemoveOp(page, length, _) => Maps(s.runs, v, p) && !(page <= v < page + length)
            case RemovePhysOp(page, length, _) => Maps(s.runs, v, p) && !(page <= p < page + length)
            case Look(_) => Maps(s.runs, v, p)
  {
    hide Maps, Clean, Seamless, AddRun, FlipAll, Removed, RangeRemovable, Free, Joins;
    match o
    case AddOp(r) => AddKeeps(s, r);
    case RemoveOp(page, length, _) => RemovedKeeps(s.runs, page, length);
    case RemovePhysOp(page, length, _) =>
      var fs := FlipAll(s.runs);
      FlipTwice(s.runs);
      RemovedKeeps(fs, page, length);
      FlipMaps(s.runs, v, p);
      FlipMaps(Removed(fs, page, length), p, v);
    case Look(_) =>
  }

  // ----- when the cache never shows in a run -----

  /** Addition i joined in, on the virtual side. */
  ghost predicate JoinedAt(ops: seq<Op>, i: nat)
    requires i < |ops|
  {
    var rs := StateAfter(ops[..i]).runs;
    ops[i].AddOp? ==> Joins(rs, ops[i].run, AddRun(rs, ops[i].run).cache)
  }

  /** ... and on the physical side. */
  ghost predicate JoinedPhysAt(ops: seq<Op>, i: nat)
    requires i < |ops|
  {
    var rs := StateAfter(ops[..i]).runs;
    ops[i].AddOp? ==> Joins(FlipAll(rs), ops[i].run.Flip(), AddRun(rs, ops[i].run).cache)
  }

  ghost predicate AllJoined(ops: seq<Op>) { forall i :: 0 <= i < |ops| ==> JoinedAt(ops, i) }

  ghost predicate AllJoinedPhys(ops: seq<Op>) { forall i :: 0 <= i < |ops| ==> JoinedPhysAt(ops, i) }

  lemma LastJoined(ops: seq<Op>)
    requires |ops| > 0
    ensures var n := |ops| - 1;
            && (AllJoined(ops) <==> AllJoined(ops[..n]) && JoinedAt(ops, n))
            && (AllJoinedPhys(ops) <==> AllJoinedPhys(ops[..n]) && JoinedPhysAt(ops, n))
  {
    hide Joins, After, StateAfter;
    var n := |ops| - 1;
    forall i | 0 <= i < n
      ensures JoinedAt(ops, i) <==> JoinedAt(ops[..n], i)
      ensures JoinedPhysAt(ops, i) <==> JoinedPhysAt(ops[..n], i)
    {
      assert ops[..n][..i] == ops[..i];
    }
  }

  /** The list is seamless at every point of the run. */
  ghost predicate Always(ops: seq<Op>) {
    forall i :: 0 <= i <= |ops| ==> Seamless(StateAfter(ops[..i]).runs)
  }

  ghost predicate AlwaysPhys(ops: seq<Op>) {
    forall i :: 0 <= i <= |ops| ==> Seamless(FlipAll(StateAfter(ops[..i]).runs))
  }

  lemma LastAlways(ops: seq<Op>)
    requires |ops| > 0
    ensures var before := ops[..|ops| - 1];
            && (Always(ops) <==> Always(before) && Seamless(StateAfter(ops).runs))
            && (AlwaysPhys(ops) <==> AlwaysPhys(before) && Seamless(FlipAll(StateAfter(ops).runs)))
            && (Always(before) ==> Seamless(StateAfter(before).runs))
            && (AlwaysPhys(before) ==> Seamless(FlipAll(StateAfter(before).runs)))
  {
    hide Seamless, StateAfter, FlipAll;
    var n := |ops| - 1;
    assert ops[..|ops|] == ops && ops[..n][..n] == ops[..n];
    forall i | 0 <= i <= n ensures ops[..n][..i] == ops[..i] {}
    if Always(ops[..n]) && Seamless(StateAfter(ops).runs) {
      forall i | 0 <= i <= |ops| ensures Seamless(StateAfter(ops[..i]).runs) {
        if i <= n { assert Seamless(StateAfter(ops[..n][..i]).runs); }
      }
    }
    if AlwaysPhys(ops[..n]) && Seamless(FlipAll(StateAfter(ops).runs)) {
      forall i | 0 <= i <= |ops| ensures Seamless(FlipAll(StateAfter(ops[..i]).runs)) {
        if i <= n { assert Seamless(FlipAll(StateAfter(ops[..n][..i]).runs)); }
      }
    }
    if Always(ops) {
      forall i | 0 <= i <= n ensures Seamless(StateAfter(ops[..n][..i]).runs) {
        assert Seamless(StateAfter(ops[..i]).runs);
      }
    }
    if AlwaysPhys(ops) {
      forall i | 0 <= i <= n ensures Seamless(FlipAll(StateAfter(ops[..n][..i]).runs)) {
        assert Seamless(FlipAll(StateAfter(ops[..i]).runs));
      }
    }
  }

  lemma {:induction false} RunSeamless(ops: seq<Op>)
    requires Legal(ops)
    ensures Always(ops) <==> AllJoined(ops)
    ensures AlwaysPhys(ops) <==> AllJoinedPhys(ops)
    ensures (forall i :: 0 <= i < |ops| ==> ops[i].AddOp? || ops[i].Look?) ==>
              (Seamless(StateAfter(ops).runs) <==> AllJoined(ops)) &&
              (Seamless(FlipAll(StateAfter(ops).runs)) <==> AllJoinedPhys(ops))
  {
    if |ops| == 0 {
      GoodEmpty();
    } else {
      hide Good, Enabled, Legal, Seamless, Joins, FlipAll, Removed, AllJoined, AllJoinedPhys, Always, AlwaysPhys;
      var n := |ops| - 1;
      LegalBefore(ops);
      RunDenotes(ops[..n]);
      RunSeamless(ops[..n]);
      LastJoined(ops);
      LastAlways(ops);
      var s := StateAfter(ops[..n]);
      if ops[n].AddOp? { AddKeeps(s, ops[n].run); } else { StepKeeps(s, ops[n]); }
    }
  }

  /**
   * At every point of every run, and in either direction, each mapped address is translated right
   * whatever the cache holds, if and only if every addition joined in on that side.
   */
  lemma RunExact(ops: seq<Op>)
    requires Legal(ops)
    ensures (forall i :: 0 <= i <= |ops| ==> CacheInvisible(StateAfter(ops[..i]).runs)) <==> AllJoined(ops)
    ensures (forall i :: 0 <= i <= |ops| ==> CacheInvisible(FlipAll(StateAfter(ops[..i]).runs))) <==> AllJoinedPhys(ops)
  {
    RunSeamless(ops);
    hide Legal, StateAfter, CacheInvisible, Seamless, FlipAll, AllJoined, AllJoinedPhys;
    forall i | 0 <= i <= |ops|
      ensures CacheInvisible(StateAfter(ops[..i]).runs) <==> Seamless(StateAfter(ops[..i]).runs)
      ensures CacheInvisible(FlipAll(StateAfter(ops[..i]).runs)) <==> Seamless(FlipAll(StateAfter(ops[..i]).runs))
    {
      InvisibleExact(ops, i);
    }
  }

  lemma InvisibleExact(ops: seq<Op>, i: nat)
    requires Legal(ops) && i <= |ops|
    ensures var rs := StateAfter(ops[..i]).runs;
            && (CacheInvisible(rs) <==> Seamless(rs)) && (CacheInvisible(FlipAll(rs)) <==> Seamless(FlipAll(rs)))
  {
    hide Enabled, StateAfter, CacheInvisible, Seamless, FlipAll, Clean;
    forall j | 0 <= j < i ensures Enabled(StateAfter(ops[..i][..j]), ops[..i][j]) { assert ops[..i][..j] == ops[..j]; }
    RunDenotes(ops[..i]);
    var rs := StateAfter(ops[..i]).runs;
    CleanAvoids(rs);
    CleanAvoids(FlipAll(rs));
    CacheExact(rs);
    CacheExact(FlipAll(rs));
  }

  lemma CleanAvoids(rs: seq<Run>)
    requires Clean(rs)
    ensures AllSound(rs) && Disjoint(rs) && AvoidsInvalid(rs)
  {
    forall i | 0 <= i < |rs| ensures !(rs[i].phys <= INVALID <= rs[i].phys + rs[i].len) { assert Bounded(rs[i]); }
  }

  // ----- what lookups answer in a run -----

  ghost predicate DenotedFrom(ops: seq<Op>, v: int) { exists p :: Denotes(ops, v, p) }

  ghost predicate DenotedTo(ops: seq<Op>, p: int) { exists v :: Denotes(ops, v, p) }

  /**
   * With all additions joined a mapped address goes where the run sends it; an unmapped address gets
   * the invalid value exactly when the byte before its page is not mapped either.
   */
  lemma RunAnswers(ops: seq<Op>, cache: nat, a: Word, p: int)
    requires Legal(ops) && cache < |StateAfter(ops).runs|
    ensures Denotes(ops, a, p) && AllJoined(ops) ==> Translate(StateAfter(ops).runs, cache, a).value == p
    ensures !DenotedFrom(ops, a) ==>
              (Translate(StateAfter(ops).runs, cache, a).value == 0x3FFC_0000_0000_0000
               <==> !DenotedFrom(ops, PageOf(a) - 1))
  {
    var rs := StateAfter(ops).runs;
    RunDenotes(ops);
    forall v ensures Mapped(rs, v) <==> DenotedFrom(ops, v) { MappedFrom(ops, rs, v); }
    if !Mapped(rs, a) { Answers(rs, cache, a); }
    if Denotes(ops, a, p) && AllJoined(ops) {
      RunExact(ops);
      assert ops[..|ops|] == ops;
      InvisibleAnswers(rs, cache, a, p);
    }
  }

  /** The same for physical addresses. */
  lemma RunAnswersBack(ops: seq<Op>, cache: nat, p: Word, v: int)
    requires Legal(ops) && cache < |StateAfter(ops).runs|
    ensures Denotes(ops, v, p) && AllJoinedPhys(ops) ==> Translate(FlipAll(StateAfter(ops).runs), cache, p).value == v
    ensures !DenotedTo(ops, p) ==>
              (Translate(FlipAll(StateAfter(ops).runs), cache, p).value == 0x3FFC_0000_0000_0000
               <==> !DenotedTo(ops, PageOf(p) - 1))
  {
    var rs := StateAfter(ops).runs;
    RunDenotes(ops);
    forall q ensures Mapped(FlipAll(rs), q) <==> DenotedTo(ops, q) { MappedTo(ops, rs, q); }
    if !Mapped(FlipAll(rs), p) { Answers(FlipAll(rs), cache, p); }
    if Denotes(ops, v, p) && AllJoinedPhys(ops) {
      RunExact(ops);
      assert ops[..|ops|] == ops;
      FlipMaps(rs, v, p);
      InvisibleAnswers(FlipAll(rs), cache, p, v);
    }
  }

  lemma MappedFrom(ops: seq<Op>, rs: seq<Run>, v: int)
    requires forall w, p :: Maps(rs, w, p) <==> Denotes(ops, w, p)
    ensures Mapped(rs, v) <==> DenotedFrom(ops, v)
  {
    hide Denotes;
    if i :| 0 <= i < |rs| && rs[i].Covers(v) { assert Maps(rs, v, rs[i].phys + (v - rs[i].virt)); }
    if p :| Denotes(ops, v, p) { assert Maps(rs, v, p); }
  }

  lemma MappedTo(ops: seq<Op>, rs: seq<Run>, p: int)
    requires forall w, q :: Maps(rs, w, q) <==> Denotes(ops, w, q)
    ensures Mapped(FlipAll(rs), p) <==> DenotedTo(ops, p)
  {
    hide Denotes;
    var fs := FlipAll(rs);
    if i :| 0 <= i < |fs| && fs[i].Covers(p) {
      var v := fs[i].phys + (p - fs[i].virt);
      assert Maps(fs, p, v);
      FlipMaps(rs, v, p);
    }
    if v :| Denotes(ops, v, p) {
      assert Maps(rs, v, p);
      FlipMaps(rs, v, p);
    }
  }

  lemma Answers(rs: seq<Run>, cache: nat, a: Word)
    requires Clean(rs) && cache < |rs| && !Mapped(rs, a)
    ensures Translate(rs, cache, a).value == 0x3FFC_0000_0000_0000 <==> !Mapped(rs, PageOf(a) - 1)
  {
    CleanAvoids(rs);
    UnmappedExact(rs, cache, a);
    EndsBehind(rs, a);
  }

  lemma InvisibleAnswers(rs: seq<Run>, cache: nat, a: Word, p: int)
    requires Clean(rs) && cache < |rs| && CacheInvisible(rs) && Maps(rs, a, p)
    ensures Translate(rs, cache, a).value == p
  {
    var k :| 0 <= k < |rs| && rs[k].Covers(a) && p == rs[k].phys + (a - rs[k].virt);
    MapsAt(rs, k, a);
    assert Right(rs, a, Translate(rs, cache, a).value);
  }

  /** A run ends at an unmapped page exactly when the byte before it is mapped. */
  lemma EndsBehind(rs: seq<Run>, a: Word)
    requires AllSound(rs) && !Mapped(rs, a)
    ensures (exists j :: 0 <= j < |rs| && EndsAt(rs[j], PageOf(a))) <==> Mapped(rs, PageOf(a) - 1)
  {
    var page, last: int := PageOf(a), PageOf(a) - 1;
    forall j | 0 <= j < |rs| ensures EndsAt(rs[j], page) <==> rs[j].Covers(last) {
      assert rs[j].Sound() && !rs[j].Covers(a);
      CoversPage(rs[j], a);
    }
  }

  /** On a sorted list, not below its first run, joining in is continuing or being continued by every run touched. */
  lemma JoinsSorted(rs: seq<Run>, r: Run)
    requires AllSound(rs) && Sorted(rs) && Fits(rs, r) && |rs| > 0 && rs[0].virt <= r.virt
    ensures Joins(rs, r, AddRun(rs, r).cache) <==>
            forall i :: 0 <= i < |rs| ==>
              (Touches(rs[i], r) ==> Follows(rs[i], r)) && (Touches(r, rs[i]) ==> Follows(r, rs[i]))
  {
    var k := SlotExists(rs, r.virt);
    AddFromSlot(rs, 0, k, r);
    forall i | 0 <= i < |rs|
      ensures Touches(rs[i], r) ==> i <= k && (i == k || !Continues(rs[k], r))
      ensures Touches(r, rs[i]) ==> i > k
    {
      assert Apart(rs[i], r) && rs[i].Sound() && rs[k].Sound();
    }
  }
}
