// The address translator's list of runs as a value, and the mapping it denotes.
//
// Everything about the list is stated for its virtual side.  The physical operations of
// libc/src/memory/address_translater_v3.c are the same functions on the flipped list.

module RunList {
  import opened Words

  /** `len` bytes starting at `virt` are mapped to `len` bytes starting at `phys`. */
  datatype Run = Run(virt: Word, phys: Word, len: Word) {
    function Flip(): Run { Run(phys, virt, len) }

    /** The end address as the code computes it: it wraps to 0 for a run that reaches 2^64. */
    function End(): Word { Add(virt, len) }

    /** The code's membership test.  Both ends are inclusive. */
    predicate Hits(a: Word) { virt <= a && End() >= a }

    /** Real membership. */
    predicate Covers(a: int) { virt <= a < virt + len }

    /** Where `a` goes when the code picks this run. */
    function Image(a: Word): Word
      requires virt <= a
    {
      Add(phys, a - virt)
    }

    predicate Sound() {
      && 0 < len
      && virt + len <= SPACE && phys + len <= SPACE
      && virt % PAGE == 0 && phys % PAGE == 0 && len % PAGE == 0
    }
  }

  ghost predicate AllSound(rs: seq<Run>) {
    forall i :: 0 <= i < |rs| ==> rs[i].Sound()
  }

  predicate Apart(r: Run, s: Run) {
    r.virt + r.len <= s.virt || s.virt + s.len <= r.virt
  }

  /** No two runs share a virtual address. */
  ghost predicate Disjoint(rs: seq<Run>) {
    forall i, j :: 0 <= i < j < |rs| ==> Apart(rs[i], rs[j])
  }

  /** Ascending virtual order without overlap. */
  ghost predicate Sorted(rs: seq<Run>) {
    forall i, j :: 0 <= i < j < |rs| ==> rs[i].virt + rs[i].len <= rs[j].virt
  }

  function FlipAll(rs: seq<Run>): (fs: seq<Run>)
    ensures |fs| == |rs|
    ensures forall i :: 0 <= i < |rs| ==> fs[i] == rs[i].Flip()
  {
    seq(|rs|, i requires 0 <= i < |rs| => rs[i].Flip())
  }

  /** The mapping that a list denotes: virtual address v goes to physical address p. */
  ghost predicate Maps(rs: seq<Run>, v: int, p: int) {
    exists i :: 0 <= i < |rs| && rs[i].Covers(v) && p == rs[i].phys + (v - rs[i].virt)
  }

  ghost predicate Mapped(rs: seq<Run>, v: int) {
    exists i :: 0 <= i < |rs| && rs[i].Covers(v)
  }

  lemma FlipMaps(rs: seq<Run>, v: int, p: int)
    ensures Maps(FlipAll(rs), p, v) <==> Maps(rs, v, p)
  {
    var fs := FlipAll(rs);
    if Maps(fs, p, v) {
      var i :| 0 <= i < |fs| && fs[i].Covers(p) && v == fs[i].phys + (p - fs[i].virt);
      assert rs[i].Covers(v);
    }
    if Maps(rs, v, p) {
      var i :| 0 <= i < |rs| && rs[i].Covers(v) && p == rs[i].phys + (v - rs[i].virt);
      assert fs[i].Covers(p);
    }
  }

  /** Run j ends exactly where `page` starts. */
  predicate EndsAt(r: Run, page: Word) { r.virt + r.len == page }

  /** The index at which the scanning loop stops: the first run that passes the inclusive test. */
  function FirstHit(rs: seq<Run>, page: Word): (i: nat)
    ensures i <= |rs|
    ensures i < |rs| ==> rs[i].Hits(page)
    ensures forall j :: 0 <= j < i ==> !rs[j].Hits(page)
  {
    if |rs| == 0 then 0
    else if rs[0].Hits(page) then 0
    else
      var k := FirstHit(rs[1..], page);
      assert forall j :: 1 <= j < k + 1 ==> rs[j] == rs[1..][j - 1];
      k + 1
  }

  lemma FirstHitIs(rs: seq<Run>, i: nat, page: Word)
    requires i < |rs| && rs[i].Hits(page) && forall j :: 0 <= j < i ==> !rs[j].Hits(page)
    ensures FirstHit(rs, page) == i
  {
  }

  lemma CoverUnique(rs: seq<Run>, i: nat, j: nat, a: int)
    requires Disjoint(rs) && i < |rs| && j < |rs|
    requires rs[i].Covers(a) && rs[j].Covers(a)
    ensures i == j
  {
  }

  lemma EndUnique(rs: seq<Run>, i: nat, j: nat, a: Word)
    requires Disjoint(rs) && AllSound(rs) && i < |rs| && j < |rs|
    requires EndsAt(rs[i], a) && EndsAt(rs[j], a)
    ensures i == j
  {
    CoverUnique(rs, i, j, a - 1);
  }

  /** A run holds an address exactly when it holds that address's page. */
  lemma CoversPage(r: Run, a: Word)
    requires r.Sound()
    ensures r.Covers(PageOf(a)) <==> r.Covers(a)
    ensures a == PageOf(a) + OffsetOf(a)
  {
    var x, y, z, o := r.virt / PAGE, (r.virt + r.len) / PAGE, a / PAGE, a % PAGE;
    assert r.virt == x * PAGE && r.virt + r.len == y * PAGE && a == z * PAGE + o;
  }

  /** With disjoint runs, an address covered by run k goes to one place only. */
  lemma MapsAt(rs: seq<Run>, k: nat, a: int)
    requires Disjoint(rs) && k < |rs| && rs[k].Covers(a)
    ensures Mapped(rs, a)
    ensures forall p :: Maps(rs, a, p) <==> p == rs[k].phys + (a - rs[k].virt)
  {
    forall p | Maps(rs, a, p) ensures p == rs[k].phys + (a - rs[k].virt) {
      var i :| 0 <= i < |rs| && rs[i].Covers(a) && p == rs[i].phys + (a - rs[i].virt);
      CoverUnique(rs, i, k, a);
    }
  }

  lemma MapsConcat(as_: seq<Run>, bs: seq<Run>, v: int, p: int)
    ensures Maps(as_ + bs, v, p) <==> Maps(as_, v, p) || Maps(bs, v, p)
  {
    var cs := as_ + bs;
    if Maps(cs, v, p) {
      var i :| 0 <= i < |cs| && cs[i].Covers(v) && p == cs[i].phys + (v - cs[i].virt);
      if i < |as_| { assert as_[i].Covers(v); } else { assert bs[i - |as_|].Covers(v); }
    }
    if Maps(as_, v, p) {
      var i :| 0 <= i < |as_| && as_[i].Covers(v) && p == as_[i].phys + (v - as_[i].virt);
      assert cs[i].Covers(v);
    }
    if Maps(bs, v, p) {
      var i :| 0 <= i < |bs| && bs[i].Covers(v) && p == bs[i].phys + (v - bs[i].virt);
      assert cs[i + |as_|].Covers(v);
    }
  }

  lemma MapsOne(r: Run, v: int, p: int)
    ensures Maps([r], v, p) <==> r.Covers(v) && p == r.phys + (v - r.virt)
  {
    assert [r][0].Covers(v) == r.Covers(v);
  }

  lemma AlignedSum(a: int, b: int)
    requires a % PAGE == 0 && b % PAGE == 0
    ensures (a + b) % PAGE == 0 && (a - b) % PAGE == 0
  {
    var x, y := a / PAGE, b / PAGE;
    assert a == x * 0x1000 && b == y * 0x1000;
  }

  /** No run reaches 2^64, where its computed end would wrap to 0. */
  ghost predicate BelowTop(rs: seq<Run>) {
    forall i :: 0 <= i < |rs| ==> rs[i].virt + rs[i].len < SPACE
  }

  /** Physical addresses stay below 2^64, as every machine's do. */
  predicate LowPhys(r: Run) { r.phys + r.len < SPACE }
}
