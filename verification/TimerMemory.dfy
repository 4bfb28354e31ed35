// The timer's sleepers in memory: nodes taken from a pool, linked into the waiting list, and what
// the sharing of nodes between the two lists leads to.

module TimerMemory {
  import opened Words
  import opened Deadlines

  /** struct Timer_waits: `next` is an address, 0 is null. */
  datatype Node = Node(tid: nat, rel: Word, next: int)

  const NODE_SIZE := 24

  /** The static variables of APIC.c and the count last written to the timer. */
  datatype Queue = Queue(
    nodes: map<int, Node>, waiting: int, waitingCount: Word, empty: int, emptyCount: Word, timer: Word)

  // ----- lists -----

  /** From `head` the next fields lead through exactly q and end in null. */
  ghost predicate Chain(nodes: map<int, Node>, q: seq<int>, head: int) {
    if q == [] then head == 0
    else head == q[0] && head != 0 && head in nodes && Chain(nodes, q[1..], nodes[head].next)
  }

  /** The list starting at `head` comes to an end. */
  ghost predicate Ends(nodes: map<int, Node>, head: int) { exists q :: Chain(nodes, q, head) }

  lemma EndsBy(nodes: map<int, Node>, q: seq<int>, head: int)
    requires Chain(nodes, q, head)
    ensures Ends(nodes, head)
  {
  }

  /** The delta list stored in these nodes. */
  function Values(nodes: map<int, Node>, q: seq<int>): seq<Sleeper> {
    if q == [] || q[0] !in nodes then []
    else [Sleeper(nodes[q[0]].tid, nodes[q[0]].rel)] + Values(nodes, q[1..])
  }

  lemma {:induction false} ChainUnique(nodes: map<int, Node>, q: seq<int>, r: seq<int>, head: int)
    requires Chain(nodes, q, head) && Chain(nodes, r, head)
    ensures q == r
  {
    if q != [] { ChainUnique(nodes, q[1..], r[1..], nodes[head].next); }
  }

  lemma {:induction false} ChainIn(nodes: map<int, Node>, q: seq<int>, head: int)
    requires Chain(nodes, q, head)
    ensures forall a :: a in q ==> a in nodes && a != 0
    ensures |Values(nodes, q)| == |q|
  {
    if q != [] {
      ChainIn(nodes, q[1..], nodes[head].next);
      forall a | a in q ensures a in nodes && a != 0 { assert a == q[0] || a in q[1..]; }
    }
  }

  /** From the middle of a chain the rest of it is a chain. */
  lemma {:induction false} ChainFrom(nodes: map<int, Node>, q: seq<int>, head: int, i: nat)
    requires Chain(nodes, q, head) && i < |q|
    ensures Chain(nodes, q[i..], q[i])
  {
    if i > 0 {
      ChainFrom(nodes, q[1..], nodes[head].next, i - 1);
      assert q[1..][i - 1..] == q[i..];
    }
  }

  /** A chain ends, so it passes its first node only once. */
  lemma HeadOnce(nodes: map<int, Node>, q: seq<int>, head: int)
    requires Chain(nodes, q, head) && q != []
    ensures q[0] !in q[1..]
  {
    if i :| 1 <= i < |q| && q[i] == q[0] {
      ChainFrom(nodes, q, head, i);
      ChainUnique(nodes, q, q[i..], head);
      assert false;
    }
  }

  /** The nodes of q are the same in both memories. */
  ghost predicate SameNodes(nodes: map<int, Node>, w: map<int, Node>, q: seq<int>) {
    forall a :: a in q && a in nodes ==> a in w && w[a] == nodes[a]
  }

  lemma {:induction false} ChainFrame(nodes: map<int, Node>, w: map<int, Node>, q: seq<int>, head: int)
    requires Chain(nodes, q, head) && SameNodes(nodes, w, q)
    ensures Chain(w, q, head) && Values(w, q) == Values(nodes, q)
  {
    if q != [] { ChainFrame(nodes, w, q[1..], nodes[head].next); }
  }

  /** Only links matter to a chain. */
  lemma {:induction false} ChainLinks(nodes: map<int, Node>, w: map<int, Node>, q: seq<int>, head: int)
    requires Chain(nodes, q, head) && forall a :: a in q && a in nodes ==> a in w && w[a].next == nodes[a].next
    ensures Chain(w, q, head)
  {
    if q != [] { ChainLinks(nodes, w, q[1..], nodes[head].next); }
  }

  /** w links n behind p, and n to what followed p. */
  ghost predicate LinkedBehind(nodes: map<int, Node>, w: map<int, Node>, q: seq<int>, n: int, p: int) {
    && p in nodes && p in w && w[p] == nodes[p].(next := n)
    && n in w && w[n].next == nodes[p].next
    && forall a :: a in q && a != p && a in nodes ==> a in w && w[a] == nodes[a]
  }

  lemma {:induction false} InsertAt(nodes: map<int, Node>, w: map<int, Node>, q: seq<int>, head: int, n: int, k: nat)
    requires Chain(nodes, q, head) && n !in q && n != 0 && 0 < k <= |q| && LinkedBehind(nodes, w, q, n, q[k - 1])
    ensures Chain(w, q[..k] + [n] + q[k..], head)
    ensures |Values(nodes, q)| == |q|
    ensures var ts := Values(nodes, q);
            Values(w, q[..k] + [n] + q[k..]) == ts[..k] + [Sleeper(w[n].tid, w[n].rel)] + ts[k..]
  {
    HeadOnce(nodes, q, head);
    ChainIn(nodes, q, head);
    var rest, q' := q[1..], q[..k] + [n] + q[k..];
    if k == 1 {
      InsertSecond(nodes, w, q, head, n);
    } else {
      assert q[k - 1] == rest[k - 2];
      InsertAt(nodes, w, rest, nodes[head].next, n, k - 1);
      assert q'[1..] == rest[..k - 1] + [n] + rest[k - 1..];
      var ts := Values(nodes, q);
      assert ts == [ts[0]] + Values(nodes, rest);
      var vs := Values(nodes, rest);
      assert Values(w, q') == [ts[0]] + (vs[..k - 1] + [Sleeper(w[n].tid, w[n].rel)] + vs[k - 1..]);
    }
  }

  lemma InsertSecond(nodes: map<int, Node>, w: map<int, Node>, q: seq<int>, head: int, n: int)
    requires q != [] && Chain(nodes, q, head) && q[0] !in q[1..] && n !in q && n != 0
    requires LinkedBehind(nodes, w, q, n, q[0])
    requires |Values(nodes, q)| == |q|
    ensures Chain(w, q[..1] + [n] + q[1..], head)
    ensures var ts := Values(nodes, q);
            Values(w, q[..1] + [n] + q[1..]) == ts[..1] + [Sleeper(w[n].tid, w[n].rel)] + ts[1..]
  {
    hide Chain, Values;
    var rest := q[1..];
    Uncons(nodes, q, head);
    ChainFrame(nodes, w, rest, nodes[head].next);
    Cons(w, n, rest);
    Cons(w, head, [n] + rest);
    assert q[..1] + [n] + q[1..] == [head] + ([n] + rest);
  }

  lemma Cons(w: map<int, Node>, n: int, q: seq<int>)
    requires n in w && n != 0 && Chain(w, q, w[n].next)
    ensures Chain(w, [n] + q, n) && Values(w, [n] + q) == [Sleeper(w[n].tid, w[n].rel)] + Values(w, q)
  {
    assert ([n] + q)[1..] == q;
  }

  lemma Uncons(w: map<int, Node>, q: seq<int>, head: int)
    requires Chain(w, q, head) && q != []
    ensures head == q[0] && head != 0 && head in w && Chain(w, q[1..], w[head].next)
    ensures Values(w, q) == [Sleeper(w[head].tid, w[head].rel)] + Values(w, q[1..])
  {
  }

  // ----- add_to_sleep -----

  function NodeAt(base: int, i: int): int { base + NODE_SIZE * i }

  function NextInBlock(base: int, i: int): int { if i < 9 then NodeAt(base, i + 1) else 0 }

  function Zeroed(base: int, n: nat): map<int, Node> { map i | 0 <= i < n :: NodeAt(base, i) := Node(0, 0, 0) }

  function LinkedUpTo(base: int, n: nat): map<int, Node> {
    map i | 0 <= i < 10 :: NodeAt(base, i) := Node(0, 0, if i < n then NextInBlock(base, i) else 0)
  }

  /** Ten zeroed nodes, each linked to the one behind it. */
  function Block(base: int): map<int, Node> {
    map i | 0 <= i < 10 :: NodeAt(base, i) := Node(0, 0, NextInBlock(base, i))
  }

  /** Nodes of 24 bytes each; the last one ends the list. */
  lemma BlockIs(base: int, i: int)
    requires 0 <= i < 10
    ensures base + 24 * i in Block(base)
    ensures Block(base)[base + 24 * i] == Node(0, 0, if i < 9 then base + 24 * (i + 1) else 0)
    ensures base + 24 * i + 8 !in Block(base) && base + 240 !in Block(base)
  {
    assert NodeAt(base, i) == base + 24 * i;
  }

  lemma ZeroedNone(nodes: map<int, Node>, base: int)
    ensures nodes + Zeroed(base, 0) == nodes
  {
  }

  lemma ZeroedStep(nodes: map<int, Node>, base: int, n: nat)
    ensures nodes + Zeroed(base, n + 1) == (nodes + Zeroed(base, n))[NodeAt(base, n) := Node(0, 0, 0)]
  {
    assert Zeroed(base, n + 1) == Zeroed(base, n)[NodeAt(base, n) := Node(0, 0, 0)];
  }

  lemma LinkedStep(nodes: map<int, Node>, base: int, n: nat)
    requires n < 9
    ensures var a := NodeAt(base, n);
            a in nodes + LinkedUpTo(base, n) &&
            nodes + LinkedUpTo(base, n + 1)
            == (nodes + LinkedUpTo(base, n))[a := (nodes + LinkedUpTo(base, n))[a].(next := NodeAt(base, n + 1))]
  {
    var a := NodeAt(base, n);
    assert a in LinkedUpTo(base, n) && LinkedUpTo(base, n)[a] == Node(0, 0, 0);
    assert LinkedUpTo(base, n + 1) == LinkedUpTo(base, n)[a := Node(0, 0, NodeAt(base, n + 1))];
  }

  lemma BlockParts(base: int)
    ensures Zeroed(base, 10) == LinkedUpTo(base, 0) && LinkedUpTo(base, 9) == Block(base)
  {
    hide *;
    NoneLinked(base);
    AllLinked(base);
  }

  lemma NoneLinked(base: int)
    ensures Zeroed(base, 10) == LinkedUpTo(base, 0)
  {
  }

  lemma AllLinked(base: int)
    ensures LinkedUpTo(base, 9) == Block(base)
  {
  }

  /** An empty pool is refilled; the count raised is that of the waiting list. */
  function Refilled(s: Queue, base: int): Queue {
    if s.emptyCount == 0
    then s.(nodes := s.nodes + Block(base), empty := base, waitingCount := Add(s.waitingCount, 10))
    else s
  }

  /** The first pool node is taken for thread tid. */
  function Taken(s: Queue, tid: nat): Queue
    requires s.empty in s.nodes
  {
    var n := s.empty;
    s.(nodes := s.nodes[n := s.nodes[n].(tid := tid)], empty := s.nodes[n].next, emptyCount := Sub(s.emptyCount, 1))
  }

  /** How many sleepers the walk passes, and the 64-bit sum of their times. */
  function Walk(ts: seq<Sleeper>, delta: Word, sum: Word): (r: (nat, Word))
    requires sum <= delta
    ensures r.0 <= |ts| && r.1 <= delta
  {
    if ts == [] || Add(sum, ts[0].rel) > delta then (0, sum)
    else var r := Walk(ts[1..], delta, Add(sum, ts[0].rel)); (r.0 + 1, r.1)
  }

  lemma Behind(ts: seq<Sleeper>, k: nat, s: Sleeper)
    requires k < |ts|
    ensures [ts[0]] + (ts[1..][..k] + [s] + ts[1..][k..]) == ts[..k + 1] + [s] + ts[k + 1..]
  {
  }

  lemma {:induction false} WalkInserts(ts: seq<Sleeper>, delta: Word, tid: nat, sum: Word)
    requires sum <= delta
    ensures var (k, passed) := Walk(ts, delta, sum);
            InsertFrom(ts, delta, tid, sum) == ts[..k] + [Sleeper(tid, delta - passed)] + ts[k..]
  {
    if ts == [] || Add(sum, ts[0].rel) > delta {
    } else {
      var at := Add(sum, ts[0].rel);
      WalkInserts(ts[1..], delta, tid, at);
      var (k, passed) := Walk(ts[1..], delta, at);
      Behind(ts, k, Sleeper(tid, delta - passed));
    }
  }

  /** Node n is put among the waiting nodes q. */
  function Placed(s: Queue, n: int, delta: Word, q: seq<int>): Queue
    requires n in s.nodes && forall i :: 0 <= i < |q| ==> q[i] in s.nodes
  {
    var t := s.(waitingCount := Add(s.waitingCount, 1));
    if q == [] then t.(nodes := s.nodes[n := s.nodes[n].(rel := delta)], waiting := n)
    else
      if s.nodes[q[0]].rel > delta then
        var linked := s.nodes[n := s.nodes[n].(next := q[0])];
        var shortened := linked[q[0] := linked[q[0]].(rel := Sub(linked[q[0]].rel, delta))];
        t.(nodes := shortened[n := shortened[n].(rel := delta)], waiting := n, timer := delta)
      else
        var (k, passed) := Walk(Values(s.nodes, q), delta, 0);
        if 0 < k <= |q| then
          var p := q[k - 1];
          var linked := s.nodes[n := s.nodes[n].(next := s.nodes[p].next)];
          var behind := linked[p := linked[p].(next := n)];
          t.(nodes := behind[n := behind[n].(rel := delta - passed)])
        else t
  }

  /** The state after add_to_sleep when q is the waiting list. */
  ghost predicate Adds(s: Queue, t: Queue, r: Request, base: int, q: seq<int>) {
    var f := Refilled(s, base);
    && Chain(s.nodes, q, s.waiting)
    && f.empty in f.nodes
    && (forall i :: 0 <= i < |q| ==> q[i] in Taken(f, r.tid).nodes)
    && t == Placed(Taken(f, r.tid), f.empty, r.delta, q)
  }

  /** The waiting nodes with n put where the insertion of delta puts it. */
  function Into(q: seq<int>, n: int, ts: seq<Sleeper>, delta: Word): seq<int>
    requires |q| == |ts| > 0
  {
    var k := if ts[0].rel > delta then 0 else Walk(ts, delta, 0).0;
    q[..k] + [n] + q[k..]
  }

  /**
   * With a node that is on no waiting list, add_to_sleep performs exactly the insertion of the
   * delta list. Nodes outside the waiting list keep their links.
   */
  lemma PlacedInserts(s: Queue, n: int, delta: Word, q: seq<int>)
    requires Chain(s.nodes, q, s.waiting) && q != [] && n !in q && n in s.nodes && n != 0
    requires forall i :: 0 <= i < |q| ==> q[i] in s.nodes
    ensures |Values(s.nodes, q)| == |q|
    ensures var t, ts := Placed(s, n, delta, q), Values(s.nodes, q);
            var q' := Into(q, n, ts, delta);
            Inserted(q, q', n) && Chain(t.nodes, q', t.waiting)
                && Values(t.nodes, q') == Insert(ts, delta, s.nodes[n].tid)
  {
    hide Chain, Values;
    ChainIn(s.nodes, q, s.waiting);
    Uncons(s.nodes, q, s.waiting);
    var t, ts := Placed(s, n, delta, q), Values(s.nodes, q);
    if s.nodes[q[0]].rel > delta {
      hide Walk, InsertFrom;
      HeadOnce(s.nodes, q, s.waiting);
      AtHead(s.nodes, t.nodes, q, n, delta);
      assert Into(q, n, ts, delta) == [n] + q;
    } else {
      var (k, passed) := Walk(ts, delta, 0);
      WalkInserts(ts, delta, s.nodes[n].tid, 0);
      InsertAt(s.nodes, t.nodes, q, s.waiting, n, k);
    }
  }

  /** The counters and the pool after an insertion, and the nodes it does not touch. */
  lemma PlacedLeaves(s: Queue, n: int, delta: Word, q: seq<int>)
    requires n in s.nodes && forall i :: 0 <= i < |q| ==> q[i] in s.nodes
    ensures var t := Placed(s, n, delta, q);
            && t.empty == s.empty && t.emptyCount == s.emptyCount && t.waitingCount == Add(s.waitingCount, 1)
            && t.timer == (if q != [] && s.nodes[q[0]].rel > delta then delta else s.timer)
            && forall a :: a in s.nodes && a !in q && a != n ==> a in t.nodes && t.nodes[a] == s.nodes[a]
  {
    hide Walk, Values;
  }

  lemma AtHead(nodes: map<int, Node>, w: map<int, Node>, q: seq<int>, n: int, delta: Word)
    requires q != [] && Chain(nodes, q, q[0]) && n !in q && n in w && n != 0
    requires q[0] in nodes && q[0] in w && w[q[0]].next == nodes[q[0]].next && w[q[0]].tid == nodes[q[0]].tid
    requires nodes[q[0]].rel > delta && w[q[0]].rel == nodes[q[0]].rel - delta
    requires w[n].next == q[0] && w[n].rel == delta && SameNodes(nodes, w, q[1..])
    ensures Chain(w, [n] + q, n) && Values(w, [n] + q) == Insert(Values(nodes, q), delta, w[n].tid)
  {
    hide Chain, Values;
    Uncons(nodes, q, q[0]);
    ChainFrame(nodes, w, q[1..], nodes[q[0]].next);
    Cons(w, q[0], q[1..]);
    assert [q[0]] + q[1..] == q;
    Cons(w, n, q);
  }

  /** q' is q with n put in somewhere. */
  ghost predicate Inserted(q: seq<int>, q': seq<int>, n: int) {
    |q'| == |q| + 1 && forall a :: a in q' <==> a == n || a in q
  }

  // ----- a node that is waiting already -----

  /** From `head` the next fields lead through p and to `end`. */
  ghost predicate Path(nodes: map<int, Node>, p: seq<int>, head: int, end: int) {
    if p == [] then head == end
    else head == p[0] && head != 0 && head in nodes && Path(nodes, p[1..], nodes[head].next, end)
  }

  lemma {:induction false} PathOf(nodes: map<int, Node>, q: seq<int>, head: int, k: nat)
    requires Chain(nodes, q, head) && k <= |q|
    ensures Path(nodes, q[..k], head, if k < |q| then q[k] else 0)
  {
    if k > 0 {
      PathOf(nodes, q[1..], nodes[head].next, k - 1);
      assert q[..k][1..] == q[1..][..k - 1];
    }
  }

  lemma {:induction false} PathFrame(nodes: map<int, Node>, w: map<int, Node>, p: seq<int>, head: int, end: int)
    requires Path(nodes, p, head, end) && forall a :: a in p && a in nodes ==> a in w && w[a].next == nodes[a].next
    ensures Path(w, p, head, end)
  {
    if p != [] { PathFrame(nodes, w, p[1..], nodes[head].next, end); }
  }

  lemma {:induction false} PathJoin(nodes: map<int, Node>, p: seq<int>, r: seq<int>, head: int, mid: int, end: int)
    requires Path(nodes, p, head, mid) && Path(nodes, r, mid, end)
    ensures Path(nodes, p + r, head, end)
  {
    if p == [] {
      assert p + r == r;
    } else {
      PathJoin(nodes, p[1..], r, nodes[head].next, mid, end);
      assert (p + r)[1..] == p[1..] + r;
    }
  }

  lemma {:induction false} PathChain(nodes: map<int, Node>, p: seq<int>, head: int)
    requires Path(nodes, p, head, 0)
    ensures Chain(nodes, p, head)
  {
    if p != [] { PathChain(nodes, p[1..], nodes[head].next); }
  }

  lemma PathOne(nodes: map<int, Node>, a: int)
    requires a in nodes && a != 0
    ensures Path(nodes, [a], a, nodes[a].next)
  {
  }

  lemma PathNone(nodes: map<int, Node>)
    ensures Path(nodes, [], 0, 0)
  {
  }

  lemma {:induction false} ChainAfter(nodes: map<int, Node>, p: seq<int>, head: int, end: int, z: seq<int>)
    requires Path(nodes, p, head, end) && Chain(nodes, z, head)
    ensures |p| <= |z| && Chain(nodes, z[|p|..], end)
  {
    if p == [] {
      assert z[0..] == z;
    } else {
      ChainAfter(nodes, p[1..], nodes[head].next, end, z[1..]);
      assert z[1..][|p| - 1..] == z[|p|..];
    }
  }

  /** A list that runs into a ring never ends. */
  lemma RingNeverEnds(nodes: map<int, Node>, p: seq<int>, ring: seq<int>, head: int, at: int)
    requires Path(nodes, p, head, at) && Path(nodes, ring, at, at) && ring != []
    ensures !Ends(nodes, head)
  {
    if z :| Chain(nodes, z, head) {
      ChainAfter(nodes, p, head, at, z);
      ChainAfter(nodes, ring, at, at, z[|p|..]);
      ChainUnique(nodes, z[|p|..], z[|p|..][|ring|..], at);
      assert false;
    }
  }

  lemma {:induction false} ChainDistinct(nodes: map<int, Node>, q: seq<int>, head: int, i: nat, j: nat)
    requires Chain(nodes, q, head) && i < j < |q|
    ensures q[i] != q[j]
  {
    ChainFrom(nodes, q, head, i);
    HeadOnce(nodes, q[i..], q[i]);
    var later := q[i..][1..];
    assert later[j - i - 1] == q[j] && later[j - i - 1] in later;
  }

  /** Where the walk puts a request of this length. */
  function PlaceFor(ts: seq<Sleeper>, delta: Word): (k: nat)
    ensures k <= |ts|
  {
    if ts == [] || ts[0].rel > delta then 0 else Walk(ts, delta, 0).0
  }

  /**
   * When the node taken from the pool is the waiting node i already: the list still ends exactly when
   * the walk passes it and at least one more, and then everybody between it and that place is lost.
   */
  lemma ReusedExact(s: Queue, i: nat, delta: Word, q: seq<int>)
    requires Chain(s.nodes, q, s.waiting) && i < |q|
    requires forall j :: 0 <= j < |q| ==> q[j] in s.nodes
    ensures var t, k := Placed(s, q[i], delta, q), PlaceFor(Values(s.nodes, q), delta);
            && (Ends(t.nodes, t.waiting) <==> k >= i + 2)
            && (k >= i + 2 ==> k <= |q| && Chain(t.nodes, q[..i + 1] + q[k..], t.waiting))
  {
    ChainIn(s.nodes, q, s.waiting);
    var ts := Values(s.nodes, q);
    Uncons(s.nodes, q, s.waiting);
    var t, k := Placed(s, q[i], delta, q), PlaceFor(ts, delta);
    PlaceLinks(s, i, delta, q);
    hide Placed, PlaceFor, Values, Walk;
    if k == 0 {
      ReusedAtHead(s.nodes, t.nodes, q, i);
      RingNeverEnds(t.nodes, [], [q[i]] + q[..i], q[i], q[i]);
    } else if k <= i + 1 {
      ReusedBefore(s.nodes, t.nodes, q, i, k);
      var to := q[..k - 1] + (if k <= i then [q[k - 1]] else []);
      RingNeverEnds(t.nodes, to, [q[i]] + q[k..][..if k <= i then i - k else 0], q[0], q[i]);
    } else {
      ReusedBehind(s.nodes, t.nodes, q, i, k);
      EndsBy(t.nodes, q[..i + 1] + q[k..], q[0]);
    }
  }

  /** The links after the insertion: n leads to what follows its place, and is led to from before it. */
  ghost predicate Relinked(nodes: map<int, Node>, w: map<int, Node>, q: seq<int>, i: nat, k: nat)
    requires i < |q| && k <= |q|
  {
    var n := q[i];
    && (forall a :: a in nodes ==> a in w)
    && (forall a :: a in nodes && a != n && (k == 0 || a != q[k - 1]) ==> w[a].next == nodes[a].next)
    && n in w
    && (if k == 0 then w[n].next == q[0]
        else q[k - 1] in w && w[q[k - 1]].next == n
             && (q[k - 1] != n && q[k - 1] in nodes ==> w[n].next == nodes[q[k - 1]].next))
  }

  lemma PlaceLinks(s: Queue, i: nat, delta: Word, q: seq<int>)
    requires Chain(s.nodes, q, s.waiting) && i < |q| && |Values(s.nodes, q)| == |q|
    requires forall j :: 0 <= j < |q| ==> q[j] in s.nodes
    requires Values(s.nodes, q)[0].rel == s.nodes[q[0]].rel && s.waiting == q[0]
    ensures var t, k := Placed(s, q[i], delta, q), PlaceFor(Values(s.nodes, q), delta);
            && Relinked(s.nodes, t.nodes, q, i, k)
            && t.waiting == if k == 0 then q[i] else s.waiting
  {
    var ts := Values(s.nodes, q);
    if ts[0].rel <= delta { assert Walk(ts, delta, 0).0 > 0; }
  }

  lemma ReusedAtHead(nodes: map<int, Node>, w: map<int, Node>, q: seq<int>, i: nat)
    requires i < |q| && Chain(nodes, q, q[0]) && Relinked(nodes, w, q, i, 0)
    ensures Path(w, [], q[i], q[i]) && Path(w, [q[i]] + q[..i], q[i], q[i])
  {
    ChainIn(nodes, q, q[0]);
    PathOf(nodes, q, q[0], i);
    forall a | a in q[..i] ensures a in nodes && a != q[i] {
      var j :| 0 <= j < i && q[j] == a;
      ChainDistinct(nodes, q, q[0], j, i);
    }
    PathFrame(nodes, w, q[..i], q[0], q[i]);
    assert q[i] in q;
    PathOne(w, q[i]);
    PathJoin(w, [q[i]], q[..i], q[i], q[0], q[i]);
  }

  lemma ReusedBefore(nodes: map<int, Node>, w: map<int, Node>, q: seq<int>, i: nat, k: nat)
    requires i < |q| && Chain(nodes, q, q[0]) && 0 < k <= i + 1 && Relinked(nodes, w, q, i, k)
    ensures Path(w, q[..k - 1] + (if k <= i then [q[k - 1]] else []), q[0], q[i])
    ensures Path(w, [q[i]] + q[k..][..if k <= i then i - k else 0], q[i], q[i])
  {
    ChainIn(nodes, q, q[0]);
    assert q[i] in q && q[k - 1] in q;
    PathOf(nodes, q, q[0], k - 1);
    forall a | a in q[..k - 1] ensures a in nodes && a != q[i] && a != q[k - 1] {
      var j :| 0 <= j < k - 1 && q[j] == a;
      ChainDistinct(nodes, q, q[0], j, i);
      ChainDistinct(nodes, q, q[0], j, k - 1);
    }
    PathFrame(nodes, w, q[..k - 1], q[0], q[k - 1]);
    PathOne(w, q[i]);
    if k == i + 1 {
      assert q[..k - 1] + [] == q[..k - 1] && [q[i]] + q[k..][..0] == [q[i]];
    } else {
      PathOne(w, q[k - 1]);
      PathJoin(w, q[..k - 1], [q[k - 1]], q[0], q[k - 1], q[i]);
      ChainDistinct(nodes, q, q[0], k - 1, i);
      NextInChain(nodes, q, q[0], k - 1);
      ChainFrom(nodes, q, q[0], k);
      PathOf(nodes, q[k..], q[k], i - k);
      forall a | a in q[k..][..i - k] ensures a in nodes && a != q[i] && a != q[k - 1] {
        var j :| 0 <= j < i - k && q[k..][j] == a;
        ChainDistinct(nodes, q, q[0], k + j, i);
        ChainDistinct(nodes, q, q[0], k - 1, k + j);
        assert q[k + j] in q;
      }
      PathFrame(nodes, w, q[k..][..i - k], q[k], q[i]);
      PathJoin(w, [q[i]], q[k..][..i - k], q[i], q[k], q[i]);
    }
  }

  lemma NextInChain(nodes: map<int, Node>, q: seq<int>, head: int, i: nat)
    requires Chain(nodes, q, head) && i < |q|
    ensures q[i] in nodes && nodes[q[i]].next == if i + 1 < |q| then q[i + 1] else 0
  {
    ChainFrom(nodes, q, head, i);
    assert q[i..][1..] == q[i + 1..];
  }

  lemma ReusedBehind(nodes: map<int, Node>, w: map<int, Node>, q: seq<int>, i: nat, k: nat)
    requires i + 2 <= k <= |q| && Chain(nodes, q, q[0]) && Relinked(nodes, w, q, i, k)
    ensures Chain(w, q[..i + 1] + q[k..], q[0])
  {
    hide Chain, Path;
    ChainIn(nodes, q, q[0]);
    assert q[i] in q && q[k - 1] in q;
    ChainDistinct(nodes, q, q[0], i, k - 1);
    PathOf(nodes, q, q[0], i);
    forall a | a in q[..i] ensures a in nodes && a != q[i] && a != q[k - 1] {
      var j :| 0 <= j < i && q[j] == a;
      ChainDistinct(nodes, q, q[0], j, i);
      ChainDistinct(nodes, q, q[0], j, k - 1);
    }
    PathFrame(nodes, w, q[..i], q[0], q[i]);
    PathOne(w, q[i]);
    NextInChain(nodes, q, q[0], k - 1);
    var end := if k < |q| then q[k] else 0;
    PathJoin(w, q[..i], [q[i]], q[0], q[i], end);
    if k < |q| {
      ChainFrom(nodes, q, q[0], k);
      PathOf(nodes, q[k..], q[k], |q| - k);
      assert q[k..][..|q| - k] == q[k..];
      forall a | a in q[k..] ensures a in nodes && a != q[i] && a != q[k - 1] {
        var j :| 0 <= j < |q| - k && q[k..][j] == a;
        ChainDistinct(nodes, q, q[0], i, k + j);
        ChainDistinct(nodes, q, q[0], k - 1, k + j);
        assert q[k + j] in q;
      }
      PathFrame(nodes, w, q[k..], q[k], 0);
    } else {
      PathNone(w);
    }
    PathJoin(w, q[..i] + [q[i]], q[k..], q[0], end, 0);
    assert q[..i] + [q[i]] + q[k..] == q[..i + 1] + q[k..];
    PathChain(w, q[..i + 1] + q[k..], q[0]);
  }

  // ----- ten nodes for ever -----

  /** Null or a node of the first block. */
  ghost predicate Ours(base: int, a: int) { a == 0 || exists i :: 0 <= i < 10 && a == NodeAt(base, i) }

  /** No pointer leads out of the first block. */
  ghost predicate Closed(s: Queue, base: int) {
    && 0 !in s.nodes && Ours(base, s.waiting) && Ours(base, s.empty)
    && forall a :: Ours(base, a) && a in s.nodes ==> Ours(base, s.nodes[a].next)
  }

  lemma {:induction false} ChainOurs(s: Queue, base: int, q: seq<int>, head: int)
    requires Closed(s, base) && Ours(base, head) && Chain(s.nodes, q, head)
    ensures forall a :: a in q ==> Ours(base, a) && a != 0
  {
    if q != [] {
      ChainOurs(s, base, q[1..], s.nodes[head].next);
      forall a | a in q ensures Ours(base, a) && a != 0 { assert a == q[0] || a in q[1..]; }
    }
  }

  /** While the pool's counter does not come back to 0, no call leaves the block. */
  lemma AddsClosed(s: Queue, t: Queue, r: Request, base: int, q: seq<int>)
    requires Closed(s, base) && s.emptyCount != 0 && Adds(s, t, r, base, q)
    ensures Closed(t, base) && t.emptyCount == Sub(s.emptyCount, 1)
  {
    ChainOurs(s, base, q, s.waiting);
    ChainIn(s.nodes, q, s.waiting);
    hide Ours, Chain, Values, Walk;
    if q != [] {
      var f := Taken(s, r.tid);
      var k := Walk(Values(f.nodes, q), r.delta, 0).0;
      assert q[0] in q && (0 < k <= |q| ==> q[k - 1] in q);
      NullIsOurs(base);
    }
  }

  lemma NullIsOurs(base: int)
    ensures Ours(base, 0)
  {
  }

  ghost function Block10(base: int): set<int> {
    {NodeAt(base, 0), NodeAt(base, 1), NodeAt(base, 2), NodeAt(base, 3), NodeAt(base, 4),
     NodeAt(base, 5), NodeAt(base, 6), NodeAt(base, 7), NodeAt(base, 8), NodeAt(base, 9)}
  }

  ghost function Members(q: seq<int>): set<int> { set a | a in q }

  lemma {:induction false} DistinctMembers(nodes: map<int, Node>, q: seq<int>, head: int)
    requires Chain(nodes, q, head)
    ensures |Members(q)| == |q|
  {
    if q == [] {
      assert Members(q) == {};
    } else {
      DistinctMembers(nodes, q[1..], nodes[head].next);
      HeadOnce(nodes, q, head);
      assert Members(q) == {q[0]} + Members(q[1..]);
    }
  }

  lemma Within(a: set<int>, b: set<int>)
    requires a <= b
    ensures |a| <= |b|
  {
    assert b == a + (b - a);
  }

  /** So at most ten ever wait. */
  lemma AtMostTen(s: Queue, base: int, q: seq<int>)
    requires Closed(s, base) && Chain(s.nodes, q, s.waiting)
    ensures |q| <= 10
  {
    ChainOurs(s, base, q, s.waiting);
    DistinctMembers(s.nodes, q, s.waiting);
    forall a | a in Members(q) ensures a in Block10(base) {}
    Within(Members(q), Block10(base));
    TenAtMost(base);
  }

  lemma TenAtMost(base: int)
    ensures |Block10(base)| <= 10
  {
    var five := {NodeAt(base, 0), NodeAt(base, 1), NodeAt(base, 2), NodeAt(base, 3), NodeAt(base, 4)};
    var rest := {NodeAt(base, 5), NodeAt(base, 6), NodeAt(base, 7), NodeAt(base, 8), NodeAt(base, 9)};
    assert Block10(base) == five + rest;
  }

  // ----- from the start of the kernel -----

  ghost predicate Boot(s: Queue) {
    s.waiting == 0 && s.waitingCount == 0 && s.empty == 0 && s.emptyCount == 0 && 0 !in s.nodes
  }

  /** What the pool links node i of the first block to once a second sleeper is waiting. */
  function NextFree(base: int, i: int): int { if i < 9 then NodeAt(base, i + 1) else NodeAt(base, 1) }

  /** m sleepers wait in q; the pool holds the rest of the first block and runs into node 1. */
  ghost predicate Waiting(s: Queue, base: int, m: nat, q: seq<int>, ts: seq<Sleeper>) {
    && |q| == m && Chain(s.nodes, q, s.waiting) && Values(s.nodes, q) == ts
    && NodeAt(base, 1) in q
    && (forall i :: m <= i < 10 ==> UnusedNode(s, base, q, i))
    && s.empty == NextFree(base, m - 1)
    && s.emptyCount == SPACE - m && s.waitingCount == 10 + m
  }

  ghost predicate UnusedNode(s: Queue, base: int, q: seq<int>, i: int) {
    var a := NodeAt(base, i);
    a != 0 && a !in q && a in s.nodes && s.nodes[a].next == NextFree(base, i)
  }

  /** The very first request shares the whole pool with the waiting list. */
  lemma FirstShares(s: Queue, t: Queue, r: Request, base: int, q: seq<int>)
    requires Boot(s) && Adds(s, t, r, base, q) && base > 0
    ensures t.waiting == base && t.empty == NodeAt(base, 1) && t.emptyCount == SPACE - 1 && t.waitingCount == 11
    ensures t.timer == s.timer
    ensures base in t.nodes && t.nodes[base] == Node(r.tid, r.delta, NodeAt(base, 1))
    ensures forall i :: 0 < i < 10 ==>
              NodeAt(base, i) in t.nodes && t.nodes[NodeAt(base, i)] == Node(0, 0, NextInBlock(base, i))
  {
    assert q == [];
    hide Walk, Values;
    assert NodeAt(base, 0) == base && base in Block(base);
  }

  /** A second request for an earlier time closes the list into a ring that never ends. */
  lemma {:induction false} NoEnd(nodes: map<int, Node>, a: int, b: int, q: seq<int>)
    requires a in nodes && b in nodes && a != 0 && b != 0 && nodes[a].next == b && nodes[b].next == a
    ensures !Chain(nodes, q, a)
    decreases |q|
  {
    if q != [] && Chain(nodes, q, a) { NoEnd(nodes, b, a, q[1..]); }
  }

  /** The first ten nodes in order. */
  function FirstNodes(base: int, i: nat): seq<int>
    requires i <= 10
    decreases 10 - i
  {
    if i == 10 then [] else [NodeAt(base, i)] + FirstNodes(base, i + 1)
  }

  /** From node i on: the unused nodes are on the waiting list, with no time and no thread. */
  lemma {:induction false} SharedTail(nodes: map<int, Node>, base: int, i: nat)
    requires base > 0 && 0 < i <= 10
    requires forall j :: 0 < j < 10 ==>
               NodeAt(base, j) in nodes && nodes[NodeAt(base, j)] == Node(0, 0, NextInBlock(base, j))
    ensures Chain(nodes, FirstNodes(base, i), if i < 10 then NodeAt(base, i) else 0)
    ensures |FirstNodes(base, i)| == 10 - i
    ensures |Values(nodes, FirstNodes(base, i))| == 10 - i
    ensures forall j :: 0 <= j < 10 - i ==> Values(nodes, FirstNodes(base, i))[j] == Sleeper(0, 0)
    ensures i < 10 ==> FirstNodes(base, i)[9 - i] == NodeAt(base, 9)
    decreases 10 - i
  {
    if i < 10 {
      SharedTail(nodes, base, i + 1);
      assert FirstNodes(base, i)[1..] == FirstNodes(base, i + 1);
    }
  }

  /** Sleepers without a time are all passed. */
  lemma {:induction false} WalkPassesAll(ts: seq<Sleeper>, delta: Word, sum: Word)
    requires sum <= delta && forall j :: 0 <= j < |ts| ==> ts[j].rel == 0
    ensures Walk(ts, delta, sum) == (|ts|, sum)
  {
    if ts != [] { WalkPassesAll(ts[1..], delta, sum); }
  }

  /**
   * The first two requests: the list is right exactly when the second is not the earlier one;
   * otherwise the waiting list is a ring.
   */
  lemma SecondDecides(s: Queue, t: Queue, u: Queue, r1: Request, r2: Request, base: int, q1: seq<int>, q2: seq<int>)
    requires Boot(s) && base > 0 && Adds(s, t, r1, base, q1) && Adds(t, u, r2, base, q2)
    ensures r1.delta <= r2.delta ==>
              Waiting(u, base, 2, [base, NodeAt(base, 1)], AddAll([r1, r2])) && u.timer == s.timer
    ensures Ends(u.nodes, u.waiting) <==> r1.delta <= r2.delta
  {
    FirstShares(s, t, r1, base, q1);
    SharedTail(t.nodes, base, 1);
    var q, n := [base] + FirstNodes(base, 1), NodeAt(base, 1);
    assert q[1..] == FirstNodes(base, 1) && Chain(t.nodes, q, base);
    ChainUnique(t.nodes, q, q2, base);
    var f := Taken(t, r2.tid);
    if r1.delta > r2.delta {
      assert u.waiting == n && u.nodes[n].next == base && u.nodes[base].next == n;
      forall p ensures !Chain(u.nodes, p, u.waiting) { NoEnd(u.nodes, n, base, p); }
    } else {
      SecondAtTail(t, u, r1, r2, base, q);
      EndsBy(u.nodes, [base, n], u.waiting);
    }
  }

  lemma SecondAtTail(t: Queue, u: Queue, r1: Request, r2: Request, base: int, q: seq<int>)
    requires base > 0 && r1.delta <= r2.delta && q == [base] + FirstNodes(base, 1)
    requires t.waiting == base && t.empty == NodeAt(base, 1) && t.emptyCount == SPACE - 1 && t.waitingCount == 11
    requires base in t.nodes && t.nodes[base] == Node(r1.tid, r1.delta, NodeAt(base, 1))
    requires forall i :: 0 < i < 10 ==>
               NodeAt(base, i) in t.nodes && t.nodes[NodeAt(base, i)] == Node(0, 0, NextInBlock(base, i))
    requires Adds(t, u, r2, base, q)
    ensures Waiting(u, base, 2, [base, NodeAt(base, 1)], AddAll([r1, r2])) && u.timer == t.timer
  {
    var n, last := NodeAt(base, 1), NodeAt(base, 9);
    SharedTail(t.nodes, base, 1);
    assert q[0] == base && q[9] == last;
    SharedWalk(t, r1, r2, base);
    LinkedAtEnd(t, u, r1, r2, base, q);
    FirstTwo(r1, r2);
    TwoNodes(u.nodes, base, n, r1, r2);
    forall i | 2 <= i < 10 ensures UnusedNode(u, base, [base, n], i) {
      assert NodeAt(base, i) in t.nodes;
    }
  }

  /** The second node goes behind the last of the ten, which is where its own links lead. */
  lemma LinkedAtEnd(t: Queue, u: Queue, r1: Request, r2: Request, base: int, q: seq<int>)
    requires base > 0 && r1.delta <= r2.delta && |q| == 10 && q[0] == base && q[9] == NodeAt(base, 9)
    requires t.empty == NodeAt(base, 1) && t.emptyCount == SPACE - 1 && t.waitingCount == 11
    requires base in t.nodes && t.nodes[base] == Node(r1.tid, r1.delta, NodeAt(base, 1))
    requires NodeAt(base, 1) in t.nodes && t.nodes[NodeAt(base, 1)].next == NodeAt(base, 2)
    requires NodeAt(base, 9) in t.nodes && t.nodes[NodeAt(base, 9)].next == 0
    requires Walk(Values(Taken(t, r2.tid).nodes, q), r2.delta, 0) == (10, r1.delta)
    requires Adds(t, u, r2, base, q)
    ensures u.waiting == t.waiting && u.empty == NodeAt(base, 2) && u.emptyCount == SPACE - 2 && u.waitingCount == 12
    ensures u.timer == t.timer
    ensures u.nodes == t.nodes[NodeAt(base, 1) := Node(r2.tid, r2.delta - r1.delta, 0)]
                              [NodeAt(base, 9) := t.nodes[NodeAt(base, 9)].(next := NodeAt(base, 1))]
  {
    hide Walk, Values, Chain;
    assert Taken(t, r2.tid).nodes[q[0]].rel == r1.delta;
  }

  lemma TwoNodes(nodes: map<int, Node>, a: int, b: int, r1: Request, r2: Request)
    requires a != 0 && b != 0 && a in nodes && b in nodes && r1.delta <= r2.delta
    requires nodes[a] == Node(r1.tid, r1.delta, b) && nodes[b] == Node(r2.tid, r2.delta - r1.delta, 0)
    ensures Chain(nodes, [a, b], a)
    ensures Values(nodes, [a, b]) == [Sleeper(r1.tid, r1.delta), Sleeper(r2.tid, r2.delta - r1.delta)]
  {
    assert [a, b][1..] == [b] && [b][1..] == [];
    assert Chain(nodes, [b], b);
    assert Values(nodes, [b]) == [Sleeper(r2.tid, r2.delta - r1.delta)];
  }

  lemma SharedWalk(t: Queue, r1: Request, r2: Request, base: int)
    requires base > 0 && r1.delta <= r2.delta && t.empty == NodeAt(base, 1)
    requires base in t.nodes && t.nodes[base] == Node(r1.tid, r1.delta, NodeAt(base, 1))
    requires forall i :: 0 < i < 10 ==>
               NodeAt(base, i) in t.nodes && t.nodes[NodeAt(base, i)] == Node(0, 0, NextInBlock(base, i))
    ensures Walk(Values(Taken(t, r2.tid).nodes, [base] + FirstNodes(base, 1)), r2.delta, 0) == (10, r1.delta)
  {
    var w := Taken(t, r2.tid).nodes;
    SharedTimes(w, base, 1);
    var q := [base] + FirstNodes(base, 1);
    assert q[1..] == FirstNodes(base, 1);
    WalkPassesAll(Values(w, q[1..]), r2.delta, r1.delta);
    assert Values(w, q)[1..] == Values(w, q[1..]);
  }

  lemma {:induction false} SharedTimes(nodes: map<int, Node>, base: int, i: nat)
    requires 0 < i <= 10 && forall j :: 0 < j < 10 ==> NodeAt(base, j) in nodes && nodes[NodeAt(base, j)].rel == 0
    ensures |Values(nodes, FirstNodes(base, i))| == 10 - i
    ensures forall t :: t in Values(nodes, FirstNodes(base, i)) ==> t.rel == 0
    decreases 10 - i
  {
    if i < 10 {
      SharedTimes(nodes, base, i + 1);
      assert FirstNodes(base, i)[1..] == FirstNodes(base, i + 1);
    }
  }

  lemma FirstTwo(r1: Request, r2: Request)
    requires r1.delta <= r2.delta
    ensures AddAll([r1, r2]) == [Sleeper(r1.tid, r1.delta), Sleeper(r2.tid, r2.delta - r1.delta)]
  {
    assert [r1, r2][..1] == [r1] && [r1][..0] == [] && AddAll([]) == [];
    assert AddAll([r1]) == [Sleeper(r1.tid, r1.delta)];
    assert [Sleeper(r1.tid, r1.delta)][1..] == [];
    assert InsertFrom([], r2.delta, r2.tid, r1.delta) == [Sleeper(r2.tid, r2.delta - r1.delta)];
  }

  /** Up to the tenth request every further insertion is exact. */
  lemma NextIsExact(s: Queue, t: Queue, r: Request, base: int, m: nat, p: seq<int>, q: seq<int>, rs: seq<Request>)
    requires 2 <= m < 10 && base > 0 && Waiting(s, base, m, q, AddAll(rs)) && Adds(s, t, r, base, p)
    ensures exists q', m' :: m' == m + 1 && Waiting(t, base, m', q', AddAll(rs + [r]))
    ensures AddAll(rs) != [] && t.timer == if AddAll(rs)[0].rel > r.delta then r.delta else s.timer
  {
    ChainUnique(s.nodes, p, q, s.waiting);
    var n := NodeAt(base, m);
    assert UnusedNode(s, base, q, m) && s.empty == n;
    var f := Taken(s, r.tid);
    ChainFrame(s.nodes, f.nodes, q, s.waiting);
    PlacedInserts(f, n, r.delta, q);
    PlacedLeaves(f, n, r.delta, q);
    var q' := Into(q, n, Values(f.nodes, q), r.delta);
    assert (rs + [r])[..|rs|] == rs;
    forall i | m + 1 <= i < 10 ensures UnusedNode(t, base, q', i) {
      assert UnusedNode(s, base, q, i);
    }
    assert Waiting(t, base, m + 1, q', AddAll(rs + [r]));
  }
}
