// The scheduler's memory: list nodes and threads at their addresses, the intrusive lists that
// run through them, and the counters kept beside the lists.

module ListMemory {
  import opened Scheduling

  datatype ThreadState = Unstarted | Dead | Running | Ready | Sleeping | Waiting

  /** struct thread, without the fields the scheduler never reads. */
  datatype Thread = Thread(tid: nat, rsp: int, state: ThreadState)

  /** struct list_data: pointers are addresses, 0 is null. */
  datatype ListData = ListData(thread: int, score: nat, next: int)

  const NODE_SIZE := 24

  /** From `head` the next fields lead through exactly the nodes of l and end in null. */
  ghost predicate Chain(m: map<int, ListData>, l: seq<int>, head: int) {
    if |l| == 0 then head == 0
    else head == l[0] && head != 0 && head in m && Chain(m, l[1..], m[head].next)
  }

  lemma {:induction false} ChainIn(m: map<int, ListData>, l: seq<int>, head: int)
    requires Chain(m, l, head)
    ensures forall n :: n in l ==> n in m && n != 0
  {
    if |l| > 0 {
      ChainIn(m, l[1..], m[head].next);
      forall n | n in l ensures n in m && n != 0 { assert n == l[0] || n in l[1..]; }
    }
  }

  /** Nodes outside a chain may change. */
  lemma {:induction false} ChainFrame(m: map<int, ListData>, w: map<int, ListData>, l: seq<int>, head: int)
    requires Chain(m, l, head) && forall n :: n in l ==> n in w && n in m && w[n].next == m[n].next
    ensures Chain(w, l, head)
  {
    if |l| > 0 { ChainFrame(m, w, l[1..], m[head].next); }
  }

  /** Linking a chain behind the last node of another. */
  lemma {:induction false} ChainJoin(m: map<int, ListData>, l: seq<int>, head: int, r: seq<int>, start: int)
    requires Chain(m, l, head) && |l| > 0 && NoDup(l) && Chain(m, r, start) && l[|l| - 1] !in r
    ensures var tail := l[|l| - 1];
            tail in m && Chain(m[tail := m[tail].(next := start)], l + r, head)
  {
    var k := |l| - 1;
    ChainIn(m, r, start);
    if k == 0 {
      ChainFrame(m, m[l[0] := m[l[0]].(next := start)], r, start);
      assert l + r == [l[0]] + r && (l + r)[1..] == r;
    } else {
      NoDupTail(l);
      ChainJoin(m, l[1..], m[head].next, r, start);
      assert (l + r)[1..] == l[1..] + r;
      assert l[1..][k - 1] == l[k];
    }
  }

  ghost predicate NoDup(l: seq<int>) { forall n :: multiset(l)[n] <= 1 }

  lemma NoDupTail(l: seq<int>)
    requires NoDup(l) && |l| > 0
    ensures NoDup(l[1..]) && l[0] !in l[1..]
  {
    assert l == [l[0]] + l[1..];
    forall n ensures multiset(l[1..])[n] <= 1 && (n == l[0] ==> n !in l[1..]) {
      assert multiset(l)[n] == multiset([l[0]])[n] + multiset(l[1..])[n];
    }
  }

  // ----- the static variables of scheduler_main.c as one value -----

  datatype Memory = Memory(
    emptyScheduling: bool,
    nextRunning: int, nextCount: int,
    nextWaiting: int, waitingCount: int,
    nextSleeping: int, sleepingCount: int,
    emptyThreadData: int, emptyCount: int,
    current: int,
    nodes: map<int, ListData>,
    threads: map<int, Thread>)

  /** The nodes on the lists, and the running one unless it is on a list already. */
  ghost function Placed(s: State<int>, parked: bool): multiset<int> {
    multiset(s.ready) + multiset(s.waiting) + multiset(s.sleeping) + multiset(s.pool) +
    (if parked then multiset{} else multiset{s.running})
  }

  /** No node is placed twice. */
  ghost predicate Once(s: State<int>, parked: bool) {
    forall n :: n in Placed(s, parked) ==> Placed(s, parked)[n] == 1
  }

  ghost predicate OnList(m: map<int, ListData>, l: seq<int>, head: int, count: int) {
    Chain(m, l, head) && count == |l|
  }

  ghost predicate HaveThreads(c: Memory, l: seq<int>) {
    forall n :: n in l ==> n in c.nodes && c.nodes[n].thread in c.threads
  }

  /** The memory holds the lists of s; `parked` when the running node is on one of them. */
  ghost predicate Represents(c: Memory, s: State<int>, parked: bool) {
    && OnList(c.nodes, s.ready, c.nextRunning, c.nextCount)
    && OnList(c.nodes, s.waiting, c.nextWaiting, c.waitingCount)
    && OnList(c.nodes, s.sleeping, c.nextSleeping, c.sleepingCount)
    && OnList(c.nodes, s.pool, c.emptyThreadData, c.emptyCount)
    && HaveThreads(c, s.ready) && HaveThreads(c, s.waiting) && HaveThreads(c, s.sleeping)
    && c.current == s.running != 0 && s.running in c.nodes
    && (!parked ==> c.nodes[s.running].thread in c.threads && c.nodes[s.running].next == 0)
    && c.emptyScheduling == s.empty
    && Once(s, parked)
  }

  /** Every node on a list is on that list once and on no other. */
  lemma Apart(s: State<int>, parked: bool)
    requires Once(s, parked)
    ensures NoDup(s.ready) && NoDup(s.waiting) && NoDup(s.sleeping) && NoDup(s.pool)
    ensures forall n :: n in s.ready ==> n !in s.waiting && n !in s.sleeping && n !in s.pool
    ensures forall n :: n in s.waiting ==> n !in s.sleeping && n !in s.pool
    ensures forall n :: n in s.sleeping ==> n !in s.pool
    ensures !parked ==>
              s.running !in s.ready && s.running !in s.waiting && s.running !in s.sleeping && s.running !in s.pool
  {
    hide Once, Placed;
    forall n
      ensures multiset(s.ready)[n] <= 1 && multiset(s.waiting)[n] <= 1
      ensures multiset(s.sleeping)[n] <= 1 && multiset(s.pool)[n] <= 1
    {
      CountedOnce(s, parked, n);
    }
    forall n | n in s.ready ensures n !in s.waiting && n !in s.sleeping && n !in s.pool { CountedOnce(s, parked, n); }
    forall n | n in s.waiting ensures n !in s.sleeping && n !in s.pool { CountedOnce(s, parked, n); }
    forall n | n in s.sleeping ensures n !in s.pool { CountedOnce(s, parked, n); }
    CountedOnce(s, parked, s.running);
  }

  lemma CountedOnce(s: State<int>, parked: bool, n: int)
    requires Once(s, parked)
    ensures multiset(s.ready)[n] + multiset(s.waiting)[n] + multiset(s.sleeping)[n] + multiset(s.pool)[n] +
            (if !parked && n == s.running then 1 else 0) <= 1
    ensures n in s.ready <==> multiset(s.ready)[n] > 0
    ensures n in s.waiting <==> multiset(s.waiting)[n] > 0
    ensures n in s.sleeping <==> multiset(s.sleeping)[n] > 0
    ensures n in s.pool <==> multiset(s.pool)[n] > 0
  {
    assert n in Placed(s, parked) ==> Placed(s, parked)[n] == 1;
  }

  /** A list none of whose nodes is touched. */
  lemma OnListFrame(m: map<int, ListData>, n: int, d: ListData, l: seq<int>, head: int, count: int)
    requires OnList(m, l, head, count) && n !in l
    ensures OnList(m[n := d], l, head, count)
  {
    ChainIn(m, l, head);
    ChainFrame(m, m[n := d], l, head);
  }

  /** The memory after pop_next_thread. */
  function Popped(c: Memory): Memory
    requires c.nextRunning in c.nodes && c.nodes[c.nextRunning].thread in c.threads
  {
    var element := c.nextRunning;
    var data := c.nodes[element];
    c.(nextRunning := data.next, nextCount := c.nextCount - 1, emptyScheduling := c.nextCount - 1 == 0,
       nodes := c.nodes[element := data.(next := 0)], current := element,
       threads := c.threads[data.thread := c.threads[data.thread].(state := Running)])
  }

  lemma PoppedRepresents(c: Memory, s: State<int>)
    requires Represents(c, s, true) && |s.ready| > 0
    ensures c.nextRunning == s.ready[0] && c.nextRunning in c.nodes && c.nodes[c.nextRunning].thread in c.threads
    ensures Represents(Popped(c), Pop(s).state, false)
  {
    Apart(s, true);
    NoDupTail(s.ready);
    var n, d := s.ready[0], c.nodes[s.ready[0]].(next := 0);
    var t := Pop(s).state;
    assert OnList(c.nodes, t.ready, c.nodes[n].next, c.nextCount - 1);
    OnListFrame(c.nodes, n, d, t.ready, c.nodes[n].next, c.nextCount - 1);
    OnListFrame(c.nodes, n, d, s.waiting, c.nextWaiting, c.waitingCount);
    OnListFrame(c.nodes, n, d, s.sleeping, c.nextSleeping, c.sleepingCount);
    OnListFrame(c.nodes, n, d, s.pool, c.emptyThreadData, c.emptyCount);
    assert s.ready == [n] + t.ready;
    assert multiset(s.ready) == multiset{n} + multiset(t.ready);
    assert Placed(t, false) == Placed(s, true);
  }

  /** The memory after the FCFS policy has put the running node behind the ready tail. */
  function Readied(c: Memory, tail: int): Memory
    requires tail in c.nodes && c.current in c.nodes && c.nodes[c.current].thread in c.threads
  {
    var thread := c.nodes[c.current].thread;
    c.(threads := c.threads[thread := c.threads[thread].(state := Ready)],
       nodes := c.nodes[tail := c.nodes[tail].(next := c.current)], nextCount := c.nextCount + 1)
  }

  /** No stack pointer changes, and no node gets another thread. */
  lemma ReaddedKeeps(c: Memory, tail: int)
    requires tail in c.nodes && c.current in c.nodes && c.nodes[c.current].thread in c.threads
    ensures var r := Readied(c, tail);
            r.nextRunning in r.nodes && r.nodes[r.nextRunning].thread in r.threads ==>
              var w := Popped(r);
              && w.threads.Keys == c.threads.Keys
              && (forall t :: t in c.threads ==> w.threads[t].rsp == c.threads[t].rsp)
              && (forall n :: n in c.nodes ==> n in w.nodes && w.nodes[n].thread == c.nodes[n].thread)
  {
  }

  lemma ReadiedRepresents(c: Memory, s: State<int>)
    requires Represents(c, s, false) && |s.ready| > 0
    ensures s.ready[|s.ready| - 1] in c.nodes
    ensures Represents(Readied(c, s.ready[|s.ready| - 1]), s.(ready := s.ready + [s.running]), true)
  {
    var tail := s.ready[|s.ready| - 1];
    Apart(s, false);
    ChainIn(c.nodes, s.ready, c.nextRunning);
    SingleChain(c.nodes, s.running);
    ReadiedOnce(s);
    hide Once, Placed, Chain, NoDup;
    ChainJoin(c.nodes, s.ready, c.nextRunning, [s.running], s.running);
    var d := c.nodes[tail].(next := s.running);
    OnListFrame(c.nodes, tail, d, s.waiting, c.nextWaiting, c.waitingCount);
    OnListFrame(c.nodes, tail, d, s.sleeping, c.nextSleeping, c.sleepingCount);
    OnListFrame(c.nodes, tail, d, s.pool, c.emptyThreadData, c.emptyCount);
  }

  lemma SingleChain(m: map<int, ListData>, n: int)
    requires n in m && n != 0 && m[n].next == 0
    ensures Chain(m, [n], n)
  {
    assert [n][1..] == [];
  }

  lemma ReadiedOnce(s: State<int>)
    requires Once(s, false)
    ensures Once(s.(ready := s.ready + [s.running]), true)
  {
    var t := s.(ready := s.ready + [s.running]);
    assert multiset(t.ready) == multiset(s.ready) + multiset{s.running};
    assert Placed(t, true) == Placed(s, false);
  }

  datatype Target = ToWaiting | ToSleeping(delta: nat) | ToPool

  /** The memory after this_wait, this_sleep or this_kill. */
  function Parked(c: Memory, to: Target): Memory
    requires c.current in c.nodes && c.nodes[c.current].thread in c.threads
  {
    var n, data := c.current, c.nodes[c.current];
    var thread := c.threads[data.thread];
    match to
    case ToWaiting =>
      c.(threads := c.threads[data.thread := thread.(state := Waiting)],
         nodes := c.nodes[n := data.(next := c.nextWaiting)], nextWaiting := n, waitingCount := c.waitingCount + 1)
    case ToSleeping(delta) =>
      c.(threads := c.threads[data.thread := thread.(state := Sleeping)],
         nodes := c.nodes[n := data.(next := c.nextSleeping, score := delta)],
         nextSleeping := n, sleepingCount := c.sleepingCount + 1)
    case ToPool =>
      c.(threads := c.threads[data.thread := thread.(state := Dead)],
         nodes := c.nodes[n := ListData(0, 0, c.emptyThreadData)], emptyThreadData := n, emptyCount := c.emptyCount + 1)
  }

  function ParkedState(s: State<int>, to: Target): State<int> {
    match to
    case ToWaiting => s.(waiting := [s.running] + s.waiting)
    case ToSleeping(_) => s.(sleeping := [s.running] + s.sleeping)
    case ToPool => s.(pool := [s.running] + s.pool)
  }

  lemma RunningKnown(c: Memory, s: State<int>)
    requires Represents(c, s, false)
    ensures c.current == s.running && c.current in c.nodes && c.nodes[c.current].thread in c.threads
  {
  }

  lemma ParkedRepresents(c: Memory, s: State<int>, to: Target)
    requires Represents(c, s, false)
    ensures Represents(Parked(c, to), ParkedState(s, to), true)
  {
    Apart(s, false);
    var n, w, t := s.running, Parked(c, to), ParkedState(s, to);
    var d := w.nodes[n];
    OnListFrame(c.nodes, n, d, s.ready, c.nextRunning, c.nextCount);
    OnListFrame(c.nodes, n, d, s.waiting, c.nextWaiting, c.waitingCount);
    OnListFrame(c.nodes, n, d, s.sleeping, c.nextSleeping, c.sleepingCount);
    OnListFrame(c.nodes, n, d, s.pool, c.emptyThreadData, c.emptyCount);
    ParkedLists(s, to);
    ParkedOnce(s, to);
    hide Once, Placed;
  }

  lemma ParkedLists(s: State<int>, to: Target)
    ensures var t := ParkedState(s, to);
            && (to.ToWaiting? ==> t.waiting[1..] == s.waiting)
            && (to.ToSleeping? ==> t.sleeping[1..] == s.sleeping)
            && (to.ToPool? ==> t.pool[1..] == s.pool)
  {
  }

  lemma ParkedOnce(s: State<int>, to: Target)
    requires Once(s, false)
    ensures Once(ParkedState(s, to), true)
  {
    var t := ParkedState(s, to);
    assert multiset([s.running] + s.waiting) == multiset{s.running} + multiset(s.waiting);
    assert multiset([s.running] + s.sleeping) == multiset{s.running} + multiset(s.sleeping);
    assert multiset([s.running] + s.pool) == multiset{s.running} + multiset(s.pool);
    assert Placed(t, true) == Placed(s, false);
  }

  // ----- new nodes -----

  /** The addresses of the ten nodes of a bucket that malloc has placed at `base`. */
  function BucketAt(base: int): (bucket: seq<int>)
    ensures |bucket| == 10 && forall i :: 0 <= i < 10 ==> bucket[i] == base + 24 * i
  {
    seq(10, i => base + NODE_SIZE * i)
  }

  /** Memory that malloc hands out: not null and not in use. */
  ghost predicate Unused(m: map<int, ListData>, bucket: seq<int>) {
    forall n :: n in bucket ==> n !in m && n != 0
  }

  /** Links given node by node make a chain. */
  lemma {:induction false} LinksChain(m: map<int, ListData>, b: seq<int>, k: nat, rest: seq<int>, head: int)
    requires k <= |b| && Chain(m, rest, head)
    requires forall j :: k <= j < |b| ==> b[j] in m && b[j] != 0
    requires forall j {:trigger m[b[j]]} :: k <= j < |b| ==> m[b[j]].next == NextIn(b, j, head)
    ensures Chain(m, b[k..] + rest, NextIn(b, k - 1, head))
    decreases |b| - k
  {
    if k < |b| {
      LinksChain(m, b, k + 1, rest, head);
      assert (b[k..] + rest)[1..] == b[k + 1..] + rest;
    } else {
      assert b[k..] + rest == rest;
    }
  }

  /** The node after position j, or `rest` after the last. */
  function NextIn(b: seq<int>, j: int, rest: int): int
    requires -1 <= j < |b|
  {
    if j + 1 < |b| then b[j + 1] else rest
  }

  lemma RefillOnce(s: State<int>, parked: bool, bucket: seq<int>)
    requires Once(s, parked) && s.pool == [] && NoDup(bucket) && forall n :: n in bucket ==> n !in Placed(s, parked)
    ensures Once(Refill(s, bucket), parked)
  {
    var t := Refill(s, bucket);
    assert Placed(t, parked) == Placed(s, parked) + multiset(bucket);
    forall n | n in Placed(t, parked) ensures Placed(t, parked)[n] == 1 {
      assert n in multiset(bucket) ==> n in bucket;
    }
  }

  lemma PlacedInMemory(c: Memory, s: State<int>, parked: bool)
    requires Represents(c, s, parked)
    ensures forall n :: n in Placed(s, parked) ==> n in c.nodes
  {
    ChainIn(c.nodes, s.ready, c.nextRunning);
    ChainIn(c.nodes, s.waiting, c.nextWaiting);
    ChainIn(c.nodes, s.sleeping, c.nextSleeping);
    ChainIn(c.nodes, s.pool, c.emptyThreadData);
  }

  /** A chain is not affected by nodes added elsewhere in memory. */
  lemma OnListGrow(m: map<int, ListData>, w: map<int, ListData>, l: seq<int>, head: int, count: int)
    requires OnList(m, l, head, count) && forall n :: n in m ==> n in w && w[n] == m[n]
    ensures OnList(w, l, head, count)
  {
    ChainIn(m, l, head);
    ChainFrame(m, w, l, head);
  }

  /** The memory after a node from the pool has been given the thread; it is not on a list yet. */
  function Taken(c: Memory, thread: int): Memory
    requires c.emptyThreadData in c.nodes && thread in c.threads
  {
    var n, data := c.emptyThreadData, c.nodes[c.emptyThreadData];
    c.(threads := c.threads[thread := c.threads[thread].(state := Ready)],
       nodes := c.nodes[n := data.(thread := thread, next := 0)],
       emptyThreadData := data.next, emptyCount := c.emptyCount - 1)
  }

  /** ... and after it has been linked behind the ready tail, or made the ready list. */
  function Enlisted(c: Memory, n: int, tail: int): Memory
    requires c.nextCount == 0 || tail in c.nodes
  {
    if c.nextCount == 0 then c.(nextRunning := n, nextCount := 1, emptyScheduling := false)
    else c.(nodes := c.nodes[tail := c.nodes[tail].(next := n)], nextCount := c.nextCount + 1, emptyScheduling := false)
  }

  lemma EnlistedThreads(c: Memory, s: State<int>, thread: int)
    requires Represents(c, s, false) && |s.pool| > 0 && thread in c.threads
    requires c.emptyThreadData == s.pool[0] && c.emptyThreadData in c.nodes
    requires |s.ready| > 0 ==> s.ready[|s.ready| - 1] in c.nodes
    ensures var w := Enlisted(Taken(c, thread), s.pool[0], if |s.ready| > 0 then s.ready[|s.ready| - 1] else 0);
            && HaveThreads(w, s.ready + [s.pool[0]]) && HaveThreads(w, s.waiting) && HaveThreads(w, s.sleeping)
            && w.nodes[s.running] == c.nodes[s.running]
  {
    Apart(s, false);
    hide Once, Placed, Chain;
  }

  lemma AddedRepresents(c: Memory, s: State<int>, thread: int)
    requires Represents(c, s, false) && |s.pool| > 0 && thread in c.threads
    ensures c.emptyThreadData == s.pool[0] && c.emptyThreadData in c.nodes
    ensures |s.ready| > 0 ==> s.ready[|s.ready| - 1] in c.nodes
    ensures var t := s.(ready := s.ready + [s.pool[0]], pool := s.pool[1..], empty := false);
            var tail := if |s.ready| > 0 then s.ready[|s.ready| - 1] else 0;
            Represents(Enlisted(Taken(c, thread), s.pool[0], tail), t, false)
  {
    var n, tail := s.pool[0], if |s.ready| > 0 then s.ready[|s.ready| - 1] else 0;
    var t := s.(ready := s.ready + [n], pool := s.pool[1..], empty := false);
    Apart(s, false);
    ChainIn(c.nodes, s.ready, c.nextRunning);
    ChainIn(c.nodes, s.pool, c.emptyThreadData);
    NoDupTail(s.pool);
    AddedOnce(s);
    var w := Taken(c, thread);
    var d := w.nodes[n];
    assert OnList(c.nodes, t.pool, w.emptyThreadData, w.emptyCount);
    EnlistedThreads(c, s, thread);
    hide Once, Placed, HaveThreads, NoDup;
    OnListFrame(c.nodes, n, d, s.ready, c.nextRunning, c.nextCount);
    OnListFrame(c.nodes, n, d, s.waiting, c.nextWaiting, c.waitingCount);
    OnListFrame(c.nodes, n, d, s.sleeping, c.nextSleeping, c.sleepingCount);
    OnListFrame(c.nodes, n, d, t.pool, w.emptyThreadData, w.emptyCount);
    SingleChain(w.nodes, n);
    if |s.ready| > 0 {
      ChainJoin(w.nodes, s.ready, c.nextRunning, [n], n);
      var e := w.nodes[tail].(next := n);
      OnListFrame(w.nodes, tail, e, s.waiting, c.nextWaiting, c.waitingCount);
      OnListFrame(w.nodes, tail, e, s.sleeping, c.nextSleeping, c.sleepingCount);
      OnListFrame(w.nodes, tail, e, t.pool, w.emptyThreadData, w.emptyCount);
    } else {
      assert s.ready + [n] == [n];
    }
  }

  lemma AddedOnce(s: State<int>)
    requires Once(s, false) && |s.pool| > 0
    ensures Once(s.(ready := s.ready + [s.pool[0]], pool := s.pool[1..], empty := false), false)
  {
    var t := s.(ready := s.ready + [s.pool[0]], pool := s.pool[1..], empty := false);
    assert s.pool == [s.pool[0]] + s.pool[1..];
    assert multiset(s.pool) == multiset{s.pool[0]} + multiset(t.pool);
    assert multiset(t.ready) == multiset(s.ready) + multiset{s.pool[0]};
    assert Placed(t, false) == Placed(s, false);
  }

  /** The addresses of a bucket differ. */
  lemma BucketDistinct(base: int)
    ensures NoDup(BucketAt(base))
  {
    DistinctNoDup(BucketAt(base));
  }

  lemma {:induction false} DistinctNoDup(l: seq<int>)
    requires forall i, j :: 0 <= i < j < |l| ==> l[i] != l[j]
    ensures NoDup(l)
  {
    if |l| > 0 {
      DistinctNoDup(l[1..]);
      assert l == [l[0]] + l[1..];
      forall n ensures multiset(l)[n] <= 1 {
        assert multiset(l)[n] == multiset([l[0]])[n] + multiset(l[1..])[n];
        assert n in multiset(l[1..]) ==> n in l[1..];
      }
    }
  }

  lemma InitialOnce(bucket: seq<int>)
    requires |bucket| == 10 && NoDup(bucket)
    ensures Once(Initial(bucket), false)
  {
    assert bucket == [bucket[0]] + bucket[1..];
    assert Placed(Initial(bucket), false) == multiset(bucket);
  }

  lemma InitialRepresents(m: map<int, ListData>, b: seq<int>, thread: int)
    requires |b| == 10 && NoDup(b) && forall j :: 0 <= j < 10 ==> b[j] in m && b[j] != 0
    requires forall j {:trigger m[b[j]]} :: 0 <= j < 10 ==> m[b[j]].next == NextIn(b, j, 0)
    ensures var w := m[b[0] := ListData(thread, 0, 0)];
            Represents(Memory(false, 0, 0, 0, 0, 0, 0, m[b[0]].next, 9, b[0], w, map[thread := Thread(0, 0, Running)]),
                       Initial(b), false)
  {
    LinksChain(m, b, 0, [], 0);
    assert b[0..] + [] == b;
    NoDupTail(b);
    OnListFrame(m, b[0], ListData(thread, 0, 0), b[1..], m[b[0]].next, 9);
    InitialOnce(b);
  }

  lemma BucketRepresents(c: Memory, s: State<int>, w: map<int, ListData>, b: seq<int>)
    requires Represents(c, s, false) && s.pool == [] && |b| == 10 && NoDup(b) && Unused(c.nodes, b)
    requires forall n :: n in c.nodes ==> n in w && w[n] == c.nodes[n]
    requires forall j :: 0 <= j < 10 ==> b[j] in w
    requires forall j {:trigger w[b[j]]} :: 0 <= j < 10 ==> w[b[j]].next == NextIn(b, j, c.emptyThreadData)
    ensures Represents(c.(nodes := w, emptyThreadData := b[0], emptyCount := c.emptyCount + 10), Refill(s, b), false)
  {
    hide Once, Placed, NoDup, Chain;
    PlacedInMemory(c, s, false);
    RefillOnce(s, false, b);
    OnListGrow(c.nodes, w, s.ready, c.nextRunning, c.nextCount);
    OnListGrow(c.nodes, w, s.waiting, c.nextWaiting, c.waitingCount);
    OnListGrow(c.nodes, w, s.sleeping, c.nextSleeping, c.sleepingCount);
    OnListGrow(c.nodes, w, s.pool, c.emptyThreadData, c.emptyCount);
    LinksChain(w, b, 0, s.pool, c.emptyThreadData);
    assert b[0..] + s.pool == b;
  }

  /** The counters and heads say which lists are empty. */
  lemma Counts(c: Memory, s: State<int>, parked: bool)
    requires Represents(c, s, parked)
    ensures c.nextCount == |s.ready| && c.emptyCount == |s.pool| && c.emptyScheduling == s.empty
    ensures c.nextRunning == 0 <==> s.ready == []
    ensures Chain(c.nodes, s.ready, c.nextRunning) && (|s.pool| > 0 ==> c.emptyThreadData == s.pool[0])
    ensures c.current == s.running && c.current in c.nodes
    ensures !parked ==> c.nodes[c.current].thread in c.threads
  {
  }

  /** Changing the fields of an existing thread leaves the lists alone. */
  lemma ThreadChange(c: Memory, s: State<int>, parked: bool, t: int, data: Thread)
    requires Represents(c, s, parked) && t in c.threads
    ensures Represents(c.(threads := c.threads[t := data]), s, parked)
  {
    hide Once, Chain;
  }

  lemma ThreadAdded(c: Memory, s: State<int>, parked: bool, t: int, data: Thread)
    requires Represents(c, s, parked) && t !in c.threads
    ensures Represents(c.(threads := c.threads[t := data]), s, parked)
  {
    hide Once, Chain;
  }

  /** The same threads with the same stack pointers, and no node but u has another thread. */
  ghost predicate SameBesides(c: Memory, w: Memory, u: int) {
    && w.threads.Keys == c.threads.Keys && (forall t :: t in c.threads ==> w.threads[t].rsp == c.threads[t].rsp)
    && (forall n :: n in c.nodes ==> n in w.nodes && (n != u ==> w.nodes[n].thread == c.nodes[n].thread))
  }

  lemma EnlistedKeeps(c: Memory, thread: int, tail: int)
    requires c.emptyThreadData in c.nodes && thread in c.threads && (c.nextCount == 0 || tail in c.nodes)
    ensures SameBesides(c, Enlisted(Taken(c, thread), c.emptyThreadData, tail), c.emptyThreadData)
  {
  }

  lemma TakenReady(c: Memory, s: State<int>, thread: int)
    requires Represents(c, s, false) && |s.pool| > 0 && thread in c.threads
    ensures c.emptyThreadData in c.nodes && Chain(Taken(c, thread).nodes, s.ready, c.nextRunning)
  {
    Apart(s, false);
    ChainIn(c.nodes, s.pool, c.emptyThreadData);
    OnListFrame(c.nodes, s.pool[0], Taken(c, thread).nodes[s.pool[0]], s.ready, c.nextRunning, c.nextCount);
  }

  // ----- waking -----

  predicate HasTid(c: Memory, n: int, tid: nat) {
    n in c.nodes && c.nodes[n].thread in c.threads && c.threads[c.nodes[n].thread].tid == tid
  }

  /** The first sleeper with the given thread id, or |l|. */
  function Sleeper(c: Memory, l: seq<int>, tid: nat): (k: nat)
    ensures k <= |l|
    ensures k < |l| ==> HasTid(c, l[k], tid)
    ensures forall j :: 0 <= j < k ==> !HasTid(c, l[j], tid)
  {
    if |l| == 0 || HasTid(c, l[0], tid) then 0
    else
      var k := Sleeper(c, l[1..], tid);
      assert forall j :: 1 <= j < k + 1 ==> l[j] == l[1..][j - 1];
      k + 1
  }

  lemma {:induction false} ChainUnique(m: map<int, ListData>, l: seq<int>, r: seq<int>, head: int)
    requires Chain(m, l, head) && Chain(m, r, head)
    ensures l == r
  {
    if |l| > 0 && |r| > 0 {
      ChainUnique(m, l[1..], r[1..], m[head].next);
      assert l == [l[0]] + l[1..] && r == [r[0]] + r[1..];
    }
  }

  /** The tail of a chain from one of its nodes on. */
  lemma {:induction false} ChainFrom(m: map<int, ListData>, l: seq<int>, head: int, k: nat)
    requires Chain(m, l, head) && k < |l|
    ensures Chain(m, l[k..], l[k])
  {
    if k == 0 {
      assert l[0..] == l;
    } else {
      ChainFrom(m, l[1..], m[head].next, k - 1);
      assert l[1..][k - 1..] == l[k..];
    }
  }

  /** The memory after awake_thread has linked sleeper n, still linked to the next sleeper, behind the ready tail. */
  function Awoken(c: Memory, n: int, tail: int): Memory
    requires n in c.nodes && c.nodes[n].thread in c.threads && tail in c.nodes
  {
    var thread := c.nodes[n].thread;
    c.(threads := c.threads[thread := c.threads[thread].(state := Ready)],
       nodes := c.nodes[tail := c.nodes[tail].(next := n)], nextCount := c.nextCount + 1)
  }

  lemma NotOnBoth(s: State<int>, j: nat, k: nat)
    requires Once(s, false) && j < |s.ready| && k < |s.sleeping|
    ensures s.ready[j] != s.sleeping[k]
  {
    Apart(s, false);
    var n, z := s.ready[j], s.sleeping[k];
    assert n in s.ready && z in s.sleeping;
  }

  /**
   * Waking sleeper k makes the ready list run on into the list of sleepers: all of them from
   * k on are then on both lists, the counter grows by one, and the memory no longer holds
   * any well-formed set of lists.
   */
  lemma AwokenBreaks(c: Memory, s: State<int>, k: nat)
    requires Represents(c, s, false) && |s.ready| > 0 && k < |s.sleeping|
    ensures s.sleeping[k] in c.nodes && s.ready[|s.ready| - 1] in c.nodes
    ensures var w := Awoken(c, s.sleeping[k], s.ready[|s.ready| - 1]);
            && Chain(w.nodes, s.ready + s.sleeping[k..], w.nextRunning)
            && OnList(w.nodes, s.sleeping, w.nextSleeping, w.sleepingCount)
            && w.nextCount == |s.ready| + 1
            && forall t :: !Represents(w, t, false)
  {
    hide Once, Placed;
    var tail, n := s.ready[|s.ready| - 1], s.sleeping[k];
    Apart(s, false);
    ChainIn(c.nodes, s.ready, c.nextRunning);
    ChainIn(c.nodes, s.sleeping, c.nextSleeping);
    ChainFrom(c.nodes, s.sleeping, c.nextSleeping, k);
    assert forall x :: x in s.sleeping[k..] ==> x in s.sleeping;
    ChainJoin(c.nodes, s.ready, c.nextRunning, s.sleeping[k..], n);
    var w := Awoken(c, n, tail);
    OnListFrame(c.nodes, tail, w.nodes[tail], s.sleeping, c.nextSleeping, c.sleepingCount);
    assert (s.ready + s.sleeping[k..])[|s.ready|] == n;
    forall t | Represents(w, t, false) ensures false {
      ChainUnique(w.nodes, t.ready, s.ready + s.sleeping[k..], w.nextRunning);
      ChainUnique(w.nodes, t.sleeping, s.sleeping, w.nextSleeping);
      NotOnBoth(t, |s.ready|, k);
    }
  }
}
