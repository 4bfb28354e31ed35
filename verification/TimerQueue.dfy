// The sleeper queue of the local APIC timer: add_to_sleep and the timer's interrupt handler.

module TimerQueue {
  import opened Words
  import opened Deadlines
  import opened TimerHistory
  import opened TimerMemory

  class ApicTimer {
    var nodes: map<int, Node>
    var waiting: int
    var waitingCount: Word
    var empty: int
    var emptyCount: Word
    var timer: Word
    const ticksPerMs: Word

    constructor (ticks: Word)
      ensures Boot(State()) && nodes == map[] && ticksPerMs == ticks
    {
      nodes, waiting, waitingCount, empty, emptyCount, timer := map[], 0, 0, 0, 0, 0;
      ticksPerMs := ticks;
    }

    function State(): Queue
      reads this
    {
      Queue(nodes, waiting, waitingCount, empty, emptyCount, timer)
    }

    /** The pool is refilled with ten zeroed nodes linked in order. */
    method Refill(base: int)
      modifies this`nodes, this`empty, this`waitingCount
      ensures nodes == old(nodes) + Block(base) && empty == base && waitingCount == Add(old(waitingCount), 10)
    {
      hide Zeroed, LinkedUpTo, Block;
      var i := 0;
      ZeroedNone(old(nodes), base);
      while i < 10
        invariant 0 <= i <= 10 && waitingCount == old(waitingCount) && nodes == old(nodes) + Zeroed(base, i)
      {
        ZeroedStep(old(nodes), base, i);
        nodes := nodes[NodeAt(base, i) := Node(0, 0, 0)];
        i := i + 1;
      }
      i := 0;
      BlockParts(base);
      while i < 9
        invariant 0 <= i <= 9 && waitingCount == old(waitingCount) && nodes == old(nodes) + LinkedUpTo(base, i)
      {
        LinkedStep(old(nodes), base, i);
        nodes := nodes[NodeAt(base, i) := nodes[NodeAt(base, i)].(next := NodeAt(base, i + 1))];
        i := i + 1;
      }
      empty := base;
      waitingCount := Add(waitingCount, 10);
    }

    /**
     * add_to_sleep, called at time `now`; `base` is what malloc returns if it is called. The time in
     * milliseconds is converted to ticks of the timer by a 64-bit product. Without a pool node left the
     * null pointer is read (ok is false).
     */
    method AddToSleep(time: Word, tid: nat, base: int, ghost q: seq<int>, ghost now: nat) returns (ok: bool)
      requires Chain(nodes, q, waiting) && 0 !in nodes
      requires emptyCount == 0 ==> forall a :: a in Block(base) ==> a !in nodes && a != 0
      modifies this
      ensures var f := Refilled(old(State()), base); ok <==> f.empty in f.nodes
      ensures ok ==> Adds(old(State()), State(), Request(tid, time * ticksPerMs % SPACE, now), base, q)
      ensures ok && old(waiting) == 0 ==>
                waiting in nodes && nodes[waiting].tid == tid && nodes[waiting].rel == time * ticksPerMs % SPACE
      ensures ok && old(waiting) == 0 && time * ticksPerMs < SPACE ==> nodes[waiting].rel == time * ticksPerMs
    {
      var delta := time * ticksPerMs % SPACE;
      ChainIn(nodes, q, waiting);
      if emptyCount == 0 { Refill(base); }
      ok := empty in nodes;
      if !ok { return; }
      var n := empty;
      empty := nodes[n].next;
      emptyCount := Sub(emptyCount, 1);
      nodes := nodes[n := nodes[n].(tid := tid)];
      ChainLinks(old(nodes), nodes, q, waiting);
      forall i | 0 <= i < |q| ensures q[i] in nodes {
        var a := q[i];
        assert a in q;
      }
      Link(n, delta, q);
    }

    /** The new node is linked to the head, to an empty list, or behind the nodes the walk passes. */
    method Link(n: int, delta: Word, ghost q: seq<int>)
      requires n in nodes && Chain(nodes, q, waiting) && forall i :: 0 <= i < |q| ==> q[i] in nodes
      modifies this`nodes, this`waiting, this`waitingCount, this`timer
      ensures State() == Placed(old(State()), n, delta, q)
    {
      ChainIn(nodes, q, waiting);
      if waiting == 0 {
        nodes := nodes[n := nodes[n].(rel := delta)];
        waiting := n;
      } else if nodes[waiting].rel > delta {
        var head := waiting;
        nodes := nodes[n := nodes[n].(next := head)];
        waiting := n;
        nodes := nodes[head := nodes[head].(rel := Sub(nodes[head].rel, delta))];
        nodes := nodes[n := nodes[n].(rel := delta)];
        timer := delta;
      } else {
        var prev, passed := FindPlace(delta, q);
        nodes := nodes[n := nodes[n].(next := nodes[prev].next)];
        nodes := nodes[prev := nodes[prev].(next := n)];
        nodes := nodes[n := nodes[n].(rel := delta - passed)];
      }
      waitingCount := Add(waitingCount, 1);
    }

    method FindPlace(delta: Word, ghost q: seq<int>) returns (prev: int, passed: Word)
      requires Chain(nodes, q, waiting) && waiting != 0 && nodes[waiting].rel <= delta
      ensures var (k, sum) := Walk(Values(nodes, q), delta, 0);
              0 < k <= |q| && prev == q[k - 1] && prev in nodes && passed == sum
    {
      var current := waiting;
      passed := 0;
      prev := 0;
      ghost var i := 0;
      while current != 0
        invariant 0 <= i <= |q| && Chain(nodes, q[i..], current) && passed <= delta
        invariant i == 0 ==> current == waiting && passed == 0
        invariant i > 0 ==> prev == q[i - 1] && prev in nodes
        invariant var (k, sum) := Walk(Values(nodes, q[i..]), delta, passed);
                  Walk(Values(nodes, q), delta, 0) == (i + k, sum)
        decreases |q| - i
      {
        if Add(passed, nodes[current].rel) > delta { break; }
        passed := Add(passed, nodes[current].rel);
        assert q[i..][1..] == q[i + 1..];
        prev := current;
        current := nodes[current].next;
        i := i + 1;
      }
    }

    /**
     * APIC_timer_handler, up to the first read through a null pointer. The head's link is cleared
     * before it is followed, so that read comes after one thread was woken, which is whom the
     * interrupt owes to wake exactly when nobody shares its deadline.
     */
    method TimerHandler() returns (woken: seq<nat>, faulted: bool)
      requires 0 !in nodes && (waiting != 0 ==> waiting in nodes)
      modifies this
      ensures faulted
      ensures woken == if old(waiting) == 0 then [] else [old(nodes)[old(waiting)].tid]
      ensures forall q :: Chain(old(nodes), q, old(waiting)) ==>
          (woken == DueTids(Values(old(nodes), q)) <==> Alone(old(nodes), q))
      ensures waiting == 0 && empty == old(empty) && timer == old(timer)
      ensures nodes == if old(waiting) == 0 then old(nodes) else old(nodes)[old(waiting) := Node(0, 0, 0)]
      ensures waitingCount == if old(waiting) == 0 then old(waitingCount) else Sub(old(waitingCount), 1)
    {
      forall q | Chain(nodes, q, waiting)
        ensures (if waiting == 0 then [] else [nodes[waiting].tid]) == DueTids(Values(nodes, q)) <==> Alone(nodes, q)
      {
        HandlerWakesDue(nodes, q, waiting);
      }
      woken, faulted := [], true;
      if waiting !in nodes { return; }
      woken := [nodes[waiting].tid];
      var current := waiting;
      nodes := nodes[current := Node(0, 0, 0)];
      waiting := nodes[waiting].next;
      waitingCount := Sub(waitingCount, 1);
      // The condition of the loop that follows reads waiting->relative_time.
      faulted := waiting !in nodes;
    }

    /**
     * The same handler with the intended order: each link is read before the node is cleared. It wakes
     * exactly the threads that share the first deadline, keeps the order and the times of the others,
     * counts right and sets the timer for the new head. It still reads a null pointer exactly when
     * nobody is left waiting.
     */
    method TimerHandlerInOrder(ghost q: seq<int>) returns (woken: seq<nat>, faulted: bool)
      requires 0 !in nodes && Chain(nodes, q, waiting)
      modifies this
      ensures |Values(old(nodes), q)| == |q|
      ensures var ts, n := Values(old(nodes), q), DueNow(Values(old(nodes), q));
              && (faulted <==> n == |ts|) && woken == DueTids(ts)
              && Chain(nodes, q[n..], waiting) && Values(nodes, q[n..]) == ts[n..]
              && waitingCount == Minus(old(waitingCount), n)
              && timer == if !faulted && waitingCount > 0 then ts[n].rel else old(timer)
    {
      ghost var start, ts := nodes, Values(nodes, q);
      ChainIn(nodes, q, waiting);
      woken, faulted := [], true;
      assert q[0..] == q;
      if waiting !in nodes {
        NobodyDue(nodes, q, waiting);
        return;
      }
      ghost var i := 1;
      woken := WakeHead(q);
      FirstDue(start, q);
      while waiting in nodes && nodes[waiting].rel == 0
        invariant 0 < i <= |q| && 0 !in nodes && Chain(nodes, q[i..], waiting) && SameNodes(start, nodes, q[i..])
        invariant |ts| == |q| && ts == Values(start, q) && Chain(start, q, q[0])
        invariant woken == Tids(ts[..i]) && DueNow(ts) == i - 1 + DueNow(ts[i - 1..])
        invariant waitingCount == Minus(old(waitingCount), i) && timer == old(timer)
        decreases |q| - i
      {
        DueStep(start, nodes, q, i, waiting);
        var more := WakeHead(q[i..]);
        assert q[i..][1..] == q[i + 1..];
        woken := woken + more;
        i := i + 1;
      }
      DueEnds(start, nodes, q, i, waiting);
      faulted := waiting !in nodes;
      if !faulted && waitingCount > 0 { timer := nodes[waiting].rel; }
    }

    /** The head is woken and taken off the list, its link read first. */
    method WakeHead(ghost q: seq<int>) returns (woken: seq<nat>)
      requires 0 !in nodes && q != [] && Chain(nodes, q, waiting)
      modifies this`nodes, this`waiting, this`waitingCount
      ensures q[0] in old(nodes) && woken == [old(nodes)[q[0]].tid]
      ensures 0 !in nodes && Chain(nodes, q[1..], waiting) && SameNodes(old(nodes), nodes, q[1..])
      ensures waitingCount == Sub(old(waitingCount), 1)
    {
      HeadOnce(nodes, q, waiting);
      woken := [nodes[waiting].tid];
      var current := waiting;
      var next := nodes[waiting].next;
      nodes := nodes[current := Node(0, 0, 0)];
      ChainFrame(old(nodes), nodes, q[1..], next);
      waiting := next;
      waitingCount := Sub(waitingCount, 1);
    }
  }

  /** n subtractions of 1 from a 64-bit counter. */
  function Minus(count: Word, n: nat): Word { if n == 0 then count else Sub(Minus(count, n - 1), 1) }

  /** Nobody waits for the same time as the first sleeper. */
  predicate Alone(nodes: map<int, Node>, q: seq<int>) { |q| <= 1 || (q[1] in nodes && nodes[q[1]].rel != 0) }

  /** Waking the head alone wakes exactly whom the interrupt owes to wake exactly when it is alone. */
  lemma HandlerWakesDue(nodes: map<int, Node>, q: seq<int>, head: int)
    requires Chain(nodes, q, head) && (head != 0 ==> head in nodes)
    ensures (if head == 0 then [] else [nodes[head].tid]) == DueTids(Values(nodes, q)) <==> Alone(nodes, q)
  {
    if q != [] {
      var ts := Values(nodes, q);
      ChainIn(nodes, q, head);
      ValueAt(nodes, q, head, 0);
      if |q| > 1 {
        ValueAt(nodes, q, head, 1);
        DueNowIs(ts);
      }
      assert DueNow(ts) == 1 ==> DueTids(ts) == [ts[0].tid];
    }
  }

  lemma DueNowIs(ts: seq<Sleeper>)
    requires |ts| > 1
    ensures DueNow(ts) == 1 <==> ts[1].rel != 0
  {
    assert DueNow(ts[1..]) >= 1;
  }

  lemma {:induction false} ValueAt(nodes: map<int, Node>, q: seq<int>, head: int, i: nat)
    requires Chain(nodes, q, head) && i < |q|
    ensures |Values(nodes, q)| == |q| && q[i] in nodes
    ensures Values(nodes, q)[i] == Sleeper(nodes[q[i]].tid, nodes[q[i]].rel)
  {
    ChainIn(nodes, q, head);
    if i > 0 { ValueAt(nodes, q[1..], nodes[head].next, i - 1); }
  }

  lemma NobodyDue(nodes: map<int, Node>, q: seq<int>, head: int)
    requires Chain(nodes, q, head) && head !in nodes
    ensures q == [] && Values(nodes, q) == [] && DueTids([]) == [] && DueNow([]) == 0
  {
  }

  lemma FirstDue(start: map<int, Node>, q: seq<int>)
    requires q != [] && Chain(start, q, q[0])
    ensures var ts := Values(start, q);
            |ts| == |q| && q[0] in start && Tids(ts[..1]) == [start[q[0]].tid] && ts[0..] == ts
  {
    ChainIn(start, q, q[0]);
    ValueAt(start, q, q[0], 0);
  }

  /** A sleeper with no time of its own is due with the one before it. */
  lemma DueStep(start: map<int, Node>, nodes: map<int, Node>, q: seq<int>, i: nat, head: int)
    requires 0 < i < |q| + 1 && Chain(start, q, q[0]) && Chain(nodes, q[i..], head) && SameNodes(start, nodes, q[i..])
    requires head in nodes && nodes[head].rel == 0 && 0 !in nodes
    ensures i < |q| && head == q[i] && q[i..] != [] && |Values(start, q)| == |q|
    ensures var ts := Values(start, q);
            Tids(ts[..i + 1]) == Tids(ts[..i]) + [nodes[head].tid] && DueNow(ts[i - 1..]) == 1 + DueNow(ts[i..])
  {
    var ts := Values(start, q);
    ChainIn(start, q, q[0]);
    ValueAt(start, q, q[0], i);
    var x := q[i..][0];
    assert x == head && x in q[i..];
    assert ts[i - 1..][1..] == ts[i..] && ts[i - 1..][1] == ts[i];
  }

  /** The loop ends behind the last sleeper that is due. */
  lemma DueEnds(start: map<int, Node>, nodes: map<int, Node>, q: seq<int>, i: nat, head: int)
    requires 0 < i <= |q| && Chain(start, q, q[0]) && Chain(nodes, q[i..], head) && SameNodes(start, nodes, q[i..])
    requires !(head in nodes && nodes[head].rel == 0) && 0 !in nodes
    ensures |Values(start, q)| == |q|
    ensures var ts := Values(start, q);
            && DueNow(ts[i - 1..]) == 1 && (head in nodes <==> i < |ts|)
            && (i < |ts| ==> nodes[head].rel == ts[i].rel) && Values(nodes, q[i..]) == ts[i..]
  {
    var ts := Values(start, q);
    ChainIn(start, q, q[0]);
    ValuesFrom(start, q, q[0], i);
    if i < |q| {
      ValueAt(start, q, q[0], i);
      ChainFrom(start, q, q[0], i);
      ChainFrame(start, nodes, q[i..], q[i]);
      var x := q[i..][0];
      assert x == head && x in q[i..];
      assert ts[i - 1..][1] == ts[i];
    } else {
      assert q[i..] == [] && ts[i..] == [];
    }
  }

  lemma {:induction false} ValuesFrom(nodes: map<int, Node>, q: seq<int>, head: int, i: nat)
    requires Chain(nodes, q, head) && i <= |q|
    ensures |Values(nodes, q)| == |q| && Values(nodes, q[i..]) == Values(nodes, q)[i..]
  {
    ChainIn(nodes, q, head);
    if i == 0 {
      assert q[0..] == q;
    } else {
      ValuesFrom(nodes, q[1..], nodes[head].next, i - 1);
      assert q[1..][i - 1..] == q[i..] && Values(nodes, q)[1..] == Values(nodes, q[1..]);
    }
  }

  // ----- from the start of the kernel -----

  /** Requests made one after the other from the start, none of them due yet. */
  ghost predicate Run(states: seq<Queue>, rs: seq<Request>, base: int) {
    && |states| == |rs| + 1 && base > 0 && Boot(states[0])
    && forall i :: 0 <= i < |rs| ==> AddStep(states[i], states[i + 1], rs[i], base)
  }

  ghost predicate AddStep(s: Queue, t: Queue, r: Request, base: int) { exists q :: Adds(s, t, r, base, q) }

  /**
   * Over every run: while the first block of nodes lasts and the second sleeper was not the
   * earlier one, memory holds exactly the delta list of the requests.
   */
  lemma {:induction false} FirstBlockExact(states: seq<Queue>, rs: seq<Request>, base: int, m: nat)
    requires Run(states, rs, base) && 2 <= m <= |rs| && m <= 10 && rs[0].delta <= rs[1].delta
    ensures exists q, k :: k == m && Waiting(states[m], base, k, q, AddAll(rs[..m]))
    ensures states[m].timer == TimerAfter(rs[..m], states[0].timer)
  {
    hide Waiting, Adds, TimerAfter, AddAll;
    if m == 2 {
      assert AddStep(states[0], states[0 + 1], rs[0], base) && AddStep(states[1], states[1 + 1], rs[1], base);
      var q1 :| Adds(states[0], states[1], rs[0], base, q1);
      var q2 :| Adds(states[1], states[2], rs[1], base, q2);
      SecondDecides(states[0], states[1], states[2], rs[0], rs[1], base, q1, q2);
      assert rs[..2] == [rs[0], rs[1]];
      TimerAfterTwo(rs[0], rs[1], states[0].timer);
    } else {
      FirstBlockExact(states, rs, base, m - 1);
      var q, k :| k == m - 1 && Waiting(states[m - 1], base, k, q, AddAll(rs[..m - 1]));
      assert AddStep(states[m - 1], states[m - 1 + 1], rs[m - 1], base);
      var p :| Adds(states[m - 1], states[m], rs[m - 1], base, p);
      NextIsExact(states[m - 1], states[m], rs[m - 1], base, m - 1, p, q, rs[..m - 1]);
      assert rs[..m] == rs[..m - 1] + [rs[m - 1]];
      TimerAfterNext(rs[..m - 1], rs[m - 1], states[0].timer);
    }
  }

  lemma TimerAfterTwo(r1: Request, r2: Request, set_: Word)
    requires r1.delta <= r2.delta
    ensures TimerAfter([r1, r2], set_) == set_
  {
    assert [r1, r2][..1] == [r1] && [r1][..0] == [] && AddAll([]) == [];
    assert AddAll([r1])[0] == Sleeper(r1.tid, r1.delta);
    assert TimerAfter([r1], set_) == set_;
  }

  lemma TimerAfterNext(rs: seq<Request>, r: Request, set_: Word)
    requires AddAll(rs) != []
    ensures TimerAfter(rs + [r], set_) == if AddAll(rs)[0].rel > r.delta then r.delta else TimerAfter(rs, set_)
  {
    assert (rs + [r])[..|rs|] == rs;
  }

  /** After two requests the waiting list is a list at all exactly when the second is not earlier. */
  lemma TwoExact(states: seq<Queue>, rs: seq<Request>, base: int)
    requires Run(states, rs, base) && |rs| >= 2
    ensures Ends(states[2].nodes, states[2].waiting) <==> rs[0].delta <= rs[1].delta
  {
    hide Chain, Ends, Adds, Waiting;
    assert AddStep(states[0], states[0 + 1], rs[0], base) && AddStep(states[1], states[1 + 1], rs[1], base);
    var q1 :| Adds(states[0], states[1], rs[0], base, q1);
    var q2 :| Adds(states[1], states[2], rs[1], base, q2);
    SecondDecides(states[0], states[1], states[2], rs[0], rs[1], base, q1, q2);
  }

  /** From the first request on no pointer leads out of the first ten nodes. */
  lemma {:induction false} RunClosed(states: seq<Queue>, rs: seq<Request>, base: int, m: nat)
    requires Run(states, rs, base) && 1 <= m <= |rs| && m < SPACE
    ensures Closed(states[m], base) && states[m].emptyCount == SPACE - m
  {
    assert AddStep(states[m - 1], states[m - 1 + 1], rs[m - 1], base);
    var q :| Adds(states[m - 1], states[m], rs[m - 1], base, q);
    if m == 1 {
      FirstClosed(states[0], states[1], rs[0], base, q);
    } else {
      RunClosed(states, rs, base, m - 1);
      hide Closed, Adds;
      AddsClosed(states[m - 1], states[m], rs[m - 1], base, q);
    }
  }

  lemma FirstClosed(s: Queue, t: Queue, r: Request, base: int, q: seq<int>)
    requires Boot(s) && Adds(s, t, r, base, q) && base > 0
    ensures Closed(t, base) && t.emptyCount == SPACE - 1
  {
    FirstShares(s, t, r, base, q);
    FirstNoNull(s, t, r, base, q);
    hide Adds, Boot, NodeAt, Chain, Values;
    OursAt(base, 0);
    OursAt(base, 1);
    FirstNoLeak(t, r, base);
  }

  lemma FirstNoLeak(t: Queue, r: Request, base: int)
    requires 0 !in t.nodes && base in t.nodes && t.nodes[base].next == NodeAt(base, 1)
    requires forall i :: 0 < i < 10 ==>
               NodeAt(base, i) in t.nodes && t.nodes[NodeAt(base, i)].next == NextInBlock(base, i)
    ensures forall a :: Ours(base, a) && a in t.nodes ==> Ours(base, t.nodes[a].next)
  {
    OursAt(base, 0);
    OursAt(base, 1);
    hide NodeAt;
    forall a | Ours(base, a) && a in t.nodes ensures Ours(base, t.nodes[a].next) {
      var i :| 0 <= i < 10 && a == NodeAt(base, i);
      if i < 9 { OursAt(base, i + 1); }
    }
  }

  lemma OursAt(base: int, i: nat)
    requires i < 10
    ensures Ours(base, NodeAt(base, i)) && Ours(base, 0) && NodeAt(base, 0) == base
  {
  }

  lemma FirstNoNull(s: Queue, t: Queue, r: Request, base: int, q: seq<int>)
    requires Boot(s) && Adds(s, t, r, base, q) && base > 0
    ensures 0 !in t.nodes
  {
    assert q == [];
  }

  /** Each request is one more to hold. */
  lemma {:induction false} AddAllLength(rs: seq<Request>)
    ensures |AddAll(rs)| == |rs|
  {
    if rs != [] {
      var before, r := rs[..|rs| - 1], rs[|rs| - 1];
      AddAllLength(before);
      InsertLength(AddAll(before), r.delta, r.tid, 0);
    }
  }

  lemma {:induction false} InsertLength(ts: seq<Sleeper>, delta: Word, tid: nat, sum: Word)
    requires sum <= delta
    ensures |InsertFrom(ts, delta, tid, sum)| == |ts| + 1 && |Insert(ts, delta, tid)| == |ts| + 1
  {
    if ts != [] && Add(sum, ts[0].rel) <= delta { InsertLength(ts[1..], delta, tid, Add(sum, ts[0].rel)); }
    if ts != [] && ts[0].rel <= delta { WalkInserts(ts, delta, tid, 0); }
  }

  /** How many nodes wait after m requests: ten after the first, one for each up to the tenth, ten at most. */
  lemma HowMany(states: seq<Queue>, rs: seq<Request>, base: int, m: nat, q: seq<int>)
    requires Run(states, rs, base) && 1 <= m <= |rs| && m < SPACE && Chain(states[m].nodes, q, states[m].waiting)
    ensures |Values(states[m].nodes, q)| == |q|
    ensures m == 1 ==> |q| == 10
    ensures m >= 2 ==> rs[0].delta <= rs[1].delta
    ensures m >= 11 ==> |q| <= 10
  {
    hide Chain, Values, Adds, Closed;
    ChainIn(states[m].nodes, q, states[m].waiting);
    RunClosed(states, rs, base, m);
    AtMostTen(states[m], base, q);
    if m == 1 {
      assert AddStep(states[0], states[0 + 1], rs[0], base);
      var p :| Adds(states[0], states[1], rs[0], base, p);
      FirstLength(states[0], states[1], rs[0], base, p, q);
    } else {
      TwoExact(states, rs, base);
      if m == 2 {
        EndsBy(states[2].nodes, q, states[2].waiting);
      } else {
        assert AddStep(states[2], states[2 + 1], rs[2], base);
        var p :| Adds(states[2], states[3], rs[2], base, p);
        AddedTo(states[2], states[3], rs[2], base, p);
      }
    }
  }

  lemma AddedTo(s: Queue, t: Queue, r: Request, base: int, q: seq<int>)
    requires Adds(s, t, r, base, q)
    ensures Ends(s.nodes, s.waiting)
  {
    EndsBy(s.nodes, q, s.waiting);
  }

  lemma FirstLength(s: Queue, t: Queue, r: Request, base: int, p: seq<int>, q: seq<int>)
    requires Boot(s) && Adds(s, t, r, base, p) && base > 0 && Chain(t.nodes, q, t.waiting)
    ensures |q| == 10
  {
    FirstShares(s, t, r, base, p);
    SharedTail(t.nodes, base, 1);
    hide Adds;
    var z := [base] + FirstNodes(base, 1);
    assert z[1..] == FirstNodes(base, 1) && Chain(t.nodes, z, base);
    ChainUnique(t.nodes, z, q, base);
  }

  /** The waiting list of this state holds these sleepers. */
  ghost predicate Holds(s: Queue, ts: seq<Sleeper>) {
    exists q :: Chain(s.nodes, q, s.waiting) && Values(s.nodes, q) == ts
  }

  /**
   * Over every run: after m requests memory holds the delta list of the requests if and only if there
   * were two to ten and the second was not the earlier one.
   */
  lemma HeldExact(states: seq<Queue>, rs: seq<Request>, base: int, m: nat)
    requires Run(states, rs, base) && 1 <= m <= |rs| && m < SPACE
    ensures Holds(states[m], AddAll(rs[..m])) <==> 2 <= m <= 10 && rs[0].delta <= rs[1].delta
  {
    hide Chain, Values, AddStep, AddAll, Waiting;
    AddAllLength(rs[..m]);
    forall q | Chain(states[m].nodes, q, states[m].waiting) && Values(states[m].nodes, q) == AddAll(rs[..m])
      ensures 2 <= m <= 10 && rs[0].delta <= rs[1].delta
    {
      HowMany(states, rs, base, m, q);
    }
    if 2 <= m <= 10 && rs[0].delta <= rs[1].delta {
      FirstBlockExact(states, rs, base, m);
      var q, k :| k == m && Waiting(states[m], base, k, q, AddAll(rs[..m]));
      WaitingHolds(states[m], base, m, q, AddAll(rs[..m]));
    }
  }

  lemma WaitingHolds(s: Queue, base: int, m: nat, q: seq<int>, ts: seq<Sleeper>)
    requires Waiting(s, base, m, q, ts)
    ensures Chain(s.nodes, q, s.waiting) && Values(s.nodes, q) == ts && |q| == m
  {
  }

  /** The waiting list of this state has everybody due at these times, counted from `from`. */
  ghost predicate Due(s: Queue, from: nat, ws: seq<Wake>) {
    exists q :: Chain(s.nodes, q, s.waiting) && WakesFrom(Values(s.nodes, q), from) == ws
  }

  lemma {:induction false} SortAllLength(rs: seq<Request>)
    ensures |SortAll(rs)| == |rs|
  {
    SortAllMeaning(rs, 0);
  }

  /**
   * Over every run: after m requests every thread is due in memory when it asked to be, if and only if
   * there were two to ten of them, the second was not the earlier one, no time passed between them
   * and none fell between two earlier ones.
   */
  lemma MemoryExact(states: seq<Queue>, rs: seq<Request>, base: int, m: nat)
    requires Run(states, rs, base) && 1 <= m <= |rs| && m < SPACE
    requires Ordered(rs[..m]) && Pending(rs[..m]) && Distinct(rs[..m])
    ensures Due(states[m], BaseOf(rs[..m]), SortAll(rs[..m])) <==>
            2 <= m <= 10 && rs[0].delta <= rs[1].delta &&
            AtOnce(rs[..m]) && forall j :: 0 <= j < m ==> Extremal(rs[..m], j)
  {
    hide Chain, Values, AddStep, AddAll, Waiting, WakesFrom;
    hide Ordered, Pending, Distinct, AtOnce, Extremal, SortAll, BaseOf;
    var now := rs[..m];
    SortAllLength(now);
    HistoryExact(now);
    forall q | Chain(states[m].nodes, q, states[m].waiting) &&
               WakesFrom(Values(states[m].nodes, q), BaseOf(now)) == SortAll(now)
      ensures 2 <= m <= 10 && rs[0].delta <= rs[1].delta
    {
      HowMany(states, rs, base, m, q);
      assert |WakesFrom(Values(states[m].nodes, q), BaseOf(now))| == |q|;
    }
    if 2 <= m <= 10 && rs[0].delta <= rs[1].delta {
      FirstBlockExact(states, rs, base, m);
      var p, k :| k == m && Waiting(states[m], base, k, p, AddAll(now));
      WaitingHolds(states[m], base, m, p, AddAll(now));
      if DueAll(now) == SortAll(now) { assert WakesFrom(Values(states[m].nodes, p), BaseOf(now)) == SortAll(now); }
      forall q | Chain(states[m].nodes, q, states[m].waiting) ensures q == p {
        ChainUnique(states[m].nodes, p, q, states[m].waiting);
      }
    }
  }

  /**
   * While memory holds that list the counter of waiting threads is ten too high; the timer is set for
   * the first thread exactly if it was set so already, or somebody came with a shorter time than the
   * first; and with the time gone by, the same of the alarm.
   */
  lemma CountAndTimer(states: seq<Queue>, rs: seq<Request>, base: int, m: nat, q: seq<int>, first: nat)
    requires Run(states, rs, base) && 2 <= m <= |rs| && m <= 10 && rs[0].delta <= rs[1].delta
    requires Chain(states[m].nodes, q, states[m].waiting)
    ensures |q| == m && states[m].waitingCount == |q| + 10 && q[0] in states[m].nodes
    ensures states[m].timer == states[m].nodes[q[0]].rel
            <==> (exists j :: Sooner(rs[..m], j)) || states[0].timer == rs[0].delta
    ensures Alarm(rs[..m], first) == BaseOf(rs[..m]) + states[m].nodes[q[0]].rel
            <==> (exists j :: Sooner(rs[..m], j)) || first == rs[0].at + rs[0].delta
  {
    hide TimerAfter, Alarm, BaseOf, AddAll;
    FirstBlockExact(states, rs, base, m);
    var p, k :| k == m && Waiting(states[m], base, k, p, AddAll(rs[..m]));
    ChainUnique(states[m].nodes, p, q, states[m].waiting);
    var now := rs[..m];
    assert now[0] == rs[0];
    TimerExact(now, states[0].timer);
    AlarmExact(now, first);
    ValueAt(states[m].nodes, q, states[m].waiting, 0);
  }

  /**
   * The eleventh request takes the node of a thread that waits, the i-th, and overwrites its number.
   * The list ends exactly when the walk passes that node and at least one more; then everybody
   * between it and the new place is lost.
   */
  lemma EleventhExact(s: Queue, t: Queue, base: int, q: seq<int>, ts: seq<Sleeper>, r: Request, p: seq<int>)
      returns (i: nat)
    requires Waiting(s, base, 10, q, ts) && Adds(s, t, r, base, p)
    ensures i < |q| && q[i] == s.empty && |ts| == |q|
    ensures var k := PlaceFor(ts, r.delta);
            && (Ends(t.nodes, t.waiting) <==> k >= i + 2)
            && (k >= i + 2 ==> k <= |q| && Chain(t.nodes, q[..i + 1] + q[k..], t.waiting))
  {
    ChainUnique(s.nodes, p, q, s.waiting);
    ChainIn(s.nodes, q, s.waiting);
    i :| i < |q| && q[i] == s.empty;
    var f := Taken(s, r.tid);
    TakenSame(s, f, q, i);
    SamePlace(ts, Values(f.nodes, q), r.delta);
    hide Chain, Values, Placed, PlaceFor, Ends;
    ReusedExact(f, i, r.delta, q);
  }

  /** Taking a waiting node changes a thread's number only. */
  lemma TakenSame(s: Queue, f: Queue, q: seq<int>, i: nat)
    requires Chain(s.nodes, q, s.waiting) && i < |q| && q[i] == s.empty && s.empty in s.nodes
    requires f.waiting == s.waiting && exists tid :: f.nodes == s.nodes[s.empty := s.nodes[s.empty].(tid := tid)]
    ensures Chain(f.nodes, q, f.waiting) && |Values(f.nodes, q)| == |q| == |Values(s.nodes, q)|
    ensures forall j :: 0 <= j < |q| ==> Values(f.nodes, q)[j].rel == Values(s.nodes, q)[j].rel
  {
    ChainLinks(s.nodes, f.nodes, q, s.waiting);
    ChainIn(s.nodes, q, s.waiting);
    ChainIn(f.nodes, q, s.waiting);
    forall j | 0 <= j < |q| ensures Values(f.nodes, q)[j].rel == Values(s.nodes, q)[j].rel {
      ValueAt(s.nodes, q, s.waiting, j);
      ValueAt(f.nodes, q, s.waiting, j);
    }
  }

  lemma SamePlace(ts: seq<Sleeper>, us: seq<Sleeper>, delta: Word)
    requires |ts| == |us| && forall j :: 0 <= j < |ts| ==> us[j].rel == ts[j].rel
    ensures PlaceFor(us, delta) == PlaceFor(ts, delta)
  {
    if ts != [] && ts[0].rel <= delta { SameWalk(ts, us, delta, 0); }
  }

  lemma {:induction false} SameWalk(ts: seq<Sleeper>, us: seq<Sleeper>, delta: Word, sum: Word)
    requires sum <= delta && |ts| == |us| && forall j :: 0 <= j < |ts| ==> us[j].rel == ts[j].rel
    ensures Walk(us, delta, sum) == Walk(ts, delta, sum)
  {
    if ts != [] && Add(sum, ts[0].rel) <= delta { SameWalk(ts[1..], us[1..], delta, Add(sum, ts[0].rel)); }
  }
}
