// The scheduler's lists as values: who runs, who is ready, waiting, sleeping, and which list
// nodes are spare.  N is whatever stands for a list node.

module Scheduling {

  datatype State<N> = State(running: N, ready: seq<N>, waiting: seq<N>, sleeping: seq<N>, pool: seq<N>,
                            empty: bool, buckets: nat)

  /** Fault: a null list head is dereferenced. */
  datatype Outcome<N> = Fault | Next(state: State<N>)

  /** Calls of the scheduler; wait, sleep and kill are each followed by pop_next_thread. */
  datatype Call<N> = Add(bucket: seq<N>) | Yield | Wait | Sleep | Kill

  /** init_kernel_thread: the first of ten new nodes runs, nine are spare. */
  function Initial<N>(bucket: seq<N>): State<N>
    requires |bucket| == 10
  {
    State(bucket[0], [], [], [], bucket[1..], false, 1)
  }

  /** pop_next_thread. */
  function Pop<N>(s: State<N>): Outcome<N> {
    if |s.ready| == 0 then Fault
    else Next(s.(running := s.ready[0], ready := s.ready[1..], empty := |s.ready| == 1))
  }

  /** pop_next_and_readd_running under the FCFS policy. */
  function YieldNext<N>(s: State<N>): Outcome<N> {
    if s.empty then Next(s)
    else if |s.ready| == 0 then Fault
    else Pop(s.(ready := s.ready + [s.running]))
  }

  /** malloc_empty_bucket, when the pool has run dry. */
  function Refill<N>(s: State<N>, bucket: seq<N>): State<N> {
    if |s.pool| == 0 then s.(pool := bucket, buckets := s.buckets + 1) else s
  }

  /** add_thread_to_schedule. */
  function AddReady<N>(s: State<N>, bucket: seq<N>): State<N>
    requires |bucket| == 10
  {
    var t := Refill(s, bucket);
    t.(ready := t.ready + [t.pool[0]], pool := t.pool[1..], empty := false)
  }

  function Step<N>(s: State<N>, call: Call<N>): Outcome<N> {
    match call
    case Add(bucket) => if |bucket| == 10 then Next(AddReady(s, bucket)) else Fault
    case Yield => YieldNext(s)
    case Wait => Pop(s.(waiting := [s.running] + s.waiting))
    case Sleep => Pop(s.(sleeping := [s.running] + s.sleeping))
    case Kill => Pop(s.(pool := [s.running] + s.pool))
  }

  function Run<N>(s: State<N>, calls: seq<Call<N>>): Outcome<N> {
    if |calls| == 0 then Next(s)
    else
      match Run(s, calls[..|calls| - 1])
      case Fault => Fault
      case Next(t) => Step(t, calls[|calls| - 1])
  }

  // ----- conservation -----

  /** Every node, as often as it occurs in some list or as the running one. */
  ghost function Nodes<N>(s: State<N>): multiset<N> {
    multiset{s.running} + multiset(s.ready) + multiset(s.waiting) + multiset(s.sleeping) + multiset(s.pool)
  }

  /** Each node is in exactly one place, and there are ten per bucket. */
  ghost predicate Partitioned<N>(s: State<N>) {
    && (forall n :: n in Nodes(s) ==> Nodes(s)[n] == 1)
    && |Nodes(s)| == 10 * s.buckets
  }

  /** Buckets come from malloc: ten distinct nodes that no list has seen. */
  ghost predicate FreshBucket<N>(s: State<N>, call: Call<N>) {
    call.Add? ==>
      |call.bucket| == 10 && forall n :: n in call.bucket ==> multiset(call.bucket)[n] == 1 && n !in Nodes(s)
  }

  lemma PopDropsRunning<N>(s: State<N>)
    requires Pop(s).Next?
    ensures Nodes(Pop(s).state) + multiset{s.running} == Nodes(s)
  {
    assert s.ready == [s.ready[0]] + s.ready[1..];
  }

  lemma StepConserves<N>(s: State<N>, call: Call<N>)
    requires Step(s, call).Next?
    ensures Nodes(Step(s, call).state) ==
            Nodes(s) + (if call.Add? && |s.pool| == 0 then multiset(call.bucket) else multiset{})
    ensures Step(s, call).state.buckets == s.buckets + (if call.Add? && |s.pool| == 0 then 1 else 0)
  {
    hide Nodes;
    assert Nodes(s) + multiset{} == Nodes(s);
    match call
    case Add(bucket) => AddConserves(s, bucket);
    case Yield => if !s.empty { ParkAndPop(s, s.(ready := s.ready + [s.running])); }
    case Wait => ParkAndPop(s, s.(waiting := [s.running] + s.waiting));
    case Sleep => ParkAndPop(s, s.(sleeping := [s.running] + s.sleeping));
    case Kill => ParkAndPop(s, s.(pool := [s.running] + s.pool));
  }

  lemma ParkAndPop<N>(s: State<N>, t: State<N>)
    requires Pop(t).Next? && t.running == s.running
    requires t == s.(ready := s.ready + [s.running]) || t == s.(waiting := [s.running] + s.waiting) ||
             t == s.(sleeping := [s.running] + s.sleeping) || t == s.(pool := [s.running] + s.pool)
    ensures Nodes(Pop(t).state) == Nodes(s)
  {
    hide Nodes, Pop;
    ParkedReady(s);
    ParkedOther(s);
    PopDropsRunning(t);
    Cancel(Nodes(Pop(t).state), Nodes(s), s.running);
  }

  lemma Cancel<N>(a: multiset<N>, b: multiset<N>, n: N)
    requires a + multiset{n} == b + multiset{n}
    ensures a == b
  {
    forall x ensures a[x] == b[x] { assert (a + multiset{n})[x] == (b + multiset{n})[x]; }
  }

  /** Putting the running node on a list counts it once more, until it is replaced. */
  lemma ParkedReady<N>(s: State<N>)
    ensures Nodes(s.(ready := s.ready + [s.running])) == Nodes(s) + multiset{s.running}
  {
    assert multiset(s.ready + [s.running]) == multiset(s.ready) + multiset{s.running};
  }

  lemma ParkedOther<N>(s: State<N>)
    ensures Nodes(s.(waiting := [s.running] + s.waiting)) == Nodes(s) + multiset{s.running}
    ensures Nodes(s.(sleeping := [s.running] + s.sleeping)) == Nodes(s) + multiset{s.running}
    ensures Nodes(s.(pool := [s.running] + s.pool)) == Nodes(s) + multiset{s.running}
  {
    var r := multiset{s.running};
    assert multiset([s.running] + s.waiting) == r + multiset(s.waiting);
    assert multiset([s.running] + s.sleeping) == r + multiset(s.sleeping);
    assert multiset([s.running] + s.pool) == r + multiset(s.pool);
  }

  lemma AddConserves<N>(s: State<N>, bucket: seq<N>)
    requires |bucket| == 10
    ensures Nodes(AddReady(s, bucket)) == Nodes(s) + (if |s.pool| == 0 then multiset(bucket) else multiset{})
  {
    var t := Refill(s, bucket);
    assert t.pool == [t.pool[0]] + t.pool[1..];
    assert multiset(t.pool) == multiset{t.pool[0]} + multiset(t.pool[1..]);
    assert multiset(t.ready + [t.pool[0]]) == multiset(t.ready) + multiset{t.pool[0]};
  }

  /** Every bucket of the run is fresh when it is handed over. */
  ghost predicate FreshBuckets<N>(s: State<N>, calls: seq<Call<N>>) {
    forall i :: 0 <= i < |calls| && Run(s, calls[..i]).Next? ==> FreshBucket(Run(s, calls[..i]).state, calls[i])
  }

  /** Over every run each node stays in exactly one of the five places, ten per bucket allocated. */
  lemma {:induction false} RunPartitions<N>(s: State<N>, calls: seq<Call<N>>)
    requires Partitioned(s) && FreshBuckets(s, calls) && Run(s, calls).Next?
    ensures Partitioned(Run(s, calls).state)
  {
    hide Step, Partitioned;
    if |calls| > 0 {
      var k := |calls| - 1;
      forall i | 0 <= i < k && Run(s, calls[..k][..i]).Next?
        ensures FreshBucket(Run(s, calls[..k][..i]).state, calls[..k][i])
      {
        assert calls[..k][..i] == calls[..i];
      }
      RunPartitions(s, calls[..k]);
      StepPartitions(Run(s, calls[..k]).state, calls[k]);
    }
  }

  lemma StepPartitions<N>(s: State<N>, call: Call<N>)
    requires Partitioned(s) && FreshBucket(s, call) && Step(s, call).Next?
    ensures Partitioned(Step(s, call).state)
  {
    StepConserves(s, call);
    hide Step, Nodes;
  }

  lemma InitialPartitioned<N>(bucket: seq<N>)
    requires |bucket| == 10 && forall n :: n in bucket ==> multiset(bucket)[n] == 1
    ensures Partitioned(Initial(bucket))
  {
    assert bucket == [bucket[0]] + bucket[1..];
    assert Nodes(Initial(bucket)) == multiset(bucket);
  }

  // ----- when a call faults -----

  /**
   * After the first successful call `empty` says exactly whether the ready list is empty, so a
   * yield can fault only before anything was ever added; wait, sleep and kill fault exactly
   * when nothing is ready.
   */
  lemma {:induction false} FaultsExactly<N>(bucket: seq<N>, calls: seq<Call<N>>)
    requires |bucket| == 10 && Run(Initial(bucket), calls).Next?
    ensures var s := Run(Initial(bucket), calls).state;
            && (s.empty ==> s.ready == []) && (|calls| > 0 ==> (s.empty <==> s.ready == []))
            && (YieldNext(s).Fault? <==> calls == [])
            && (Step(s, Wait).Fault? <==> s.ready == [])
            && (Step(s, Sleep).Fault? <==> s.ready == [])
            && (Step(s, Kill).Fault? <==> s.ready == [])
  {
    if |calls| > 0 { FaultsExactly(bucket, calls[..|calls| - 1]); }
  }

  // ----- rotation and waiting time -----

  /** The running node and the ready list as one round. */
  function Round<N>(s: State<N>): seq<N> { [s.running] + s.ready }

  function Yields<N>(s: State<N>, k: nat): Outcome<N> {
    if k == 0 then Next(s)
    else match Yields(s, k - 1) case Fault => Fault case Next(t) => YieldNext(t)
  }

  function Rotate<N>(r: seq<N>, k: nat): seq<N>
    requires k <= |r|
  {
    r[k..] + r[..k]
  }

  /** k yields rotate the round by k: the node at ready position j runs after j + 1 of them. */
  lemma {:induction false} YieldsRotate<N>(s: State<N>, k: nat)
    requires |s.ready| > 0 && !s.empty && k <= |s.ready| + 1
    ensures Yields(s, k).Next?
    ensures var t := Yields(s, k).state;
            && Round(t) == Rotate(Round(s), k) && |t.ready| == |s.ready| && !t.empty
            && t == s.(running := t.running, ready := t.ready)
  {
    if k > 0 {
      hide Round, Rotate, YieldNext;
      YieldsRotate(s, k - 1);
      YieldRotates(Yields(s, k - 1).state);
      RotateStep(Round(s), k - 1);
    }
  }

  lemma YieldRotates<N>(t: State<N>)
    requires |t.ready| > 0 && !t.empty
    ensures YieldNext(t).Next?
    ensures var u := YieldNext(t).state;
            && Round(u) == Round(t)[1..] + [Round(t)[0]] && |u.ready| == |t.ready| && !u.empty
            && u == t.(running := u.running, ready := u.ready)
  {
  }

  lemma RotateStep<N>(r: seq<N>, k: nat)
    requires k < |r|
    ensures |Rotate(r, k)| == |r| && Rotate(r, k + 1) == Rotate(r, k)[1..] + [Rotate(r, k)[0]]
  {
    assert r[..k + 1] == r[..k] + [r[k]];
  }

  /** With n ready threads, n + 1 yields restore the running thread, the queue and everything else. */
  lemma FullRound<N>(s: State<N>)
    requires |s.ready| > 0 && !s.empty
    ensures Yields(s, |s.ready| + 1) == Next(s)
  {
    var n := |s.ready| + 1;
    YieldsRotate(s, n);
    var t := Yields(s, n).state;
    assert Round(t) == Round(s);
    assert t.ready == Round(t)[1..] && s.ready == Round(s)[1..];
  }

  /** The number of calls that hand the processor on. */
  function Switches<N>(calls: seq<Call<N>>): nat {
    if |calls| == 0 then 0
    else Switches(calls[..|calls| - 1]) + (if calls[|calls| - 1].Add? then 0 else 1)
  }

  /**
   * Bounded waiting in any run: while fewer than j + 1 switches have happened the node at ready
   * position j has moved up by one per switch, whatever was added in between.
   */
  lemma {:induction false} WaitsItsTurn<N>(s: State<N>, calls: seq<Call<N>>, j: nat)
    requires j < |s.ready| && !s.empty && Run(s, calls).Next? && Switches(calls) <= j
    ensures var t := Run(s, calls).state;
            && j - Switches(calls) < |t.ready| && !t.empty
            && t.ready[j - Switches(calls)] == s.ready[j]
  {
    if |calls| > 0 {
      var before, call := calls[..|calls| - 1], calls[|calls| - 1];
      WaitsItsTurn(s, before, j);
      var t := Run(s, before).state;
      assert Run(s, calls) == Step(t, call);
      StepMovesUp(t, call, j - Switches(before));
    }
  }

  /** A call that hands the processor on moves every ready node up by one; an addition leaves it. */
  lemma StepMovesUp<N>(s: State<N>, call: Call<N>, j: nat)
    requires j < |s.ready| && !s.empty && Step(s, call).Next?
    ensures var t := Step(s, call).state;
            if call.Add? then !t.empty && |t.ready| > j && t.ready[j] == s.ready[j]
            else if j == 0 then t.running == s.ready[0]
            else !t.empty && |t.ready| > j - 1 && t.ready[j - 1] == s.ready[j]
  {
  }

  /** ... and with the (j + 1)-th switch it runs: nobody starves. */
  lemma RunsAtItsTurn<N>(s: State<N>, calls: seq<Call<N>>, j: nat)
    requires j < |s.ready| && !s.empty && |calls| > 0 && !calls[|calls| - 1].Add?
    requires Switches(calls) == j + 1 && Run(s, calls).Next?
    ensures Run(s, calls).state.running == s.ready[j]
  {
    var before := calls[..|calls| - 1];
    WaitsItsTurn(s, before, j);
    StepMovesUp(Run(s, before).state, calls[|calls| - 1], j - Switches(before));
  }
}
