// Whole runs of threads that compute, spawn threads and yield to each other.

module ContextRuns {
  import opened Scheduling
  import opened ContextSwitch

  /** The stack of a thread. */
  datatype Region = Region(lo: int, hi: int)

  /**
   * The processor as the running thread sees it, memory, the scheduler's lists of threads, and
   * the stack pointers kept in struct thread.
   */
  datatype System = System(cpu: Context, mem: Memory, sched: State<int>, rsps: map<int, int>)

  type Stacks = map<int, Region>

  ghost predicate Disjoint(stacks: Stacks) {
    forall t, u :: t in stacks && u in stacks && t != u ==> stacks[t].hi <= stacks[u].lo || stacks[u].hi <= stacks[t].lo
  }

  /** Both memories hold the same words in the region. */
  ghost predicate SameIn(m: Memory, w: Memory, r: Region) {
    forall k :: r.lo <= k && k + 8 <= r.hi && k in m ==> k in w && w[k] == m[k]
  }

  predicate Holds(r: Region, a: int) { r.lo <= a && a + SAVED <= r.hi }

  // ----- steps -----

  /** The running thread changes its registers and any memory but the stacks of the others. */
  ghost predicate Computes(stacks: Stacks, s: System, t: System) {
    && t == s.(cpu := t.cpu, mem := t.mem)
    && forall u :: u in stacks && u != s.sched.running ==> SameIn(s.mem, t.mem, stacks[u])
  }

  /** The first context of a new thread with the stack page at `page`. */
  function Newborn(page: int, start: int): Context {
    Context(Registers(0, 0, 0, 0, 0, 0, 0, 0, 0, 0, 0, 0, 0, 0, 0), Frame(start, 0x8, 0x102, page + 0x1000, 0x10))
  }

  /**
   * spawn_child_thread and add_thread_to_schedule: u is the spare node that the new thread gets, of the
   * bucket if none is left, and has a stack that nobody has used.
   */
  ghost predicate Spawns(stacks: Stacks, s: System, t: System, u: int, start: int, bucket: seq<int>) {
    && |bucket| == 10 && u == Refill(s.sched, bucket).pool[0]
    && u in stacks && u !in s.rsps && u != s.sched.running
    && stacks[u].lo + 0x1000 <= stacks[u].hi
    && t.cpu == s.cpu && t.rsps == s.rsps[u := stacks[u].lo + 0xF60]
    && t.sched == AddReady(s.sched, bucket)
    && Stored(t.mem, stacks[u].lo + 0xF60, Words(Newborn(stacks[u].lo, start)))
    && SameBut(s.mem, t.mem, stacks[u].lo, stacks[u].hi)
  }

  /**
   * An interrupt that yields: the context is saved (m1), the handler runs on the rest of that
   * stack without touching saved contexts, and end_interrupt restores from the stack pointer
   * of the thread chosen.
   */
  ghost predicate Switches(stacks: Stacks, s: System, t: System, m1: Memory) {
    var old_, sp := s.sched.running, SaveAt(s.cpu);
    && old_ in stacks && Holds(stacks[old_], sp)
    && SavedIn(s.mem, m1, s.cpu)
    && t.rsps == s.rsps[old_ := sp]
    && (forall u :: u in t.rsps ==> SameIn(m1, t.mem, Region(t.rsps[u], t.rsps[u] + SAVED)))
    && YieldNext(s.sched) == Next(t.sched)
    && t.sched.running in t.rsps && Stored(t.mem, t.rsps[t.sched.running], Words(t.cpu))
  }

  // ----- the same run with contexts kept as records -----

  /** Every thread but the running one has its context `saved` on its own stack. */
  ghost predicate Inv(stacks: Stacks, s: System, saved: map<int, Context>) {
    && Disjoint(stacks) && saved.Keys == s.rsps.Keys
    && (forall u :: u in s.sched.ready ==> u in saved)
    && forall u :: u in saved && u != s.sched.running ==>
         u in stacks && Holds(stacks[u], s.rsps[u]) && Stored(s.mem, s.rsps[u], Words(saved[u]))
  }

  lemma StoredStays(m: Memory, w: Memory, a: int, ws: seq<int>)
    requires Stored(m, a, ws) && SameIn(m, w, Region(a, a + 8 * |ws|))
    ensures Stored(w, a, ws)
  {
    forall i | 0 <= i < |ws| ensures a + 8 * i in w && w[a + 8 * i] == ws[i] {
      assert a + 8 * i in m && m[a + 8 * i] == ws[i];
    }
  }

  lemma ComputeKeeps(stacks: Stacks, s: System, t: System, saved: map<int, Context>)
    requires Inv(stacks, s, saved) && Computes(stacks, s, t)
    ensures Inv(stacks, t, saved)
  {
    forall u | u in saved && u != t.sched.running ensures Stored(t.mem, t.rsps[u], Words(saved[u])) {
      StoredStays(s.mem, t.mem, s.rsps[u], Words(saved[u]));
    }
  }

  lemma SpawnKeeps(stacks: Stacks, s: System, t: System, saved: map<int, Context>, u: int, start: int,
                   bucket: seq<int>)
    requires Inv(stacks, s, saved) && Spawns(stacks, s, t, u, start, bucket)
    ensures Inv(stacks, t, saved[u := Newborn(stacks[u].lo, start)])
  {
    forall v | v in saved && v != t.sched.running ensures Stored(t.mem, t.rsps[v], Words(saved[v])) {
      StoredStays(s.mem, t.mem, s.rsps[v], Words(saved[v]));
    }
  }

  /** A switch puts the outgoing context away and brings back exactly the one put away for the incoming thread. */
  lemma SwitchRestores(stacks: Stacks, s: System, t: System, m1: Memory, saved: map<int, Context>)
    requires Inv(stacks, s, saved) && Switches(stacks, s, t, m1)
    ensures var now := saved[s.sched.running := s.cpu];
            Inv(stacks, t, now) && t.sched.running in now && t.cpu == now[t.sched.running]
  {
    var now := saved[s.sched.running := s.cpu];
    forall u | u in now ensures u in stacks && Holds(stacks[u], t.rsps[u]) && Stored(t.mem, t.rsps[u], Words(now[u])) {
      if u == s.sched.running {
        StoredStays(m1, t.mem, t.rsps[u], Words(s.cpu));
      } else {
        StoredStays(s.mem, m1, s.rsps[u], Words(saved[u]));
        StoredStays(m1, t.mem, t.rsps[u], Words(saved[u]));
      }
    }
    var n := t.sched.running;
    NextKnown(s.sched, t.sched);
    StoredUnique(t.mem, t.rsps[n], Words(now[n]), Words(t.cpu));
    WordsInjective(now[n], t.cpu);
  }

  lemma NextKnown(s: State<int>, t: State<int>)
    requires YieldNext(s) == Next(t)
    ensures t.running == s.running || t.running in s.ready
    ensures forall u :: u in t.ready ==> u in s.ready || u == s.running
  {
  }

  // ----- runs -----

  datatype Event = Compute | Spawn(thread: int, start: int, bucket: seq<int>) | Switch(saved: Memory)

  ghost predicate Steps(stacks: Stacks, s: System, t: System, e: Event) {
    match e
    case Compute => Computes(stacks, s, t)
    case Spawn(u, start, bucket) => Spawns(stacks, s, t, u, start, bucket)
    case Switch(m1) => Switches(stacks, s, t, m1)
  }

  ghost predicate Run(stacks: Stacks, states: seq<System>, events: seq<Event>) {
    |states| == |events| + 1 && forall i :: 0 <= i < |events| ==> Steps(stacks, states[i], states[i + 1], events[i])
  }

  /** What is put away after step e from state s. */
  function After(stacks: Stacks, s: System, e: Event, before: map<int, Context>): map<int, Context> {
    match e
    case Compute => before
    case Spawn(u, start, _) => if u in stacks then before[u := Newborn(stacks[u].lo, start)] else before
    case Switch(_) => before[s.sched.running := s.cpu]
  }

  /** The contexts put away after i steps, as a plain record of the run. */
  function Record(stacks: Stacks, states: seq<System>, events: seq<Event>,
                  first: map<int, Context>, i: nat): map<int, Context>
    requires i <= |events| < |states|
  {
    if i == 0 then first
    else After(stacks, states[i - 1], events[i - 1], Record(stacks, states, events, first, i - 1))
  }

  lemma StepKeeps(stacks: Stacks, s: System, t: System, e: Event, before: map<int, Context>)
    requires Inv(stacks, s, before) && Steps(stacks, s, t, e)
    ensures var now := After(stacks, s, e, before);
            Inv(stacks, t, now) && (e.Switch? ==> t.sched.running in now && t.cpu == now[t.sched.running])
  {
    hide Inv, Computes, Spawns, Switches;
    match e
    case Compute => ComputeKeeps(stacks, s, t, before);
    case Spawn(u, start, bucket) =>
      SpawnKeeps(stacks, s, t, before, u, start, bucket);
      SpawnFresh(stacks, s, t, before, u, start, bucket);
    case Switch(m1) => SwitchRestores(stacks, s, t, m1, before);
  }

  lemma SpawnFresh(stacks: Stacks, s: System, t: System, before: map<int, Context>, u: int, start: int,
                   bucket: seq<int>)
    requires Inv(stacks, s, before) && Spawns(stacks, s, t, u, start, bucket)
    ensures u in stacks && u !in before
  {
  }

  /** Only a switch away from u, or the birth of u, changes what is recorded for u. */
  lemma StepLeaves(stacks: Stacks, s: System, t: System, e: Event, before: map<int, Context>, u: int)
    requires Inv(stacks, s, before) && Steps(stacks, s, t, e) && u in before && s.sched.running != u
    ensures var now := After(stacks, s, e, before); u in now && now[u] == before[u]
  {
    hide Inv, Computes, Spawns, Switches;
    if e.Spawn? { SpawnFresh(stacks, s, t, before, e.thread, e.start, e.bucket); }
  }

  /** At every point of every run each thread that is not running is saved with its recorded context. */
  lemma {:induction false} RunKeeps(stacks: Stacks, states: seq<System>, events: seq<Event>,
                                    first: map<int, Context>, i: nat)
    requires Run(stacks, states, events) && i <= |events| && Inv(stacks, states[0], first)
    ensures Inv(stacks, states[i], Record(stacks, states, events, first, i))
    ensures i > 0 && events[i - 1].Switch? ==>
              var now := Record(stacks, states, events, first, i);
              states[i].sched.running in now && states[i].cpu == now[states[i].sched.running]
  {
    hide Inv, Steps, After;
    if i > 0 {
      RunKeeps(stacks, states, events, first, i - 1);
      assert Steps(stacks, states[i - 1], states[i - 1 + 1], events[i - 1]);
      StepKeeps(stacks, states[i - 1], states[i], events[i - 1], Record(stacks, states, events, first, i - 1));
    }
  }

  /** The scheduler's lists stay partitioned over every run whose buckets are fresh: each step is one of its calls. */
  lemma {:induction false} RunPartitioned(stacks: Stacks, states: seq<System>, events: seq<Event>, i: nat)
    requires Run(stacks, states, events) && i <= |events| && Partitioned(states[0].sched)
    requires forall j :: 0 <= j < |events| && events[j].Spawn? ==> FreshBucket(states[j].sched, Add(events[j].bucket))
    ensures Partitioned(states[i].sched)
  {
    hide Partitioned, FreshBucket;
    if i > 0 {
      RunPartitioned(stacks, states, events, i - 1);
      assert Steps(stacks, states[i - 1], states[i - 1 + 1], events[i - 1]);
      var s, t, e := states[i - 1].sched, states[i].sched, events[i - 1];
      var call := if e.Spawn? then Add(e.bucket) else Yield;
      if !e.Compute? {
        YieldAddsNothing(s);
        assert Scheduling.Step(s, call) == Next(t);
        StepPartitions(s, call);
      }
    }
  }

  lemma YieldAddsNothing(s: State<int>)
    ensures FreshBucket(s, Yield)
  {
  }

  /** While u does not run, its recorded context stays as it is. */
  lemma {:induction false} RecordStays(stacks: Stacks, states: seq<System>, events: seq<Event>,
                                       first: map<int, Context>, i: nat, k: nat, u: int)
    requires Run(stacks, states, events) && Inv(stacks, states[0], first)
    requires i <= k <= |events| && u in Record(stacks, states, events, first, i)
    requires forall m :: i <= m < k ==> states[m].sched.running != u
    ensures var then_, now := Record(stacks, states, events, first, i), Record(stacks, states, events, first, k);
            u in then_ && u in now && now[u] == then_[u]
    decreases k
  {
    hide Inv, Steps, After;
    if k > i {
      RecordStays(stacks, states, events, first, i, k - 1, u);
      RunKeeps(stacks, states, events, first, k - 1);
      assert Steps(stacks, states[k - 1], states[k - 1 + 1], events[k - 1]);
      StepLeaves(stacks, states[k - 1], states[k], events[k - 1], Record(stacks, states, events, first, k - 1), u);
    }
  }

  /**
   * Over every run: a thread that is switched out at step i and runs again for the first time
   * after step j has then exactly the registers and the frame it had before step i.
   */
  lemma ResumesExactly(stacks: Stacks, states: seq<System>, events: seq<Event>,
                       first: map<int, Context>, i: nat, j: nat)
    requires Run(stacks, states, events) && Inv(stacks, states[0], first)
    requires i <= j < |events| && events[i].Switch? && events[j].Switch?
    requires states[j + 1].sched.running == states[i].sched.running
    requires forall k :: i < k <= j ==> states[k].sched.running != states[i].sched.running
    ensures states[j + 1].cpu == states[i].cpu
  {
    hide Inv, Steps;
    RunKeeps(stacks, states, events, first, j + 1);
    RecordStays(stacks, states, events, first, i + 1, j + 1, states[i].sched.running);
  }

  /**
   * A thread that has never run starts at its entry point, with zeroed registers, and with its stack pointer at
   * the end of its page, all of which is free.
   */
  lemma StartsClean(stacks: Stacks, states: seq<System>, events: seq<Event>, first: map<int, Context>, i: nat, j: nat)
    requires Run(stacks, states, events) && Inv(stacks, states[0], first)
    requires i < j < |events| && events[i].Spawn? && events[j].Switch?
    requires states[j + 1].sched.running == events[i].thread
    requires forall k :: i < k <= j ==> states[k].sched.running != events[i].thread
    ensures events[i].thread in stacks
    ensures var page := stacks[events[i].thread].lo;
            states[j + 1].cpu.frame == Frame(events[i].start, 0x8, 0x102, page + 0x1000, 0x10)
    ensures states[j + 1].cpu.regs == Registers(0, 0, 0, 0, 0, 0, 0, 0, 0, 0, 0, 0, 0, 0, 0)
  {
    hide Inv, Steps;
    RunKeeps(stacks, states, events, first, i);
    assert Steps(stacks, states[i], states[i + 1], events[i]);
    var e := events[i];
    SpawnFreshly(stacks, states[i], states[i + 1], e, Record(stacks, states, events, first, i));
    RunKeeps(stacks, states, events, first, j + 1);
    RecordStays(stacks, states, events, first, i + 1, j + 1, e.thread);
  }

  lemma SpawnFreshly(stacks: Stacks, s: System, t: System, e: Event, before: map<int, Context>)
    requires Inv(stacks, s, before) && Steps(stacks, s, t, e) && e.Spawn?
    ensures e.thread in stacks && e.thread in After(stacks, s, e, before)
    ensures After(stacks, s, e, before)[e.thread] == Newborn(stacks[e.thread].lo, e.start)
  {
    hide Inv, Spawns;
    SpawnFresh(stacks, s, t, before, e.thread, e.start, e.bucket);
  }
}
