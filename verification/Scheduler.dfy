// The scheduler's operations on that memory, each tied to a step of Scheduling.

module Scheduler {
  import opened Scheduling
  import opened ListMemory

  class ThreadScheduler {
    var mem: Memory
    ghost var abs: State<int>
    ghost var parked: bool  // the running node is on a list and about to be replaced

    ghost predicate Valid()
      reads this
    {
      Represents(mem, abs, parked)
    }

    /** The thread of the running node. */
    function CurrentThread(): int
      requires mem.current in mem.nodes
      reads this
    {
      mem.nodes[mem.current].thread
    }

    /** init_kernel_thread; `base` and `thread` are what malloc returns for the bucket and the thread. */
    constructor (base: int, thread: int)
      requires 0 < base
      ensures Valid() && !parked && abs == Initial(BucketAt(base))
      ensures mem.threads == map[thread := Thread(0, 0, Running)]
    {
      var nodes := NewBucket(map[], base, 0);
      var bucket := BucketAt(base);
      var rest := nodes[bucket[0]].next;
      var w := nodes[bucket[0] := ListData(thread, 0, 0)];
      hide NoDup, Chain, Once;
      BucketDistinct(base);
      InitialRepresents(nodes, bucket, thread);
      mem := Memory(false, 0, 0, 0, 0, 0, 0, rest, 9, bucket[0], w, map[thread := Thread(0, 0, Running)]);
      abs := Initial(bucket);
      parked := false;
    }

    /** Ten zeroed nodes at `base`, each linked to the one behind it and the last one to `head`. */
    static method NewBucket(old_: map<int, ListData>, base: int, head: int) returns (nodes: map<int, ListData>)
      requires Unused(old_, BucketAt(base))
      ensures forall n :: n in old_ ==> n in nodes && nodes[n] == old_[n]
      ensures var b := BucketAt(base);
              && (forall j :: 0 <= j < 10 ==> b[j] in nodes)
              && (forall j {:trigger nodes[b[j]]} :: 0 <= j < 10 ==> nodes[b[j]].next == NextIn(b, j, head))
    {
      var bucket := BucketAt(base);
      nodes := old_;
      var i := 0;
      while i < 10
        invariant 0 <= i <= 10
        invariant forall n :: n in old_ ==> n in nodes && nodes[n] == old_[n]
        invariant forall j :: 0 <= j < i ==> bucket[j] in nodes
        invariant forall j {:trigger nodes[bucket[j]]} :: 0 <= j < i ==>
            nodes[bucket[j]].next == NextIn(bucket, j, head)
      {
        nodes := nodes[bucket[i] := ListData(0, 0, NextIn(bucket, i, head))];
        i := i + 1;
      }
    }

    /** malloc_empty_bucket, with ten nodes at `base`. */
    method MallocEmptyBucket(base: int)
      requires Valid() && !parked && abs.pool == [] && Unused(mem.nodes, BucketAt(base))
      modifies this
      ensures Valid() && !parked && abs == Refill(old(abs), BucketAt(base))
      ensures mem.threads == old(mem.threads)
      ensures forall n :: n in old(mem.nodes) ==> n in mem.nodes && mem.nodes[n] == old(mem.nodes)[n]
    {
      hide Represents, Chain;
      var bucket := BucketAt(base);
      var nodes := NewBucket(mem.nodes, base, mem.emptyThreadData);
      BucketDistinct(base);
      BucketRepresents(mem, abs, nodes, bucket);
      mem := mem.(nodes := nodes, emptyThreadData := base, emptyCount := mem.emptyCount + 10);
      abs := Refill(abs, bucket);
    }

    /** What spawn_child_thread puts into a new struct thread, and the number of the thread. */
    method NewThread(thread: int, tid: nat, rsp: int)
      requires Valid() && thread !in mem.threads
      modifies this
      ensures Valid() && parked == old(parked) && abs == old(abs)
      ensures mem == old(mem).(threads := old(mem.threads)[thread := Thread(tid, rsp, Unstarted)])
    {
      hide Represents;
      ThreadAdded(mem, abs, parked, thread, Thread(tid, rsp, Unstarted));
      mem := mem.(threads := mem.threads[thread := Thread(tid, rsp, Unstarted)]);
    }

    /** add_thread_to_schedule; `base` is used if the pool has run dry. */
    method AddThreadToSchedule(thread: int, base: int)
      requires Valid() && !parked && thread in mem.threads
      requires abs.pool == [] ==> Unused(mem.nodes, BucketAt(base))
      modifies this
      ensures Valid() && !parked && abs == AddReady(old(abs), BucketAt(base))
      ensures abs.ready == old(abs).ready + [if old(abs).pool == [] then base else old(abs).pool[0]]
      ensures mem.nodes[abs.ready[|abs.ready| - 1]].thread == thread && mem.threads[thread].state == Ready
      ensures SameBesides(old(mem), mem, abs.ready[|abs.ready| - 1])
    {
      hide Represents, Chain;
      Counts(mem, abs, false);
      if mem.emptyCount == 0 { MallocEmptyBucket(base); }
      TakeAndEnlist(thread);
    }

    /** The rest of add_thread_to_schedule, once the pool has a node. */
    method TakeAndEnlist(thread: int)
      requires Valid() && !parked && thread in mem.threads && |abs.pool| > 0
      modifies this
      ensures Valid() && !parked
      ensures var s := old(abs); abs == s.(ready := s.ready + [s.pool[0]], pool := s.pool[1..], empty := false)
      ensures var n := abs.ready[|abs.ready| - 1];
              n in mem.nodes && mem.nodes[n].thread == thread && thread in mem.threads
                  && mem.threads[thread].state == Ready
      ensures SameBesides(old(mem), mem, abs.ready[|abs.ready| - 1])
    {
      hide Represents, Chain;
      ghost var m, s := mem, abs;
      Counts(m, s, false);
      AddedRepresents(m, s, thread);
      TakenReady(m, s, thread);
      var toUse := mem.emptyThreadData;
      mem := mem.(threads := mem.threads[thread := mem.threads[thread].(state := Ready)]);
      mem := mem.(nodes := mem.nodes[toUse := mem.nodes[toUse].(thread := thread)]);
      mem := mem.(emptyThreadData := mem.nodes[toUse].next, emptyCount := mem.emptyCount - 1);
      mem := mem.(nodes := mem.nodes[toUse := mem.nodes[toUse].(next := 0)]);
      assert mem == Taken(m, thread);
      ghost var last := 0;
      if mem.nextCount == 0 {
        mem := mem.(nextRunning := toUse);
      } else {
        var tail := Tail(mem.nextRunning, s.ready);
        last := tail;
        mem := mem.(nodes := mem.nodes[tail := mem.nodes[tail].(next := toUse)]);
      }
      mem := mem.(nextCount := mem.nextCount + 1, emptyScheduling := false);
      assert mem == Enlisted(Taken(m, thread), s.pool[0], last);
      EnlistedKeeps(m, thread, last);
      hide SameBesides;
      abs := s.(ready := s.ready + [s.pool[0]], pool := s.pool[1..], empty := false);
    }

    /** The walk of standart_FCFS_scheduler to the last node of the list. */
    method Tail(list: int, ghost l: seq<int>) returns (first: int)
      requires |l| > 0 && Chain(mem.nodes, l, list)
      ensures first == l[|l| - 1] && first in mem.nodes
    {
      first := list;
      ghost var i := 0;
      assert l[0..] == l;
      while mem.nodes[first].next != 0
        invariant 0 <= i < |l| && Chain(mem.nodes, l[i..], first)
        decreases |l| - i
      {
        assert l[i..][1..] == l[i + 1..];
        first := mem.nodes[first].next;
        i := i + 1;
      }
      assert l[i..][1..] == l[i + 1..];
    }

    /**
     * pop_next_thread: the head of the ready list runs.  ok is false when the null head of an empty list is
     * read.
     */
    method PopNextThread() returns (ok: bool, thread: int)
      requires Valid() && parked
      modifies this
      ensures ok <==> Pop(old(abs)).Next?
      ensures ok <==> old(abs).ready != []
      ensures !ok ==> mem == old(mem) && abs == old(abs)
      ensures ok ==> var m := old(mem); m.nextRunning in m.nodes && m.nodes[m.nextRunning].thread in m.threads
      ensures ok ==> Valid() && !parked && Next(abs) == Pop(old(abs)) && mem == Popped(old(mem))
      ensures ok ==> mem.current == old(mem).nextRunning == old(abs).ready[0] && abs.running == old(abs).ready[0]
      ensures ok ==> thread == CurrentThread() && thread in mem.threads && mem.threads[thread].state == Running
    {
      if mem.nextRunning == 0 { return false, 0; }
      PoppedRepresents(mem, abs);
      ghost var m := mem;
      var element := mem.nextRunning;
      thread := mem.nodes[element].thread;
      mem := mem.(nextRunning := mem.nodes[element].next, nextCount := mem.nextCount - 1);
      mem := mem.(emptyScheduling := mem.nextCount == 0);
      mem := mem.(nodes := mem.nodes[element := mem.nodes[element].(next := 0)], current := element);
      mem := mem.(threads := mem.threads[thread := mem.threads[thread].(state := Running)]);
      assert mem == Popped(m);
      abs, parked := Pop(abs).state, false;
      return true, thread;
    }

    /**
     * pop_next_and_readd_running.  The outgoing thread keeps the stack pointer it was
     * interrupted with, no other thread's is touched, and the thread returned is the one of
     * the node that runs next.  Unless nobody is ready, the outgoing thread becomes ready and the
     * incoming one running.
     */
    method PopNextAndReaddRunning(rsp: int) returns (ok: bool, thread: int)
      requires Valid() && !parked
      modifies this
      ensures ok <==> YieldNext(old(abs)).Next?
      ensures ok ==> Valid() && !parked && Next(abs) == YieldNext(old(abs)) && thread == CurrentThread()
      ensures mem.threads.Keys == old(mem.threads).Keys && old(CurrentThread()) in mem.threads
      ensures forall t :: t in mem.threads ==>
                mem.threads[t].rsp == if t == old(CurrentThread()) then rsp else old(mem.threads)[t].rsp
      ensures forall n :: n in old(mem.nodes) ==> n in mem.nodes && mem.nodes[n].thread == old(mem.nodes)[n].thread
      ensures ok && old(abs).empty ==> thread == old(CurrentThread()) && abs == old(abs)
      ensures ok && !old(abs).empty ==>
                old(abs).ready != [] && abs.running == old(abs).ready[0]
                && abs.ready == old(abs).ready[1..] + [old(abs).running]
      ensures ok && !old(abs).empty ==>
                thread in mem.threads && mem.threads[thread].state == Running
                && (thread != old(CurrentThread()) ==> mem.threads[old(CurrentThread())].state == Ready)
    {
      hide Represents, Chain;
      Counts(mem, abs, false);
      var outgoing := mem.nodes[mem.current].thread;
      ThreadChange(mem, abs, false, outgoing, mem.threads[outgoing].(rsp := rsp));
      mem := mem.(threads := mem.threads[outgoing := mem.threads[outgoing].(rsp := rsp)]);
      if mem.emptyScheduling { return true, outgoing; }
      ghost var m := mem;
      mem := mem.(threads := mem.threads[outgoing := mem.threads[outgoing].(state := Ready)]);
      if mem.nextRunning == 0 { return false, 0; }  // the policy reads a null list
      ReadiedRepresents(m, abs);
      var tail := Tail(mem.nextRunning, abs.ready);
      mem := mem.(nodes := mem.nodes[tail := mem.nodes[tail].(next := mem.current)]);
      mem := mem.(nextCount := mem.nextCount + 1);
      assert mem == Readied(m, tail);
      abs, parked := abs.(ready := abs.ready + [abs.running]), true;
      assert Pop(abs) == YieldNext(old(abs));
      ReaddedKeeps(m, tail);
      hide *;
      ok, thread := PopNextThread();
    }

    /** this_wait: the running thread waits, its node first on the waiting list. */
    method ThisWait()
      requires Valid() && !parked
      modifies this
      ensures Valid() && parked && abs == ParkedState(old(abs), ToWaiting) && mem == Parked(old(mem), ToWaiting)
      ensures abs == old(abs).(waiting := [old(abs).running] + old(abs).waiting) && Pop(abs) == Step(old(abs), Wait)
      ensures old(CurrentThread()) in mem.threads && mem.threads[old(CurrentThread())].state == Waiting
      ensures mem.nextWaiting == mem.current == old(mem).current && mem.current in mem.nodes
      ensures mem.nodes[mem.current].next == old(mem).nextWaiting
    {
      hide Represents;
      RunningKnown(mem, abs);
      ParkedRepresents(mem, abs, ToWaiting);
      ghost var m := mem;
      var n := mem.current;
      var thread := mem.nodes[n].thread;
      mem := mem.(threads := mem.threads[thread := mem.threads[thread].(state := Waiting)]);
      mem := mem.(nodes := mem.nodes[n := mem.nodes[n].(next := mem.nextWaiting)]);
      mem := mem.(nextWaiting := n, waitingCount := mem.waitingCount + 1);
      assert mem == Parked(m, ToWaiting);
      abs, parked := ParkedState(abs, ToWaiting), true;
    }

    /**
     * this_sleep without its last line, the timer call, which is in TimerQueue: the running thread sleeps,
     * its node first among the sleepers and with the time as its score.
     */
    method ThisSleep(delta: nat)
      requires Valid() && !parked
      modifies this
      ensures Valid() && parked && abs == ParkedState(old(abs), ToSleeping(delta))
      ensures mem == Parked(old(mem), ToSleeping(delta))
      ensures abs == old(abs).(sleeping := [old(abs).running] + old(abs).sleeping) && Pop(abs) == Step(old(abs), Sleep)
      ensures old(CurrentThread()) in mem.threads && mem.threads[old(CurrentThread())].state == Sleeping
      ensures mem.nextSleeping == mem.current == old(mem).current && mem.current in mem.nodes
      ensures mem.nodes[mem.current].next == old(mem).nextSleeping && mem.nodes[mem.current].score == delta
    {
      hide Represents;
      RunningKnown(mem, abs);
      ParkedRepresents(mem, abs, ToSleeping(delta));
      ghost var m := mem;
      var n := mem.current;
      var thread := mem.nodes[n].thread;
      mem := mem.(threads := mem.threads[thread := mem.threads[thread].(state := Sleeping)]);
      mem := mem.(nodes := mem.nodes[n := mem.nodes[n].(next := mem.nextSleeping)]);
      mem := mem.(nodes := mem.nodes[n := mem.nodes[n].(score := delta)]);
      mem := mem.(nextSleeping := n, sleepingCount := mem.sleepingCount + 1);
      assert mem == Parked(m, ToSleeping(delta));
      abs, parked := ParkedState(abs, ToSleeping(delta)), true;
    }

    /** this_kill: the running thread is dead, its node cleared and first on the spare list. */
    method ThisKill()
      requires Valid() && !parked
      modifies this
      ensures Valid() && parked && abs == ParkedState(old(abs), ToPool) && mem == Parked(old(mem), ToPool)
      ensures abs == old(abs).(pool := [old(abs).running] + old(abs).pool) && Pop(abs) == Step(old(abs), Kill)
      ensures old(CurrentThread()) in mem.threads && mem.threads[old(CurrentThread())].state == Dead
      ensures mem.emptyThreadData == mem.current == old(mem).current && mem.current in mem.nodes
      ensures mem.nodes[mem.current] == ListData(0, 0, old(mem).emptyThreadData)
    {
      hide Represents;
      RunningKnown(mem, abs);
      ParkedRepresents(mem, abs, ToPool);
      ghost var m := mem;
      var n := mem.current;
      var thread := mem.nodes[n].thread;
      mem := mem.(threads := mem.threads[thread := mem.threads[thread].(state := Dead)]);
      mem := mem.(nodes := mem.nodes[n := mem.nodes[n].(thread := 0, score := 0)]);
      mem := mem.(nodes := mem.nodes[n := mem.nodes[n].(next := mem.emptyThreadData)]);
      mem := mem.(emptyThreadData := n, emptyCount := mem.emptyCount + 1);
      assert mem == Parked(m, ToPool);
      abs, parked := ParkedState(abs, ToPool), true;
    }

    /**
     * awake_thread.  It reads a null list head when nobody sleeps, and hands a null list to the
     * policy when nobody is ready.  Otherwise the first sleeper with that id becomes ready, and the
     * lists stay well formed exactly when no sleeper has it.
     */
    method AwakeThread(tid: nat) returns (ok: bool)
      requires Valid() && !parked
      modifies this`mem
      ensures var k := Sleeper(old(mem), abs.sleeping, tid);
              && (ok <==> abs.sleeping != [] && (k < |abs.sleeping| ==> abs.ready != []))
              && (ok && k == |abs.sleeping| ==> mem == old(mem))
              && (ok && k < |abs.sleeping| ==> Chain(mem.nodes, abs.ready + abs.sleeping[k..], mem.nextRunning))
              && (ok ==> ((exists s :: Represents(mem, s, false)) <==> k == |abs.sleeping|))
              && (ok && k < |abs.sleeping| ==> IsReady(mem, abs.sleeping[k]))
      ensures FirstWith(old(mem), abs.sleeping, tid, Sleeper(old(mem), abs.sleeping, tid))
    {
      SleepersKnown(mem, abs);
      SleeperMeans(mem, abs.sleeping, tid);
      hide Represents, Chain, HaveThreads;
      if mem.nextSleeping == 0 { return false; }
      ghost var k := Sleeper(mem, abs.sleeping, tid);
      if mem.threads[mem.nodes[mem.nextSleeping].thread].tid == tid {
        SleeperIs(mem, abs.sleeping, tid, 0);
        ok := Awake(mem.nextSleeping, 0);
        return;
      }
      var sleeper, j := FindSleeper(tid);
      if sleeper == 0 {
        assert Represents(mem, abs, false);
        return true;
      }
      ok := Awake(sleeper, j);
    }

    /** The walk of awake_thread along the sleepers. */
    method FindSleeper(tid: nat) returns (sleeper: int, ghost k: nat)
      requires Valid() && !parked && HaveThreads(mem, abs.sleeping)
      ensures k == Sleeper(mem, abs.sleeping, tid)
      ensures sleeper == if k < |abs.sleeping| then abs.sleeping[k] else 0
      ensures sleeper == 0 <==> k == |abs.sleeping|
    {
      ghost var l := abs.sleeping;
      sleeper, k := mem.nextSleeping, 0;
      assert l[0..] == l;
      ChainIn(mem.nodes, l, sleeper);
      while sleeper != 0 && mem.threads[mem.nodes[sleeper].thread].tid != tid
        invariant 0 <= k <= |l| && Chain(mem.nodes, l[k..], sleeper)
        invariant forall j :: 0 <= j < k ==> !HasTid(mem, l[j], tid)
        decreases |l| - k
      {
        assert l[k..][1..] == l[k + 1..];
        sleeper := mem.nodes[sleeper].next;
        k := k + 1;
      }
      SleeperIs(mem, l, tid, k);
    }

    /** The lines of awake_thread that mark a sleeper ready and hand it to the policy. */
    method Awake(sleeper: int, ghost k: nat) returns (ok: bool)
      requires Valid() && !parked && k < |abs.sleeping| && sleeper == abs.sleeping[k]
      modifies this`mem
      ensures ok <==> abs.ready != []
      ensures ok ==> Chain(mem.nodes, abs.ready + abs.sleeping[k..], mem.nextRunning)
      ensures ok ==> forall s :: !Represents(mem, s, false)
      ensures ok ==> IsReady(mem, sleeper)
    {
      SleepersKnown(mem, abs);
      Counts(mem, abs, false);
      hide Represents, Chain;
      ghost var m := mem;
      var thread := mem.nodes[sleeper].thread;
      if mem.nextRunning == 0 { return false; }  // the policy reads a null list
      AwokenBreaks(m, abs, k);
      mem := mem.(threads := mem.threads[thread := mem.threads[thread].(state := Ready)]);
      var tail := Tail(mem.nextRunning, abs.ready);
      mem := mem.(nodes := mem.nodes[tail := mem.nodes[tail].(next := sleeper)]);
      mem := mem.(nextCount := mem.nextCount + 1);
      assert mem == Awoken(m, sleeper, tail);
      return true;
    }
  }

  /** The thread of node n is ready. */
  ghost predicate IsReady(c: Memory, n: int) {
    n in c.nodes && c.nodes[n].thread in c.threads && c.threads[c.nodes[n].thread].state == Ready
  }

  /** Node k of l is the first whose thread has the given id; none has it when k is |l|. */
  ghost predicate FirstWith(c: Memory, l: seq<int>, tid: nat, k: nat) {
    && k <= |l| && (forall j :: 0 <= j < |l| ==> l[j] in c.nodes && c.nodes[l[j]].thread in c.threads)
    && (k < |l| ==> c.threads[c.nodes[l[k]].thread].tid == tid)
    && forall j :: 0 <= j < k ==> c.threads[c.nodes[l[j]].thread].tid != tid
  }

  lemma SleeperMeans(c: Memory, l: seq<int>, tid: nat)
    requires HaveThreads(c, l)
    ensures FirstWith(c, l, tid, Sleeper(c, l, tid))
  {
    forall j | 0 <= j < |l| ensures l[j] in c.nodes && c.nodes[l[j]].thread in c.threads {
      var n := l[j];
      assert n in l;
    }
  }

  lemma SleepersKnown(c: Memory, s: State<int>)
    requires Represents(c, s, false)
    ensures HaveThreads(c, s.sleeping) && Chain(c.nodes, s.sleeping, c.nextSleeping)
    ensures c.nextSleeping == 0 <==> s.sleeping == []
    ensures |s.sleeping| > 0 ==> c.nextSleeping == s.sleeping[0]
    ensures forall n :: n in s.sleeping ==> n in c.nodes && c.nodes[n].thread in c.threads
  {
  }

  lemma SleeperIs(c: Memory, l: seq<int>, tid: nat, k: nat)
    requires k <= |l| && (k < |l| ==> HasTid(c, l[k], tid))
    requires forall j :: 0 <= j < k ==> !HasTid(c, l[j], tid)
    ensures Sleeper(c, l, tid) == k
  {
  }
}
