// One yield from the interrupt to the return into the next thread: the processor and the
// scheduler together perform the step that ContextRuns calls a switch.

module Yielding {
  import opened ContextSwitch
  import opened ContextRuns
  import ListMemory
  import Scheduler
  import Scheduling

  /** Every node of the set stands for a thread of its own. */
  ghost predicate OwnThreads(m: ListMemory.Memory, known: set<int>) {
    && (forall n :: n in known ==> n in m.nodes && m.nodes[n].thread in m.threads)
    && (forall n, k :: n in known && k in known && n != k ==> m.nodes[n].thread != m.nodes[k].thread)
  }

  /** The stack pointer kept in the thread of a node. */
  function KeptFor(m: ListMemory.Memory, n: int): int
    requires n in m.nodes && m.nodes[n].thread in m.threads
  {
    m.threads[m.nodes[n].thread].rsp
  }

  ghost function Kept(m: ListMemory.Memory, known: set<int>): map<int, int>
    requires OwnThreads(m, known)
  {
    map n | n in known :: KeptFor(m, n)
  }

  /** The whole state; `known` are the nodes whose threads have been put away before. */
  ghost function SystemOf(cpu: Cpu, sched: Scheduler.ThreadScheduler, known: set<int>): System
    requires OwnThreads(sched.mem, known)
    reads cpu, sched
  {
    System(cpu.Observed(), cpu.mem, sched.abs, Kept(sched.mem, known))
  }

  lemma RunningNode(m: ListMemory.Memory, s: Scheduling.State<int>)
    requires ListMemory.Represents(m, s, false)
    ensures m.current == s.running && m.current in m.nodes
  {
  }

  /** Once the context is saved, every thread put away has its own on its stack, the running one included. */
  lemma AllPutAway(stacks: Stacks, s: System, m1: Memory, saved: map<int, Context>)
    requires Inv(stacks, s, saved) && s.sched.running in stacks && Holds(stacks[s.sched.running], SaveAt(s.cpu))
    requires SavedIn(s.mem, m1, s.cpu)
    ensures var now, rsps := saved[s.sched.running := s.cpu], s.rsps[s.sched.running := SaveAt(s.cpu)];
            forall u :: u in now ==> u in rsps && Stored(m1, rsps[u], Words(now[u]))
  {
    forall u | u in saved && u != s.sched.running ensures Stored(m1, s.rsps[u], Words(saved[u])) {
      StoredStays(s.mem, m1, s.rsps[u], Words(saved[u]));
    }
  }

  lemma NextIsKnown(stacks: Stacks, s: System, saved: map<int, Context>, t: Scheduling.State<int>)
    requires Inv(stacks, s, saved) && Scheduling.YieldNext(s.sched) == Scheduling.Next(t)
    ensures t.running in saved[s.sched.running := s.cpu]
  {
    NextKnown(s.sched, t);
    if t.running != s.sched.running { assert t.running in s.sched.ready; }
  }

  /** With the stack pointers kept and the next context brought back, the step is a switch. */
  lemma Switched(stacks: Stacks, s: System, t: System, saved: map<int, Context>)
    requires Inv(stacks, s, saved) && s.sched.running in stacks && Holds(stacks[s.sched.running], SaveAt(s.cpu))
    requires SavedIn(s.mem, t.mem, s.cpu) && t.rsps == s.rsps[s.sched.running := SaveAt(s.cpu)]
    requires Scheduling.YieldNext(s.sched) == Scheduling.Next(t.sched)
    requires var now := saved[s.sched.running := s.cpu]; t.sched.running in now && t.cpu == now[t.sched.running]
    ensures Switches(stacks, s, t, t.mem)
  {
    AllPutAway(stacks, s, t.mem, saved);
    hide Stored, SavedIn, Holds, Scheduling.YieldNext, Words, SaveAt;
    var now, n := saved[s.sched.running := s.cpu], t.sched.running;
    assert n in now && n in t.rsps && Stored(t.mem, t.rsps[n], Words(now[n]));
  }

  /** Only the pointer of the outgoing thread changes. */
  lemma KeptAfter(m: ListMemory.Memory, w: ListMemory.Memory, known: set<int>, out: int, rsp: int)
    requires OwnThreads(m, known + {out}) && w.threads.Keys == m.threads.Keys
    requires forall t :: t in w.threads ==>
               w.threads[t].rsp == if t == m.nodes[out].thread then rsp else m.threads[t].rsp
    requires forall n :: n in m.nodes ==> n in w.nodes && w.nodes[n].thread == m.nodes[n].thread
    ensures OwnThreads(m, known) && OwnThreads(w, known + {out})
    ensures Kept(w, known + {out}) == Kept(m, known)[out := rsp]
  {
    forall n | n in known + {out} ensures n in w.nodes && w.nodes[n].thread in w.threads {
      assert w.nodes[n].thread == m.nodes[n].thread && m.nodes[n].thread in m.threads.Keys;
    }
  }

  /**
   * The yield interrupt: the registers are pushed, the scheduler keeps the stack pointer and picks
   * the next thread, and end_interrupt returns on that thread's stack.  `ok == false` is the null
   * ready list that the policy reads.
   */
  method Syscall(cpu: Cpu, sched: Scheduler.ThreadScheduler, ghost known: set<int>, ghost stacks: Stacks,
                 ghost saved: map<int, Context>) returns (ok: bool)
    requires sched.Valid() && !sched.parked
    requires OwnThreads(sched.mem, known + {sched.abs.running})
    requires Inv(stacks, SystemOf(cpu, sched, known), saved)
    requires sched.abs.running in stacks && Holds(stacks[sched.abs.running], SaveAt(cpu.Observed()))
    modifies cpu, sched
    ensures ok <==> Scheduling.YieldNext(old(sched.abs)).Next?
    ensures ok ==> sched.Valid() && !sched.parked && OwnThreads(sched.mem, known + {old(sched.abs.running)})
    ensures ok ==> Switches(stacks, old(SystemOf(cpu, sched, known)),
                            SystemOf(cpu, sched, known + {old(sched.abs.running)}), cpu.mem)
    ensures ok ==> sched.abs.running in known + {old(sched.abs.running)}
    ensures forall k :: k >= old(cpu.frame.rsp) ==>
              (k in cpu.mem <==> k in old(cpu.mem)) && (k in cpu.mem ==> cpu.mem[k] == old(cpu.mem)[k])
    ensures ok ==>
              cpu.Observed() == if sched.abs.running == old(sched.abs.running) then old(cpu.Observed())
                                else saved[sched.abs.running]
  {
    ghost var m, out := sched.mem, sched.abs.running;
    assert OwnThreads(m, known) && sched.mem.current == out by { RunningNode(m, sched.abs); }
    ghost var s := SystemOf(cpu, sched, known);
    ghost var now := saved[out := s.cpu];
    hide Inv, Switches, Stored, SavedIn, Holds, SameBut, OwnThreads, Kept, KeptFor, Words, SaveAt;
    hide Scheduling.YieldNext, ListMemory.Represents;
    cpu.Save();
    AllPutAway(stacks, s, cpu.mem, saved);
    ghost var sp := cpu.regs.rsi;
    var thread;
    ok, thread := sched.PopNextAndReaddRunning(cpu.regs.rsi);
    if !ok { return; }
    KeptAfter(m, sched.mem, known, out, sp);
    NextIsKnown(stacks, s, saved, sched.abs);
    cpu.regs := cpu.regs.(rax := sched.mem.threads[thread].rsp);
    cpu.EndInterrupt(now[sched.abs.running]);
    Switched(stacks, s, SystemOf(cpu, sched, known + {out}), saved);
  }

  // ----- a new thread -----

  /**
   * The words that spawn_child_thread writes into the page of a new stack: twenty zeros, then the frame.
   * They are the last twenty of the page, and no other word changes.
   */
  method LayStack(cpu: Cpu, page: int, start: int)
    modifies cpu`mem
    ensures Stored(cpu.mem, page + 0xF60, Words(Newborn(page, start)))
    ensures forall k :: 0 <= k < 15 ==> page + 0xF60 + 8 * k in cpu.mem && cpu.mem[page + 0xF60 + 8 * k] == 0
    ensures page + 0xFD8 in cpu.mem && cpu.mem[page + 0xFD8] == start
    ensures page + 0xFE0 in cpu.mem && cpu.mem[page + 0xFE0] == 0x8
    ensures page + 0xFE8 in cpu.mem && cpu.mem[page + 0xFE8] == 0x102
    ensures page + 0xFF0 in cpu.mem && cpu.mem[page + 0xFF0] == page + 0x1000
    ensures page + 0xFF8 in cpu.mem && cpu.mem[page + 0xFF8] == 0x10
    ensures SameBut(old(cpu.mem), cpu.mem, page + 0xF60, page + 0x1000)
  {
    hide Words, Newborn;
    var stack := page + 0x1000 - 0xA0;
    var i := 0;
    while i < 20
      invariant 0 <= i <= 20
      invariant forall k :: 0 <= k < i ==> stack + 8 * k in cpu.mem && cpu.mem[stack + 8 * k] == 0
      invariant SameBut(old(cpu.mem), cpu.mem, page + 0xF60, page + 0x1000)
    {
      cpu.mem := cpu.mem[stack + 8 * i := 0];
      i := i + 1;
    }
    cpu.mem := cpu.mem[stack + 8 * 15 := start];
    cpu.mem := cpu.mem[stack + 8 * 16 := 0x8];
    cpu.mem := cpu.mem[stack + 8 * 17 := 0x102];
    cpu.mem := cpu.mem[stack + 8 * 18 := stack + 0xA0];
    cpu.mem := cpu.mem[stack + 8 * 19 := 0x10];
    NewbornWords(page, start);
  }

  lemma NewbornWords(page: int, start: int)
    ensures var ws := Words(Newborn(page, start));
            && (forall k :: 0 <= k < 15 ==> ws[k] == 0)
            && ws[15] == start && ws[16] == 0x8 && ws[17] == 0x102 && ws[18] == page + 0x1000 && ws[19] == 0x10
  {
  }

  /**
   * spawn_child_thread and add_thread_to_schedule, with the stack in `page`: the thread gets the next
   * spare node u, and its first context lies at the end of its stack page, which the pointer kept for it says.
   */
  method SpawnChild(cpu: Cpu, sched: Scheduler.ThreadScheduler, start: int, thread: int, tid: nat, page: int, base: int,
                    ghost known: set<int>, ghost stacks: Stacks, ghost u: int)
    requires sched.Valid() && !sched.parked && thread !in sched.mem.threads
    requires sched.abs.pool == [] ==> ListMemory.Unused(sched.mem.nodes, ListMemory.BucketAt(base))
    requires OwnThreads(sched.mem, known + {sched.abs.running})
    requires u == Scheduling.Refill(sched.abs, ListMemory.BucketAt(base)).pool[0] && u !in known + {sched.abs.running}
    requires u in stacks && stacks[u].lo == page && page + 0x1000 <= stacks[u].hi
    modifies cpu`mem, sched
    ensures sched.Valid() && !sched.parked && OwnThreads(sched.mem, known + {u} + {sched.abs.running})
    ensures Spawns(stacks, old(SystemOf(cpu, sched, known)), SystemOf(cpu, sched, known + {u}), u, start,
                   ListMemory.BucketAt(base))
    ensures u in sched.mem.nodes && sched.mem.nodes[u].thread == thread && thread in sched.mem.threads
    ensures sched.mem.threads[thread].rsp == page + 0xF60
    ensures SameBut(old(cpu.mem), cpu.mem, page + 0xF60, page + 0x1000)
  {
    ghost var m, s := sched.mem, sched.abs;
    sched.NewThread(thread, tid, page + 0xF60);
    LayStack(cpu, page, start);
    sched.AddThreadToSchedule(thread, base);
    KeptWithNew(m, sched.mem, known, s.running, u, thread, page + 0xF60);
  }

  /** The new node stands for the new thread, and all others for their own. */
  lemma KeptWithNew(m: ListMemory.Memory, w: ListMemory.Memory, known: set<int>, running: int, u: int,
                    thread: int, rsp: int)
    requires OwnThreads(m, known + {running}) && thread !in m.threads && u !in known + {running}
    requires w.threads.Keys == m.threads.Keys + {thread} && w.threads[thread].rsp == rsp
    requires forall t :: t in m.threads ==> w.threads[t].rsp == m.threads[t].rsp
    requires u in w.nodes && w.nodes[u].thread == thread
    requires forall n :: n in m.nodes ==> n in w.nodes && (n != u ==> w.nodes[n].thread == m.nodes[n].thread)
    ensures OwnThreads(m, known) && OwnThreads(w, known + {u} + {running})
    ensures Kept(w, known + {u}) == Kept(m, known)[u := rsp]
  {
    forall n | n in known + {running} ensures n in w.nodes && w.nodes[n].thread in w.threads {
      assert w.nodes[n].thread == m.nodes[n].thread && m.nodes[n].thread in m.threads.Keys;
    }
  }
}
