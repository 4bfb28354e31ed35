// Saving and restoring a thread's registers on its own stack, as interrupts.asm does, and why
// every thread resumes with exactly the state it was interrupted in.

module ContextSwitch {
  /** The fifteen general registers that begin_interrupt pushes. */
  datatype Registers = Registers(
    rax: int, rbx: int, rcx: int, rdx: int, rdi: int, rsi: int, rbp: int,
    r8: int, r9: int, r10: int, r11: int, r12: int, r13: int, r14: int, r15: int)

  /** The interrupt frame of 64-bit mode (Intel SDM Volume 3A, section 6.14.2). */
  datatype Frame = Frame(rip: int, cs: int, rflags: int, rsp: int, ss: int)

  /** What a thread observes of the processor. */
  datatype Context = Context(regs: Registers, frame: Frame)

  /** The 64-bit words at 8-byte aligned addresses. */
  type Memory = map<int, int>

  const SAVED := 160

  /** A saved context in ascending address order. */
  function Words(c: Context): (ws: seq<int>)
    ensures |ws| == 20
  {
    RegisterWords(c.regs) + FrameWords(c.frame)
  }

  function FrameWords(f: Frame): seq<int> { [f.rip, f.cs, f.rflags, f.rsp, f.ss] }

  function RegisterWords(r: Registers): seq<int> {
    [r.rax, r.rbx, r.rcx, r.rdx, r.rdi, r.rsi, r.rbp, r.r8, r.r9, r.r10, r.r11, r.r12, r.r13, r.r14, r.r15]
  }

  lemma WordsInjective(c: Context, d: Context)
    requires Words(c) == Words(d)
    ensures c == d
  {
    var v, w := Words(c), Words(d);
    assert v[0] == w[0] && v[1] == w[1] && v[2] == w[2] && v[3] == w[3] && v[4] == w[4] && v[5] == w[5] && v[6] == w[6];
    assert v[7] == w[7] && v[8] == w[8] && v[9] == w[9] && v[10] == w[10] && v[11] == w[11] && v[12] == w[12];
    assert v[13] == w[13] && v[14] == w[14] && v[15] == w[15] && v[16] == w[16] && v[17] == w[17];
    assert v[18] == w[18] && v[19] == w[19];
  }

  ghost predicate Stored(m: Memory, a: int, ws: seq<int>) {
    forall i :: 0 <= i < |ws| ==> a + 8 * i in m && m[a + 8 * i] == ws[i]
  }

  /** The processor aligns the stack to 16 bytes before it pushes the frame. */
  function Aligned(rsp: int): int { rsp - rsp % 16 }

  /** Where the context of an interrupted thread ends up. */
  function SaveAt(c: Context): int { Aligned(c.frame.rsp) - SAVED }

  /** The save area ends at or less than 16 bytes below the stack pointer, so what is on the stack stays. */
  lemma SaveAreaBelow(c: Context)
    ensures SaveAt(c) + 160 <= c.frame.rsp < SaveAt(c) + 176 && SaveAt(c) % 16 == 0
  {
  }

  /** w is m with the context c saved on its stack and nothing else changed. */
  ghost predicate SavedIn(m: Memory, w: Memory, c: Context) {
    && Stored(w, SaveAt(c), Words(c))
    && SameBut(m, w, SaveAt(c), SaveAt(c) + SAVED)
  }

  /** The two memories agree outside [lo, hi). */
  ghost predicate SameBut(m: Memory, w: Memory, lo: int, hi: int) {
    forall k :: k < lo || hi <= k ==> (k in w <==> k in m) && (k in m ==> w[k] == m[k])
  }

  /** The register words in front of what is on the stack already, one by one. */
  lemma BehindRegisters(r: Registers, ws: seq<int>, m: Memory, a: int) returns (words: seq<int>)
    ensures words == RegisterWords(r) + ws && |words| == 15 + |ws|
    ensures Stored(m, a, ws) ==> OnStack(m, a, words, 15)
    ensures words[7..15] == [r.r8, r.r9, r.r10, r.r11, r.r12, r.r13, r.r14, r.r15]
    ensures words[6] == r.rbp && words[5] == r.rsi && words[4] == r.rdi && words[3] == r.rdx
    ensures words[2] == r.rcx && words[1] == r.rbx && words[0] == r.rax
  {
    words := RegisterWords(r) + ws;
    assert words[15..] == ws;
  }

  lemma Eight(words: seq<int>, r: Registers)
    requires 15 <= |words| && words[7..15] == [r.r8, r.r9, r.r10, r.r11, r.r12, r.r13, r.r14, r.r15]
    ensures words[7] == r.r8 && words[8] == r.r9 && words[9] == r.r10 && words[10] == r.r11
    ensures words[11] == r.r12 && words[12] == r.r13 && words[13] == r.r14 && words[14] == r.r15
  {
    var w := words[7..15];
    assert w[0] == words[7] && w[1] == words[8] && w[2] == words[9] && w[3] == words[10];
    assert w[4] == words[11] && w[5] == words[12] && w[6] == words[13] && w[7] == words[14];
  }

  /** The words of ws from k on lie at address a. */
  ghost predicate OnStack(m: Memory, a: int, ws: seq<int>, k: nat)
    requires k <= |ws|
  {
    Stored(m, a, ws[k..])
  }

  lemma AllOnStack(m: Memory, a: int, ws: seq<int>)
    ensures OnStack(m, a, ws, 0) <==> Stored(m, a, ws)
    ensures OnStack(m, a, ws, |ws|)
  {
    assert ws[0..] == ws;
  }

  lemma SameAtFirst(m: Memory, a: int)
    ensures SameBut(m, m, a, a)
  {
  }

  lemma PushStored(m: Memory, a: int, ws: seq<int>, k: nat)
    requires 0 < k <= |ws| && OnStack(m, a, ws, k)
    ensures OnStack(m[a - 8 := ws[k - 1]], a - 8, ws, k - 1)
  {
    var w, rest := m[a - 8 := ws[k - 1]], ws[k - 1..];
    forall i | 0 <= i < |rest| ensures a - 8 + 8 * i in w && w[a - 8 + 8 * i] == rest[i] {
      if i > 0 { assert a + 8 * (i - 1) in m && m[a + 8 * (i - 1)] == ws[k..][i - 1]; }
    }
  }

  lemma StoredUnique(m: Memory, a: int, v: seq<int>, w: seq<int>)
    requires |v| == |w| && Stored(m, a, v) && Stored(m, a, w)
    ensures v == w
  {
    forall i | 0 <= i < |v| ensures v[i] == w[i] { assert m[a + 8 * i] == v[i]; }
  }

  /** The twenty saved words one by one. */
  lemma Unpack(m: Memory, a: int, c: Context)
    requires Stored(m, a, Words(c))
    ensures a + 0 in m && m[a + 0] == c.regs.rax && a + 8 in m && m[a + 8] == c.regs.rbx
    ensures a + 16 in m && m[a + 16] == c.regs.rcx && a + 24 in m && m[a + 24] == c.regs.rdx
    ensures a + 32 in m && m[a + 32] == c.regs.rdi && a + 40 in m && m[a + 40] == c.regs.rsi
    ensures a + 48 in m && m[a + 48] == c.regs.rbp && a + 56 in m && m[a + 56] == c.regs.r8
    ensures a + 64 in m && m[a + 64] == c.regs.r9 && a + 72 in m && m[a + 72] == c.regs.r10
    ensures a + 80 in m && m[a + 80] == c.regs.r11 && a + 88 in m && m[a + 88] == c.regs.r12
    ensures a + 96 in m && m[a + 96] == c.regs.r13 && a + 104 in m && m[a + 104] == c.regs.r14
    ensures a + 112 in m && m[a + 112] == c.regs.r15 && a + 120 in m && m[a + 120] == c.frame.rip
    ensures a + 128 in m && m[a + 128] == c.frame.cs && a + 136 in m && m[a + 136] == c.frame.rflags
    ensures a + 144 in m && m[a + 144] == c.frame.rsp && a + 152 in m && m[a + 152] == c.frame.ss
  {
    var ws := Words(c);
    assert ws[0] == c.regs.rax && a + 8 * 0 in m;
    assert ws[1] == c.regs.rbx && a + 8 * 1 in m;
    assert ws[2] == c.regs.rcx && a + 8 * 2 in m;
    assert ws[3] == c.regs.rdx && a + 8 * 3 in m;
    assert ws[4] == c.regs.rdi && a + 8 * 4 in m;
    assert ws[5] == c.regs.rsi && a + 8 * 5 in m;
    assert ws[6] == c.regs.rbp && a + 8 * 6 in m;
    assert ws[7] == c.regs.r8 && a + 8 * 7 in m;
    assert ws[8] == c.regs.r9 && a + 8 * 8 in m;
    assert ws[9] == c.regs.r10 && a + 8 * 9 in m;
    assert ws[10] == c.regs.r11 && a + 8 * 10 in m;
    assert ws[11] == c.regs.r12 && a + 8 * 11 in m;
    assert ws[12] == c.regs.r13 && a + 8 * 12 in m;
    assert ws[13] == c.regs.r14 && a + 8 * 13 in m;
    assert ws[14] == c.regs.r15 && a + 8 * 14 in m;
    assert ws[15] == c.frame.rip && a + 8 * 15 in m;
    assert ws[16] == c.frame.cs && a + 8 * 16 in m;
    assert ws[17] == c.frame.rflags && a + 8 * 17 in m;
    assert ws[18] == c.frame.rsp && a + 8 * 18 in m;
    assert ws[19] == c.frame.ss && a + 8 * 19 in m;
  }

  // ----- the processor -----

  class Cpu {
    var regs: Registers
    var frame: Frame  // rip, cs, rflags, rsp and ss
    var mem: Memory

    function Observed(): Context
      reads this
    {
      Context(regs, frame)
    }

    /** One push: word k - 1 of `ws`, when the words from k on are on the stack above `m0`. */
    method Push(v: int, ghost ws: seq<int>, ghost k: nat, ghost m0: Memory, ghost top: int)
      requires 0 < k <= |ws| && ws[k - 1] == v && OnStack(mem, frame.rsp, ws, k)
      requires SameBut(m0, mem, frame.rsp, top) && frame.rsp <= top
      modifies this`frame, this`mem
      ensures frame == old(frame).(rsp := old(frame.rsp) - 8)
      ensures OnStack(mem, frame.rsp, ws, k - 1) && SameBut(m0, mem, frame.rsp, top)
    {
      frame := frame.(rsp := frame.rsp - 8);
      mem := mem[frame.rsp := v];
      PushStored(old(mem), old(frame.rsp), ws, k);
    }

    method Pop() returns (v: int)
      requires frame.rsp in mem
      modifies this`frame
      ensures v == mem[old(frame.rsp)] && frame == old(frame).(rsp := old(frame.rsp) + 8)
    {
      v := mem[frame.rsp];
      frame := frame.(rsp := frame.rsp + 8);
    }

    /** What the processor itself does on an interrupt, without a change of privilege. */
    method TakeInterrupt()
      modifies this`frame, this`mem
      ensures frame.rsp == Aligned(old(frame.rsp)) - 40
      ensures Stored(mem, frame.rsp, FrameWords(old(frame))) && SameBut(old(mem), mem, frame.rsp, frame.rsp + 40)
    {
      hide Stored, OnStack, SameBut;
      var f := frame;
      frame := frame.(rsp := Aligned(frame.rsp));
      ghost var ws, top := FrameWords(f), frame.rsp;
      SameAtFirst(mem, top);
      AllOnStack(mem, top, ws);
      Push(f.ss, ws, 5, old(mem), top);
      Push(f.rsp, ws, 4, old(mem), top);
      Push(f.rflags, ws, 3, old(mem), top);
      Push(f.cs, ws, 2, old(mem), top);
      Push(f.rip, ws, 1, old(mem), top);
      AllOnStack(mem, frame.rsp, ws);
    }

    /** The pushes of r15 to r8. */
    method PushNumbered(ghost words: seq<int>, ghost m0: Memory, ghost top: int)
      requires 15 <= |words| && OnStack(mem, frame.rsp, words, 15) && SameBut(m0, mem, frame.rsp, top)
      requires frame.rsp <= top
      requires words[7..15] == [regs.r8, regs.r9, regs.r10, regs.r11, regs.r12, regs.r13, regs.r14, regs.r15]
      modifies this`frame, this`mem
      ensures frame.rsp == old(frame.rsp) - 64 && OnStack(mem, frame.rsp, words, 7) && SameBut(m0, mem, frame.rsp, top)
    {
      hide Stored, OnStack, SameBut;
      Eight(words, regs);
      Push(regs.r15, words, 15, m0, top);
      Push(regs.r14, words, 14, m0, top);
      Push(regs.r13, words, 13, m0, top);
      Push(regs.r12, words, 12, m0, top);
      Push(regs.r11, words, 11, m0, top);
      Push(regs.r10, words, 10, m0, top);
      Push(regs.r9, words, 9, m0, top);
      Push(regs.r8, words, 8, m0, top);
    }

    /** begin_interrupt: rdi gets the address of the interrupt frame, rsi the stack pointer. */
    method BeginInterrupt(ghost ws: seq<int>)
      requires Stored(mem, frame.rsp, ws)
      modifies this
      ensures frame.rsp == old(frame.rsp) - 120 && regs == old(regs).(rdi := frame.rsp + 0x78, rsi := frame.rsp)
      ensures Stored(mem, frame.rsp, RegisterWords(old(regs)) + ws)
      ensures SameBut(old(mem), mem, frame.rsp, frame.rsp + 120)
    {
      hide Stored, OnStack, SameBut, RegisterWords;
      ghost var words := BehindRegisters(regs, ws, mem, frame.rsp);
      ghost var m0, top := mem, frame.rsp;
      SameAtFirst(mem, top);
      PushNumbered(words, m0, top);
      Push(regs.rbp, words, 7, m0, top);
      Push(regs.rsi, words, 6, m0, top);
      Push(regs.rdi, words, 5, m0, top);
      Push(regs.rdx, words, 4, m0, top);
      Push(regs.rcx, words, 3, m0, top);
      Push(regs.rbx, words, 2, m0, top);
      Push(regs.rax, words, 1, m0, top);
      AllOnStack(mem, frame.rsp, words);
      regs := regs.(rdi := frame.rsp + 0x78);
      regs := regs.(rsi := frame.rsp);
    }

    /**
     * An interrupt up to the call of its handler leaves the whole context on the stack, below all that the
     * interrupted thread has there.
     */
    method Save()
      modifies this
      ensures frame.rsp == SaveAt(old(Observed()))
      ensures SavedIn(old(mem), mem, old(Observed()))
      ensures frame.rsp + 160 <= old(frame.rsp) < frame.rsp + 176 && frame.rsp % 16 == 0
      ensures forall k :: k >= old(frame.rsp) ==> (k in mem <==> k in old(mem)) && (k in mem ==> mem[k] == old(mem)[k])
      ensures regs.rdi == frame.rsp + 0x78 && regs.rsi == frame.rsp && regs.rdi in mem
      ensures mem[regs.rdi] == old(frame.rip)
    {
      ghost var c := Observed();
      SaveAreaBelow(c);
      TakeInterrupt();
      BeginInterrupt(FrameWords(c.frame));
      assert RegisterWords(c.regs) + FrameWords(c.frame) == Words(c);
      Unpack(mem, frame.rsp, c);
    }

    /** end_interrupt: takes the stack pointer from rax, pops the registers and returns. */
    method EndInterrupt(ghost c: Context)
      requires Stored(mem, regs.rax, Words(c))
      modifies this`regs, this`frame
      ensures Observed() == c
    {
      Unpack(mem, regs.rax, c);
      frame := frame.(rsp := regs.rax);
      var v := Pop();
      regs := regs.(rax := v);
      v := Pop();
      regs := regs.(rbx := v);
      v := Pop();
      regs := regs.(rcx := v);
      v := Pop();
      regs := regs.(rdx := v);
      v := Pop();
      regs := regs.(rdi := v);
      v := Pop();
      regs := regs.(rsi := v);
      v := Pop();
      regs := regs.(rbp := v);
      v := Pop();
      regs := regs.(r8 := v);
      v := Pop();
      regs := regs.(r9 := v);
      v := Pop();
      regs := regs.(r10 := v);
      v := Pop();
      regs := regs.(r11 := v);
      v := Pop();
      regs := regs.(r12 := v);
      v := Pop();
      regs := regs.(r13 := v);
      v := Pop();
      regs := regs.(r14 := v);
      v := Pop();
      regs := regs.(r15 := v);
      Iretq();
    }

    /** Pops the frame of 64-bit mode: all five words, the stack pointer among them. */
    method Iretq()
      requires frame.rsp in mem && frame.rsp + 8 in mem && frame.rsp + 16 in mem && frame.rsp + 24 in mem
      requires frame.rsp + 32 in mem
      modifies this`frame
      ensures var a := old(frame.rsp);
              frame == Frame(mem[a], mem[a + 8], mem[a + 16], mem[a + 24], mem[a + 32])
    {
      var rip := Pop();
      var cs := Pop();
      var rflags := Pop();
      var rsp := Pop();
      var ss := Pop();
      frame := Frame(rip, cs, rflags, rsp, ss);
    }
  }
}
