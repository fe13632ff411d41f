/** Saving and restoring a task's registers on the timer interrupt (x86_64/timer.S, x86_64/regs.S).
    Memory is addressed in 64-bit words. */
module ContextSwitch {

  /** The registers `save_regs` saves. */
  datatype Gpr = Gpr(rax: nat, rbx: nat, rcx: nat, rdx: nat, rsi: nat, rdi: nat, rbp: nat, r8: nat, r9: nat)

  /** Everything an interrupted task gets back: `all_regs` (x86_64/regs.h). */
  datatype Context = Context(g: Gpr, cr3: nat, rip: nat, cs: nat, rflags: nat, rsp: nat, ss: nat)

  /** A word of memory; words never written read as 0. */
  function At(mem: map<nat, nat>, a: nat): nat {
    if a in mem then mem[a] else 0
  }

  /** The `all_regs` record at address `a`: fifteen words. */
  function ContextAt(mem: map<nat, nat>, a: nat): Context {
    Context(Gpr(At(mem, a + 8), At(mem, a + 7), At(mem, a + 6), At(mem, a + 5), At(mem, a + 4),
                At(mem, a + 3), At(mem, a + 2), At(mem, a + 1), At(mem, a)),
            At(mem, a + 9), At(mem, a + 10), At(mem, a + 11), At(mem, a + 12), At(mem, a + 13), At(mem, a + 14))
  }

  /** The same record as a list of words. */
  function Record(mem: map<nat, nat>, a: nat): (r: seq<nat>)
    ensures |r| == 15 && forall i | 0 <= i < 15 :: r[i] == At(mem, a + i)
  {
    seq<nat>(15, i requires 0 <= i => At(mem, a + i))
  }

  /** The context that the words of a record stand for. */
  function Decode(r: seq<nat>): Context
    requires |r| == 15
  {
    Context(Gpr(r[8], r[7], r[6], r[5], r[4], r[3], r[2], r[1], r[0]), r[9], r[10], r[11], r[12], r[13], r[14])
  }

  /** The words of the record of `c`, in the order of `all_regs`. */
  function Encode(c: Context): (r: seq<nat>)
    ensures |r| == 15 && Decode(r) == c
  {
    [c.g.r9, c.g.r8, c.g.rbp, c.g.rdi, c.g.rsi, c.g.rdx, c.g.rcx, c.g.rbx, c.g.rax, c.cr3, c.rip, c.cs, c.rflags, c.rsp, c.ss]
  }

  lemma ContextOfRecord(mem: map<nat, nat>, a: nat)
    ensures ContextAt(mem, a) == Decode(Record(mem, a)) && Record(mem, a) == Encode(ContextAt(mem, a))
  {
  }

  /** The fifteen words at `a`, in the order of the structures of x86_64/regs.h. */
  lemma AllRegsLayout(mem: map<nat, nat>, a: nat)
    ensures var c := ContextAt(mem, a);
            [At(mem, a), At(mem, a + 1), At(mem, a + 2), At(mem, a + 3), At(mem, a + 4), At(mem, a + 5), At(mem, a + 6), At(mem, a + 7),
             At(mem, a + 8), At(mem, a + 9), At(mem, a + 10), At(mem, a + 11), At(mem, a + 12), At(mem, a + 13), At(mem, a + 14)]
            == [c.g.r9, c.g.r8, c.g.rbp, c.g.rdi, c.g.rsi, c.g.rdx, c.g.rcx, c.g.rbx, c.g.rax, c.cr3, c.rip, c.cs, c.rflags, c.rsp, c.ss]
  {
  }

  /** Memory did not change outside the words from `lo` to `hi`. */
  ghost predicate SameOutside(m: map<nat, nat>, m': map<nat, nat>, lo: nat, hi: nat) {
    forall a: nat | !(lo <= a < hi) :: At(m', a) == At(m, a)
  }

  /** Memory with a stack pointer. */
  datatype Stack = Stack(mem: map<nat, nat>, sp: nat) {

    function Push(w: nat): Stack
      requires sp > 0
    {
      Stack(mem[sp - 1 := w], sp - 1)
    }

    function Top(): nat {
      At(mem, sp)
    }

    function Drop(): Stack {
      Stack(mem, sp + 1)
    }

    /** `xchg k(%rsp), reg`, the memory side. */
    function Exchanged(k: nat, w: nat): Stack {
      Stack(mem[sp + k := w], sp)
    }
  }

  /** `call save_regs` with return address `ret`; nine words are pushed in all. */
  method SaveRegs(st0: Stack, g: Gpr, ret: nat) returns (st: Stack, g': Gpr)
    requires st0.sp >= 9
    ensures st.sp == st0.sp - 9 && g' == g.(rax := ret)
    ensures SameOutside(st0.mem, st.mem, st.sp, st0.sp)
    ensures Gpr(At(st.mem, st.sp + 8), At(st.mem, st.sp + 7), At(st.mem, st.sp + 6), At(st.mem, st.sp + 5),
                At(st.mem, st.sp + 4), At(st.mem, st.sp + 3), At(st.mem, st.sp + 2), At(st.mem, st.sp + 1), At(st.mem, st.sp)) == g
  {
    st := st0.Push(ret);
    g', st := g.(rax := st.Top()), st.Exchanged(0, g.rax);
    st := PushFour(st, g'.rbx, g'.rcx, g'.rdx, g'.rsi);
    st := PushFour(st, g'.rdi, g'.rbp, g'.r8, g'.r9);
  }

  method PushFour(st0: Stack, w: nat, x: nat, y: nat, z: nat) returns (st: Stack)
    requires st0.sp >= 4
    ensures st.sp == st0.sp - 4 && SameOutside(st0.mem, st.mem, st.sp, st0.sp)
    ensures At(st.mem, st.sp + 3) == w && At(st.mem, st.sp + 2) == x && At(st.mem, st.sp + 1) == y && At(st.mem, st.sp) == z
  {
    st := st0.Push(w);
    st := st.Push(x);
    st := st.Push(y);
    st := st.Push(z);
  }

  /** `call rest_regs`: the return address goes through the word below the record into the record's
      own `rax` slot, from which the final `ret` takes it. */
  method RestRegs(st0: Stack, ret: nat) returns (st: Stack, g: Gpr)
    requires st0.sp > 0
    ensures st.sp == st0.sp + 9 && st.mem == st0.mem[st0.sp - 1 := ret][st0.sp + 8 := ret]
    ensures g == ContextAt(st0.mem, st0.sp).g
  {
    st := st0.Push(ret);
    var rax := st.Top();
    st := st.Drop();
    rax, st := At(st.mem, st.sp + 8), st.Exchanged(8, rax);
    var r9 := st.Top();
    st := st.Drop();
    var r8 := st.Top();
    st := st.Drop();
    var rbp := st.Top();
    st := st.Drop();
    var rdi := st.Top();
    st := st.Drop();
    var rsi := st.Top();
    st := st.Drop();
    var rdx := st.Top();
    st := st.Drop();
    var rcx := st.Top();
    st := st.Drop();
    var rbx := st.Top();
    st := st.Drop();
    assert st.Top() == ret;
    st := st.Drop();
    g := Gpr(rax, rbx, rcx, rdx, rsi, rdi, rbp, r8, r9);
  }

  /** The interrupt and the first half of `timer_intr`: the processor switches to the interrupt stack
      `ist` and pushes its frame; the handler adds cr3 and the general registers. The stack then
      holds the interrupted context `c` as one `all_regs` record. */
  method Enter(mem: map<nat, nat>, ist: nat, c: Context, ret: nat) returns (st: Stack)
    requires ist >= 15
    ensures st.sp == ist - 15 && ContextAt(st.mem, st.sp) == c
    ensures SameOutside(mem, st.mem, ist - 15, ist)
  {
    st := Stack(mem, ist);
    st := st.Push(c.ss);
    st := st.Push(c.rsp);
    st := st.Push(c.rflags);
    st := st.Push(c.cs);
    st := st.Push(c.rip);
    st := st.Push(c.g.rax);
    var rax := c.cr3;
    rax, st := st.Top(), st.Exchanged(0, rax);
    var g;
    st, g := SaveRegs(st, c.g.(rax := rax), ret);
  }

  /** The second half of `timer_intr`: from the record at `r` to the return from the interrupt. The
      task resumes with exactly the recorded context, although the way back writes to three words
      around it: the one below the record, and its `rax` and cr3 slots. */
  method Leave(mem: map<nat, nat>, r: nat, ret: nat) returns (mem': map<nat, nat>, c: Context)
    requires r > 0
    ensures c == ContextAt(mem, r)
    ensures forall a: nat | a != r - 1 && a != r + 8 && a != r + 9 :: At(mem', a) == At(mem, a)
  {
    var st, g := RestRegs(Stack(mem, r), ret);
    var rax := g.rax;
    rax, st := st.Top(), st.Exchanged(0, rax);
    var cr3 := rax;
    rax := st.Top();
    st := st.Drop();
    // apic_eoi keeps every register; its return address and its push go below the interrupt frame.
    st := st.Push(ret);
    st := st.Push(rax);
    rax := st.Top();
    st := st.Drop().Drop();
    var rip := st.Top();
    st := st.Drop();
    var cs := st.Top();
    st := st.Drop();
    var rflags := st.Top();
    st := st.Drop();
    var rsp := st.Top();
    st := st.Drop();
    var ss := st.Top();
    mem', c := st.mem, Context(g.(rax := rax), cr3, rip, cs, rflags, rsp, ss);
  }
}
