/** The entry stub of SYSCALL as a program of a small register and stack machine, between the two
    instructions SYSCALL and SYSRET themselves. */
module SyscallEntry {
  import opened Bits

  datatype Reg = Rax | Rbx | Rcx | Rdx | Rsi | Rdi | Rbp | Rsp | R8 | R9 | R10 | R11 | R12 | R13 | R14 | R15

  ghost predicate Total(m: map<Reg, int>) {
    forall r: Reg :: r in m
  }

  type Regs = m: map<Reg, int> | Total(m) ghost witness map r: Reg | true :: 0

  /** Registers, words of kernel memory by address, the two static cells of the stub, which are
      TEMP_RSP and KERNEL_SYSCALL_STACK_TOP, the instruction pointer, the flags, the entry address
      in LSTAR, and the memory of the program. */
  datatype Cpu = Cpu(regs: Regs, mem: map<int, int>, temp: int, top: int, rip: int, rflags: nat, lstar: int,
                     user: map<int, int>)

  /** SFMASK: the trap flag and the interrupt flag are cleared on entry. */
  const MASKED: seq<nat> := [8, 9]

  /** SYSCALL: the return address and the flags go to RCX and R11. */
  function EnterKernel(s: Cpu): Cpu {
    s.(regs := s.regs[Rcx := s.rip][R11 := s.rflags], rip := s.lstar, rflags := ClearAll(s.rflags, MASKED))
  }

  /** The flags that SYSRET does not take from R11: reserved bits, RF and VM. */
  const NOT_RESTORED: seq<nat> := [3, 5, 15, 16, 17]

  /** `(r11 & 0x3C7FD7) | 2`. */
  function SysretFlags(x: int): nat {
    SetBit(ClearAll(x % 0x40_0000, NOT_RESTORED), 1)
  }

  /** SYSRET: back to the address in RCX with the flags in R11. */
  function LeaveKernel(s: Cpu): Cpu {
    s.(rip := s.regs[Rcx], rflags := SysretFlags(s.regs[R11]))
  }

  /** Flags as a program has them: reserved bits at their fixed values, RF and VM off. */
  ghost predicate Ordinary(x: nat) {
    x < 0x40_0000 && Bit(x, 1) && forall k :: k in NOT_RESTORED ==> !Bit(x, k)
  }

  /** SYSRET takes the flags of mask 0x3C7FD7 from R11 and sets flag 1. */
  lemma SysretBits(x: nat, k: nat)
    requires k < 22
    ensures Bit(SysretFlags(x), k) <==> k == 1 || (Bit(x, k) && k != 3 && k != 5 && k != 15 && k != 16 && k != 17)
  {
    hide ClearAll, Bit, SetBit;
    var y := x % 0x40_0000;
    SetBitExact(ClearAll(y, NOT_RESTORED), 1, k);
    ClearAllExact(y, NOT_RESTORED, k);
    LowBitsKept(x, 22, k);
    Pow2Of22();
  }

  /** SYSRET brings back exactly the flags that a program can have. */
  lemma SysretRestores(x: nat)
    ensures SysretFlags(x) == x <==> Ordinary(x)
  {
    hide ClearAll, Bit, SetBit, NOT_RESTORED;
    SecondBitKept();
    var y := x % 0x40_0000;
    var z := ClearAll(y, NOT_RESTORED);
    if Ordinary(x) {
      ClearAllSame(x, NOT_RESTORED);
      UpdateSame(x, 1);
    }
    if SysretFlags(x) == x {
      SetBitExact(z, 1, 1);
      ClearAllExact(y, NOT_RESTORED, 0);
      SecondBitFits(z);
      forall k | k in NOT_RESTORED
        ensures !Bit(x, k)
      {
        SetBitExact(z, 1, k);
        ClearAllExact(y, NOT_RESTORED, k);
      }
    }
  }

  lemma SecondBitKept()
    ensures 1 !in NOT_RESTORED
  {
  }

  lemma SecondBitFits(z: nat)
    requires z < 0x40_0000
    ensures SetBit(z, 1) < 0x40_0000
  {
    assert SetBit(z, 1) == 2 * (z / 2 - z / 2 % 2 + 1) + z % 2;
  }

  function Read(m: map<int, int>, a: int): int {
    if a in m then m[a] else 0
  }

  datatype Instr =
    | SaveRsp              // mov [TEMP_RSP], rsp
    | LoadTop              // rsp := KERNEL_SYSCALL_STACK_TOP
    | PushTemp             // push [TEMP_RSP]
    | Push(src: Reg)
    | Mov(dst: Reg, from: Reg)
    | Load(dst: Reg, off: nat)     // mov dst, [rsp + off]
    | PushSlot(off: nat)           // push [rsp + off]
    | AddRsp(n: nat)
    | Pop(dst: Reg)

  /** Stores `v` at the new top of the stack. */
  function PushValue(s: Cpu, v: int): Cpu {
    var sp := s.regs[Rsp] - 8;
    s.(regs := s.regs[Rsp := sp], mem := s.mem[sp := v])
  }

  function Step(i: Instr, s: Cpu): Cpu {
    var sp := s.regs[Rsp];
    match i
    case SaveRsp => s.(temp := sp)
    case LoadTop => s.(regs := s.regs[Rsp := s.top])
    case PushTemp => PushValue(s, s.temp)
    case Push(r) => PushValue(s, s.regs[r])
    case Mov(d, r) => s.(regs := s.regs[d := s.regs[r]])
    case Load(d, off) => s.(regs := s.regs[d := Read(s.mem, sp + off)])
    case PushSlot(off) => PushValue(s, Read(s.mem, sp + off))
    case AddRsp(n) => s.(regs := s.regs[Rsp := sp + n])
    case Pop(d) => s.(regs := s.regs[Rsp := sp + 8][d := Read(s.mem, sp)])
  }

  function Exec(p: seq<Instr>, s: Cpu): Cpu {
    if p == [] then s else Exec(p[1..], Step(p[0], s))
  }

  /** The stub up to the call of the handler. */
  const BEFORE_CALL: seq<Instr> := [
    SaveRsp, LoadTop, PushTemp,
    Push(Rcx), Push(R11),
    Push(Rdi), Push(Rsi), Push(Rdx), Push(R10), Push(R8), Push(R9),
    Push(Rbx), Push(Rbp), Push(R12), Push(R13), Push(R14), Push(R15),
    Mov(Rdi, Rax), Load(Rsi, 88), Load(Rdx, 80), Load(Rcx, 72), Load(R8, 64), Load(R9, 56),
    PushSlot(48)]

  /** The stub from the return of the handler to `sysretq`. */
  const AFTER_CALL: seq<Instr> := [
    AddRsp(8),
    Pop(R15), Pop(R14), Pop(R13), Pop(R12), Pop(Rbp), Pop(Rbx),
    Pop(R9), Pop(R8), Pop(R10), Pop(Rdx), Pop(Rsi), Pop(Rdi),
    Pop(R11), Pop(Rcx), Pop(Rsp)]

  const SAVED: seq<Reg> := [Rcx, R11, Rdi, Rsi, Rdx, R10, R8, R9, Rbx, Rbp, R12, R13, R14, R15]

  function Pushes(rs: seq<Reg>): (p: seq<Instr>)
    ensures |p| == |rs| && forall i :: 0 <= i < |rs| ==> p[i] == Push(rs[i])
  {
    seq(|rs|, i requires 0 <= i < |rs| => Push(rs[i]))
  }

  /** Pops the registers of `rs`, last one first. */
  function Pops(rs: seq<Reg>): (p: seq<Instr>)
    ensures |p| == |rs| && forall i :: 0 <= i < |rs| ==> p[i] == Pop(rs[|rs| - 1 - i])
  {
    seq(|rs|, i requires 0 <= i < |rs| => Pop(rs[|rs| - 1 - i]))
  }

  lemma {:induction false} ExecConcat(p: seq<Instr>, q: seq<Instr>, s: Cpu)
    ensures Exec(p + q, s) == Exec(q, Exec(p, s))
    decreases |p|
  {
    if p == [] {
      assert p + q == q;
    } else {
      assert (p + q)[1..] == p[1..] + q;
      ExecConcat(p[1..], q, Step(p[0], s));
    }
  }

  /** Registers pushed one after the other: the first one ends up highest. */
  lemma {:induction false} PushAll(rs: seq<Reg>, s: Cpu)
    requires Rsp !in rs
    ensures var t, sp := Exec(Pushes(rs), s), s.regs[Rsp];
      && t.regs == s.regs[Rsp := sp - 8 * |rs|] && t.temp == s.temp && t.top == s.top
      && (forall i :: 0 <= i < |rs| ==> Read(t.mem, sp - 8 - 8 * i) == s.regs[rs[i]])
      && (forall a :: a >= sp || a < sp - 8 * |rs| ==> Read(t.mem, a) == Read(s.mem, a))
    decreases |rs|
  {
    if rs != [] {
      var u := Step(Push(rs[0]), s);
      var p := Pushes(rs);
      assert p[1..] == Pushes(rs[1..]);
      PushAll(rs[1..], u);
      var t, sp := Exec(p, s), s.regs[Rsp];
      forall i | 0 <= i < |rs|
        ensures Read(t.mem, sp - 8 - 8 * i) == s.regs[rs[i]]
      {
        if i > 0 {
          assert Read(t.mem, (sp - 8) - 8 - 8 * (i - 1)) == u.regs[rs[1..][i - 1]];
        }
      }
    }
  }

  ghost predicate Distinct(rs: seq<Reg>) {
    forall i, j :: 0 <= i < j < |rs| ==> rs[i] != rs[j]
  }

  lemma PopOne(r: Reg, s: Cpu)
    requires r != Rsp
    ensures var u, sp := Step(Pop(r), s), s.regs[Rsp];
      && u.mem == s.mem && u.temp == s.temp && u.top == s.top
      && u.regs == s.regs[r := Read(s.mem, sp)][Rsp := sp + 8]
  {
  }

  lemma PopFirst(rs: seq<Reg>, s: Cpu)
    requires rs != []
    ensures Exec(Pops(rs), s) == Exec(Pops(rs[..|rs| - 1]), Step(Pop(rs[|rs| - 1]), s))
  {
    hide Step;
    var p := Pops(rs);
    assert p[0] == Pop(rs[|rs| - 1]);
    assert p[1..] == Pops(rs[..|rs| - 1]);
  }

  /** Popping brings back what lies on the stack: register `i` of `rs` from its slot. */
  lemma {:induction false} PopAll(rs: seq<Reg>, s: Cpu)
    requires Rsp !in rs && Distinct(rs)
    ensures var t, sp := Exec(Pops(rs), s), s.regs[Rsp];
      && t.mem == s.mem && t.temp == s.temp && t.top == s.top && t.regs[Rsp] == sp + 8 * |rs|
      && (forall i :: 0 <= i < |rs| ==> t.regs[rs[i]] == Read(s.mem, sp + 8 * (|rs| - 1 - i)))
      && (forall r :: r != Rsp && r !in rs ==> t.regs[r] == s.regs[r])
    decreases |rs|
  {
    if rs != [] {
      var last, init := rs[|rs| - 1], rs[..|rs| - 1];
      var u := Step(Pop(last), s);
      hide Step, Exec, Read, Pops;
      PopFirst(rs, s);
      PopAll(init, u);
      assert rs == init + [last] && last !in init && last != Rsp && |init| == |rs| - 1;
      var t, sp := Exec(Pops(rs), s), s.regs[Rsp];
      PopOne(last, s);
      forall i | 0 <= i < |rs|
        ensures t.regs[rs[i]] == Read(s.mem, sp + 8 * (|rs| - 1 - i))
      {
        if i < |init| {
          assert init[i] == rs[i];
          assert sp + 8 + 8 * (|init| - 1 - i) == sp + 8 * (|rs| - 1 - i);
        } else {
          assert rs[i] == last;
        }
      }
    }
  }

  const ARGUMENTS: seq<Instr> :=
    [Mov(Rdi, Rax), Load(Rsi, 88), Load(Rdx, 80), Load(Rcx, 72), Load(R8, 64), Load(R9, 56), PushSlot(48)]

  lemma Exec1(a: Instr, p: seq<Instr>, s: Cpu)
    ensures Exec([a] + p, s) == Exec(p, Step(a, s))
  {
    assert ([a] + p)[1..] == p;
  }

  lemma Exec3(a: Instr, b: Instr, c: Instr, s: Cpu)
    ensures Exec([a, b, c], s) == Step(c, Step(b, Step(a, s)))
  {
    hide Step;
    assert [a, b, c] == [a] + ([b] + ([c] + []));
    Exec1(a, [b] + ([c] + []), s);
    Exec1(b, [c] + [], Step(a, s));
    Exec1(c, [], Step(b, Step(a, s)));
  }

  /** The stub parks the user's stack pointer at the top of the kernel stack. */
  lemma SwitchStack(s: Cpu)
    ensures var t := Exec([SaveRsp, LoadTop, PushTemp], s);
      && t.regs == s.regs[Rsp := s.top - 8] && t.top == s.top
      && Read(t.mem, s.top - 8) == s.regs[Rsp]
  {
    Exec3(SaveRsp, LoadTop, PushTemp, s);
  }

  lemma MoveFirst(s: Cpu)
    ensures var t, sp := Exec([Mov(Rdi, Rax), Load(Rsi, 88), Load(Rdx, 80)], s), s.regs[Rsp];
      && t.regs[Rdi] == s.regs[Rax] && t.regs[Rsi] == Read(s.mem, sp + 88) && t.regs[Rdx] == Read(s.mem, sp + 80)
      && t.regs[Rsp] == sp && t.mem == s.mem && t.top == s.top
  {
    Exec3(Mov(Rdi, Rax), Load(Rsi, 88), Load(Rdx, 80), s);
  }

  lemma MoveSecond(s: Cpu)
    ensures var t, sp := Exec([Load(Rcx, 72), Load(R8, 64), Load(R9, 56)], s), s.regs[Rsp];
      && t.regs[Rcx] == Read(s.mem, sp + 72) && t.regs[R8] == Read(s.mem, sp + 64) && t.regs[R9] == Read(s.mem, sp + 56)
      && t.regs[Rdi] == s.regs[Rdi] && t.regs[Rsi] == s.regs[Rsi] && t.regs[Rdx] == s.regs[Rdx]
      && t.regs[Rsp] == sp && t.mem == s.mem && t.top == s.top
  {
    Exec3(Load(Rcx, 72), Load(R8, 64), Load(R9, 56), s);
  }

  /** The moves that turn the saved system call arguments into arguments of the handler. */
  lemma MoveArguments(s: Cpu)
    ensures var t, sp := Exec(ARGUMENTS, s), s.regs[Rsp];
      && t.regs[Rdi] == s.regs[Rax] && t.regs[Rsi] == Read(s.mem, sp + 88) && t.regs[Rdx] == Read(s.mem, sp + 80)
      && t.regs[Rcx] == Read(s.mem, sp + 72) && t.regs[R8] == Read(s.mem, sp + 64) && t.regs[R9] == Read(s.mem, sp + 56)
      && t.regs[Rsp] == sp - 8 && t.mem == s.mem[sp - 8 := Read(s.mem, sp + 48)] && t.top == s.top
  {
    hide Exec;
    var p := [Mov(Rdi, Rax), Load(Rsi, 88), Load(Rdx, 80)];
    var q := [Load(Rcx, 72), Load(R8, 64), Load(R9, 56)];
    assert ARGUMENTS == p + (q + ([PushSlot(48)] + []));
    ExecConcat(p, q + ([PushSlot(48)] + []), s);
    MoveFirst(s);
    var u := Exec(p, s);
    ExecConcat(q, [PushSlot(48)] + [], u);
    MoveSecond(u);
    var w := Exec(q, u);
    Exec1(PushSlot(48), [], w);
    ExecNothing(Step(PushSlot(48), w));
  }

  lemma ExecNothing(s: Cpu)
    ensures Exec([], s) == s
  {
  }

  /** What the handler is given: the frame of saved registers, and its seven arguments. */
  ghost predicate CallFrame(s: Cpu, t: Cpu) {
    && t.top == s.top && t.regs[Rsp] == s.top - 128
    && Read(t.mem, s.top - 8) == s.regs[Rsp]
    && (forall i :: 0 <= i < |SAVED| ==> Read(t.mem, s.top - 16 - 8 * i) == s.regs[SAVED[i]])
    && t.regs[Rdi] == s.regs[Rax] && t.regs[Rsi] == s.regs[Rdi] && t.regs[Rdx] == s.regs[Rsi]
    && t.regs[Rcx] == s.regs[Rdx] && t.regs[R8] == s.regs[R10] && t.regs[R9] == s.regs[R8]
    && Read(t.mem, t.regs[Rsp]) == s.regs[R9]
  }

  lemma BeforeCallParts()
    ensures BEFORE_CALL == [SaveRsp, LoadTop, PushTemp] + (Pushes(SAVED) + ARGUMENTS)
  {
  }

  lemma AfterCallParts()
    ensures AFTER_CALL == [AddRsp(8)] + (Pops(SAVED) + ([Pop(Rsp)] + []))
  {
  }

  lemma BeforeCall(s: Cpu)
    ensures CallFrame(s, Exec(BEFORE_CALL, s))
  {
    hide Exec, Pushes, Step, BEFORE_CALL, ARGUMENTS, SAVED;
    var head := [SaveRsp, LoadTop, PushTemp];
    BeforeCallParts();
    SavedDistinct();
    ExecConcat(head, Pushes(SAVED) + ARGUMENTS, s);
    var u := Exec(head, s);
    ExecConcat(Pushes(SAVED), ARGUMENTS, u);
    var w := Exec(Pushes(SAVED), u);
    SwitchStack(s);
    PushAll(SAVED, u);
    MoveArguments(w);
    Slots(s, w);
  }

  /** The slots that the argument moves read. */
  lemma Slots(s: Cpu, w: Cpu)
    requires forall i :: 0 <= i < |SAVED| ==> Read(w.mem, s.top - 16 - 8 * i) == s.regs[SAVED[i]]
    ensures Read(w.mem, s.top - 32) == s.regs[Rdi] && Read(w.mem, s.top - 40) == s.regs[Rsi]
    ensures Read(w.mem, s.top - 48) == s.regs[Rdx] && Read(w.mem, s.top - 56) == s.regs[R10]
    ensures Read(w.mem, s.top - 64) == s.regs[R8] && Read(w.mem, s.top - 72) == s.regs[R9]
  {
    assert SAVED[2] == Rdi && SAVED[3] == Rsi && SAVED[4] == Rdx && SAVED[5] == R10 && SAVED[6] == R8 && SAVED[7] == R9;
  }

  /** What the psABI makes a handler keep: the callee-saved registers, the stack pointer and
      the stack above its own frame. Its stack argument belongs to it; so do flags and the program's
      memory. */
  ghost predicate KeepsAbi(x: Cpu, y: Cpu) {
    && y.top == x.top && y.lstar == x.lstar
    && (forall r :: r in {Rsp, Rbx, Rbp, R12, R13, R14, R15} ==> y.regs[r] == x.regs[r])
    && (forall a :: a >= x.regs[Rsp] + 8 ==> Read(y.mem, a) == Read(x.mem, a))
  }

  /** The state in which the handler is called. */
  function AtCall(s: Cpu): Cpu {
    Exec(BEFORE_CALL, EnterKernel(s))
  }

  /** One system call, from SYSCALL to SYSRET, with handler `h`. */
  function Syscall(s: Cpu, h: Cpu -> Cpu): Cpu {
    LeaveKernel(Exec(AFTER_CALL, h(AtCall(s))))
  }

  /** The stub leaves everything but registers, kernel memory and TEMP_RSP alone. */
  lemma {:induction false} ExecKeeps(p: seq<Instr>, s: Cpu)
    ensures var t := Exec(p, s);
      t.rip == s.rip && t.rflags == s.rflags && t.lstar == s.lstar && t.user == s.user && t.top == s.top
    decreases |p|
  {
    if p != [] {
      ExecKeeps(p[1..], Step(p[0], s));
    }
  }

  lemma FirstAndLast(s: Cpu)
    ensures Step(AddRsp(8), s) == s.(regs := s.regs[Rsp := s.regs[Rsp] + 8])
    ensures Step(Pop(Rsp), s) == s.(regs := s.regs[Rsp := Read(s.mem, s.regs[Rsp])])
  {
    assert s.regs[Rsp := s.regs[Rsp] + 8][Rsp := Read(s.mem, s.regs[Rsp])] == s.regs[Rsp := Read(s.mem, s.regs[Rsp])];
  }

  lemma AfterCall(s: Cpu, t: Cpu, y: Cpu)
    requires CallFrame(s, t) && KeepsAbi(t, y)
    ensures var z := Exec(AFTER_CALL, y); z.regs == s.regs[Rax := y.regs[Rax]] && z.top == s.top
  {
    hide Exec, Pops, AFTER_CALL, SAVED, Step;
    AfterCallParts();
    FirstAndLast(y);
    Exec1(AddRsp(8), Pops(SAVED) + ([Pop(Rsp)] + []), y);
    var u := Step(AddRsp(8), y);
    ExecConcat(Pops(SAVED), [Pop(Rsp)] + [], u);
    SavedDistinct();
    PopAll(SAVED, u);
    var w := Exec(Pops(SAVED), u);
    FirstAndLast(w);
    Exec1(Pop(Rsp), [], w);
    var z := Step(Pop(Rsp), w);
    ExecNothing(z);
    Restored(s, t, y, w);
    RestoresAll(s, z);
  }

  lemma SavedDistinct()
    ensures Distinct(SAVED) && Rsp !in SAVED && Rax !in SAVED && |SAVED| == 14
  {
    forall i, j | 0 <= i < j < |SAVED|
      ensures SAVED[i] != SAVED[j]
    {
      assert SlotOf(SAVED[i]) == i && SlotOf(SAVED[j]) == j;
    }
  }

  /** The position at which a register is saved. */
  function SlotOf(r: Reg): (i: nat)
    ensures r != Rax && r != Rsp ==> i < |SAVED| && SAVED[i] == r
  {
    match r
    case Rcx => 0 case R11 => 1 case Rdi => 2 case Rsi => 3 case Rdx => 4 case R10 => 5 case R8 => 6 case R9 => 7
    case Rbx => 8 case Rbp => 9 case R12 => 10 case R13 => 11 case R14 => 12 case R15 => 13
    case Rax => 14 case Rsp => 15
  }

  /** The handler may not touch the slots, so each register comes back. */
  lemma Restored(s: Cpu, t: Cpu, y: Cpu, w: Cpu)
    requires CallFrame(s, t) && KeepsAbi(t, y) && w.mem == y.mem
    requires |SAVED| == 14 && forall i :: 0 <= i < |SAVED| ==>
      w.regs[SAVED[i]] == Read(y.mem, y.regs[Rsp] + 8 + 8 * (|SAVED| - 1 - i))
    ensures forall i :: 0 <= i < |SAVED| ==> w.regs[SAVED[i]] == s.regs[SAVED[i]]
    ensures Read(w.mem, y.regs[Rsp] + 8 + 8 * |SAVED|) == s.regs[Rsp]
  {
    forall i | 0 <= i < |SAVED|
      ensures w.regs[SAVED[i]] == s.regs[SAVED[i]]
    {
      assert y.regs[Rsp] + 8 + 8 * (|SAVED| - 1 - i) == s.top - 16 - 8 * i;
    }
  }

  /** The saved registers, the stack pointer and the result are all there are. */
  lemma RestoresAll(s: Cpu, z: Cpu)
    requires forall i :: 0 <= i < |SAVED| ==> z.regs[SAVED[i]] == s.regs[SAVED[i]]
    requires z.regs[Rsp] == s.regs[Rsp]
    ensures z.regs == s.regs[Rax := z.regs[Rax]]
  {
    forall r: Reg
      ensures z.regs[r] == s.regs[Rax := z.regs[Rax]][r]
    {
      if r != Rax && r != Rsp {
        assert SAVED[SlotOf(r)] == r;
      }
    }
  }

  /** Transparency: whatever the registers hold and whatever the handler does within the psABI, it
      receives the seven values with interrupts and traps off, and the program goes on at the
      instruction after SYSCALL, with its flags. RAX holds the result, RCX and R11 what SYSCALL put
      there, and every other register is as it was. */
  lemma Transparent(s: Cpu, h: Cpu -> Cpu)
    requires KeepsAbi(AtCall(s), h(AtCall(s)))
    ensures var t := AtCall(s);
      && CallFrame(EnterKernel(s), t) && t.user == s.user && !Bit(t.rflags, 8) && !Bit(t.rflags, 9)
      && EnterKernel(s).rip == s.lstar
    ensures var z, y := Syscall(s, h), h(AtCall(s));
      && z.regs == s.regs[Rcx := s.rip][R11 := s.rflags][Rax := y.regs[Rax]]
      && z.rip == s.rip && z.rflags == SysretFlags(s.rflags) && (Ordinary(s.rflags) ==> z.rflags == s.rflags)
      && z.user == y.user && z.top == s.top && z.lstar == s.lstar
  {
    hide Exec, CallFrame, KeepsAbi, SysretFlags, Ordinary;
    var e, t := EnterKernel(s), AtCall(s);
    BeforeCall(e);
    ExecKeeps(BEFORE_CALL, e);
    ClearAllExact(s.rflags, MASKED, 8);
    ClearAllExact(s.rflags, MASKED, 9);
    AfterCall(e, t, h(t));
    ExecKeeps(AFTER_CALL, h(t));
    KeepsLstar(t, h(t));
    SysretRestores(s.rflags);
  }

  lemma KeepsLstar(x: Cpu, y: Cpu)
    requires KeepsAbi(x, y)
    ensures y.lstar == x.lstar
  {
  }

  /** The program's side of the machine. */
  datatype User = User(regs: Regs, rip: int, rflags: nat, mem: map<int, int>)

  function UserOf(s: Cpu): User { User(s.regs, s.rip, s.rflags, s.user) }

  /** What a program does: work of its own on its registers, flags and memory; or a system call. */
  datatype Event = Work(f: User -> User) | Call(h: Cpu -> Cpu)

  function Working(s: Cpu, f: User -> User): Cpu {
    var u := f(UserOf(s));
    s.(regs := u.regs, rip := u.rip, rflags := u.rflags, user := u.mem)
  }

  /** A run of a program on the machine. */
  function Machine(s: Cpu, es: seq<Event>): Cpu
    decreases |es|
  {
    if es == [] then s
    else match es[0]
      case Work(f) => Machine(Working(s, f), es[1..])
      case Call(h) => Machine(Syscall(s, h), es[1..])
  }

  /** What a handler hands back: the result, and the program's memory. */
  datatype Reply = Reply(rax: int, mem: map<int, int>)

  /** The replies of the handlers in that run. */
  function Replies(s: Cpu, es: seq<Event>): seq<Reply>
    decreases |es|
  {
    if es == [] then []
    else match es[0]
      case Work(f) => Replies(Working(s, f), es[1..])
      case Call(h) =>
        var y := h(AtCall(s));
        [Reply(y.regs[Rax], y.user)] + Replies(Syscall(s, h), es[1..])
  }

  /** A system call as the manual describes it to the program: RAX is the result, RCX and R11 are
      lost to the return address and the flags, and all else is as before. */
  function Returned(u: User, r: Reply): User {
    u.(regs := u.regs[Rcx := u.rip][R11 := u.rflags][Rax := r.rax], mem := r.mem)
  }

  /** The program as its author thinks of it. */
  ghost predicate Follows(u: User, es: seq<Event>, rs: seq<Reply>, final: User)
    decreases |es|
  {
    if es == [] then rs == [] && final == u
    else match es[0]
      case Work(f) => Follows(f(u), es[1..], rs, final)
      case Call(h) => rs != [] && Follows(Returned(u, rs[0]), es[1..], rs[1..], final)
  }

  /** Programs cannot set the bits of the flags that SYSRET does not restore. */
  ghost predicate WellBehaved(e: Event) {
    match e
    case Work(f) => forall u: User :: Ordinary(u.rflags) ==> Ordinary(f(u).rflags)
    case Call(h) => forall x :: KeepsAbi(x, h(x))
  }

  /** Over any run with any number of system calls, the program cannot tell the machine from
      that idea of it. */
  lemma {:induction false} RunTransparent(s: Cpu, es: seq<Event>)
    requires Ordinary(s.rflags) && forall i :: 0 <= i < |es| ==> WellBehaved(es[i])
    ensures Follows(UserOf(s), es, Replies(s, es), UserOf(Machine(s, es)))
    decreases |es|
  {
    hide Exec, KeepsAbi, CallFrame, Ordinary, SysretFlags, AtCall, Syscall;
    if es != [] {
      assert WellBehaved(es[0]) && forall i :: 0 <= i < |es[1..]| ==> es[1..][i] == es[i + 1];
      match es[0]
      case Work(f) =>
        RunTransparent(Working(s, f), es[1..]);
      case Call(h) =>
        Transparent(s, h);
        RunTransparent(Syscall(s, h), es[1..]);
        assert Replies(s, es)[1..] == Replies(Syscall(s, h), es[1..]);
    }
  }

  /** Section 3.2.2 of the psABI wants RSP at a multiple of 16 when a call is made. The stub
      provides that exactly if the stack top is such a multiple; the kernel's, eight bytes below the
      end of a 16-byte aligned array of 16 KiB at `base`, is not. */
  lemma CallAlignment(s: Cpu, base: int)
    ensures Exec(BEFORE_CALL, s).regs[Rsp] % 16 == 0 <==> s.top % 16 == 0
    ensures base % 16 == 0 && s.top == base + 16384 - 8 ==> Exec(BEFORE_CALL, s).regs[Rsp] % 16 == 8
  {
    hide Exec, BEFORE_CALL;
    BeforeCall(s);
  }
}
