/** Spinlocks and interrupts on one CPU. Kernel procedures take locks, some of them with
    interrupts switched off; the timer and keyboard handlers take two of the same locks.
    A context that waits for a lock held by the context it interrupted waits forever. */
module IrqLocks {
  import opened Bits

  datatype Lock = Pics | KeyboardBuffer | Serial | Screen | Frames | Heap

  /** `Disable` and `Restore` are the two ends of `without_interrupts`. */
  datatype Op = Disable | Restore | Acquire(l: Lock) | Release(l: Lock)

  const HANDLER_LOCKS: set<Lock> := {Pics, KeyboardBuffer}

  datatype Irq = Timer | Key

  /** The interrupt handlers: the end of interrupt goes through the PICS lock. */
  function Handler(i: Irq): seq<Op> {
    match i
    case Timer => [Acquire(Pics), Release(Pics)]
    case Key => [Acquire(KeyboardBuffer), Release(KeyboardBuffer), Acquire(Pics), Release(Pics)]
  }

  /** The lock operations of the kernel's procedures. */
  const KERNEL: seq<seq<Op>> := [
    // interrupts::pop_scancode
    [Disable, Acquire(KeyboardBuffer), Release(KeyboardBuffer), Restore],
    // LockedPics::initialize
    [Disable, Acquire(Pics), Release(Pics), Restore],
    // pmm::allocate_frame
    [Disable, Acquire(Frames), Release(Frames), Restore],
    // pmm::init
    [Acquire(Frames), Release(Frames)],
    // serial::_print
    [Disable, Acquire(Serial), Release(Serial), Restore],
    // writer::_print
    [Disable, Disable, Acquire(Serial), Release(Serial), Restore, Acquire(Screen), Release(Screen), Restore],
    // screen::print_char, clear_screen and the setters
    [Acquire(Screen), Release(Screen)],
    // SafeLockedHeap::init, alloc and dealloc
    [Disable, Acquire(Heap), Release(Heap), Restore]]

  /** The CPU: the interrupt flag, the rest of the interrupted or running procedure with the
      flags its `without_interrupts` saved, and the rest of the handler if one is running. */
  datatype State = State(flag: bool, main: seq<Op>, saves: seq<bool>, held: set<Lock>,
                         irq: Option<seq<Op>>, irqHeld: set<Lock>) {
    predicate Taken(l: Lock) { l in held || l in irqHeld }

    /** The running context waits for a lock that is taken. */
    predicate Spins() {
      var ops := if irq.Some? then irq.value else main;
      ops != [] && ops[0].Acquire? && Taken(ops[0].l)
    }
  }

  const START: State := State(false, [], [], {}, None, {})

  /** What can happen: the flag changes between procedures, a procedure starts, the running
      context makes one step, an interrupt comes in, a handler returns. */
  datatype Event = SetFlag(b: bool) | Enter(p: nat) | MainStep | Interrupt(i: Irq) | IrqStep | Return

  predicate Enabled(lib: seq<seq<Op>>, s: State, e: Event) {
    match e
    case SetFlag(_) => s.irq.None? && s.main == []
    case Enter(p) => s.irq.None? && s.main == [] && p < |lib|
    case MainStep => s.irq.None? && s.main != [] && !s.Spins() && (s.main[0].Restore? ==> s.saves != [])
    case Interrupt(_) => s.irq.None? && s.flag
    case IrqStep => s.irq.Some? && s.irq.value != [] && !s.Spins()
    case Return => s.irq == Some([])
  }

  function HeldAfter(op: Op, held: set<Lock>): set<Lock> {
    match op
    case Acquire(l) => held + {l}
    case Release(l) => held - {l}
    case _ => held
  }

  function Apply(lib: seq<seq<Op>>, s: State, e: Event): State
    requires Enabled(lib, s, e)
  {
    match e
    case SetFlag(b) => s.(flag := b)
    case Enter(p) => s.(main := lib[p])
    case MainStep =>
      var op, t := s.main[0], s.(main := s.main[1..], held := HeldAfter(s.main[0], s.held));
      (match op
       case Disable => t.(saves := s.saves + [s.flag], flag := false)
       case Restore => t.(saves := s.saves[..|s.saves| - 1], flag := s.flag || s.saves[|s.saves| - 1])
       case _ => t)
    case Interrupt(i) => s.(irq := Some(Handler(i)), flag := false)
    case IrqStep => s.(irq := Some(s.irq.value[1..]), irqHeld := HeldAfter(s.irq.value[0], s.irqHeld))
    case Return => s.(irq := None, flag := true)
  }

  /** A run: every event is enabled at its turn, and the last state is `t`. */
  ghost predicate Run(lib: seq<seq<Op>>, s: State, es: seq<Event>, t: State)
    decreases |es|
  {
    if es == [] then t == s
    else Enabled(lib, s, es[0]) && Run(lib, Apply(lib, s, es[0]), es[1..], t)
  }

  ghost predicate Reachable(lib: seq<seq<Op>>, s: State) {
    exists es :: Run(lib, START, es, s)
  }

  /** A procedure uses its locks and `without_interrupts` in balance, from here to its end. */
  predicate Balanced(ops: seq<Op>, depth: nat, held: set<Lock>)
    decreases |ops|
  {
    if ops == [] then depth == 0 && held == {}
    else
      match ops[0]
      case Disable => Balanced(ops[1..], depth + 1, held)
      case Restore => depth > 0 && Balanced(ops[1..], depth - 1, held)
      case Acquire(l) => l !in held && Balanced(ops[1..], depth, held + {l})
      case Release(l) => l in held && Balanced(ops[1..], depth, held - {l})
  }

  function DepthAfter(op: Op, depth: nat): nat {
    match op
    case Disable => depth + 1
    case Restore => if depth > 0 then depth - 1 else 0
    case _ => depth
  }

  /** From here on, a lock that a handler may want is held only inside `without_interrupts`. */
  predicate Guarded(ops: seq<Op>, depth: nat, held: set<Lock>)
    decreases |ops|
  {
    && (depth == 0 ==> held !! HANDLER_LOCKS)
    && (ops != [] ==> Guarded(ops[1..], DepthAfter(ops[0], depth), HeldAfter(ops[0], held)))
  }

  ghost predicate Library(lib: seq<seq<Op>>) {
    forall p :: 0 <= p < |lib| ==> Balanced(lib[p], 0, {})
  }

  ghost predicate AllGuarded(lib: seq<seq<Op>>) {
    forall p :: 0 <= p < |lib| ==> Guarded(lib[p], 0, {})
  }

  /** A handler takes only the handlers' locks and never touches the flag. */
  predicate HandlerCode(ops: seq<Op>) {
    forall i :: 0 <= i < |ops| ==> (ops[i].Acquire? || ops[i].Release?) && ops[i].l in HANDLER_LOCKS
  }

  /** The invariant of every reachable state. Inside `without_interrupts` the flag is off and
      every saved flag but the first is off; a handler runs only where the interrupted procedure
      was outside, so it holds none of the handlers' locks. */
  ghost predicate Inv(s: State) {
    && Balanced(s.main, |s.saves|, s.held) && Guarded(s.main, |s.saves|, s.held)
    && (s.saves != [] ==> !s.flag) && (forall i :: 0 < i < |s.saves| ==> !s.saves[i])
    && (s.irq.None? ==> s.irqHeld == {})
    && (s.irq.Some? ==> s.saves == [] && !s.flag && HandlerCode(s.irq.value) && Balanced(s.irq.value, 0, s.irqHeld)
                        && s.irqHeld <= HANDLER_LOCKS)
  }

  lemma NoSpin(s: State)
    requires Inv(s)
    ensures !s.Spins()
  {
  }

  /** Taking and dropping a lock leaves balance and guard to what follows. */
  lemma Bracket(l: Lock, rest: seq<Op>, depth: nat, held: set<Lock>)
    requires l !in held
    ensures Balanced([Acquire(l), Release(l)] + rest, depth, held) == Balanced(rest, depth, held)
    ensures (depth > 0 || l !in HANDLER_LOCKS) ==>
      Guarded([Acquire(l), Release(l)] + rest, depth, held) == ((depth == 0 ==>
        held !! HANDLER_LOCKS) && Guarded(rest, depth, held))
  {
    var ops := [Acquire(l), Release(l)] + rest;
    assert ops[1..] == [Release(l)] + rest && ([Release(l)] + rest)[1..] == rest;
    assert held + {l} - {l} == held;
  }

  lemma HandlersBalanced(i: Irq)
    ensures HandlerCode(Handler(i)) && Balanced(Handler(i), 0, {})
  {
    Bracket(Pics, [], 0, {});
    var eoi := [Acquire(Pics), Release(Pics)];
    assert eoi + [] == eoi;
    Bracket(KeyboardBuffer, eoi, 0, {});
    assert Handler(Key) == [Acquire(KeyboardBuffer), Release(KeyboardBuffer)] + eoi;
  }

  lemma InvStep(lib: seq<seq<Op>>, s: State, e: Event)
    requires Library(lib) && AllGuarded(lib) && Inv(s) && Enabled(lib, s, e)
    ensures Inv(Apply(lib, s, e))
  {
    var t := Apply(lib, s, e);
    match e
    case SetFlag(b) =>
    case Enter(p) =>
    case MainStep =>
    case Interrupt(i) => HandlersBalanced(i);
    case IrqStep =>
    case Return =>
  }

  lemma {:induction false} RunInv(lib: seq<seq<Op>>, s: State, es: seq<Event>, t: State)
    requires Library(lib) && AllGuarded(lib) && Inv(s) && Run(lib, s, es, t)
    ensures Inv(t)
    decreases |es|
  {
    if es != [] {
      InvStep(lib, s, es[0]);
      RunInv(lib, Apply(lib, s, es[0]), es[1..], t);
    }
  }

  /** The steps of a handler, then its return. */
  function HandlerRun(n: nat): seq<Event> {
    seq(n, i => IrqStep) + [Return]
  }

  /** An interrupt that runs to its end gives the interrupted state back, flag included. */
  lemma InterruptReturns(lib: seq<seq<Op>>, s: State, i: Irq)
    requires Inv(s) && s.irq.None? && s.flag
    ensures Run(lib, s, [Interrupt(i)] + HandlerRun(|Handler(i)|), s)
  {
    var t := Apply(lib, s, Interrupt(i));
    HandlersBalanced(i);
    HandlerRuns(lib, t, Handler(i), {});
    assert ([Interrupt(i)] + HandlerRun(|Handler(i)|))[1..] == HandlerRun(|Handler(i)|);
    assert t.(irq := None, irqHeld := {}, flag := true) == s;
  }

  lemma {:induction false} HandlerRuns(lib: seq<seq<Op>>, t: State, ops: seq<Op>, held: set<Lock>)
    requires t.irq == Some(ops) && t.irqHeld == held && held <= HANDLER_LOCKS && held !! t.held
    requires HandlerCode(ops) && Balanced(ops, 0, held) && t.held !! HANDLER_LOCKS
    ensures Run(lib, t, HandlerRun(|ops|), t.(irq := None, irqHeld := {}, flag := true))
    decreases |ops|
  {
    if ops == [] {
      assert HandlerRun(0) == [Return] && [Return][1..] == [];
    } else {
      var u := Apply(lib, t, IrqStep);
      HandlerRuns(lib, u, ops[1..], HeldAfter(ops[0], held));
      assert HandlerRun(|ops|)[0] == IrqStep && HandlerRun(|ops|)[1..] == HandlerRun(|ops| - 1);
    }
  }

  /** A procedure that runs to its end without interruption leaves the flag as it was. */
  lemma {:induction false} ProcedureReturns(lib: seq<seq<Op>>, s: State, flag: bool)
    requires s.irq.None? && s.irqHeld == {} && Balanced(s.main, |s.saves|, s.held)
    requires if s.saves == [] then s.flag == flag else !s.flag && s.saves[0] == flag
    requires forall i :: 0 < i < |s.saves| ==> !s.saves[i]
    ensures Run(lib, s, seq(|s.main|, i => MainStep), State(flag, [], [], {}, None, {}))
    decreases |s.main|
  {
    if s.main != [] {
      var u := Apply(lib, s, MainStep);
      ProcedureReturns(lib, u, flag);
      assert seq(|s.main|, i => MainStep)[1..] == seq(|s.main| - 1, i => MainStep);
    }
  }

  /** `without_interrupts(|| lock)` around one lock, whatever the lock. */
  lemma WrappedLock(l: Lock)
    ensures var ops := [Disable, Acquire(l), Release(l), Restore]; Balanced(ops, 0, {}) && Guarded(ops, 0, {})
  {
    var ops := [Disable, Acquire(l), Release(l), Restore];
    Bracket(l, [Restore], 1, {});
    assert ops[1..] == [Acquire(l), Release(l)] + [Restore];
    assert [Restore][1..] == [];
  }

  /** A lock that no handler wants needs no protection. */
  lemma BareLock(l: Lock)
    requires l !in HANDLER_LOCKS
    ensures var ops := [Acquire(l), Release(l)]; Balanced(ops, 0, {}) && Guarded(ops, 0, {})
  {
    Bracket(l, [], 0, {});
    assert [Acquire(l), Release(l)] + [] == [Acquire(l), Release(l)];
  }

  lemma PrintGuarded()
    ensures Balanced(KERNEL[5], 0, {}) && Guarded(KERNEL[5], 0, {})
  {
    var screen := [Acquire(Screen), Release(Screen)] + [Restore];
    var serial := [Acquire(Serial), Release(Serial)] + ([Restore] + screen);
    assert KERNEL[5] == [Disable] + ([Disable] + serial);
    assert KERNEL[5][1..] == [Disable] + serial && ([Disable] + serial)[1..] == serial;
    assert ([Restore] + screen)[1..] == screen && [Restore][1..] == [];
    Bracket(Screen, [Restore], 1, {});
    Bracket(Serial, [Restore] + screen, 2, {});
  }

  /** The kernel's procedures keep the discipline. */
  lemma KernelGuarded()
    ensures Library(KERNEL) && AllGuarded(KERNEL)
  {
    hide Balanced, Guarded;
    WrappedLock(KeyboardBuffer);
    WrappedLock(Pics);
    WrappedLock(Frames);
    WrappedLock(Serial);
    WrappedLock(Heap);
    BareLock(Frames);
    BareLock(Screen);
    PrintGuarded();
  }

  /** In every reachable state of the kernel, with interrupts coming in wherever they are let
      in, no handler and no procedure waits for a lock that is taken, and something can happen. */
  lemma KernelNeverSpins(s: State)
    requires Reachable(KERNEL, s)
    ensures !s.Spins() && exists e :: Enabled(KERNEL, s, e)
  {
    hide KERNEL;
    KernelGuarded();
    var es :| Run(KERNEL, START, es, s);
    RunInv(KERNEL, START, es, s);
    NoSpin(s);
    if s.irq.Some? {
      assert Enabled(KERNEL, s, if s.irq.value == [] then Return else IrqStep);
    } else {
      assert Enabled(KERNEL, s, if s.main == [] then SetFlag(true) else MainStep);
    }
  }

  /** The flags saved at a depth when the outermost one was on. */
  function SavedFlags(depth: nat): (saves: seq<bool>)
    ensures |saves| == depth
  {
    if depth == 0 then [] else SavedFlags(depth - 1) + [depth == 1]
  }

  /** The state inside a procedure that was entered with interrupts on. */
  function Inside(ops: seq<Op>, depth: nat, held: set<Lock>): State {
    State(depth == 0, ops, SavedFlags(depth), held, None, {})
  }

  lemma InsideStep(lib: seq<seq<Op>>, ops: seq<Op>, depth: nat, held: set<Lock>)
    requires ops != [] && Balanced(ops, depth, held)
    ensures Enabled(lib, Inside(ops, depth, held), MainStep)
    ensures Apply(lib, Inside(ops, depth, held), MainStep) ==
      Inside(ops[1..], DepthAfter(ops[0], depth), HeldAfter(ops[0], held))
    ensures Balanced(ops[1..], DepthAfter(ops[0], depth), HeldAfter(ops[0], held))
  {
    if ops[0].Disable? {
      assert SavedFlags(depth + 1) == SavedFlags(depth) + [depth == 0];
    }
  }

  /** From a point where the guard is broken later on, a handler can be made to wait forever. */
  lemma {:induction false} BreakRun(lib: seq<seq<Op>>, ops: seq<Op>, depth: nat, held: set<Lock>)
      returns (es: seq<Event>, t: State)
    requires Balanced(ops, depth, held) && !Guarded(ops, depth, held)
    ensures Run(lib, Inside(ops, depth, held), es, t) && t.irq.Some? && t.Spins()
    decreases |ops|
  {
    var s := Inside(ops, depth, held);
    if depth == 0 && !(held !! HANDLER_LOCKS) {
      var i := if KeyboardBuffer in held then Key else Timer;
      es, t := [Interrupt(i)], Apply(lib, s, Interrupt(i));
      assert es[1..] == [];
    } else {
      InsideStep(lib, ops, depth, held);
      es, t := BreakRun(lib, ops[1..], DepthAfter(ops[0], depth), HeldAfter(ops[0], held));
      assert ([MainStep] + es)[1..] == es;
      es := [MainStep] + es;
    }
  }

  /** The discipline is exact: a library of balanced procedures never makes anyone wait forever
      if and only if every procedure is guarded. */
  lemma SafeIffGuarded(lib: seq<seq<Op>>)
    requires Library(lib)
    ensures (forall s :: Reachable(lib, s) ==> !s.Spins()) <==> AllGuarded(lib)
  {
    if AllGuarded(lib) {
      forall s | Reachable(lib, s)
        ensures !s.Spins()
      {
        var es :| Run(lib, START, es, s);
        RunInv(lib, START, es, s);
        NoSpin(s);
      }
    } else {
      var p :| 0 <= p < |lib| && !Guarded(lib[p], 0, {});
      var es, t := BreakRun(lib, lib[p], 0, {});
      EntersWithInterruptsOn(lib, p, es, t);
      assert Reachable(lib, t);
    }
  }

  lemma EntersWithInterruptsOn(lib: seq<seq<Op>>, p: nat, es: seq<Event>, t: State)
    requires p < |lib| && Run(lib, Inside(lib[p], 0, {}), es, t)
    ensures Run(lib, START, [SetFlag(true), Enter(p)] + es, t)
  {
    var all := [SetFlag(true), Enter(p)] + es;
    assert all[1..] == [Enter(p)] + es && all[1..][1..] == es;
    assert Apply(lib, Apply(lib, START, SetFlag(true)), Enter(p)) == Inside(lib[p], 0, {});
  }
}
