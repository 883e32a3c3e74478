/** The guest side of a run: what guest code does, independently of how it is translated or dispatched.
    Guest code never changes; block bodies are sequences of micro-operations, and threads share memory. */
module GuestProgram {
  import opened Wrappers

  type Pc = nat
  type Regs = map<nat, int>
  type Memory = map<int, int>

  /** The part of the machine a thread's code acts on: its own registers and the memory all threads share. */
  datatype Machine = Machine(regs: Regs, memory: Memory)
  type MicroOp = Machine -> Machine

  /** The br_type a write_pc node carries. */
  datatype BranchKind = Branch | Call | Ret

  /** The value tree below a write_pc node, as far as exit selection looks at it: a tree the constant
      folder can evaluate, a conditional select, or anything else. */
  datatype PcValue =
    | Known(pc: Pc)
    | Select(cond: Machine -> bool, whenTrue: PcValue, whenFalse: PcValue)
    | Computed(f: Machine -> Pc)

  datatype Terminator =
    | WritePc(kind: BranchKind, value: PcValue)
    | Syscall(next: Pc)
    | Trap

  datatype GuestBlock = GuestBlock(body: seq<MicroOp>, end: Terminator)

  datatype KernelResult = KernelResult(after: Machine, spawn: Option<Regs>, exit: bool)

  /** code gives the block that starts at a PC, if one can be decoded there; kernel is the effect of a system call. */
  datatype Guest = Guest(code: Pc -> Option<GuestBlock>, kernel: Machine -> KernelResult)

  /** What the guest can observe of a thread: which block and micro-operation it is at, its registers, and how
      many guest calls it is inside of. */
  datatype GuestMode = At(pc: Pc, pos: nat) | InKernel(pc: Pc) | Stopped
  datatype GuestThread = GuestThread(mode: GuestMode, regs: Regs, depth: nat)
  datatype GuestState = GuestState(threads: seq<GuestThread>, memory: Memory)

  function EvalPc(v: PcValue, m: Machine): Pc {
    match v
    case Known(pc) => pc
    case Select(c, t, f) => if c(m) then EvalPc(t, m) else EvalPc(f, m)
    case Computed(f) => f(m)
  }

  /** The architectural effect of leaving a block. */
  function Terminate(end: Terminator, th: GuestThread, memory: Memory): GuestThread {
    match end
    case WritePc(Branch, v) => th.(mode := At(EvalPc(v, Machine(th.regs, memory)), 0))
    case WritePc(Call, v) => th.(mode := At(EvalPc(v, Machine(th.regs, memory)), 0), depth := th.depth + 1)
    case WritePc(Ret, v) =>
      if th.depth == 0 then th.(mode := Stopped)
      else th.(mode := At(EvalPc(v, Machine(th.regs, memory)), 0), depth := th.depth - 1)
    case Syscall(next) => th.(mode := InKernel(next))
    case Trap => th.(mode := Stopped)
  }

  /** One observable step of guest thread t, or None when it has none (it has stopped, or sits at a PC where no
      block can be decoded). */
  function GuestStep(g: Guest, s: GuestState, t: nat): Option<GuestState> {
    if t >= |s.threads| then None else
    var th := s.threads[t];
    match th.mode
    case Stopped => None
    case InKernel(pc) =>
      var k := g.kernel(Machine(th.regs, s.memory));
      var mode := if k.exit then Stopped else At(pc, 0);
      var threads := s.threads[t := th.(mode := mode, regs := k.after.regs)];
      var spawned := if k.spawn.Some? then [GuestThread(At(pc, 0), k.spawn.value, 0)] else [];
      Some(GuestState(threads + spawned, k.after.memory))
    case At(pc, pos) =>
      match g.code(pc)
      case None => None
      case Some(block) =>
        if pos < |block.body| then
          var m := block.body[pos](Machine(th.regs, s.memory));
          Some(GuestState(s.threads[t := th.(mode := At(pc, pos + 1), regs := m.regs)], m.memory))
        else
          Some(s.(threads := s.threads[t := Terminate(block.end, th, s.memory)]))
  }

  /** The states a schedule of observable steps goes through; a step a thread cannot take is skipped. */
  function GuestTrace(g: Guest, s: GuestState, schedule: seq<nat>): seq<(nat, GuestState)>
    decreases |schedule|
  {
    if schedule == [] then []
    else match GuestStep(g, s, schedule[0])
      case None => GuestTrace(g, s, schedule[1..])
      case Some(s') => [(schedule[0], s')] + GuestTrace(g, s', schedule[1..])
  }
}
