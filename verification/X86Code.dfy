/** Instructions as the x86 backend builds them, before and after register allocation, and what they do. */
module X86Code {
  import opened Wrappers

  /** Registers: the six the allocator hands out, in the order it numbers them, and the rest, which it never touches. */
  datatype PhysReg = AX | CX | DX | BX | DI | SI | Reserved(name: nat)

  function Assign(index: nat): PhysReg
    requires index < 6
  {
    match index
    case 0 => AX
    case 1 => CX
    case 2 => DX
    case 3 => BX
    case 4 => DI
    case _ => SI
  }

  lemma AssignInjective(i: nat, j: nat)
    requires i < 6 && j < 6 && Assign(i) == Assign(j)
    ensures i == j
  {
  }

  datatype Location =
    | Invalid
    | Phys(reg: PhysReg)
    | Virt(index: nat)
    | MemPhys(base: PhysReg, displacement: int)
    | MemVirt(index: nat, displacement: int)
    | Imm(value: int)

  datatype Width = B8 | B16 | B32 | B64

  datatype Operand = Operand(loc: Location, width: Width, use: bool, def: bool)

  /** An opcode; Dead is the value a killed instruction has, Move the four register-to-register moves. */
  datatype Opcode = Dead | Move(width: Width) | Op(code: nat)

  datatype Insn = Insn(opcode: Opcode, operands: seq<Operand>)

  /** The virtual register an operand reads: a register use, or the base of a memory operand. */
  predicate ReadsVirt(o: Operand, v: nat) {
    (o.loc == Virt(v) && o.use) || (o.loc.MemVirt? && o.loc.index == v)
  }

  predicate ReadsSomeVirt(o: Operand) {
    (o.loc.Virt? && o.use) || o.loc.MemVirt?
  }

  /** Only registers can be real definitions, and only when they are not also read. */
  predicate PureDef(o: Operand) {
    o.loc.Virt? && o.def && !o.use
  }

  /** An operand that the instruction writes into a register. */
  predicate WritesReg(o: Operand) {
    o.def && (o.loc.Virt? || o.loc.Phys?)
  }

  function ReadSet(ops: seq<Operand>): set<nat> {
    if ops == [] then {}
    else (if ReadsSomeVirt(ops[0]) then {ops[0].loc.index} else {}) + ReadSet(ops[1..])
  }

  lemma {:induction false} ReadSetMeaning(ops: seq<Operand>, v: nat)
    ensures v in ReadSet(ops) <==> exists i :: 0 <= i < |ops| && ReadsVirt(ops[i], v)
    decreases |ops|
  {
    if ops != [] {
      ReadSetMeaning(ops[1..], v);
      assert forall i :: 0 <= i < |ops| - 1 ==> ops[1..][i] == ops[i + 1];
      if i :| 0 <= i < |ops| && ReadsVirt(ops[i], v) {
        if i > 0 { assert ReadsVirt(ops[1..][i - 1], v); }
      }
    }
  }

  function PureDefSet(ops: seq<Operand>): set<nat> {
    if ops == [] then {}
    else (if PureDef(ops[0]) then {ops[0].loc.index} else {}) + PureDefSet(ops[1..])
  }

  lemma {:induction false} PureDefSetMeaning(ops: seq<Operand>, v: nat)
    ensures v in PureDefSet(ops) <==> exists i :: 0 <= i < |ops| && PureDef(ops[i]) && ops[i].loc.index == v
    decreases |ops|
  {
    if ops != [] {
      PureDefSetMeaning(ops[1..], v);
      assert forall i :: 0 <= i < |ops| - 1 ==> ops[1..][i] == ops[i + 1];
      if i :| 0 <= i < |ops| && PureDef(ops[i]) && ops[i].loc.index == v {
        if i > 0 { assert PureDef(ops[1..][i - 1]); }
      }
    }
  }

  /** Virtual registers an instruction mentions. */
  predicate Mentions(n: Insn, v: nat) {
    exists i :: 0 <= i < |n.operands| &&
      (n.operands[i].loc == Virt(v) || (n.operands[i].loc.MemVirt? && n.operands[i].loc.index == v))
  }

  // ---------------------------------------------------------------------------------------------
  // Meaning
  // ---------------------------------------------------------------------------------------------

  /** Everything an instruction can touch besides registers: guest memory, CPU state, the host flags. */
  datatype Rest = Rest(memory: map<int, int>, flags: int)

  /** Registers of both kinds, and the rest. */
  datatype Host = Host(virt: nat -> int, phys: PhysReg -> int, rest: Rest)

  /** What an operand looks like once it no longer matters which register it names. */
  datatype Shape = NoShape | RegShape(width: Width) | MemShape(displacement: int, width: Width) | ImmShape(value: int)

  function ShapeOf(o: Operand): (Shape, bool, bool) {
    var s := match o.loc
      case Invalid => NoShape
      case Phys(_) => RegShape(o.width)
      case Virt(_) => RegShape(o.width)
      case MemPhys(_, d) => MemShape(d, o.width)
      case MemVirt(_, d) => MemShape(d, o.width)
      case Imm(v) => ImmShape(v);
    (s, o.use, o.def)
  }

  function Shapes(ops: seq<Operand>): seq<(Shape, bool, bool)> {
    seq(|ops|, i requires 0 <= i < |ops| => ShapeOf(ops[i]))
  }

  /** What reading a register of content x at a width gives. */
  function Low(w: Width, x: int): int {
    match w
    case B64 => x
    case B32 => x % 0x1_0000_0000
    case B16 => x % 0x1_0000
    case B8 => x % 0x100
  }

  /** What writing x at a width leaves in a register of content had: 32-bit writes clear the upper half, narrower ones
      keep what is above. */
  function Merge(w: Width, had: int, x: int): int {
    match w
    case B64 => x
    case B32 => Low(B32, x)
    case _ => had - Low(w, had) + Low(w, x)
  }

  /** What an operand brings in: the part of a register it names, or, for a memory operand, its whole base. */
  function Input(o: Operand, h: Host): int {
    match o.loc
    case Virt(v) => if o.use then Low(o.width, h.virt(v)) else 0
    case Phys(r) => if o.use then Low(o.width, h.phys(r)) else 0
    case MemVirt(v, _) => h.virt(v)
    case MemPhys(r, _) => h.phys(r)
    case _ => 0
  }

  function Inputs(ops: seq<Operand>, h: Host): seq<int> {
    seq(|ops|, i requires 0 <= i < |ops| => Input(ops[i], h))
  }

  /** What an instruction computes from what it reads: the value it writes to its register destination, and the rest. */
  datatype Outcome = Outcome(result: int, rest: Rest)

  /** What the opcodes mean. */
  type Meaning = (Opcode, seq<(Shape, bool, bool)>, seq<int>, Rest) -> Outcome

  /** The register an instruction writes; it has at most one. */
  function Destination(ops: seq<Operand>): (d: Option<Operand>)
    ensures d.Some? <==> exists i :: 0 <= i < |ops| && WritesReg(ops[i])
    ensures d.Some? ==> exists i :: 0 <= i < |ops| && WritesReg(ops[i]) && ops[i] == d.value
  {
    if ops == [] then None
    else if WritesReg(ops[0]) then Some(ops[0])
    else
      assert forall i :: 0 < i < |ops| ==> ops[1..][i - 1] == ops[i];
      assert forall i :: 0 <= i < |ops| - 1 ==> ops[1..][i] == ops[i + 1];
      Destination(ops[1..])
  }

  function SetVirt(h: Host, v: nat, x: int): Host {
    h.(virt := (u: nat) => if u == v then x else h.virt(u))
  }

  function SetPhys(h: Host, r: PhysReg, x: int): Host {
    h.(phys := (q: PhysReg) => if q == r then x else h.phys(q))
  }

  function Store(d: Option<Operand>, result: int, h: Host): Host {
    match d
    case Some(Operand(Virt(v), w, _, _)) => SetVirt(h, v, Merge(w, h.virt(v), result))
    case Some(Operand(Phys(r), w, _, _)) => SetPhys(h, r, Merge(w, h.phys(r), result))
    case _ => h
  }

  function Exec(m: Meaning, n: Insn, h: Host): Host {
    if n.opcode.Dead? then h
    else
      var out := m(n.opcode, Shapes(n.operands), Inputs(n.operands, h), h.rest);
      Store(Destination(n.operands), out.result, h).(rest := out.rest)
  }

  function ExecAll(m: Meaning, code: seq<Insn>, h: Host): Host {
    if code == [] then h else ExecAll(m, code[1..], Exec(m, code[0], h))
  }
}
