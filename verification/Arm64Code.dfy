/** Instructions as the arm64 backend builds them: registers of two banks, and instructions that must be kept whatever
    becomes of their results. */
module Arm64Code {
  import opened Wrappers

  /** A physical register: its bank and its number; from 32 on, a special one such as nzcv. */
  datatype PhysReg = PhysReg(float: bool, number: nat)

  /** How much of a register an operand names: the low 32 bits, or all 64. */
  datatype Width = W32 | W64

  /** float: the type the operand's register has. */
  datatype Location =
    | Invalid
    | Phys(reg: PhysReg)
    | Virt(index: nat, float: bool)
    | MemPhys(base: PhysReg, displacement: int)
    | MemVirt(index: nat, float: bool, displacement: int)
    | Imm(value: int)

  datatype Operand = Operand(loc: Location, width: Width, use: bool, def: bool)

  /** mov: the opcode's name contains "mov". */
  datatype Opcode = Dead | Op(code: nat, mov: bool)

  datatype Insn = Insn(opcode: Opcode, keep: bool, operands: seq<Operand>)

  predicate ReadsSomeVirt(o: Operand) {
    (o.loc.Virt? && o.use) || o.loc.MemVirt?
  }

  predicate ReadsVirt(o: Operand, v: nat) {
    ReadsSomeVirt(o) && o.loc.index == v
  }

  /** Only registers can be real definitions, and only when they are not also read. */
  predicate PureDef(o: Operand) {
    o.loc.Virt? && o.def && !o.use
  }

  function ReadSet(ops: seq<Operand>): set<nat> {
    if ops == [] then {}
    else (if ReadsSomeVirt(ops[0]) then {ops[0].loc.index} else {}) + ReadSet(ops[1..])
  }

  lemma {:induction false} ReadSetMeaning(ops: seq<Operand>, v: nat)
    ensures v in ReadSet(ops) <==> exists i :: 0 <= i < |ops| && ReadsVirt(ops[i], v)
    decreases |ops|
  {
    if ops != [] {
      ReadSetMeaning(ops[1..], v);
      assert forall i :: 0 <= i < |ops| - 1 ==> ops[1..][i] == ops[i + 1];
      if i :| 0 <= i < |ops| && ReadsVirt(ops[i], v) {
        if i > 0 { assert ReadsVirt(ops[1..][i - 1], v); }
      }
    }
  }

  /** The virtual register an instruction purely defines; it has at most one. */
  function DefOf(ops: seq<Operand>): Option<nat> {
    if ops == [] then None else if PureDef(ops[0]) then Some(ops[0].loc.index) else DefOf(ops[1..])
  }

  function DefSet(ops: seq<Operand>): set<nat> {
    match DefOf(ops)
    case None => {}
    case Some(v) => {v}
  }

  lemma {:induction false} DefOfMeaning(ops: seq<Operand>, v: nat)
    ensures DefOf(ops) == Some(v) ==> exists i :: 0 <= i < |ops| && PureDef(ops[i]) && ops[i].loc.index == v
    ensures DefOf(ops) == None ==> forall i :: 0 <= i < |ops| ==> !PureDef(ops[i])
    decreases |ops|
  {
    if ops != [] && !PureDef(ops[0]) {
      DefOfMeaning(ops[1..], v);
      assert forall i :: 0 <= i < |ops| - 1 ==> ops[1..][i] == ops[i + 1];
      if DefOf(ops) == Some(v) {
        var i :| 0 <= i < |ops[1..]| && PureDef(ops[1..][i]) && ops[1..][i].loc.index == v;
        assert PureDef(ops[i + 1]);
      }
      if DefOf(ops) == None {
        forall i | 0 <= i < |ops| ensures !PureDef(ops[i]) { if i > 0 { assert !PureDef(ops[1..][i - 1]); } }
      }
    }
  }

  predicate Names(o: Operand, v: nat) {
    (o.loc.Virt? || o.loc.MemVirt?) && o.loc.index == v
  }

  predicate Mentions(n: Insn, v: nat) {
    exists i :: 0 <= i < |n.operands| && Names(n.operands[i], v)
  }

  // ---------------------------------------------------------------------------------------------
  // Meaning
  // ---------------------------------------------------------------------------------------------

  /** Everything besides registers: guest memory, CPU state, the host flags. */
  datatype Rest = Rest(memory: map<int, int>, flags: int)

  datatype Host = Host(virt: nat -> int, phys: PhysReg -> int, rest: Rest)

  /** What an operand looks like once it no longer matters which register it names; bank and width stay visible. */
  datatype Shape = NoShape | RegShape(float: bool, width: Width) | MemShape(displacement: int) | ImmShape(value: int)

  function ShapeOf(o: Operand): (Shape, bool, bool) {
    var s := match o.loc
      case Invalid => NoShape
      case Phys(r) => RegShape(r.float, o.width)
      case Virt(_, f) => RegShape(f, o.width)
      case MemPhys(_, d) => MemShape(d)
      case MemVirt(_, _, d) => MemShape(d)
      case Imm(v) => ImmShape(v);
    (s, o.use, o.def)
  }

  type Shapes = seq<(Shape, bool, bool)>

  function ShapesOf(ops: seq<Operand>): Shapes {
    seq(|ops|, i requires 0 <= i < |ops| => ShapeOf(ops[i]))
  }

  /** What of a value goes through an operand: reading the 32-bit name of a register gives its low half, writing it
      clears the upper one. */
  function Low(w: Width, x: int): int {
    if w.W32? then x % 0x1_0000_0000 else x
  }

  /** A register operand brings in what it names of the register; a memory operand, its whole base register. */
  function Input(o: Operand, h: Host): int {
    match o.loc
    case Virt(v, _) => if o.use then Low(o.width, h.virt(v)) else 0
    case Phys(r) => if o.use then Low(o.width, h.phys(r)) else 0
    case MemVirt(v, _, _) => h.virt(v)
    case MemPhys(r, _) => h.phys(r)
    case _ => 0
  }

  function Inputs(ops: seq<Operand>, h: Host): seq<int> {
    seq(|ops|, i requires 0 <= i < |ops| => Input(ops[i], h))
  }

  /** What an instruction computes: a value for each operand, of which those of written registers matter, and the
      rest. */
  datatype Outcome = Outcome(results: nat -> int, rest: Rest)

  type Meaning = (Opcode, Shapes, seq<int>, Rest) -> Outcome

  function SetVirt(h: Host, v: nat, x: int): Host {
    h.(virt := (u: nat) => if u == v then x else h.virt(u))
  }

  function SetPhys(h: Host, r: PhysReg, x: int): Host {
    h.(phys := (q: PhysReg) => if q == r then x else h.phys(q))
  }

  function Store(o: Operand, result: int, h: Host): Host {
    if !o.def then h
    else match o.loc
      case Virt(v, _) => SetVirt(h, v, Low(o.width, result))
      case Phys(r) => SetPhys(h, r, Low(o.width, result))
      case _ => h
  }

  /** Every written register, in operand order, from operand i on. */
  function StoreFrom(ops: seq<Operand>, i: nat, results: nat -> int, h: Host): Host
    decreases |ops| - i
  {
    if i >= |ops| then h else StoreFrom(ops, i + 1, results, Store(ops[i], results(i), h))
  }

  function Exec(m: Meaning, n: Insn, h: Host): Host {
    if n.opcode.Dead? then h
    else
      var out := m(n.opcode, ShapesOf(n.operands), Inputs(n.operands, h), h.rest);
      StoreFrom(n.operands, 0, out.results, h).(rest := out.rest)
  }

  function ExecAll(m: Meaning, code: seq<Insn>, h: Host): Host {
    if code == [] then h else ExecAll(m, code[1..], Exec(m, code[0], h))
  }
}
