/** The intermediate representation a guest basic block is lifted to: a graph of nodes, grouped into packets (one
    per guest instruction), with a list of action nodes in each packet. Node numbers are creation order. */
module Ir {
  /** The flag registers the dead-flag pass tracks. */
  datatype FlagReg = ZF | CF | OF | SF | PF

  datatype Reg = Flag(flag: FlagReg) | Other(index: nat)

  datatype PortKind = Value | Zero | Negative | Overflow | Carry | OperationValue
  datatype Port = Port(owner: nat, kind: PortKind)

  /** Arith stands for the unary, binary and ternary arithmetic nodes, Pure for every other node that only
      computes a value (constants, casts, selects, shifts, memory and local reads ...), Effect for every action
      that is not one of the others (memory, PC and local writes). */
  datatype Node =
    | ReadReg(reg: Reg)
    | Arith(op: nat, args: seq<Port>)
    | Pure(op: nat, args: seq<Port>)
    | WriteReg(reg: Reg, value: Port)
    | Atomic(op: nat, args: seq<Port>)
    | InternalCall(op: nat, args: seq<Port>)
    | Effect(op: nat, args: seq<Port>)

  function Operands(n: Node): seq<Port> {
    match n
    case ReadReg(_) => []
    case WriteReg(_, v) => [v]
    case _ => n.args
  }

  predicate IsAction(n: Node) {
    n.WriteReg? || n.Atomic? || n.InternalCall? || n.Effect?
  }

  /** Nodes whose accept returns early once the traversal has marked them. */
  predicate Guarded(n: Node) {
    n.Atomic? || n.InternalCall?
  }

  /** Nodes whose ports can be operands. */
  predicate HasValue(n: Node) {
    !n.WriteReg? && !n.Effect?
  }

  predicate IsFlagWrite(n: Node) {
    n.WriteReg? && n.reg.Flag?
  }

  /** A packet owns the nodes first <= id < end; its actions are listed in creation order. */
  datatype Packet = Packet(first: nat, end: nat, actions: seq<nat>)

  predicate Ascending(s: seq<nat>) {
    forall i, j :: 0 <= i < j < |s| ==> s[i] < s[j]
  }

  /** Operands were created before their users, in the same packet, and are nodes that have a value. */
  predicate NodeOk(g: seq<Node>, first: nat, id: nat)
    requires id < |g|
  {
    forall p :: p in Operands(g[id]) ==>
      first <= p.owner < id && HasValue(g[p.owner])
  }

  /** Every node of a packet below bound is well formed. */
  ghost predicate Built(g: seq<Node>, first: nat, bound: nat) {
    bound <= |g| && forall id :: first <= id < bound ==> NodeOk(g, first, id)
  }

  ghost predicate PacketOk(g: seq<Node>, p: Packet) {
    && p.first <= p.end && Built(g, p.first, p.end)
    && Ascending(p.actions)
    && (forall a :: a in p.actions ==> p.first <= a < p.end && IsAction(g[a]))
  }

  /** The packets of a chunk own consecutive ranges of nodes: no node is shared between guest instructions. */
  ghost predicate ChunkOk(g: seq<Node>, packets: seq<Packet>) {
    && (forall p :: p in packets ==> PacketOk(g, p))
    && (forall i, j :: 0 <= i < j < |packets| ==> packets[i].end <= packets[j].first)
  }

  // ---------------------------------------------------------------------------------------------
  // Meaning
  // ---------------------------------------------------------------------------------------------

  datatype Flags = Flags(zf: int, cf: int, of: int, sf: int, pf: int)

  function GetFlag(s: Flags, f: FlagReg): int {
    match f
    case ZF => s.zf
    case CF => s.cf
    case OF => s.of
    case SF => s.sf
    case PF => s.pf
  }

  function SetFlag(s: Flags, f: FlagReg, v: int): Flags {
    match f
    case ZF => s.(zf := v)
    case CF => s.(cf := v)
    case OF => s.(of := v)
    case SF => s.(sf := v)
    case PF => s.(pf := v)
  }

  /** The guest state apart from the tracked flags. */
  datatype Rest = Rest(regs: map<nat, int>, memory: map<int, int>)

  datatype Guest = Guest(flags: Flags, rest: Rest)

  /** The values on a node's ports. */
  datatype Ports = Ports(value: int, zero: int, negative: int, overflow: int, carry: int, operation: int)

  function PortValue(p: Ports, k: PortKind): int {
    match k
    case Value => p.value
    case Zero => p.zero
    case Negative => p.negative
    case Overflow => p.overflow
    case Carry => p.carry
    case OperationValue => p.operation
  }

  function JustValue(v: int): Ports {
    Ports(v, 0, 0, 0, 0, 0)
  }

  /** What the operations mean. Nothing is assumed about them, except that they neither see nor change the tracked
      flags other than through their operands and flag writes. A flag read gives the flag's value at the start of
      the packet, or, with inOrder, its value when the read is reached. */
  datatype Meaning = Meaning(
    inOrder: bool,
    readOther: (nat, Rest) -> int,
    writeOther: (nat, int, Rest) -> Rest,
    compute: (nat, seq<int>, Rest) -> Ports,
    effect: (nat, seq<int>, Rest) -> Rest)

  /** Where execution of a packet has got to; env holds the port values of the nodes made so far. */
  datatype Progress = Progress(flags: Flags, rest: Rest, env: seq<Ports>)

  function Operand(first: nat, env: seq<Ports>, p: Port): int {
    if first <= p.owner < first + |env| then PortValue(env[p.owner - first], p.kind) else 0
  }

  function ArgValues(first: nat, env: seq<Ports>, args: seq<Port>): (r: seq<int>)
    ensures |r| == |args|
    ensures forall i :: 0 <= i < |args| ==> r[i] == Operand(first, env, args[i])
  {
    if args == [] then [] else [Operand(first, env, args[0])] + ArgValues(first, env, args[1..])
  }

  /** The port values a node gets when it is reached, computed from its operands and the state at that point. */
  function NodePorts(m: Meaning, first: nat, n: Node, entry: Flags, s: Progress): Ports {
    match n
    case ReadReg(Flag(f)) => JustValue(GetFlag(if m.inOrder then s.flags else entry, f))
    case ReadReg(Other(i)) => JustValue(m.readOther(i, s.rest))
    case WriteReg(_, _) => JustValue(0)
    case Effect(_, _) => JustValue(0)
    case _ => m.compute(n.op, ArgValues(first, s.env, n.args), s.rest)
  }

  /** The state change of an action. */
  function Act(m: Meaning, first: nat, n: Node, s: Progress): Progress {
    match n
    case WriteReg(Flag(f), v) => s.(flags := SetFlag(s.flags, f, Operand(first, s.env, v)))
    case WriteReg(Other(i), v) => s.(rest := m.writeOther(i, Operand(first, s.env, v), s.rest))
    case ReadReg(_) => s
    case _ => s.(rest := m.effect(n.op, ArgValues(first, s.env, n.args), s.rest))
  }

  /** One node: perform its action, if it is on the packet's list, and record its port values. */
  function ExecNode(m: Meaning, g: seq<Node>, p: Packet, entry: Flags, id: nat, s: Progress): Progress
    requires id < |g|
  {
    var ports := NodePorts(m, p.first, g[id], entry, s);
    var s' := if id in p.actions then Act(m, p.first, g[id], s) else s;
    s'.(env := s.env + [ports])
  }

  /** Nodes id, id + 1, ... of the packet, in creation order. */
  function ExecFrom(m: Meaning, g: seq<Node>, p: Packet, entry: Flags, id: nat, s: Progress): Progress
    requires p.end <= |g|
    decreases p.end - id
  {
    if id >= p.end then s
    else ExecFrom(m, g, p, entry, id + 1, ExecNode(m, g, p, entry, id, s))
  }

  function ExecPacket(m: Meaning, g: seq<Node>, p: Packet, s: Guest): Guest
    requires p.end <= |g|
  {
    var r := ExecFrom(m, g, p, s.flags, p.first, Progress(s.flags, s.rest, []));
    Guest(r.flags, r.rest)
  }

  function ExecChunk(m: Meaning, g: seq<Node>, packets: seq<Packet>, s: Guest): Guest
    requires forall p :: p in packets ==> p.end <= |g|
    decreases |packets|
  {
    if packets == [] then s
    else ExecChunk(m, g, packets[1..], ExecPacket(m, g, packets[0], s))
  }

  /** No packet writes a flag and reads it afterwards. */
  ghost predicate ReadsFirst(g: seq<Node>, p: Packet) {
    forall w, r :: w in p.actions && w < r < p.end <= |g| && IsFlagWrite(g[w]) ==> g[r] != ReadReg(g[w].reg)
  }

  lemma {:induction false} SameOrderFrom(m: Meaning, g: seq<Node>, p: Packet, entry: Flags, id: nat, s: Progress)
    requires p.end <= |g| && ReadsFirst(g, p)
    requires forall r, f :: id <= r < p.end && g[r] == ReadReg(Flag(f)) ==> GetFlag(s.flags, f) == GetFlag(entry, f)
    ensures ExecFrom(m, g, p, entry, id, s) == ExecFrom(m.(inOrder := false), g, p, entry, id, s)
    decreases p.end - id
  {
    if id < p.end {
      SameOrderFrom(m, g, p, entry, id + 1, ExecNode(m, g, p, entry, id, s));
    }
  }

  /** In such packets it does not matter when flag reads are made. */
  lemma {:induction false} SameOrder(m: Meaning, g: seq<Node>, packets: seq<Packet>, s: Guest)
    requires forall p :: p in packets ==> p.end <= |g| && ReadsFirst(g, p)
    ensures ExecChunk(m, g, packets, s) == ExecChunk(m.(inOrder := false), g, packets, s)
    decreases |packets|
  {
    if packets != [] {
      var p := packets[0];
      SameOrderFrom(m, g, p, s.flags, p.first, Progress(s.flags, s.rest, []));
      SameOrder(m, g, packets[1..], ExecPacket(m, g, p, s));
    }
  }
}
