/** The RISC-V backend's lazy register cache: guest registers are loaded into fixed host registers when first
    needed, written there, and stored back at the exits of a block. */
module RegCache {
  import opened CpuState

  // ---------------------------------------------------------------------------------------------
  // Guest side
  // ---------------------------------------------------------------------------------------------

  /** Guest register numbers: 1..16 are the general-purpose registers RAX..R15, 17..24 the flags. */
  const FIRST_FLAG := 17
  const LAST := 24

  predicate IsGpr(idx: nat) {
    1 <= idx <= 16
  }

  predicate IsFlag(idx: nat) {
    FIRST_FLAG <= idx <= LAST
  }

  predicate IsMapped(idx: nat) {
    1 <= idx <= LAST
  }

  /** What an instruction does with guest registers: read one into a value, write one from a value, or compute. */
  datatype Access =
    | Read(idx: nat, value: nat)
    | Write(idx: nat, value: nat)
    | Compute(value: nat, f: Values -> Word)

  /** Words by number: guest registers, host registers, or the temporaries the code computes. */
  type Values = map<nat, Word>

  function Get(m: Values, v: nat): Word {
    if v in m then m[v] else 0
  }

  type Instruction = seq<Access>

  predicate AccessOk(a: Access) {
    a.Compute? || IsMapped(a.idx)
  }

  predicate InstructionOk(p: Instruction) {
    forall i :: 0 <= i < |p| ==> AccessOk(p[i])
  }

  predicate BlockOk(block: seq<Instruction>) {
    forall k :: 0 <= k < |block| ==> InstructionOk(block[k])
  }

  /** Guest registers and the values computed so far. */
  datatype Guest = Guest(regs: Values, values: Values)

  function Do(a: Access, g: Guest): Guest {
    match a
    case Read(idx, v) => g.(values := g.values[v := Get(g.regs, idx)])
    case Write(idx, v) => g.(regs := g.regs[idx := Get(g.values, v)])
    case Compute(v, f) => g.(values := g.values[v := f(g.values)])
  }

  function DoAll(p: seq<Access>, g: Guest): Guest {
    if p == [] then g else DoAll(p[1..], Do(p[0], g))
  }

  function DoBlock(block: seq<Instruction>, g: Guest): Guest {
    if block == [] then g else DoBlock(block[1..], DoAll(block[0], g))
  }

  /** Every flag the accesses write gets 0 or 1. */
  predicate WritesBinary(p: seq<Access>, g: Guest)
    decreases |p|
  {
    p == [] ||
    ((p[0].Write? && IsFlag(p[0].idx) ==> Get(g.values, p[0].value) == 0 || Get(g.values, p[0].value) == 1)
     && WritesBinary(p[1..], Do(p[0], g)))
  }

  predicate BlockWritesBinary(block: seq<Instruction>, g: Guest)
    decreases |block|
  {
    block == [] || (WritesBinary(block[0], g) && BlockWritesBinary(block[1..], DoAll(block[0], g)))
  }

  // ---------------------------------------------------------------------------------------------
  // Host side
  // ---------------------------------------------------------------------------------------------

  /** Emitted instructions. Offsets are from FP, which points at the CPU state. */
  datatype HostInsn =
    | Ld(reg: nat, offset: nat)
    | Lb(reg: nat, offset: nat)
    | Sd(reg: nat, offset: nat)
    | Sb(reg: nat, offset: nat)
    | FromMapped(value: nat, reg: nat)   // mv of a mapped register into a value
    | ToMapped(reg: nat, value: nat)     // mv of a value into a mapped register
    | Calc(value: nat, f: Values -> Word)

  /** Mapped registers, other values, and the bytes of the CPU state. */
  datatype Host = Host(mapped: Values, values: Values, cpu: Bytes)

  /** ld: eight bytes. */
  function LoadDouble(cpu: Bytes, o: nat): Word {
    DoubleCapacity();
    LoadBytes(cpu, o, 8)
  }

  /** lb: one byte, sign-extended. */
  function LoadSigned(cpu: Bytes, o: nat): Word {
    if ByteAt(cpu, o) < 128 then ByteAt(cpu, o) else 0xFFFF_FFFF_FFFF_FF00 + ByteAt(cpu, o)
  }

  function Exec(i: HostInsn, h: Host): Host {
    match i
    case Ld(r, o) => h.(mapped := h.mapped[r := LoadDouble(h.cpu, o)])
    case Lb(r, o) => h.(mapped := h.mapped[r := LoadSigned(h.cpu, o)])
    case Sd(r, o) => h.(cpu := StoreBytes(h.cpu, o, 8, Get(h.mapped, r)))
    case Sb(r, o) => h.(cpu := StoreBytes(h.cpu, o, 1, Get(h.mapped, r)))
    case FromMapped(v, r) => h.(values := h.values[v := Get(h.mapped, r)])
    case ToMapped(r, v) => h.(mapped := h.mapped[r := Get(h.values, v)])
    case Calc(v, f) => h.(values := h.values[v := f(h.values)])
  }

  function ExecAll(code: seq<HostInsn>, h: Host): Host {
    if code == [] then h else Exec(code[|code| - 1], ExecAll(code[..|code| - 1], h))
  }

  // ---------------------------------------------------------------------------------------------
  // The translator
  // ---------------------------------------------------------------------------------------------

  /** The least offset of ZF, CF, OF and SF. */
  const FLAG_OFF := 136

  /** Which registers have been loaded and which written since the block began, and the code so far. */
  datatype Tracker = Tracker(
    regLoaded: set<nat>, regWritten: set<nat>, flagLoaded: set<nat>, flagWritten: set<nat>, code: seq<HostInsn>)

  /** begin_block: the trampoline has loaded the first eight registers. */
  function BeginBlock(): Tracker {
    Tracker({0, 1, 2, 3, 4, 5, 6, 7}, {}, {}, {}, [])
  }

  function Emit(t: Tracker, i: HostInsn): Tracker {
    t.(code := t.code + [i])
  }

  function GetOrLoad(t: Tracker, idx: nat): Tracker
    requires IsMapped(idx)
  {
    if IsGpr(idx) then
      if idx - 1 in t.regLoaded then t
      else Emit(t.(regLoaded := t.regLoaded + {idx - 1}), Ld(idx - 1, 8 * idx))
    else
      var i := idx - FIRST_FLAG;
      if i in t.flagLoaded then t
      else Emit(t.(flagLoaded := t.flagLoaded + {i}), Lb(16 + i, FLAG_OFF + i))
  }

  /** An assignment counts as a load as well as a write. */
  function GetOrAssign(t: Tracker, idx: nat): Tracker
    requires IsMapped(idx)
  {
    if IsGpr(idx) then t.(regLoaded := t.regLoaded + {idx - 1}, regWritten := t.regWritten + {idx - 1})
    else
      var i := idx - FIRST_FLAG;
      t.(flagLoaded := t.flagLoaded + {i}, flagWritten := t.flagWritten + {i})
  }

  function Materialise(t: Tracker, a: Access): Tracker
    requires AccessOk(a)
  {
    match a
    case Read(idx, v) => Emit(GetOrLoad(t, idx), FromMapped(v, idx - 1))
    case Write(idx, v) => Emit(GetOrAssign(t, idx), ToMapped(idx - 1, v))
    case Compute(v, f) => Emit(t, Calc(v, f))
  }

  function MaterialiseAll(t: Tracker, p: seq<Access>): Tracker
    requires InstructionOk(p)
    decreases |p|
  {
    if p == [] then t
    else
      assert forall i :: 0 <= i < |p| - 1 ==> p[1..][i] == p[i + 1];
      MaterialiseAll(Materialise(t, p[0]), p[1..])
  }

  predicate ReadsReg(p: Instruction, idx: nat) {
    exists i :: 0 <= i < |p| && p[i].Read? && p[i].idx == idx
  }

  /** end_instruction first loads every register the instruction reads, lowest number first. */
  function Preload(t: Tracker, p: Instruction, idx: nat): Tracker
    requires idx >= 1
    decreases LAST + 1 - idx
  {
    if idx > LAST then t
    else Preload(if ReadsReg(p, idx) then GetOrLoad(t, idx) else t, p, idx + 1)
  }

  /** The register is in its host register. */
  predicate Loaded(t: Tracker, idx: nat) {
    if IsGpr(idx) then idx - 1 in t.regLoaded else IsFlag(idx) && idx - FIRST_FLAG in t.flagLoaded
  }

  /** Exactly the registers the instruction reads are loaded, and none is taken to be written. */
  lemma {:induction false} PreloadExactly(t: Tracker, p: Instruction, idx: nat)
    requires idx >= 1
    ensures var t' := Preload(t, p, idx);
            && t'.regWritten == t.regWritten && t'.flagWritten == t.flagWritten
            && forall r: nat :: IsMapped(r) ==>
                 (Loaded(t', r) <==>
                  Loaded(t, r) || (r >= idx && exists i :: 0 <= i < |p| && p[i].Read? && p[i].idx == r))
    decreases LAST + 1 - idx
  {
    if idx <= LAST {
      PreloadExactly(if ReadsReg(p, idx) then GetOrLoad(t, idx) else t, p, idx + 1);
    }
  }

  /** After the preload no access of the instruction loads: each is one move. */
  lemma {:induction false} NoLoadsLeft(t: Tracker, p: Instruction)
    requires InstructionOk(p) && forall i :: 0 <= i < |p| && p[i].Read? ==> Loaded(t, p[i].idx)
    ensures |MaterialiseAll(t, p).code| == |t.code| + |p|
    decreases |p|
  {
    if p != [] {
      assert forall i :: 0 <= i < |p| - 1 ==> p[1..][i] == p[i + 1];
      NoLoadsLeft(Materialise(t, p[0]), p[1..]);
    }
  }

  function EndInstruction(t: Tracker, p: Instruction): Tracker
    requires InstructionOk(p)
  {
    MaterialiseAll(Preload(t, p, 1), p)
  }

  /** What an instruction reads is loaded first, each register once; then there is one move or computation for each of
      its accesses. */
  lemma LoadsComeFirst(t: Tracker, p: Instruction)
    requires InstructionOk(p)
    ensures |EndInstruction(t, p).code| == |Preload(t, p, 1).code| + |p|
  {
    PreloadExactly(t, p, 1);
    forall i | 0 <= i < |p| && p[i].Read? ensures Loaded(Preload(t, p, 1), p[i].idx) {
      assert AccessOk(p[i]) && ReadsReg(p, p[i].idx);
    }
    NoLoadsLeft(Preload(t, p, 1), p);
  }

  function TranslateBlock(t: Tracker, block: seq<Instruction>): Tracker
    requires BlockOk(block)
    decreases |block|
  {
    if block == [] then t
    else
      assert forall k :: 0 <= k < |block| - 1 ==> block[1..][k] == block[k + 1];
      TranslateBlock(EndInstruction(t, block[0]), block[1..])
  }

  function StoreReg(t: Tracker, i: nat): Tracker {
    if i in t.regWritten then Emit(t, Sd(i, 8 * i + 8)) else t
  }

  function StoreFlag(t: Tracker, i: nat): Tracker {
    if i in t.flagWritten then Emit(t, Sb(16 + i, FLAG_OFF + i)) else t
  }

  /** write_back_registers: registers 8 to 15 and all flags that were written; the first eight are left to the
      trampoline. */
  function WriteBackRegs(t: Tracker, i: nat): Tracker
    decreases 16 - i
  {
    if i >= 16 then t
    else WriteBackRegs(StoreReg(t, i), i + 1)
  }

  function WriteBackFlags(t: Tracker, i: nat): Tracker
    decreases 8 - i
  {
    if i >= 8 then t
    else WriteBackFlags(StoreFlag(t, i), i + 1)
  }

  function WriteBack(t: Tracker): Tracker {
    WriteBackFlags(WriteBackRegs(t, 8), 0)
  }

  // ---------------------------------------------------------------------------------------------
  // Agreement with direct access
  // ---------------------------------------------------------------------------------------------

  /** Register i of the sixteen: what has been loaded is in its host register, and what has not been
      written is in its place in the CPU state, except that the first eight are kept in host registers only. */
  predicate GprAgrees(t: Tracker, g: Guest, h: Host, i: nat) {
    && (i in t.regLoaded ==> Get(h.mapped, i) == Get(g.regs, i + 1))
    && (8 <= i && i !in t.regWritten ==> RegIn(h.cpu, i + 1) == Get(g.regs, i + 1))
    && (i in t.regWritten ==> i in t.regLoaded) && (i < 8 ==> i in t.regLoaded)
  }

  /** The same for flag i, which is always 0 or 1. */
  predicate FlagAgrees(t: Tracker, g: Guest, h: Host, i: nat) {
    && (i in t.flagLoaded ==> Get(h.mapped, 16 + i) == Get(g.regs, FIRST_FLAG + i))
    && (i !in t.flagWritten ==> RegIn(h.cpu, FIRST_FLAG + i) == Get(g.regs, FIRST_FLAG + i))
    && (i in t.flagWritten ==> i in t.flagLoaded)
    && (Get(g.regs, FIRST_FLAG + i) == 0 || Get(g.regs, FIRST_FLAG + i) == 1)
  }

  /** Host state h stands for guest state g. */
  ghost predicate Agree(t: Tracker, g: Guest, h: Host) {
    && (forall i :: 0 <= i < 16 ==> GprAgrees(t, g, h, i))
    && (forall i :: 0 <= i < 8 ==> FlagAgrees(t, g, h, i))
    && h.values == g.values
  }

  /** The state between blocks: the first eight registers live in host registers, everything else in memory. */
  predicate GprBetween(g: Guest, h: Host, i: nat) {
    if i < 8 then Get(h.mapped, i) == Get(g.regs, i + 1) else RegIn(h.cpu, i + 1) == Get(g.regs, i + 1)
  }

  predicate FlagBetween(g: Guest, h: Host, i: nat) {
    RegIn(h.cpu, FIRST_FLAG + i) == Get(g.regs, FIRST_FLAG + i) &&
        (Get(g.regs, FIRST_FLAG + i) == 0 || Get(g.regs, FIRST_FLAG + i) == 1)
  }

  ghost predicate BetweenBlocks(g: Guest, h: Host) {
    && (forall i :: 0 <= i < 16 ==> GprBetween(g, h, i))
    && (forall i :: 0 <= i < 8 ==> FlagBetween(g, h, i))
    && h.values == g.values
  }

  lemma EmitExec(t: Tracker, i: HostInsn, h: Host)
    ensures ExecAll(Emit(t, i).code, h) == Exec(i, ExecAll(t.code, h))
  {
    assert (t.code + [i])[..|t.code|] == t.code;
  }

  /** Agreement with a tracker that differs only in its code and a host state that differs only at register idx. */
  lemma AgreeAt(t: Tracker, g: Guest, h: Host, t': Tracker, g': Guest, h': Host, idx: nat)
    requires IsMapped(idx) && Agree(t, g, h) && h'.values == g'.values && h'.cpu == h.cpu
    requires forall r :: r != idx - 1 ==> Get(h'.mapped, r) == Get(h.mapped, r)
    requires forall r :: r != idx ==> Get(g'.regs, r) == Get(g.regs, r)
    requires forall i :: i + 1 != idx ==>
                 (i in t'.regLoaded <==> i in t.regLoaded) && (i in t'.regWritten <==> i in t.regWritten)
    requires forall i :: i + FIRST_FLAG != idx ==>
                 (i in t'.flagLoaded <==> i in t.flagLoaded) && (i in t'.flagWritten <==> i in t.flagWritten)
    requires if IsGpr(idx) then GprAgrees(t', g', h', idx - 1) else FlagAgrees(t', g', h', idx - FIRST_FLAG)
    ensures Agree(t', g', h')
  {
    forall i | 0 <= i < 16 ensures GprAgrees(t', g', h', i) { assert GprAgrees(t, g, h, i); }
    forall i | 0 <= i < 8 ensures FlagAgrees(t', g', h', i) { assert FlagAgrees(t, g, h, i); }
  }

  /** A load from a register's own place gives the register; so does the load of a flag, unless its top bit is set. */
  lemma LoadInPlace(cpu: Bytes, idx: nat)
    requires IsMapped(idx)
    ensures IsGpr(idx) ==> LoadDouble(cpu, 8 * idx) == RegIn(cpu, idx)
    ensures IsFlag(idx) && RegIn(cpu, idx) < 128 ==> LoadSigned(cpu, FLAG_OFF + (idx - FIRST_FLAG)) == RegIn(cpu, idx)
  {
    if IsGpr(idx) {
      GprPlace(idx);
    } else {
      FlagPlace(idx);
      assert LoadBytes(cpu, Place(idx), 1) == ByteAt(cpu, Place(idx)) + 256 * LoadBytes(cpu, Place(idx) + 1, 0);
    }
  }

  /** A store to a register's own place. */
  lemma StoreInPlace(h: Host, idx: nat)
    requires IsMapped(idx)
    ensures IsGpr(idx) ==> Exec(Sd(idx - 1, 8 * idx), h).cpu == PutReg(h.cpu, idx, Get(h.mapped, idx - 1))
    ensures IsFlag(idx) ==>
      Exec(Sb(idx - 1, FLAG_OFF + (idx - FIRST_FLAG)), h).cpu == PutReg(h.cpu, idx, Get(h.mapped, idx - 1))
  {
    if IsGpr(idx) { GprPlace(idx); } else { FlagPlace(idx); }
  }

  lemma LoadRegAgrees(t: Tracker, idx: nat, g: Guest, h: Host)
    requires IsGpr(idx) && idx - 1 !in t.regLoaded && Agree(t, g, ExecAll(t.code, h))
    ensures var t' := GetOrLoad(t, idx); var h' := ExecAll(t'.code, h);
            Agree(t', g, h') && Get(h'.mapped, idx - 1) == Get(g.regs, idx)
  {
    var h0 := ExecAll(t.code, h);
    assert GprAgrees(t, g, h0, idx - 1);
    LoadInPlace(h0.cpu, idx);
    EmitExec(t.(regLoaded := t.regLoaded + {idx - 1}), Ld(idx - 1, 8 * idx), h);
    AgreeAt(t, g, h0, GetOrLoad(t, idx), g, Exec(Ld(idx - 1, 8 * idx), h0), idx);
  }

  lemma LoadFlagAgrees(t: Tracker, i: nat, g: Guest, h: Host)
    requires i < 8 && i !in t.flagLoaded && Agree(t, g, ExecAll(t.code, h))
    ensures var t' := GetOrLoad(t, FIRST_FLAG + i); var h' := ExecAll(t'.code, h);
            Agree(t', g, h') && Get(h'.mapped, 16 + i) == Get(g.regs, FIRST_FLAG + i)
  {
    var h0 := ExecAll(t.code, h);
    assert FlagAgrees(t, g, h0, i);
    LoadInPlace(h0.cpu, FIRST_FLAG + i);
    EmitExec(t.(flagLoaded := t.flagLoaded + {i}), Lb(16 + i, FLAG_OFF + i), h);
    AgreeAt(t, g, h0, GetOrLoad(t, FIRST_FLAG + i), g, Exec(Lb(16 + i, FLAG_OFF + i), h0), FIRST_FLAG + i);
  }

  /** After a load the register is in its host register, and nothing else has changed for the guest. */
  lemma GetOrLoadAgrees(t: Tracker, idx: nat, g: Guest, h: Host)
    requires IsMapped(idx) && Agree(t, g, ExecAll(t.code, h))
    ensures var t' := GetOrLoad(t, idx); var h' := ExecAll(t'.code, h);
            Agree(t', g, h') && Get(h'.mapped, idx - 1) == Get(g.regs, idx)
  {
    if IsGpr(idx) {
      if idx - 1 in t.regLoaded {
        assert GprAgrees(t, g, ExecAll(t.code, h), idx - 1);
      } else {
        LoadRegAgrees(t, idx, g, h);
      }
    } else {
      var i: nat := idx - FIRST_FLAG;
      if i in t.flagLoaded { assert FlagAgrees(t, g, ExecAll(t.code, h), i); } else { LoadFlagAgrees(t, i, g, h); }
    }
  }

  lemma WriteRegAgrees(t: Tracker, idx: nat, v: nat, g: Guest, h: Host)
    requires IsGpr(idx) && Agree(t, g, ExecAll(t.code, h))
    ensures var t' := Emit(GetOrAssign(t, idx), ToMapped(idx - 1, v));
            Agree(t', g.(regs := g.regs[idx := Get(g.values, v)]), ExecAll(t'.code, h))
  {
    var h0, i := ExecAll(t.code, h), ToMapped(idx - 1, v);
    EmitExec(GetOrAssign(t, idx), i, h);
    AgreeAt(t, g, h0, Emit(GetOrAssign(t, idx), i), g.(regs := g.regs[idx := Get(g.values, v)]), Exec(i, h0), idx);
  }

  lemma WriteFlagAgrees(t: Tracker, idx: nat, v: nat, g: Guest, h: Host)
    requires IsFlag(idx) && Agree(t, g, ExecAll(t.code, h))
    requires Get(g.values, v) == 0 || Get(g.values, v) == 1
    ensures var t' := Emit(GetOrAssign(t, idx), ToMapped(idx - 1, v));
            Agree(t', g.(regs := g.regs[idx := Get(g.values, v)]), ExecAll(t'.code, h))
  {
    var h0, i := ExecAll(t.code, h), ToMapped(idx - 1, v);
    EmitExec(GetOrAssign(t, idx), i, h);
    AgreeAt(t, g, h0, Emit(GetOrAssign(t, idx), i), g.(regs := g.regs[idx := Get(g.values, v)]), Exec(i, h0), idx);
  }

  lemma WriteAgrees(t: Tracker, idx: nat, v: nat, g: Guest, h: Host)
    requires IsMapped(idx) && Agree(t, g, ExecAll(t.code, h))
    requires IsFlag(idx) ==> Get(g.values, v) == 0 || Get(g.values, v) == 1
    ensures var t' := Emit(GetOrAssign(t, idx), ToMapped(idx - 1, v));
            Agree(t', g.(regs := g.regs[idx := Get(g.values, v)]), ExecAll(t'.code, h))
  {
    if IsGpr(idx) { WriteRegAgrees(t, idx, v, g, h); } else { WriteFlagAgrees(t, idx, v, g, h); }
  }

  /** Emitting an instruction that only computes a value. */
  lemma ValueAgrees(t: Tracker, i: HostInsn, g: Guest, g': Guest, h: Host)
    requires Agree(t, g, ExecAll(t.code, h)) && g'.regs == g.regs
    requires var h0, h' := ExecAll(t.code, h), Exec(i, ExecAll(t.code, h));
             h'.mapped == h0.mapped && h'.cpu == h0.cpu && h'.values == g'.values
    ensures Agree(Emit(t, i), g', ExecAll(Emit(t, i).code, h))
  {
    EmitExec(t, i, h);
    var h0, h' := ExecAll(t.code, h), ExecAll(Emit(t, i).code, h);
    forall j | 0 <= j < 16 ensures GprAgrees(Emit(t, i), g', h', j) { assert GprAgrees(t, g, h0, j); }
    forall j | 0 <= j < 8 ensures FlagAgrees(Emit(t, i), g', h', j) { assert FlagAgrees(t, g, h0, j); }
  }

  lemma ReadAgrees(t: Tracker, idx: nat, v: nat, g: Guest, h: Host)
    requires IsMapped(idx) && Agree(t, g, ExecAll(t.code, h))
    ensures var t' := Materialise(t, Read(idx, v)); Agree(t', Do(Read(idx, v), g), ExecAll(t'.code, h))
  {
    GetOrLoadAgrees(t, idx, g, h);
    ReadLoaded(GetOrLoad(t, idx), idx, v, g, h);
  }

  /** Reading a register that has been loaded. */
  lemma ReadLoaded(t: Tracker, idx: nat, v: nat, g: Guest, h: Host)
    requires IsMapped(idx) && Agree(t, g, ExecAll(t.code, h))
    requires Get(ExecAll(t.code, h).mapped, idx - 1) == Get(g.regs, idx)
    ensures var t' := Emit(t, FromMapped(v, idx - 1)); Agree(t', Do(Read(idx, v), g), ExecAll(t'.code, h))
  {
    assert Do(Read(idx, v), g).values == Exec(FromMapped(v, idx - 1), ExecAll(t.code, h)).values;
    ValueAgrees(t, FromMapped(v, idx - 1), g, Do(Read(idx, v), g), h);
  }

  lemma ComputeAgrees(t: Tracker, v: nat, f: Values -> Word, g: Guest, h: Host)
    requires Agree(t, g, ExecAll(t.code, h))
    ensures var t' := Materialise(t, Compute(v, f)); Agree(t', Do(Compute(v, f), g), ExecAll(t'.code, h))
  {
    ValueAgrees(t, Calc(v, f), g, Do(Compute(v, f), g), h);
  }

  /** One access, translated, does to the host state what it does to the guest state. */
  lemma MaterialiseAgrees(t: Tracker, a: Access, g: Guest, h: Host)
    requires AccessOk(a) && Agree(t, g, ExecAll(t.code, h))
    requires a.Write? && IsFlag(a.idx) ==> Get(g.values, a.value) == 0 || Get(g.values, a.value) == 1
    ensures var t' := Materialise(t, a); Agree(t', Do(a, g), ExecAll(t'.code, h))
  {
    match a
    case Read(idx, v) => ReadAgrees(t, idx, v, g, h);
    case Write(idx, v) => WriteAgrees(t, idx, v, g, h);
    case Compute(v, f) => ComputeAgrees(t, v, f, g, h);
  }

  lemma {:induction false} MaterialiseAllAgrees(t: Tracker, p: seq<Access>, g: Guest, h: Host)
    requires InstructionOk(p) && WritesBinary(p, g) && Agree(t, g, ExecAll(t.code, h))
    ensures var t' := MaterialiseAll(t, p); Agree(t', DoAll(p, g), ExecAll(t'.code, h))
    decreases |p|
  {
    if p != [] {
      assert forall i :: 0 <= i < |p| - 1 ==> p[1..][i] == p[i + 1];
      MaterialiseAgrees(t, p[0], g, h);
      MaterialiseAllAgrees(Materialise(t, p[0]), p[1..], Do(p[0], g), h);
    }
  }

  lemma {:induction false} PreloadAgrees(t: Tracker, p: Instruction, idx: nat, g: Guest, h: Host)
    requires idx >= 1 && Agree(t, g, ExecAll(t.code, h))
    ensures var t' := Preload(t, p, idx); Agree(t', g, ExecAll(t'.code, h))
    decreases LAST + 1 - idx
  {
    if idx <= LAST {
      if ReadsReg(p, idx) {
        GetOrLoadAgrees(t, idx, g, h);
        PreloadAgrees(GetOrLoad(t, idx), p, idx + 1, g, h);
      } else {
        PreloadAgrees(t, p, idx + 1, g, h);
      }
    }
  }

  lemma {:induction false} BlockAgrees(t: Tracker, block: seq<Instruction>, g: Guest, h: Host)
    requires BlockOk(block) && BlockWritesBinary(block, g) && Agree(t, g, ExecAll(t.code, h))
    ensures var t' := TranslateBlock(t, block); Agree(t', DoBlock(block, g), ExecAll(t'.code, h))
    decreases |block|
  {
    if block != [] {
      assert forall k :: 0 <= k < |block| - 1 ==> block[1..][k] == block[k + 1];
      PreloadAgrees(t, block[0], 1, g, h);
      MaterialiseAllAgrees(Preload(t, block[0], 1), block[0], g, h);
      BlockAgrees(EndInstruction(t, block[0]), block[1..], DoAll(block[0], g), h);
    }
  }

  /** Storing an up-to-date host register keeps the agreement, and brings the register's place up to date. */
  lemma StoreAgrees(t: Tracker, g: Guest, h0: Host, idx: nat, t': Tracker, h': Host)
    requires IsMapped(idx) && Agree(t, g, h0) && t'.(code := t.code) == t
    requires h'.mapped == h0.mapped && h'.values == h0.values && h'.cpu == PutReg(h0.cpu, idx, Get(g.regs, idx))
    ensures Agree(t', g, h')
    ensures forall i :: 0 <= i < 16 && (GprBetween(g, h0, i) || (8 <= i && i + 1 == idx)) ==> GprBetween(g, h', i)
    ensures forall i :: 0 <= i < 8 && (FlagBetween(g, h0, i) || FIRST_FLAG + i == idx) ==> FlagBetween(g, h', i)
  {
    DoubleCapacity();
    if IsFlag(idx) { assert FlagAgrees(t, g, h0, idx - FIRST_FLAG); }
    PutSets(h0.cpu, idx, Get(g.regs, idx));
    forall i | 0 <= i < 16
      ensures GprAgrees(t', g, h', i)
      ensures GprBetween(g, h0, i) || (8 <= i && i + 1 == idx) ==> GprBetween(g, h', i)
    {
      assert GprAgrees(t, g, h0, i);
      if i + 1 != idx { PutKeeps(h0.cpu, idx, Get(g.regs, idx), i + 1); }
    }
    forall i | 0 <= i < 8
      ensures FlagAgrees(t', g, h', i)
      ensures FlagBetween(g, h0, i) || FIRST_FLAG + i == idx ==> FlagBetween(g, h', i)
    {
      assert FlagAgrees(t, g, h0, i);
      if FIRST_FLAG + i != idx { PutKeeps(h0.cpu, idx, Get(g.regs, idx), FIRST_FLAG + i); }
    }
  }

  lemma StoreRegAgrees(t: Tracker, i: nat, g: Guest, h: Host)
    requires 8 <= i < 16 && Agree(t, g, ExecAll(t.code, h))
    ensures var h0, h' := ExecAll(t.code, h), ExecAll(StoreReg(t, i).code, h);
            && Agree(StoreReg(t, i), g, h') && GprBetween(g, h', i)
            && (forall j :: 0 <= j < 16 && GprBetween(g, h0, j) ==> GprBetween(g, h', j))
  {
    var h0 := ExecAll(t.code, h);
    assert GprAgrees(t, g, h0, i);
    if i in t.regWritten {
      EmitExec(t, Sd(i, 8 * i + 8), h);
      StoreInPlace(h0, i + 1);
      StoreAgrees(t, g, h0, i + 1, StoreReg(t, i), Exec(Sd(i, 8 * i + 8), h0));
    }
  }

  lemma StoreFlagAgrees(t: Tracker, i: nat, g: Guest, h: Host)
    requires i < 8 && Agree(t, g, ExecAll(t.code, h))
    ensures var h0, h' := ExecAll(t.code, h), ExecAll(StoreFlag(t, i).code, h);
            && Agree(StoreFlag(t, i), g, h') && FlagBetween(g, h', i)
            && (forall j :: 0 <= j < 16 && GprBetween(g, h0, j) ==> GprBetween(g, h', j))
            && (forall j :: 0 <= j < 8 && FlagBetween(g, h0, j) ==> FlagBetween(g, h', j))
  {
    var h0 := ExecAll(t.code, h);
    assert FlagAgrees(t, g, h0, i);
    if i in t.flagWritten {
      EmitExec(t, Sb(16 + i, FLAG_OFF + i), h);
      StoreInPlace(h0, FIRST_FLAG + i);
      StoreAgrees(t, g, h0, FIRST_FLAG + i, StoreFlag(t, i), Exec(Sb(16 + i, FLAG_OFF + i), h0));
    }
  }

  /** Storing the written registers brings their places up to date and changes nothing else. */
  lemma {:induction false} WriteBackRegsAgrees(t: Tracker, i: nat, g: Guest, h: Host)
    requires 8 <= i <= 16 && Agree(t, g, ExecAll(t.code, h))
    requires forall j :: 8 <= j < i ==> GprBetween(g, ExecAll(t.code, h), j)
    ensures var t' := WriteBackRegs(t, i); var h' := ExecAll(t'.code, h);
            Agree(t', g, h') && forall j :: 8 <= j < 16 ==> GprBetween(g, h', j)
    decreases 16 - i
  {
    if i < 16 {
      StoreRegAgrees(t, i, g, h);
      forall j | 8 <= j < i + 1 ensures GprBetween(g, ExecAll(StoreReg(t, i).code, h), j) {
        if j < i { assert GprBetween(g, ExecAll(t.code, h), j); }
      }
      WriteBackRegsAgrees(StoreReg(t, i), i + 1, g, h);
    }
  }

  lemma {:induction false} WriteBackFlagsAgrees(t: Tracker, i: nat, g: Guest, h: Host)
    requires i <= 8 && Agree(t, g, ExecAll(t.code, h))
    requires forall j :: 0 <= j < i ==> FlagBetween(g, ExecAll(t.code, h), j)
    requires forall j :: 8 <= j < 16 ==> GprBetween(g, ExecAll(t.code, h), j)
    ensures var t' := WriteBackFlags(t, i); var h' := ExecAll(t'.code, h);
            && Agree(t', g, h') && t'.regLoaded == t.regLoaded
            && (forall j :: 8 <= j < 16 ==> GprBetween(g, h', j))
            && (forall j :: 0 <= j < 8 ==> FlagBetween(g, h', j))
    decreases 8 - i
  {
    if i < 8 {
      StoreFlagAgrees(t, i, g, h);
      forall j | 0 <= j < i + 1 ensures FlagBetween(g, ExecAll(StoreFlag(t, i).code, h), j) {
        if j < i { assert FlagBetween(g, ExecAll(t.code, h), j); }
      }
      forall j | 8 <= j < 16 ensures GprBetween(g, ExecAll(StoreFlag(t, i).code, h), j) {
        assert GprBetween(g, ExecAll(t.code, h), j);
      }
      WriteBackFlagsAgrees(StoreFlag(t, i), i + 1, g, h);
    }
  }

  /** The cache refines direct access: entered with the first eight registers in host registers and everything else
      in memory, a translated block computes the same values as direct access to the guest registers, and leaves the
      guest registers it computed in the same places - which is also what the block it is chained to expects. */
  lemma CacheRefinesDirectAccess(block: seq<Instruction>, g: Guest, h: Host)
    requires BlockOk(block) && BlockWritesBinary(block, g) && BetweenBlocks(g, h)
    ensures BetweenBlocks(DoBlock(block, g), ExecAll(WriteBack(TranslateBlock(BeginBlock(), block)).code, h))
  {
    var t0 := BeginBlock();
    assert ExecAll([], h) == h;
    forall i | 0 <= i < 16 ensures GprAgrees(t0, g, h, i) { assert GprBetween(g, h, i); }
    forall i | 0 <= i < 8 ensures FlagAgrees(t0, g, h, i) { assert FlagBetween(g, h, i); }
    BlockAgrees(t0, block, g, h);
    var t1, g1 := TranslateBlock(t0, block), DoBlock(block, g);
    WriteBackRegsAgrees(t1, 8, g1, h);
    WriteBackFlagsAgrees(WriteBackRegs(t1, 8), 0, g1, h);
    var h' := ExecAll(WriteBack(t1).code, h);
    forall i | 0 <= i < 16 ensures GprBetween(g1, h', i) {
      if i < 8 { assert GprAgrees(WriteBack(t1), g1, h', i); }
    }
  }

  // ---------------------------------------------------------------------------------------------
  // Where the code touches the CPU state
  // ---------------------------------------------------------------------------------------------

  /** A load or store that moves all of one mapped register between its place in the CPU state and its host register. */
  predicate InPlace(i: HostInsn) {
    match i
    case Ld(r, o) => r < 16 && o == Place(r + 1)
    case Sd(r, o) => r < 16 && o == Place(r + 1)
    case Lb(r, o) => 16 <= r < 24 && o == Place(r + 1)
    case Sb(r, o) => 16 <= r < 24 && o == Place(r + 1)
    case _ => true
  }

  ghost predicate AllInPlace(code: seq<HostInsn>) {
    forall k :: 0 <= k < |code| ==> InPlace(code[k])
  }

  lemma AccessInPlace(idx: nat)
    requires IsMapped(idx)
    ensures IsGpr(idx) ==> InPlace(Ld(idx - 1, 8 * idx)) && InPlace(Sd(idx - 1, 8 * idx))
    ensures IsFlag(idx) ==> var o := FLAG_OFF + (idx - FIRST_FLAG); InPlace(Lb(idx - 1, o)) && InPlace(Sb(idx - 1, o))
  {
    if IsGpr(idx) { GprPlace(idx); } else { FlagPlace(idx); }
  }

  lemma LoadsInPlace(t: Tracker, idx: nat)
    requires IsMapped(idx) && AllInPlace(t.code)
    ensures AllInPlace(GetOrLoad(t, idx).code)
  {
    AccessInPlace(idx);
  }

  lemma {:induction false} InstructionInPlace(t: Tracker, p: Instruction)
    requires InstructionOk(p) && AllInPlace(t.code)
    ensures AllInPlace(MaterialiseAll(t, p).code)
    decreases |p|
  {
    if p != [] {
      if p[0].Read? { LoadsInPlace(t, p[0].idx); }
      assert forall i :: 0 <= i < |p| - 1 ==> p[1..][i] == p[i + 1];
      InstructionInPlace(Materialise(t, p[0]), p[1..]);
    }
  }

  lemma {:induction false} PreloadInPlace(t: Tracker, p: Instruction, idx: nat)
    requires idx >= 1 && AllInPlace(t.code)
    ensures AllInPlace(Preload(t, p, idx).code)
    decreases LAST + 1 - idx
  {
    if idx <= LAST {
      LoadsInPlace(t, idx);
      PreloadInPlace(if ReadsReg(p, idx) then GetOrLoad(t, idx) else t, p, idx + 1);
    }
  }

  lemma {:induction false} BlockInPlace(t: Tracker, block: seq<Instruction>)
    requires BlockOk(block) && AllInPlace(t.code)
    ensures AllInPlace(TranslateBlock(t, block).code)
    decreases |block|
  {
    if block != [] {
      assert forall k :: 0 <= k < |block| - 1 ==> block[1..][k] == block[k + 1];
      PreloadInPlace(t, block[0], 1);
      InstructionInPlace(Preload(t, block[0], 1), block[0]);
      BlockInPlace(EndInstruction(t, block[0]), block[1..]);
    }
  }

  lemma {:induction false} WriteBackRegsInPlace(t: Tracker, i: nat)
    requires AllInPlace(t.code)
    ensures AllInPlace(WriteBackRegs(t, i).code)
    decreases 16 - i
  {
    if i < 16 {
      AccessInPlace(i + 1);
      WriteBackRegsInPlace(StoreReg(t, i), i + 1);
    }
  }

  lemma {:induction false} WriteBackFlagsInPlace(t: Tracker, i: nat)
    requires AllInPlace(t.code)
    ensures AllInPlace(WriteBackFlags(t, i).code)
    decreases 8 - i
  {
    if i < 8 {
      AccessInPlace(FIRST_FLAG + i);
      WriteBackFlagsInPlace(StoreFlag(t, i), i + 1);
    }
  }

  /** Every load and store of a translated block is of one whole register at its own place. */
  lemma EveryAccessInPlace(block: seq<Instruction>)
    requires BlockOk(block)
    ensures AllInPlace(WriteBack(TranslateBlock(BeginBlock(), block)).code)
  {
    var t := TranslateBlock(BeginBlock(), block);
    BlockInPlace(BeginBlock(), block);
    WriteBackRegsInPlace(t, 8);
    WriteBackFlagsInPlace(WriteBackRegs(t, 8), 0);
  }

  lemma {:induction false} RegsStored(t: Tracker, i: nat, insn: HostInsn)
    ensures var t' := WriteBackRegs(t, i);
            && t'.flagWritten == t.flagWritten
            && (insn in t'.code <==> insn in t.code || StoresReg(t, i, insn))
    decreases 16 - i
  {
    if i < 16 { RegsStored(StoreReg(t, i), i + 1, insn); }
  }

  lemma {:induction false} FlagsStored(t: Tracker, i: nat, insn: HostInsn)
    ensures insn in WriteBackFlags(t, i).code <==> insn in t.code || StoresFlag(t, i, insn)
    decreases 8 - i
  {
    if i < 8 { FlagsStored(StoreFlag(t, i), i + 1, insn); }
  }

  predicate StoresReg(t: Tracker, from: nat, insn: HostInsn) {
    insn.Sd? && from <= insn.reg < 16 && insn.reg in t.regWritten && insn.offset == 8 * insn.reg + 8
  }

  predicate StoresFlag(t: Tracker, from: nat, insn: HostInsn) {
    insn.Sb? && 16 + from <= insn.reg < 24 && insn.reg - 16 in t.flagWritten && insn.offset == 120 + insn.reg
  }

  /** Exactly the registers from the ninth on and the flags that have been written are stored. */
  lemma StoresExactly(t: Tracker, insn: HostInsn)
    ensures insn in WriteBack(t).code <==>
            || insn in t.code
            || (insn.Sd? && 8 <= insn.reg < 16 && insn.reg in t.regWritten && insn.offset == 8 * insn.reg + 8)
            || (insn.Sb? && 16 <= insn.reg < 24 && insn.reg - 16 in t.flagWritten && insn.offset == 120 + insn.reg)
  {
    RegsStored(t, 8, insn);
    FlagsStored(WriteBackRegs(t, 8), 0, insn);
  }

  /** PC, the segment bases, and the x87, vector and control registers are as they were. */
  ghost predicate RestKept(cpu: Bytes, cpu': Bytes) {
    forall idx: nat :: idx == 0 || idx > LAST ==> RegIn(cpu', idx) == RegIn(cpu, idx)
  }

  lemma ExecKeepsRest(i: HostInsn, h: Host)
    requires InPlace(i)
    ensures RestKept(h.cpu, Exec(i, h).cpu)
  {
    if i.Sd? || i.Sb? {
      forall idx: nat | idx == 0 || idx > LAST ensures RegIn(Exec(i, h).cpu, idx) == RegIn(h.cpu, idx) {
        PutKeeps(h.cpu, i.reg + 1, Get(h.mapped, i.reg), idx);
      }
    }
  }

  lemma {:induction false} CodeKeepsRest(code: seq<HostInsn>, h: Host)
    requires AllInPlace(code)
    ensures RestKept(h.cpu, ExecAll(code, h).cpu)
    decreases |code|
  {
    if code != [] {
      CodeKeepsRest(code[..|code| - 1], h);
      ExecKeepsRest(code[|code| - 1], ExecAll(code[..|code| - 1], h));
    }
  }

  /** call_native: the trampoline loads the first eight registers before native code, first one first, and stores them
      after it, last one first. */
  function Enter(h: Host, i: nat): Host
    decreases 8 - i, h
  {
    if i >= 8 then h else Enter(Exec(Ld(i, 8 * i + 8), h), i + 1)
  }

  function Leave(h: Host, i: nat): Host
    decreases i, h
  {
    if i == 0 then h else Leave(Exec(Sd(i - 1, 8 * i), h), i - 1)
  }

  lemma LoadsInto(h: Host, i: nat)
    requires i < 16
    ensures var h' := Exec(Ld(i, 8 * i + 8), h);
            && h'.cpu == h.cpu && h'.values == h.values && Get(h'.mapped, i) == RegIn(h.cpu, i + 1)
            && forall j: nat :: j != i ==> Get(h'.mapped, j) == Get(h.mapped, j)
  {
    LoadInPlace(h.cpu, i + 1);
  }

  lemma {:induction false} EnterLoads(h: Host, i: nat)
    ensures var h' := Enter(h, i);
            && h'.cpu == h.cpu && h'.values == h.values
            && forall j: nat :: Get(h'.mapped, j) == if i <= j < 8 then RegIn(h.cpu, j + 1) else Get(h.mapped, j)
    decreases 8 - i
  {
    if i < 8 {
      LoadsInto(h, i);
      EnterLoads(Exec(Ld(i, 8 * i + 8), h), i + 1);
    }
  }

  lemma {:induction false} LeaveStores(h: Host, i: nat)
    requires i <= 8
    ensures var h' := Leave(h, i);
            && h'.values == h.values
            && forall idx: nat ::
                 RegIn(h'.cpu, idx) == if 1 <= idx <= i then Get(h.mapped, idx - 1) else RegIn(h.cpu, idx)
    decreases i
  {
    if i > 0 {
      StoreInPlace(h, i);
      var h1 := Exec(Sd(i - 1, 8 * i), h);
      LeaveStores(h1, i - 1);
      DoubleCapacity();
      PutSets(h.cpu, i, Get(h.mapped, i - 1));
      forall idx: nat | idx != i ensures RegIn(h1.cpu, idx) == RegIn(h.cpu, idx) {
        PutKeeps(h.cpu, i, Get(h.mapped, i - 1), idx);
      }
    }
  }

  /** The whole guest state is in memory. */
  ghost predicate InMemory(g: Guest, h: Host) {
    && (forall idx :: 1 <= idx <= 16 ==> RegIn(h.cpu, idx) == Get(g.regs, idx))
    && (forall i :: 0 <= i < 8 ==> FlagBetween(g, h, i))
    && h.values == g.values
  }

  lemma EnterBetween(g: Guest, h: Host)
    requires InMemory(g, h)
    ensures BetweenBlocks(g, Enter(h, 0)) && Enter(h, 0).cpu == h.cpu
  {
    EnterLoads(h, 0);
    LoadedBetween(g, h, Enter(h, 0));
  }

  lemma LoadedBetween(g: Guest, h: Host, h': Host)
    requires InMemory(g, h) && h'.cpu == h.cpu && h'.values == h.values
    requires forall j: nat :: j < 8 ==> Get(h'.mapped, j) == RegIn(h.cpu, j + 1)
    ensures BetweenBlocks(g, h')
  {
    forall i | 0 <= i < 16 ensures GprBetween(g, h', i) { assert RegIn(h.cpu, i + 1) == Get(g.regs, i + 1); }
    forall i | 0 <= i < 8 ensures FlagBetween(g, h', i) { assert FlagBetween(g, h, i); }
  }

  /** Seen from the dispatcher, a native call maps a guest state in memory to the guest state after the block, in
      memory. */
  lemma NativeCallInMemory(block: seq<Instruction>, g: Guest, h: Host)
    requires BlockOk(block) && BlockWritesBinary(block, g) && InMemory(g, h)
    ensures var h' := Leave(ExecAll(WriteBack(TranslateBlock(BeginBlock(), block)).code, Enter(h, 0)), 8);
            InMemory(DoBlock(block, g), h') && RestKept(h.cpu, h'.cpu)
  {
    var code := WriteBack(TranslateBlock(BeginBlock(), block)).code;
    EnterBetween(g, h);
    CacheRefinesDirectAccess(block, g, Enter(h, 0));
    EveryAccessInPlace(block);
    CodeKeepsRest(code, Enter(h, 0));
    LeaveInMemory(DoBlock(block, g), ExecAll(code, Enter(h, 0)));
  }

  lemma LeaveInMemory(g: Guest, h: Host)
    requires BetweenBlocks(g, h)
    ensures InMemory(g, Leave(h, 8)) && RestKept(h.cpu, Leave(h, 8).cpu)
  {
    LeaveStores(h, 8);
    forall idx | 1 <= idx <= 16 ensures RegIn(Leave(h, 8).cpu, idx) == Get(g.regs, idx) {
      assert GprBetween(g, h, idx - 1);
    }
    forall i | 0 <= i < 8 ensures FlagBetween(g, Leave(h, 8), i) { assert FlagBetween(g, h, i); }
  }

  // ---------------------------------------------------------------------------------------------
  // Chained blocks
  // ---------------------------------------------------------------------------------------------

  /** The guest after a run of blocks, and the host after their translations, each entered by the patched jump at the
      end of the one before. */
  function DoBlocks(blocks: seq<seq<Instruction>>, g: Guest): Guest {
    if blocks == [] then g else DoBlocks(blocks[1..], DoBlock(blocks[0], g))
  }

  function ExecBlocks(blocks: seq<seq<Instruction>>, h: Host): Host
    requires forall b :: b in blocks ==> BlockOk(b)
  {
    if blocks == [] then h
    else ExecBlocks(blocks[1..], ExecAll(WriteBack(TranslateBlock(BeginBlock(), blocks[0])).code, h))
  }

  predicate BlocksOk(blocks: seq<seq<Instruction>>, g: Guest)
    ensures BlocksOk(blocks, g) ==> forall b :: b in blocks ==> BlockOk(b)
    decreases |blocks|
  {
    blocks == [] ||
    (BlockOk(blocks[0]) && BlockWritesBinary(blocks[0], g) && BlocksOk(blocks[1..], DoBlock(blocks[0], g)))
  }

  lemma {:induction false} ChainRefinesDirectAccess(blocks: seq<seq<Instruction>>, g: Guest, h: Host)
    requires BlocksOk(blocks, g) && BetweenBlocks(g, h)
    ensures BetweenBlocks(DoBlocks(blocks, g), ExecBlocks(blocks, h)) && RestKept(h.cpu, ExecBlocks(blocks, h).cpu)
    decreases |blocks|
  {
    if blocks != [] {
      EveryAccessInPlace(blocks[0]);
      CodeKeepsRest(WriteBack(TranslateBlock(BeginBlock(), blocks[0])).code, h);
      CacheRefinesDirectAccess(blocks[0], g, h);
      ChainRefinesDirectAccess(blocks[1..], DoBlock(blocks[0], g),
                               ExecAll(WriteBack(TranslateBlock(BeginBlock(), blocks[0])).code, h));
    }
  }

  /** A native call that runs through any sequence of chained blocks before it returns takes the guest state in memory
      to the one after all of them, in memory, and leaves all other registers in the CPU state as they were. */
  lemma NativeRunInMemory(blocks: seq<seq<Instruction>>, g: Guest, h: Host)
    requires BlocksOk(blocks, g) && InMemory(g, h)
    ensures var h' := Leave(ExecBlocks(blocks, Enter(h, 0)), 8);
            InMemory(DoBlocks(blocks, g), h') && RestKept(h.cpu, h'.cpu)
  {
    EnterBetween(g, h);
    ChainRefinesDirectAccess(blocks, g, Enter(h, 0));
    LeaveInMemory(DoBlocks(blocks, g), ExecBlocks(blocks, Enter(h, 0)));
  }
}
