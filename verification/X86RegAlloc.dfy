/** The x86 backend's reverse linear-scan register allocator. */
module X86RegAlloc {
  import opened Wrappers
  import opened X86Code

  /** vreg_to_preg, whose entries are never erased, and the set of free registers. */
  datatype Alloc = Alloc(regs: map<nat, nat>, avail: set<nat>)

  const ALL: set<nat> := {0, 1, 2, 3, 4, 5}

  /** _Find_first on a six-bit set: 6 when it is empty. */
  function FindFirst(avail: set<nat>): nat {
    if 0 in avail then 0 else if 1 in avail then 1 else if 2 in avail then 2
    else if 3 in avail then 3 else if 4 in avail then 4 else if 5 in avail then 5 else 6
  }

  function Place(loc: Location, reg: nat): Location
    requires reg < 6
  {
    match loc
    case Virt(_) => Phys(Assign(reg))
    case MemVirt(_, d) => MemPhys(Assign(reg), d)
    case _ => loc
  }

  ghost predicate RegsOk(a: Alloc) {
    forall v :: v in a.regs ==> a.regs[v] < 6
  }

  /** The first pass over an instruction's operands: a definition gives its register back; one whose register was
      never allocated kills the instruction, and the pass stops there. */
  datatype DefResult = DefResult(operands: seq<Operand>, alloc: Alloc, killed: bool)

  function DefPass(ops: seq<Operand>, a: Alloc): DefResult
    requires RegsOk(a)
  {
    if ops == [] then DefResult([], a, false)
    else if PureDef(ops[0]) then
      var v := ops[0].loc.index;
      if v !in a.regs then DefResult(ops, a, true)
      else
        var r := DefPass(ops[1..], a.(avail := a.avail + {a.regs[v]}));
        DefResult([ops[0].(loc := Place(ops[0].loc, a.regs[v]))] + r.operands, r.alloc, r.killed)
    else
      var r := DefPass(ops[1..], a);
      DefResult([ops[0]] + r.operands, r.alloc, r.killed)
  }

  /** A register for v: the one it has, or the first free one; None when there is none (flipping a bit that does
      not exist throws). */
  function Obtain(v: nat, a: Alloc): Option<Alloc> {
    if v in a.regs then Some(a)
    else
      var r := FindFirst(a.avail);
      if r == 6 then None else Some(Alloc(a.regs[v := r], a.avail - {r}))
  }

  datatype UseResult = UseResult(operands: seq<Operand>, alloc: Alloc)

  /** The second pass: registers and memory bases that are read get a register. */
  function UsePass(ops: seq<Operand>, a: Alloc): (r: Option<UseResult>)
    requires RegsOk(a)
    ensures r.Some? ==> |r.value.operands| == |ops| && RegsOk(r.value.alloc)
  {
    if ops == [] then Some(UseResult([], a))
    else if ReadsSomeVirt(ops[0]) then
      var v := ops[0].loc.index;
      match Obtain(v, a)
      case None => None
      case Some(a') =>
        match UsePass(ops[1..], a')
        case None => None
        case Some(r) => Some(UseResult([ops[0].(loc := Place(ops[0].loc, a'.regs[v]))] + r.operands, r.alloc))
    else
      match UsePass(ops[1..], a)
      case None => None
      case Some(r) => Some(UseResult([ops[0]] + r.operands, r.alloc))
  }

  /** A register-to-register move whose two operands got the same register. */
  predicate SelfMove(n: Insn) {
    n.opcode.Move? && |n.operands| >= 2 && n.operands[0].loc.Phys? && n.operands[1].loc == n.operands[0].loc
  }

  /** One instruction: the allocation state before it, and what becomes of it. */
  datatype Step = Step(insn: Insn, alloc: Alloc)

  function AllocateInsn(n: Insn, a: Alloc): (r: Option<Step>)
    requires RegsOk(a)
    ensures r.Some? ==> RegsOk(r.value.alloc)
  {
    DefPassOk(n.operands, a);
    var d := DefPass(n.operands, a);
    if d.killed then Some(Step(Insn(Dead, d.operands), d.alloc))
    else match UsePass(d.operands, d.alloc)
      case None => None
      case Some(u) =>
        var n' := n.(operands := u.operands);
        Some(Step(if SelfMove(n') then n'.(opcode := Dead) else n', u.alloc))
  }

  lemma {:induction false} DefPassOk(ops: seq<Operand>, a: Alloc)
    requires RegsOk(a)
    ensures var d := DefPass(ops, a); RegsOk(d.alloc) && d.alloc.regs == a.regs && |d.operands| == |ops|
  {
    if ops != [] && !(PureDef(ops[0]) && ops[0].loc.index !in a.regs) {
      DefPassOk(ops[1..], if PureDef(ops[0]) then a.(avail := a.avail + {a.regs[ops[0].loc.index]}) else a);
    }
  }

  /** The whole list, last instruction first. */
  datatype Result = Result(code: seq<Insn>, alloc: Alloc)

  function Allocate(code: seq<Insn>): (r: Option<Result>)
    ensures r.Some? ==> |r.value.code| == |code| && RegsOk(r.value.alloc)
  {
    if code == [] then Some(Result([], Alloc(map[], ALL)))
    else match Allocate(code[1..])
      case None => None
      case Some(rest) =>
        match AllocateInsn(code[0], rest.alloc)
        case None => None
        case Some(s) => Some(Result([s.insn] + rest.code, s.alloc))
  }

  // ---------------------------------------------------------------------------------------------
  // What the allocator asks of its input
  // ---------------------------------------------------------------------------------------------

  /** At most one destination register; a purely defined register is not also read by the same instruction; every
      virtual register operand is read or written; explicit registers are not ones the allocator hands out; a
      register move has a destination and a source register. */
  predicate InsnOk(n: Insn) {
    && OneWrite(n.operands) && DefNotRead(n.operands)
    && (forall i :: 0 <= i < |n.operands| ==> OperandOk(n.operands[i]))
    && !n.opcode.Dead?
    && (n.opcode.Move? ==> IsMove(n.operands))
  }

  predicate OneWrite(ops: seq<Operand>) {
    forall i, j :: 0 <= i < j < |ops| ==> !(WritesReg(ops[i]) && WritesReg(ops[j]))
  }

  predicate DefNotRead(ops: seq<Operand>) {
    PureDefSet(ops) !! ReadSet(ops)
  }

  predicate IsMove(ops: seq<Operand>) {
    && |ops| >= 2 && WritesReg(ops[0]) && !ops[0].use
    && ops[1].use && !ops[1].def && (ops[1].loc.Virt? || ops[1].loc.Phys?)
  }

  predicate OperandOk(o: Operand) {
    && (o.loc.Virt? ==> o.use || o.def)
    && (o.loc.Phys? ==> o.loc.reg.Reserved?)
    && (o.loc.MemPhys? ==> o.loc.base.Reserved?)
  }

  /** Every virtual register is purely defined at most once, before every other mention of it. */
  predicate DefinesFirst(code: seq<Insn>) {
    forall i, j :: 0 <= i < j < |code| ==>
      forall v :: v in PureDefSet(code[j].operands) ==> !Mentions(code[i], v)
  }

  predicate CodeOk(code: seq<Insn>) {
    (forall i :: 0 <= i < |code| ==> InsnOk(code[i])) && DefinesFirst(code)
  }

  // ---------------------------------------------------------------------------------------------
  // Liveness, independently of the allocator
  // ---------------------------------------------------------------------------------------------

  /** An instruction is useless when it defines a register that nobody needs afterwards. */
  predicate Useless(n: Insn, after: set<nat>) {
    exists v :: v in PureDefSet(n.operands) && v !in after
  }

  /** The virtual registers whose value is needed before the first instruction of code. */
  function Live(code: seq<Insn>): set<nat> {
    if code == [] then {}
    else
      var after := Live(code[1..]);
      if Useless(code[0], after) then after
      else (after - PureDefSet(code[0].operands)) + ReadSet(code[0].operands)
  }

  lemma LiveTail(code: seq<Insn>)
    requires code != [] && CodeOk(code)
    ensures CodeOk(code[1..]) && InsnOk(code[0])
  {
    assert forall i :: 0 <= i < |code| - 1 ==> code[1..][i] == code[i + 1];
  }

  // ---------------------------------------------------------------------------------------------
  // The allocator's invariant
  // ---------------------------------------------------------------------------------------------

  /** The live virtual registers hold distinct registers, and the free ones are exactly the others. */
  ghost predicate AllocInv(a: Alloc, live: set<nat>) {
    && RegsOk(a)
    && live <= a.regs.Keys
    && (forall u, v :: u in live && v in live && a.regs[u] == a.regs[v] ==> u == v)
    && (forall r :: r in a.avail ==> r < 6)
    && (forall v :: v in live ==> a.regs[v] !in a.avail)
  }

  lemma FindFirstOk(avail: set<nat>)
    requires forall r :: r in avail ==> r < 6
    ensures FindFirst(avail) == 6 <==> avail == {}
    ensures FindFirst(avail) < 6 ==> FindFirst(avail) in avail
  {
  }

  /** Releasing the register of a defined virtual register. */
  lemma Release(a: Alloc, live: set<nat>, v: nat)
    requires AllocInv(a, live) && v in live
    ensures AllocInv(a.(avail := a.avail + {a.regs[v]}), live - {v})
  {
  }

  lemma ObtainInv(a: Alloc, live: set<nat>, v: nat)
    requires AllocInv(a, live) && (v in a.regs ==> v in live) && Obtain(v, a).Some?
    ensures var a' := Obtain(v, a).value;
            AllocInv(a', live + {v}) && a'.regs.Keys == a.regs.Keys + {v}
  {
    FindFirstOk(a.avail);
    if v in live { assert live + {v} == live; }
  }

  /** An operand of the given kind with its virtual register replaced by the one the map gives it. */
  function PlaceDef(o: Operand, regs: map<nat, nat>): Operand {
    if PureDef(o) && o.loc.index in regs && regs[o.loc.index] < 6 then o.(loc := Place(o.loc, regs[o.loc.index])) else o
  }

  function PlaceUse(o: Operand, regs: map<nat, nat>): Operand {
    if ReadsSomeVirt(o) && o.loc.index in regs &&
        regs[o.loc.index] < 6 then o.(loc := Place(o.loc, regs[o.loc.index])) else o
  }

  function PlaceDefs(ops: seq<Operand>, regs: map<nat, nat>): seq<Operand> {
    seq(|ops|, i requires 0 <= i < |ops| => PlaceDef(ops[i], regs))
  }

  function PlaceUses(ops: seq<Operand>, regs: map<nat, nat>): seq<Operand> {
    seq(|ops|, i requires 0 <= i < |ops| => PlaceUse(ops[i], regs))
  }

  lemma {:induction false} DefPassOperands(ops: seq<Operand>, a: Alloc)
    requires RegsOk(a)
    ensures var d := DefPass(ops, a);
            && (d.killed <==> exists v :: v in PureDefSet(ops) && v !in a.regs)
            && (!d.killed ==> d.operands == PlaceDefs(ops, a.regs))
  {
    if ops != [] && !(PureDef(ops[0]) && ops[0].loc.index !in a.regs) {
      var a' := if PureDef(ops[0]) then a.(avail := a.avail + {a.regs[ops[0].loc.index]}) else a;
      DefPassOperands(ops[1..], a');
      assert PlaceDefs(ops, a.regs) == [PlaceDef(ops[0], a.regs)] + PlaceDefs(ops[1..], a.regs);
    }
  }

  /** The definition pass frees what the instruction defines. */
  lemma {:induction false} DefPassInv(ops: seq<Operand>, a: Alloc, live: set<nat>)
    requires AllocInv(a, live) && OneWrite(ops) && PureDefSet(ops) <= live
    ensures AllocInv(DefPass(ops, a).alloc, live - PureDefSet(ops))
    ensures |DefPass(ops, a).alloc.avail| == |a.avail| + |PureDefSet(ops)|
    decreases |ops|
  {
    if ops == [] {
      assert live - PureDefSet(ops) == live;
    } else {
      OneWriteTail(ops);
      if PureDef(ops[0]) {
        var v := ops[0].loc.index;
        Release(a, live, v);
        NothingDefined(ops[1..], a.(avail := a.avail + {a.regs[v]}));
        assert PureDefSet(ops) == {v};
      } else {
        assert PureDefSet(ops) == PureDefSet(ops[1..]);
        DefPassInv(ops[1..], a, live);
      }
    }
  }

  lemma {:induction false} NothingDefined(ops: seq<Operand>, a: Alloc)
    requires RegsOk(a) && PureDefSet(ops) == {}
    ensures DefPass(ops, a).alloc == a
    decreases |ops|
  {
    if ops != [] { NothingDefined(ops[1..], a); }
  }

  lemma OneWriteTail(ops: seq<Operand>)
    requires ops != [] && OneWrite(ops)
    ensures OneWrite(ops[1..])
    ensures PureDef(ops[0]) ==> PureDefSet(ops[1..]) == {}
  {
    assert forall i :: 0 <= i < |ops| - 1 ==> ops[1..][i] == ops[i + 1];
    if PureDef(ops[0]) {
      forall i | 0 <= i < |ops[1..]| ensures !PureDef(ops[1..][i]) { assert !WritesReg(ops[i + 1]); }
      forall v | v in PureDefSet(ops[1..]) ensures false { PureDefSetMeaning(ops[1..], v); }
    }
  }

  /** The use pass gives every register read a place, and never changes one already given. */
  lemma {:induction false} UsePassOperands(ops: seq<Operand>, a: Alloc)
    requires RegsOk(a) && UsePass(ops, a).Some?
    ensures var r := UsePass(ops, a).value;
            && r.alloc.regs.Keys == a.regs.Keys + ReadSet(ops)
            && (forall u :: u in a.regs ==> r.alloc.regs[u] == a.regs[u])
            && r.operands == PlaceUses(ops, r.alloc.regs)
  {
    if ops != [] {
      var a' := if ReadsSomeVirt(ops[0]) then Obtain(ops[0].loc.index, a).value else a;
      UsePassOperands(ops[1..], a');
      var r := UsePass(ops, a).value;
      assert PlaceUses(ops, r.alloc.regs) == [PlaceUse(ops[0], r.alloc.regs)] + PlaceUses(ops[1..], r.alloc.regs);
    }
  }

  lemma {:induction false} UsePassInv(ops: seq<Operand>, a: Alloc, live: set<nat>)
    requires AllocInv(a, live) && UsePass(ops, a).Some?
    requires forall v :: v in ReadSet(ops) && v in a.regs ==> v in live
    ensures AllocInv(UsePass(ops, a).value.alloc, live + ReadSet(ops))
  {
    if ops == [] {
      assert live + ReadSet(ops) == live;
    } else if ReadsSomeVirt(ops[0]) {
      var v := ops[0].loc.index;
      ObtainInv(a, live, v);
      UsePassInv(ops[1..], Obtain(v, a).value, live + {v});
      assert live + ReadSet(ops) == live + {v} + ReadSet(ops[1..]);
    } else {
      assert ReadSet(ops) == ReadSet(ops[1..]);
      UsePassInv(ops[1..], a, live);
    }
  }

  /** How many registers the operands still need. */
  function Needed(ops: seq<Operand>, have: set<nat>): nat {
    if ops == [] then 0
    else if ReadsSomeVirt(ops[0]) && ops[0].loc.index !in have then 1 + Needed(ops[1..], have + {ops[0].loc.index})
    else Needed(ops[1..], have)
  }

  lemma {:induction false} NeededIsDifference(ops: seq<Operand>, have: set<nat>)
    ensures Needed(ops, have) == |ReadSet(ops) - have|
    decreases |ops|
  {
    if ops != [] {
      var rest := ReadSet(ops[1..]);
      if ReadsSomeVirt(ops[0]) && ops[0].loc.index !in have {
        var v := ops[0].loc.index;
        NeededIsDifference(ops[1..], have + {v});
        assert ReadSet(ops) - have == {v} + (rest - (have + {v}));
      } else {
        NeededIsDifference(ops[1..], have);
        assert ReadSet(ops) - have == rest - have;
      }
    }
  }

  lemma ObtainCount(v: nat, a: Alloc)
    requires forall r :: r in a.avail ==> r < 6
    ensures Obtain(v, a).Some? <==> v in a.regs || |a.avail| > 0
    ensures Obtain(v, a).Some? ==>
      && |Obtain(v, a).value.avail| == |a.avail| - (if v in a.regs then 0 else 1)
      && Obtain(v, a).value.regs.Keys == a.regs.Keys + {v}
  {
    FindFirstOk(a.avail);
  }

  /** The use pass succeeds exactly when there are enough free registers for the reads that have none yet. */
  lemma {:induction false} UsePassCount(ops: seq<Operand>, a: Alloc)
    requires RegsOk(a) && forall r :: r in a.avail ==> r < 6
    ensures UsePass(ops, a).Some? <==> Needed(ops, a.regs.Keys) <= |a.avail|
    ensures UsePass(ops, a).Some? ==> |UsePass(ops, a).value.alloc.avail| == |a.avail| - Needed(ops, a.regs.Keys)
    decreases |ops|
  {
    if ops != [] {
      if ReadsSomeVirt(ops[0]) {
        var v := ops[0].loc.index;
        ObtainCount(v, a);
        if Obtain(v, a).Some? {
          UsePassCount(ops[1..], Obtain(v, a).value);
        }
      } else {
        UsePassCount(ops[1..], a);
      }
    }
  }

  // ---------------------------------------------------------------------------------------------
  // One instruction
  // ---------------------------------------------------------------------------------------------

  ghost predicate DefinedIn(code: seq<Insn>, v: nat) {
    exists j :: 0 <= j < |code| && v in PureDefSet(code[j].operands)
  }

  /** A register that has an entry but is not live is one whose definition has been passed. */
  ghost predicate Passed(a: Alloc, live: set<nat>, code: seq<Insn>) {
    forall v :: v in a.regs && v !in live ==> DefinedIn(code, v)
  }

  /** No register the instruction mentions is defined later. */
  ghost predicate Precedes(n: Insn, code: seq<Insn>) {
    forall v :: v in ReadSet(n.operands) + PureDefSet(n.operands) ==> !DefinedIn(code, v)
  }

  function LiveBefore(n: Insn, after: set<nat>): set<nat> {
    if Useless(n, after) then after else (after - PureDefSet(n.operands)) + ReadSet(n.operands)
  }

  lemma HeadPrecedes(code: seq<Insn>)
    requires code != [] && CodeOk(code)
    ensures Precedes(code[0], code[1..])
  {
    var ops := code[0].operands;
    forall v | v in ReadSet(ops) + PureDefSet(ops) ensures !DefinedIn(code[1..], v) {
      ReadSetMeaning(ops, v);
      PureDefSetMeaning(ops, v);
      assert Mentions(code[0], v);
      forall j | 0 <= j < |code[1..]| ensures v !in PureDefSet(code[1..][j].operands) {
        assert code[1..][j] == code[j + 1];
      }
    }
  }

  lemma CountBefore(after: set<nat>, defs: set<nat>, uses: set<nat>, keys: set<nat>, avail: nat)
    requires defs <= after && defs !! uses && avail + |after| == 6
    requires forall v :: v in uses && v in keys ==> v in after
    requires after <= keys
    ensures |uses - keys| <= avail + |defs| <==> |(after - defs) + uses| <= 6
    ensures avail + |defs| - |uses - keys| + |(after - defs) + uses| == 6
  {
    assert uses - keys == uses - (after - defs);
    assert (after - defs) + uses == (after - defs) + (uses - (after - defs));
    assert after == (after - defs) + defs;
  }

  lemma DefinedIsLive(n: Insn, code: seq<Insn>, a: Alloc, live: set<nat>)
    requires Precedes(n, code) && Passed(a, live, code)
    ensures forall v :: v in ReadSet(n.operands) && v in a.regs ==> v in live
    ensures forall v :: v in PureDefSet(n.operands) && v in a.regs ==> v in live
  {
  }

  /** The definition pass of an instruction that is not useless. */
  lemma DefPassUseful(n: Insn, code: seq<Insn>, a: Alloc, live: set<nat>)
    requires InsnOk(n) && Precedes(n, code) && AllocInv(a, live) && Passed(a, live, code)
    ensures DefPass(n.operands, a).killed <==> Useless(n, live)
    ensures DefPass(n.operands, a).killed ==> DefPass(n.operands, a).alloc == a
    ensures !Useless(n, live) ==>
      var d := DefPass(n.operands, a);
      && PureDefSet(n.operands) <= live
      && d.alloc.regs == a.regs && ReadSet(d.operands) == ReadSet(n.operands)
      && AllocInv(d.alloc, live - PureDefSet(n.operands))
      && |d.alloc.avail| == |a.avail| + |PureDefSet(n.operands)|
  {
    var ops := n.operands;
    DefinedIsLive(n, code, a, live);
    DefPassOperands(ops, a);
    DefPassOk(ops, a);
    if DefPass(ops, a).killed {
      KilledKeepsAlloc(ops, a);
    } else {
      DefPassInv(ops, a, live);
      ReadsKept(ops, a.regs);
    }
  }

  /** Live registers stay in distinct registers across an instruction. */
  lemma AllocateInsnInv(n: Insn, code: seq<Insn>, a: Alloc, live: set<nat>)
    requires InsnOk(n) && Precedes(n, code) && AllocInv(a, live) && Passed(a, live, code)
    requires AllocateInsn(n, a).Some?
    ensures AllocInv(AllocateInsn(n, a).value.alloc, LiveBefore(n, live))
  {
    DefPassUseful(n, code, a, live);
    if !Useless(n, live) {
      var d := DefPass(n.operands, a);
      DefinedIsLive(n, code, a, live);
      UsePassInv(d.operands, d.alloc, live - PureDefSet(n.operands));
    }
  }

  /** A useless instruction always passes; any other does exactly when what is live before it fits. */
  lemma AllocateInsnCount(n: Insn, code: seq<Insn>, a: Alloc, live: set<nat>)
    requires InsnOk(n) && Precedes(n, code) && AllocInv(a, live) && Passed(a, live, code)
    requires |a.avail| == 6 - |live|
    ensures AllocateInsn(n, a).Some? <==> Useless(n, live) || |LiveBefore(n, live)| <= 6
    ensures AllocateInsn(n, a).Some? ==> |AllocateInsn(n, a).value.alloc.avail| == 6 - |LiveBefore(n, live)|
  {
    DefPassUseful(n, code, a, live);
    if !Useless(n, live) {
      var d := DefPass(n.operands, a);
      DefinedIsLive(n, code, a, live);
      UsePassCount(d.operands, d.alloc);
      NeededIsDifference(d.operands, a.regs.Keys);
      CountBefore(live, PureDefSet(n.operands), ReadSet(n.operands), a.regs.Keys, |a.avail|);
    }
  }

  /** Placing definitions does not change what is read. */
  lemma {:induction false} ReadsKept(ops: seq<Operand>, regs: map<nat, nat>)
    ensures ReadSet(PlaceDefs(ops, regs)) == ReadSet(ops)
    decreases |ops|
  {
    if ops != [] {
      assert PlaceDefs(ops, regs) == [PlaceDef(ops[0], regs)] + PlaceDefs(ops[1..], regs);
      ReadsKept(ops[1..], regs);
    }
  }

  lemma {:induction false} KilledKeepsAlloc(ops: seq<Operand>, a: Alloc)
    requires RegsOk(a) && OneWrite(ops) && DefPass(ops, a).killed
    ensures DefPass(ops, a).alloc == a
    decreases |ops|
  {
    OneWriteTail(ops);
    if PureDef(ops[0]) {
      if ops[0].loc.index in a.regs {
        DefPassOperands(ops[1..], a.(avail := a.avail + {a.regs[ops[0].loc.index]}));
      }
    } else {
      KilledKeepsAlloc(ops[1..], a);
    }
  }

  /** Entries stay settled. */
  lemma AllocateInsnPassed(n: Insn, code: seq<Insn>, a: Alloc, live: set<nat>)
    requires RegsOk(a) && Precedes(n, code) && Passed(a, live, code) && live <= a.regs.Keys && AllocateInsn(n, a).Some?
    ensures var s := AllocateInsn(n, a).value;
            && Passed(s.alloc, LiveBefore(n, live), [n] + code)
            && (forall v :: v in a.regs ==> v in s.alloc.regs && s.alloc.regs[v] == a.regs[v])
            && s.alloc.regs.Keys == if Useless(n, live) then a.regs.Keys else a.regs.Keys + ReadSet(n.operands)
  {
    var ops := n.operands;
    var s := AllocateInsn(n, a).value;
    DefPassOperands(ops, a);
    DefPassOk(ops, a);
    assert forall v :: v in PureDefSet(ops) && v in a.regs ==> v in live;
    if !Useless(n, live) {
      ReadsKept(ops, a.regs);
      UsePassOperands(DefPass(ops, a).operands, DefPass(ops, a).alloc);
    }
    forall v | v in s.alloc.regs && v !in LiveBefore(n, live) ensures DefinedIn([n] + code, v) {
      if v in PureDefSet(ops) {
        assert v in PureDefSet(([n] + code)[0].operands);
      } else {
        assert DefinedIn(code, v);
        var j :| 0 <= j < |code| && v in PureDefSet(code[j].operands);
        assert ([n] + code)[j + 1] == code[j];
      }
    }
  }

  // ---------------------------------------------------------------------------------------------
  // The whole list
  // ---------------------------------------------------------------------------------------------

  /** What is live anywhere fits in six registers. */
  ghost predicate Fits(code: seq<Insn>) {
    forall k :: 0 <= k <= |code| ==> |Live(code[k..])| <= 6
  }

  lemma FitsTail(code: seq<Insn>)
    requires code != []
    ensures Fits(code) <==> Fits(code[1..]) && |Live(code)| <= 6
  {
    assert code[0..] == code;
    forall k | 0 <= k <= |code| - 1 ensures code[1..][k..] == code[k + 1..] {}
    if Fits(code) {
      forall k | 0 <= k <= |code[1..]| ensures |Live(code[1..][k..])| <= 6 {}
    }
    if Fits(code[1..]) && |Live(code)| <= 6 {
      forall k | 0 <= k <= |code| ensures |Live(code[k..])| <= 6 {
        if k > 0 { assert code[1..][k - 1..] == code[k..]; }
      }
    }
  }

  /** Wherever allocation gets to, live registers are in distinct physical registers. */
  lemma {:induction false} AllocateInv(code: seq<Insn>)
    requires CodeOk(code) && Allocate(code).Some?
    ensures AllocInv(Allocate(code).value.alloc, Live(code)) && Passed(Allocate(code).value.alloc, Live(code), code)
    decreases |code|
  {
    if code != [] {
      LiveTail(code);
      HeadPrecedes(code);
      AllocateInv(code[1..]);
      var a, live := Allocate(code[1..]).value.alloc, Live(code[1..]);
      AllocateInsnInv(code[0], code[1..], a, live);
      AllocateInsnPassed(code[0], code[1..], a, live);
      assert [code[0]] + code[1..] == code;
    }
  }

  lemma {:induction false} AllocateCount(code: seq<Insn>)
    requires CodeOk(code)
    ensures Allocate(code).Some? <==> Fits(code)
    ensures Allocate(code).Some? ==> |Allocate(code).value.alloc.avail| == 6 - |Live(code)|
    decreases |code|
  {
    if code == [] {
      assert code[0..] == [];
      assert |ALL| == 6;
    } else {
      LiveTail(code);
      HeadPrecedes(code);
      FitsTail(code);
      AllocateCount(code[1..]);
      if Allocate(code[1..]).Some? {
        AllocateInv(code[1..]);
        LiveFits(code);
        AllocateInsnCount(code[0], code[1..], Allocate(code[1..]).value.alloc, Live(code[1..]));
      }
    }
  }

  lemma LiveFits(code: seq<Insn>)
    requires code != [] && Fits(code[1..])
    ensures Live(code) == LiveBefore(code[0], Live(code[1..]))
    ensures Useless(code[0], Live(code[1..])) ==> |Live(code)| <= 6
  {
    assert code[1..][0..] == code[1..];
  }

  /** The allocator runs out of registers exactly when more than six virtual registers are live somewhere; when it
      succeeds, the live ones are in distinct registers at the start of the block, and all six registers are free
      there exactly when nothing is live on entry. */
  lemma AllocateSucceedsExactly(code: seq<Insn>)
    requires CodeOk(code)
    ensures Allocate(code).Some? <==> forall k :: 0 <= k <= |code| ==> |Live(code[k..])| <= 6
    ensures Allocate(code).Some? ==>
      var a := Allocate(code).value.alloc;
      && (forall u, v :: u in Live(code) && v in Live(code) && u != v ==>
            u in a.regs && v in a.regs && a.regs[u] != a.regs[v])
      && (|a.avail| == 6 <==> Live(code) == {})
  {
    AllocateCount(code);
    if Allocate(code).Some? { AllocateInv(code); }
  }
}
