/** Register allocation on x86 preserves what a block does. */
module X86AllocMeaning {
  import opened Wrappers
  import opened X86Code
  import opened X86RegAlloc
  import Bits

  // ---------------------------------------------------------------------------------------------
  // What allocation makes of an instruction
  // ---------------------------------------------------------------------------------------------

  /** The operands of a surviving instruction: every virtual register replaced by the one the map gives it. */
  lemma SurvivingOperands(n: Insn, code: seq<Insn>, a: Alloc, live: set<nat>)
    requires InsnOk(n) && Precedes(n, code) && AllocInv(a, live) && Passed(a, live, code)
    requires AllocateInsn(n, a).Some? && !Useless(n, live)
    ensures var s := AllocateInsn(n, a).value;
            && |s.insn.operands| == |n.operands|
            && (s.insn.opcode == n.opcode || (s.insn.opcode.Dead? && SelfMove(n.(operands := s.insn.operands))))
            && PureDefSet(n.operands) <= live
            && forall i :: 0 <= i < |n.operands| ==>
                 s.insn.operands[i] == PlaceUse(PlaceDef(n.operands[i], a.regs), s.alloc.regs)
  {
    DefPassUseful(n, code, a, live);
    DefPassOperands(n.operands, a);
    var d := DefPass(n.operands, a);
    UsePassOperands(d.operands, d.alloc);
  }

  predicate HasVirtual(o: Operand) {
    o.loc.Virt? || o.loc.MemVirt?
  }

  lemma PlacedIsPhysical(o: Operand, a: Alloc, s: Alloc)
    requires OperandOk(o) && RegsOk(a) && RegsOk(s)
    requires PureDef(o) ==> o.loc.index in a.regs
    requires ReadsSomeVirt(o) ==> o.loc.index in s.regs
    ensures !HasVirtual(PlaceUse(PlaceDef(o, a.regs), s.regs))
  {
  }

  lemma NoVirtualInsn(n: Insn, code: seq<Insn>, a: Alloc, live: set<nat>, i: nat)
    requires InsnOk(n) && Precedes(n, code) && AllocInv(a, live) && Passed(a, live, code)
    requires AllocateInsn(n, a).Some? && !Useless(n, live) && i < |n.operands|
    ensures var s := AllocateInsn(n, a).value; |s.insn.operands| == |n.operands| && !HasVirtual(s.insn.operands[i])
  {
    var o, s := n.operands[i], AllocateInsn(n, a).value;
    SurvivingOperands(n, code, a, live);
    AllocateInsnPassed(n, code, a, live);
    assert OperandOk(o);
    if ReadsSomeVirt(o) { ReadSetMeaning(n.operands, o.loc.index); assert ReadsVirt(o, o.loc.index); }
    if PureDef(o) { PureDefSetMeaning(n.operands, o.loc.index); }
    PlacedIsPhysical(o, a, s.alloc);
  }

  /** After a successful allocation no live instruction has a virtual operand left. */
  lemma {:induction false} NoVirtualOperands(code: seq<Insn>, k: nat, i: nat)
    requires CodeOk(code) && Allocate(code).Some?
    requires k < |code| && !Allocate(code).value.code[k].opcode.Dead? && i < |Allocate(code).value.code[k].operands|
    ensures var loc := Allocate(code).value.code[k].operands[i].loc; !loc.Virt? && !loc.MemVirt?
    decreases |code|
  {
    LiveTail(code);
    if k > 0 {
      NoVirtualOperands(code[1..], k - 1, i);
    } else {
      HeadPrecedes(code);
      AllocateInv(code[1..]);
      var n, a, live := code[0], Allocate(code[1..]).value.alloc, Live(code[1..]);
      DefPassUseful(n, code[1..], a, live);
      SurvivingOperands(n, code[1..], a, live);
      NoVirtualInsn(n, code[1..], a, live, i);
    }
  }

  // ---------------------------------------------------------------------------------------------
  // Widths
  // ---------------------------------------------------------------------------------------------

  /** The width of each virtual register, which is that of the port it stands for. */
  type Widths = map<nat, Width>

  function WidthOf(ws: Widths, v: nat): Width {
    if v in ws then ws[v] else B64
  }

  /** Every register is named at its own width; an address fills its register. */
  predicate WidthOk(ws: Widths, o: Operand) {
    && (o.loc.Virt? ==> o.width == WidthOf(ws, o.loc.index))
    && (o.loc.MemVirt? ==> WidthOf(ws, o.loc.index) in {B32, B64})
  }

  /** A register move is between operands of its width; the 32-bit one, of a virtual register, may also widen. */
  predicate MoveWidthOk(n: Insn) {
    n.opcode.Move? && IsMove(n.operands) ==>
      && n.operands[1].width == n.opcode.width
      && (n.operands[0].width == n.opcode.width || (n.opcode.width.B32? && n.operands[0].width.B64?))
      && (n.opcode.width.B32? ==> n.operands[1].loc.Virt?)
  }

  /** Every register read at a width was written at that width. */
  predicate WidthsOk(ws: Widths, code: seq<Insn>) {
    forall k :: 0 <= k < |code| ==>
      MoveWidthOk(code[k]) && forall i :: 0 <= i < |code[k].operands| ==> WidthOk(ws, code[k].operands[i])
  }

  /** Two contents of a register of width w that no instruction can tell apart. */
  predicate SameAt(w: Width, x: int, y: int) {
    match w
    case B64 => x == y
    case B32 => x == y && 0 <= x < 0x1_0000_0000
    case _ => Low(w, x) == Low(w, y)
  }

  lemma LowOfMerge(w: Width, had: int, x: int)
    requires w.B8? || w.B16?
    ensures Low(w, Merge(w, had, x)) == Low(w, x)
  {
    if w.B8? {
      Bits.DivModUnique(Merge(w, had, x), had / 0x100, x % 0x100, 0x100);
    } else {
      Bits.DivModUnique(Merge(w, had, x), had / 0x1_0000, x % 0x1_0000, 0x1_0000);
    }
  }

  /** Writing the same value over any two contents gives contents that cannot be told apart. */
  lemma MergeSame(w: Width, had: int, had': int, x: int)
    ensures SameAt(w, Merge(w, had, x), Merge(w, had', x))
  {
    if w.B8? || w.B16? {
      LowOfMerge(w, had, x);
      LowOfMerge(w, had', x);
    }
  }

  // ---------------------------------------------------------------------------------------------
  // Meaning
  // ---------------------------------------------------------------------------------------------

  /** The register moves of the list give their destination what they read, and do nothing else. */
  ghost predicate MovesCopy(m: Meaning, code: seq<Insn>) {
    forall n :: n in code && n.opcode.Move? ==> Copies(m, n.opcode, Shapes(n.operands))
  }

  ghost predicate Copies(m: Meaning, op: Opcode, shapes: seq<(Shape, bool, bool)>) {
    forall inputs: seq<int>, rest: Rest :: |inputs| >= 2 ==> m(op, shapes, inputs, rest) == Outcome(inputs[1], rest)
  }

  /** An instruction that purely defines a virtual register does nothing else. */
  ghost predicate DefsOnlyDefine(m: Meaning, code: seq<Insn>) {
    forall n :: n in code && PureDefSet(n.operands) != {} ==> OnlyDefines(m, n.opcode)
  }

  ghost predicate OnlyDefines(m: Meaning, op: Opcode) {
    forall shapes, inputs, rest :: m(op, shapes, inputs, rest).rest == rest
  }

  /** Physical state g holds every needed virtual value of h where the map says, and agrees with h otherwise. */
  ghost predicate Holds(ws: Widths, regs: map<nat, nat>, live: set<nat>, h: Host, g: Host) {
    && SameOutside(h, g)
    && (forall v :: v in live ==>
          v in regs && regs[v] < 6 && SameAt(WidthOf(ws, v), h.virt(v), g.phys(Assign(regs[v]))))
  }

  /** Memory, CPU state and the registers the allocator never touches. */
  ghost predicate SameOutside(h: Host, g: Host) {
    h.rest == g.rest && forall name :: h.phys(Reserved(name)) == g.phys(Reserved(name))
  }

  /** The two versions of a surviving instruction read the same values. */
  lemma SameInputs(ws: Widths, n: Insn, n': Insn, a: Alloc, s: Alloc, live: set<nat>, h: Host, g: Host)
    requires InsnOk(n) && |n'.operands| == |n.operands| && RegsOk(a) && RegsOk(s)
    requires forall i :: 0 <= i < |n.operands| ==> WidthOk(ws, n.operands[i])
    requires forall i :: 0 <= i < |n.operands| ==> n'.operands[i] == PlaceUse(PlaceDef(n.operands[i], a.regs), s.regs)
    requires ReadSet(n.operands) <= live && live <= s.regs.Keys && Holds(ws, s.regs, live, h, g)
    ensures Shapes(n'.operands) == Shapes(n.operands)
    ensures Inputs(n'.operands, g) == Inputs(n.operands, h)
  {
    forall i | 0 <= i < |n.operands|
      ensures ShapeOf(n'.operands[i]) == ShapeOf(n.operands[i])
      ensures Input(n'.operands[i], g) == Input(n.operands[i], h)
    {
      var o := n.operands[i];
      assert OperandOk(o);
      if ReadsSomeVirt(o) { ReadSetMeaning(n.operands, o.loc.index); assert ReadsVirt(o, o.loc.index); }
    }
  }

  /** ... and write the same place. */
  lemma {:induction false} SameDestination(ops: seq<Operand>, ops': seq<Operand>, a: Alloc, s: Alloc)
    requires |ops'| == |ops| && RegsOk(a) && RegsOk(s)
    requires forall i :: 0 <= i < |ops| ==> ops'[i] == PlaceUse(PlaceDef(ops[i], a.regs), s.regs)
    requires forall i :: 0 <= i < |ops| ==> OperandOk(ops[i])
    requires forall v :: v in a.regs ==> v in s.regs && s.regs[v] == a.regs[v]
    requires PureDefSet(ops) <= a.regs.Keys && ReadSet(ops) <= s.regs.Keys
    ensures match Destination(ops)
            case Some(o) =>
              if o.loc.Virt? then o.loc.index in s.regs &&
                  Destination(ops') == Some(o.(loc := Phys(Assign(s.regs[o.loc.index]))))
              else Destination(ops') == Some(o)
            case None => Destination(ops') == None
    decreases |ops|
  {
    if ops != [] {
      assert OperandOk(ops[0]);
      if !WritesReg(ops[0]) {
        assert forall i :: 0 <= i < |ops| - 1 ==> ops[1..][i] == ops[i + 1] && ops'[1..][i] == ops'[i + 1];
        SameDestination(ops[1..], ops'[1..], a, s);
      }
    }
  }

  lemma {:induction false} NoWritesNoDefs(ops: seq<Operand>)
    requires forall i :: 0 <= i < |ops| ==> !WritesReg(ops[i])
    ensures PureDefSet(ops) == {}
    decreases |ops|
  {
    if ops != [] {
      assert forall i :: 0 <= i < |ops| - 1 ==> ops[1..][i] == ops[i + 1];
      NoWritesNoDefs(ops[1..]);
    }
  }

  /** Where a destination comes from. */
  lemma {:induction false} DestinationIs(ops: seq<Operand>)
    requires OneWrite(ops) && forall i :: 0 <= i < |ops| ==> OperandOk(ops[i])
    ensures match Destination(ops)
            case Some(o) =>
              && (o.loc.Virt? || o.loc.Phys?)
              && (o.loc.Virt? ==> PureDefSet(ops) <= {o.loc.index} && o.loc.index in PureDefSet(ops) + ReadSet(ops))
              && (o.loc.Phys? ==> o.loc.reg.Reserved? && PureDefSet(ops) == {})
            case None => PureDefSet(ops) == {}
    decreases |ops|
  {
    if ops != [] {
      assert OperandOk(ops[0]);
      if WritesReg(ops[0]) {
        forall i | 0 <= i < |ops[1..]| ensures !WritesReg(ops[1..][i]) { assert ops[1..][i] == ops[i + 1]; }
        NoWritesNoDefs(ops[1..]);
      } else {
        assert forall i :: 0 <= i < |ops| - 1 ==> ops[1..][i] == ops[i + 1];
        DestinationIs(ops[1..]);
      }
    }
  }

  /** The register a value is written to is not one that holds another needed value. */
  lemma DestinationIsFree(a: Alloc, s: Alloc, after: set<nat>, before: set<nat>, v: nat, u: nat)
    requires AllocInv(a, after) && AllocInv(s, before)
    requires forall w :: w in a.regs ==> w in s.regs && s.regs[w] == a.regs[w]
    requires u in after && u in before && u != v && (v in after || v in before)
    ensures v in s.regs && s.regs[v] < 6 && Assign(s.regs[u]) != Assign(s.regs[v])
  {
    assert a.regs[u] == s.regs[u];
    if v in after { assert a.regs[u] != a.regs[v]; } else { assert s.regs[u] != s.regs[v]; }
    if Assign(s.regs[u]) == Assign(s.regs[v]) { AssignInjective(s.regs[u], s.regs[v]); }
  }

  /** Writing the same result to a virtual register and to its place keeps the states in step, ... */
  lemma StoreVirtHolds(ws: Widths, o: Operand, result: int, a: Alloc, s: Alloc, after: set<nat>, before: set<nat>,
                       h: Host, g: Host)
    requires AllocInv(a, after) && AllocInv(s, before) && o.loc.Virt? && WidthOk(ws, o)
    requires forall w :: w in a.regs ==> w in s.regs && s.regs[w] == a.regs[w]
    requires o.loc.index in after + before && after <= before + {o.loc.index} && Holds(ws, s.regs, before, h, g)
    ensures var o' := o.(loc := Phys(Assign(s.regs[o.loc.index])));
            Holds(ws, a.regs, after, Store(Some(o), result, h), Store(Some(o'), result, g))
  {
    var v := o.loc.index;
    var r := Assign(s.regs[v]);
    var h', g' := Store(Some(o), result, h), Store(Some(o.(loc := Phys(r))), result, g);
    forall u | u in after ensures SameAt(WidthOf(ws, u), h'.virt(u), g'.phys(Assign(a.regs[u]))) {
      if u == v {
        MergeSame(o.width, h.virt(v), g.phys(r), result);
      } else {
        DestinationIsFree(a, s, after, before, v, u);
      }
    }
  }

  /** ... to either kind of register, or to none. */
  lemma StoreHolds(ws: Widths, d: Option<Operand>, d': Option<Operand>, result: int, a: Alloc, s: Alloc,
                   after: set<nat>, before: set<nat>, h: Host, g: Host)
    requires AllocInv(a, after) && AllocInv(s, before) && Holds(ws, s.regs, before, h, g)
    requires forall w :: w in a.regs ==> w in s.regs && s.regs[w] == a.regs[w]
    requires match d
             case None => after <= before && d' == None
             case Some(o) =>
               if o.loc.Virt? then
                 && WidthOk(ws, o) && o.loc.index in after + before && after <= before + {o.loc.index}
                 && o.loc.index in s.regs && d' == Some(o.(loc := Phys(Assign(s.regs[o.loc.index]))))
               else o.loc.Phys? && o.loc.reg.Reserved? && after <= before && d' == d
    ensures Holds(ws, a.regs, after, Store(d, result, h), Store(d', result, g))
  {
    if d.Some? && d.value.loc.Virt? {
      StoreVirtHolds(ws, d.value, result, a, s, after, before, h, g);
    }
  }

  /** A surviving instruction, before self-moves are removed, does to the physical state what the original does to
      the virtual one. */
  lemma SurvivorHolds(m: Meaning, ws: Widths, n: Insn, n': Insn, a: Alloc, s: Alloc, after: set<nat>, before: set<nat>,
                      h: Host, g: Host)
    requires InsnOk(n) && n'.opcode == n.opcode && |n'.operands| == |n.operands|
    requires AllocInv(a, after) && AllocInv(s, before)
    requires forall i :: 0 <= i < |n.operands| ==> WidthOk(ws, n.operands[i])
    requires forall i :: 0 <= i < |n.operands| ==> n'.operands[i] == PlaceUse(PlaceDef(n.operands[i], a.regs), s.regs)
    requires PureDefSet(n.operands) <= after && before == (after - PureDefSet(n.operands)) + ReadSet(n.operands)
    requires forall v :: v in a.regs ==> v in s.regs && s.regs[v] == a.regs[v]
    requires Holds(ws, s.regs, before, h, g)
    ensures Holds(ws, a.regs, after, Exec(m, n, h), Exec(m, n', g))
  {
    SameInputs(ws, n, n', a, s, before, h, g);
    SameDestination(n.operands, n'.operands, a, s);
    DestinationIs(n.operands);
    var out := m(n.opcode, Shapes(n.operands), Inputs(n.operands, h), h.rest);
    StoreHolds(ws, Destination(n.operands), Destination(n'.operands), out.result, a, s, after, before, h, g);
  }

  predicate IsMoveShape(ops: seq<Operand>) {
    |ops| >= 2 && ops[0].def && ops[1].use
  }

  ghost predicate SamePhys(h: Host, g: Host) {
    h.rest == g.rest && forall q :: h.phys(q) == g.phys(q)
  }

  /** Executing a move of a register to itself changes nothing, exactly when it is not the 32-bit move or the upper half
      is clear already. */
  lemma SelfMoveIsNothingExactly(m: Meaning, n: Insn, g: Host)
    requires SelfMove(n) && IsMoveShape(n.operands) && MoveWidthOfOperands(n) && Copies(m, n.opcode, Shapes(n.operands))
    ensures SamePhys(Exec(m, n, g), g) <==>
              !n.opcode.width.B32? || 0 <= g.phys(n.operands[0].loc.reg) < 0x1_0000_0000
  {
    var r := n.operands[0].loc.reg;
    assert Destination(n.operands) == Some(n.operands[0]);
    assert Inputs(n.operands, g)[1] == Low(n.opcode.width, g.phys(r));
    assert Exec(m, n, g).phys(r) == Merge(n.operands[0].width, g.phys(r), Low(n.opcode.width, g.phys(r)));
    MergeOwn(n.opcode.width, g.phys(r));
  }

  predicate MoveWidthOfOperands(n: Insn) {
    && n.opcode.Move? && |n.operands| >= 2 && n.operands[1].width == n.opcode.width
    && (n.operands[0].width == n.opcode.width || (n.opcode.width.B32? && n.operands[0].width.B64?))
  }

  lemma MergeOwn(w: Width, x: int)
    ensures w.B8? || w.B16? ==> Merge(w, x, Low(w, x)) == x
    ensures Low(B32, x) == x <==> 0 <= x < 0x1_0000_0000
  {
  }

  /** The source of a 32-bit move that is left out has its upper half clear. */
  lemma SourceIsClear(ws: Widths, n: Insn, n': Insn, a: Alloc, s: Alloc, before: set<nat>, h: Host, g: Host)
    requires InsnOk(n) && MoveWidthOk(n) && n.opcode == Move(B32) && WidthOk(ws, n.operands[1])
    requires |n'.operands| == |n.operands| && RegsOk(a) && RegsOk(s) && n'.operands[1].loc == n'.operands[0].loc
    requires n'.operands[1] == PlaceUse(PlaceDef(n.operands[1], a.regs), s.regs)
    requires ReadSet(n.operands) <= before && Holds(ws, s.regs, before, h, g)
    ensures n'.operands[0].loc.Phys? && 0 <= g.phys(n'.operands[0].loc.reg) < 0x1_0000_0000
  {
    var o := n.operands[1];
    ReadSetMeaning(n.operands, o.loc.index);
    assert ReadsVirt(o, o.loc.index);
  }

  /** A move that is left out is not missed. */
  lemma LeftOutHolds(m: Meaning, ws: Widths, n: Insn, n': Insn, a: Alloc, s: Alloc, after: set<nat>, before: set<nat>,
                     h: Host, g: Host)
    requires InsnOk(n) && n'.opcode == n.opcode && |n'.operands| == |n.operands| && SelfMove(n') && MoveWidthOk(n)
    requires RegsOk(a) && RegsOk(s) && forall i :: 0 <= i < |n.operands| ==> WidthOk(ws, n.operands[i])
    requires forall i :: 0 <= i < |n.operands| ==> n'.operands[i] == PlaceUse(PlaceDef(n.operands[i], a.regs), s.regs)
    requires Copies(m, n.opcode, Shapes(n'.operands)) && ReadSet(n.operands) <= before
    requires Holds(ws, s.regs, before, h, g)
    requires Holds(ws, a.regs, after, Exec(m, n, h), Exec(m, n', g))
    ensures Holds(ws, a.regs, after, Exec(m, n, h), g)
  {
    SelfMoveIsNothingExactly(m, n', g);
    if n.opcode.width.B32? { SourceIsClear(ws, n, n', a, s, before, h, g); }
  }

  /** A useless instruction can be skipped. */
  lemma UselessIsNothing(m: Meaning, ws: Widths, n: Insn, regs: map<nat, nat>, after: set<nat>, h: Host, g: Host)
    requires InsnOk(n) && Useless(n, after) && OnlyDefines(m, n.opcode) && Holds(ws, regs, after, h, g)
    ensures Holds(ws, regs, after, Exec(m, n, h), g)
  {
    DestinationIs(n.operands);
  }

  ghost predicate MeaningOk(m: Meaning, code: seq<Insn>) {
    MovesCopy(m, code) && DefsOnlyDefine(m, code)
  }

  /** One instruction and what became of it. */
  lemma InsnHolds(m: Meaning, ws: Widths, n: Insn, code: seq<Insn>, a: Alloc, after: set<nat>, h: Host, g: Host)
    requires InsnOk(n) && Precedes(n, code) && AllocInv(a, after) && Passed(a, after, code)
    requires AllocateInsn(n, a).Some? && MoveWidthOk(n)
    requires forall i :: 0 <= i < |n.operands| ==> WidthOk(ws, n.operands[i])
    requires n.opcode.Move? ==> Copies(m, n.opcode, Shapes(n.operands))
    requires PureDefSet(n.operands) != {} ==> OnlyDefines(m, n.opcode)
    requires Holds(ws, AllocateInsn(n, a).value.alloc.regs, LiveBefore(n, after), h, g)
    ensures Holds(ws, a.regs, after, Exec(m, n, h), Exec(m, AllocateInsn(n, a).value.insn, g))
  {
    var s := AllocateInsn(n, a).value;
    AllocateInsnPassed(n, code, a, after);
    DefPassUseful(n, code, a, after);
    if Useless(n, after) {
      UselessIsNothing(m, ws, n, a.regs, after, h, g);
    } else {
      SurvivingOperands(n, code, a, after);
      AllocateInsnInv(n, code, a, after);
      var n' := n.(operands := s.insn.operands);
      SurvivorHolds(m, ws, n, n', a, s.alloc, after, LiveBefore(n, after), h, g);
      if s.insn.opcode.Dead? {
        SameInputs(ws, n, n', a, s.alloc, LiveBefore(n, after), h, g);
        LeftOutHolds(m, ws, n, n', a, s.alloc, after, LiveBefore(n, after), h, g);
      }
    }
  }

  /** The allocated code, run from a physical state that holds what is live on entry, ends with the same memory,
      CPU state and reserved registers as the virtual code: dead instructions and self-moves are not missed. */
  lemma {:induction false} AllocationPreservesMeaning(m: Meaning, ws: Widths, code: seq<Insn>, h: Host, g: Host)
    requires CodeOk(code) && WidthsOk(ws, code) && Allocate(code).Some? && MeaningOk(m, code)
    requires Holds(ws, Allocate(code).value.alloc.regs, Live(code), h, g)
    ensures SameOutside(ExecAll(m, code, h), ExecAll(m, Allocate(code).value.code, g))
    decreases |code|
  {
    if code != [] {
      var n, tail := code[0], code[1..];
      LiveTail(code);
      HeadPrecedes(code);
      AllocateInv(tail);
      var rest := Allocate(tail).value;
      var s := AllocateInsn(n, rest.alloc).value;
      assert Allocate(code).value.code[1..] == rest.code;
      InsnHolds(m, ws, n, tail, rest.alloc, Live(tail), h, g);
      AllocationPreservesMeaning(m, ws, tail, Exec(m, n, h), Exec(m, s.insn, g));
    }
  }

  // ---------------------------------------------------------------------------------------------
  // Liveness, said without the recursion
  // ---------------------------------------------------------------------------------------------

  /** Instruction j survives dead-code elimination and reads v, and nothing before it defines v. */
  predicate NeededAt(code: seq<Insn>, j: nat, v: nat) {
    j < |code| && !Useless(code[j], Live(code[j + 1..])) && v in ReadSet(code[j].operands)
    && forall i :: 0 <= i < j ==> v !in PureDefSet(code[i].operands)
  }

  /** A virtual register is live exactly when a surviving instruction reads it before anything defines it. */
  lemma {:induction false} LiveMeaning(code: seq<Insn>, v: nat)
    requires CodeOk(code)
    ensures v in Live(code) <==> exists j: nat :: NeededAt(code, j, v)
    decreases |code|
  {
    if code != [] {
      LiveTail(code);
      var n, tail := code[0], code[1..];
      LiveMeaning(tail, v);
      DestinationIs(n.operands);
      forall j: nat | j < |tail| ensures tail[j + 1..] == code[j + 2..] && tail[j] == code[j + 1] {}
      if v in Live(code) {
        if !Useless(n, Live(tail)) && v in ReadSet(n.operands) {
          assert NeededAt(code, 0, v);
        } else {
          var j: nat :| NeededAt(tail, j, v);
          assert NeededAt(code, j + 1, v);
        }
      }
      if j: nat :| NeededAt(code, j, v) {
        if j > 0 { assert NeededAt(tail, j - 1, v); }
      }
    }
  }

  /** Everything that is read was defined earlier in the block. */
  predicate Closed(code: seq<Insn>) {
    forall j :: 0 <= j < |code| ==> forall v :: v in ReadSet(code[j].operands) ==>
      exists i :: 0 <= i < j && v in PureDefSet(code[i].operands)
  }

  /** The blocks the backend builds: allocation succeeds exactly when at most six values are live anywhere, it then
      leaves all six registers free at the start of the block, and the allocated code does what the virtual code does
      from any pair of states that agree on memory, CPU state and reserved registers. */
  lemma BlockAllocation(m: Meaning, ws: Widths, code: seq<Insn>, h: Host, g: Host)
    requires CodeOk(code) && Closed(code)
    ensures Allocate(code).Some? <==> forall k :: 0 <= k <= |code| ==> |Live(code[k..])| <= 6
    ensures Allocate(code).Some? ==> Allocate(code).value.alloc.avail == ALL
    ensures Allocate(code).Some? && WidthsOk(ws, code) && MeaningOk(m, code) && SameOutside(h, g) ==>
              SameOutside(ExecAll(m, code, h), ExecAll(m, Allocate(code).value.code, g))
  {
    NothingLive(code);
    AllocateSucceedsExactly(code);
    if Allocate(code).Some? {
      AllocateInv(code);
      SixOfSix(Allocate(code).value.alloc.avail);
      if WidthsOk(ws, code) && MeaningOk(m, code) && SameOutside(h, g) {
        AllocationPreservesMeaning(m, ws, code, h, g);
      }
    }
  }

  lemma NothingLive(code: seq<Insn>)
    requires CodeOk(code) && Closed(code)
    ensures Live(code) == {}
  {
    forall v: nat, j: nat ensures !NeededAt(code, j, v) {}
    forall v | v in Live(code) ensures false { LiveMeaning(code, v); }
  }

  lemma SixOfSix(s: set<nat>)
    requires |s| == 6 && forall r :: r in s ==> r < 6
    ensures s == ALL
  {
    assert s <= ALL;
    assert |ALL| == 6;
    assert |ALL - s| == |ALL| - |s|;
    assert ALL == (ALL - s) + s;
  }

}
