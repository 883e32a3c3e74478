/** Register allocation on arm64 preserves what a block does, if nothing needed is written over. */
module Arm64AllocMeaning {
  import opened Wrappers
  import opened Arm64Code
  import opened Arm64RegAlloc

  // ---------------------------------------------------------------------------------------------
  // What allocation makes of an instruction
  // ---------------------------------------------------------------------------------------------

  /** An operand with its virtual register replaced by the one the map gives it. */
  function At(o: Operand, regs: map<nat, nat>): Operand {
    if (o.loc.Virt? || o.loc.MemVirt?) && o.loc.index in regs then o.(loc := Place(o.loc, regs[o.loc.index])) else o
  }

  /** Killed in the first pass: its definition has no register, and it need not be kept. */
  predicate Killed(n: Insn, a: Alloc) {
    DefOf(n.operands).Some? && DefOf(n.operands).value !in a.regs && !n.keep
  }

  lemma MidIs(n: Insn, a: Alloc)
    requires OneDef(n.operands) && DefPass(n.operands, n.keep, a).Some?
    ensures Mid(n, a).killed <==> Killed(n, a)
    ensures !Killed(n, a) ==>
              Extends(a.regs, Mid(n, a).alloc.regs) && Mid(n, a).alloc.regs.Keys == a.regs.Keys + DefSet(n.operands)
  {
    DefPassIs(n.operands, n.keep, a);
  }

  predicate Within(small: map<nat, nat>, big: map<nat, nat>) {
    forall v :: v in small ==> v in big && small[v] == big[v]
  }

  lemma {:induction false} CleanupShrinks(ops: seq<Operand>, entries: seq<Entry>, a: Alloc)
    requires |entries| == |ops|
    ensures Within(Cleanup(ops, entries, a).regs, a.regs)
    decreases |ops|
  {
    if ops != [] {
      var b := if ops[0].def then a.(regs := a.regs - {entries[0].0}, ints := Flip(a.ints, entries[0].1)) else a;
      CleanupShrinks(ops[1..], entries[1..], b);
    }
  }

  /** Both passes happened; what they gave places every virtual register the instruction names. */
  lemma Passes(p: Setup, n: Insn, a: Alloc)
    requires Typed(p, n) && AllocateInsn(n, a).Some? && !Killed(n, a)
    ensures Used(n, a).Some?
    ensures var s, u := AllocateInsn(n, a).value, Used(n, a).value;
            && s.insn.operands == u.operands && Within(s.alloc.regs, u.alloc.regs)
            && s.insn.opcode == (if SelfMove(n.(operands := u.operands)) then Dead else n.opcode)
            && Extends(a.regs, u.alloc.regs)
            && u.alloc.regs.Keys == a.regs.Keys + DefSet(n.operands) + ReadSet(n.operands)
            && |u.operands| == |n.operands|
            && forall i :: 0 <= i < |n.operands| ==>
                 u.operands[i] == PlaceUse(PlaceDef(n.operands[i], DefReg(n, a)), u.alloc.regs)
  {
    MidIs(n, a);
    MidOperands(n, a);
    ReadsKept(n.operands, DefReg(n, a));
    var d := Mid(n, a);
    UsePassIs(d.operands, d.alloc, d.entries);
    UsePassLengths(d.operands, d.alloc, d.entries);
    if d.unusedKeep { CleanupShrinks(Used(n, a).value.operands, Used(n, a).value.entries, Used(n, a).value.alloc); }
  }

  lemma {:induction false} DefIsIn(ops: seq<Operand>, i: nat)
    requires OneDef(ops) && i < |ops| && PureDef(ops[i])
    ensures DefOf(ops) == Some(ops[i].loc.index)
  {
    OnlyDef(ops, i);
  }

  /** Every operand is placed by the map in force while the instruction executes. */
  lemma Located(p: Setup, n: Insn, a: Alloc, i: nat)
    requires Typed(p, n) && AllocateInsn(n, a).Some? && !Killed(n, a) && i < |n.operands|
    ensures Used(n, a).Some?
    ensures var s, regs := AllocateInsn(n, a).value, Used(n, a).value.alloc.regs;
            && |s.insn.operands| == |n.operands| && s.insn.operands[i] == At(n.operands[i], regs)
            && (n.operands[i].loc.Virt? || n.operands[i].loc.MemVirt? ==> n.operands[i].loc.index in regs)
  {
    var o := n.operands[i];
    Passes(p, n, a);
    MidIs(n, a);
    MidOperands(n, a);
    UsePassIs(Mid(n, a).operands, Mid(n, a).alloc, Mid(n, a).entries);
    assert OperandOk(p, o);
    if ReadsSomeVirt(o) { ReadSetMeaning(n.operands, o.loc.index); assert ReadsVirt(o, o.loc.index); }
    if PureDef(o) { DefIsIn(n.operands, i); }
  }

  /** What emit refuses: an empty operand, or one that still names a virtual register. */
  predicate Refused(o: Operand) {
    o.loc.Invalid? || o.loc.Virt? || o.loc.MemVirt?
  }

  lemma KilledStep(n: Insn, a: Alloc)
    requires OneDef(n.operands) && Killed(n, a)
    ensures AllocateInsn(n, a).Some? && AllocateInsn(n, a).value.insn.opcode.Dead?
    ensures AllocateInsn(n, a).value.alloc == a
  {
    DefPassIs(n.operands, n.keep, a);
  }

  lemma NoVirtualInsn(p: Setup, n: Insn, a: Alloc, i: nat)
    requires Typed(p, n) && AllocateInsn(n, a).Some? && !AllocateInsn(n, a).value.insn.opcode.Dead?
    requires i < |AllocateInsn(n, a).value.insn.operands|
    ensures !Refused(AllocateInsn(n, a).value.insn.operands[i])
  {
    if Killed(n, a) {
      KilledStep(n, a);
    } else {
      Passes(p, n, a);
      Located(p, n, a, i);
      assert OperandOk(p, n.operands[i]);
    }
  }

  predicate AllTyped(p: Setup, code: seq<Insn>) {
    forall k :: 0 <= k < |code| ==> Typed(p, code[k])
  }

  /** After a successful allocation no live instruction has an operand that emit refuses. */
  lemma {:induction false} NoVirtualOperands(p: Setup, code: seq<Insn>, k: nat, i: nat)
    requires AllTyped(p, code) && Allocate(code, p.ints, p.floats).Some?
    requires var r := Allocate(code, p.ints, p.floats).value;
             k < |code| && !r.code[k].opcode.Dead? && i < |r.code[k].operands|
    ensures var loc := Allocate(code, p.ints, p.floats).value.code[k].operands[i].loc;
            !loc.Invalid? && !loc.Virt? && !loc.MemVirt?
    decreases |code|
  {
    assert forall j :: 0 <= j < |code| - 1 ==> code[1..][j] == code[j + 1];
    if k > 0 {
      NoVirtualOperands(p, code[1..], k - 1, i);
    } else {
      NoVirtualInsn(p, code[0], Allocate(code[1..], p.ints, p.floats).value.alloc, i);
    }
  }

  // ---------------------------------------------------------------------------------------------
  // What is needed
  // ---------------------------------------------------------------------------------------------

  /** Virtual and explicit registers whose values later instructions need. */
  datatype Need = Need(virt: set<nat>, phys: set<PhysReg>)

  function PhysDefs(ops: seq<Operand>): set<PhysReg> {
    set i | 0 <= i < |ops| && ops[i].loc.Phys? && ops[i].def :: ops[i].loc.reg
  }

  function PhysReads(ops: seq<Operand>): set<PhysReg> {
    (set i | 0 <= i < |ops| && ops[i].loc.Phys? && ops[i].use :: ops[i].loc.reg)
    + (set i | 0 <= i < |ops| && ops[i].loc.MemPhys? :: ops[i].loc.base)
  }

  function NeedBefore(n: Insn, after: Need): Need {
    Need((after.virt - DefSet(n.operands)) + ReadSet(n.operands),
         (after.phys - PhysDefs(n.operands)) + PhysReads(n.operands))
  }

  /** What is needed before the list, when the explicit registers of outs are looked at after it. */
  function NeededBefore(p: Setup, code: seq<Insn>, outs: set<PhysReg>): Need
    requires Allocate(code, p.ints, p.floats).Some?
  {
    if code == [] then Need({}, outs)
    else
      var after := NeededBefore(p, code[1..], outs);
      if Killed(code[0], Allocate(code[1..], p.ints, p.floats).value.alloc) then after else NeedBefore(code[0], after)
  }

  function Where(p: Setup, regs: map<nat, nat>, v: nat): PhysReg {
    PhysReg(IsFloat(p, v), if v in regs then regs[v] else 0)
  }

  // ---------------------------------------------------------------------------------------------
  // Widths
  // ---------------------------------------------------------------------------------------------

  /** wide: the 64-bit virtual registers. clean: those of the others whose register has a clear upper half. */
  datatype Widths = Widths(wide: set<nat>, clean: set<nat>)

  /** Each register is named at the width of its type; addresses are whole. */
  predicate WidthOk(w: Widths, o: Operand) {
    && (o.loc.Virt? ==> (o.width.W64? <==> o.loc.index in w.wide))
    && (o.loc.MemVirt? ==> o.loc.index in w.wide + w.clean)
  }

  predicate WidthsOk(w: Widths, code: seq<Insn>) {
    && w.wide !! w.clean
    && forall k :: 0 <= k < |code| ==> forall i :: 0 <= i < |code[k].operands| ==> WidthOk(w, code[k].operands[i])
  }

  /** Two contents of a register that no instruction can tell apart. */
  predicate SameAt(w: Widths, v: nat, x: int, y: int) {
    if v in w.wide then x == y
    else if v in w.clean then x == y && 0 <= x < 0x1_0000_0000
    else Low(W32, x) == Low(W32, y)
  }

  /** Leaving out a move of s into d is harmless when they share a register: d is only ever read at 32 bits, or s
      fills the register. */
  predicate MoveWidthsOk(w: Widths, d: Operand, s: Operand) {
    if d.loc.Virt? && d.loc.index !in w.wide + w.clean then true
    else if d.width.W32? then s.loc.Virt? && s.loc.index in w.clean
    else if s.loc.Virt? then s.loc.index in w.wide + w.clean
    else s.width.W64?
  }

  predicate Removable(p: Setup, w: Widths, ops: seq<Operand>) {
    IsMove(ops) && BankOf(ops[0]) == BankOf(ops[1]) && MoveWidthsOk(w, ops[0], ops[1])
  }

  // ---------------------------------------------------------------------------------------------
  // Nothing needed is written over
  // ---------------------------------------------------------------------------------------------

  /** What operand o writes is not where another needed value is. */
  predicate Apart(p: Setup, regs: map<nat, nat>, o: Operand, after: Need) {
    o.def ==>
      && (o.loc.Virt? ==>
            && Where(p, regs, o.loc.index) !in after.phys
            && forall v :: v in after.virt && v != o.loc.index ==> Where(p, regs, v) != Where(p, regs, o.loc.index))
      && (o.loc.Phys? ==> forall v :: v in after.virt ==> Where(p, regs, v) != o.loc.reg)
  }

  /** An instruction that was not killed: everything needed before it has a register, nothing it writes is where
      another needed value is, and if it was left out as a self-move it copies one whole register. */
  predicate InsnUndisturbed(p: Setup, w: Widths, n: Insn, a: Alloc, after: Need)
    requires AllocateInsn(n, a).Some? && Used(n, a).Some?
  {
    var s, u := AllocateInsn(n, a).value, Used(n, a).value;
    && NeedBefore(n, after).virt <= s.alloc.regs.Keys
    && (forall i :: 0 <= i < |n.operands| ==> Apart(p, u.alloc.regs, n.operands[i], after))
    && (SelfMove(n.(operands := u.operands)) ==> Removable(p, w, n.operands))
  }

  predicate Undisturbed(p: Setup, w: Widths, code: seq<Insn>, outs: set<PhysReg>)
    requires AllTyped(p, code) && Allocate(code, p.ints, p.floats).Some?
  {
    code == [] ||
    (var n, tail := code[0], code[1..];
     var a := Allocate(tail, p.ints, p.floats).value.alloc;
     assert forall j :: 0 <= j < |code| - 1 ==> tail[j] == code[j + 1];
     Undisturbed(p, w, tail, outs)
     && (Killed(n, a) || (Passes(p, n, a); InsnUndisturbed(p, w, n, a, NeededBefore(p, tail, outs)))))
  }

  // ---------------------------------------------------------------------------------------------
  // Meaning
  // ---------------------------------------------------------------------------------------------

  /** A move between registers gives its destination what it read, and does nothing else. */
  ghost predicate MovesCopy(m: Meaning, code: seq<Insn>) {
    forall n :: n in code && n.opcode.Op? && n.opcode.mov && IsMove(n.operands) ==>
      Copies(m, n.opcode, ShapesOf(n.operands))
  }

  ghost predicate Copies(m: Meaning, op: Opcode, shapes: Shapes) {
    forall inputs: seq<int>, rest: Rest :: |inputs| >= 2 ==>
      m(op, shapes, inputs, rest).results(0) == inputs[1] && m(op, shapes, inputs, rest).rest == rest
  }

  /** An instruction that purely defines a virtual register, and need not be kept, does nothing else. */
  ghost predicate DefsOnlyDefine(m: Meaning, code: seq<Insn>) {
    forall n :: n in code && !n.keep && DefSet(n.operands) != {} ==> OnlyDefines(m, n.opcode)
  }

  ghost predicate OnlyDefines(m: Meaning, op: Opcode) {
    forall shapes, inputs, rest :: m(op, shapes, inputs, rest).rest == rest
  }

  /** Physical state g holds every needed value of h where the map says. */
  ghost predicate Holds(p: Setup, w: Widths, regs: map<nat, nat>, need: Need, h: Host, g: Host) {
    && h.rest == g.rest
    && (forall r :: r in need.phys ==> h.phys(r) == g.phys(r))
    && (forall v :: v in need.virt ==> v in regs && SameAt(w, v, h.virt(v), g.phys(Where(p, regs, v))))
  }

  /** Operands from i on write loc. */
  predicate Written(ops: seq<Operand>, i: nat, loc: Location) {
    exists k :: i <= k < |ops| && ops[k].def && ops[k].loc == loc
  }

  /** The same, but for what the operands from i on will write. */
  ghost predicate HoldsBut(p: Setup, w: Widths, regs: map<nat, nat>, need: Need, ops: seq<Operand>, i: nat, h: Host,
                           g: Host) {
    && h.rest == g.rest
    && (forall r :: r in need.phys && !Written(ops, i, Phys(r)) ==> h.phys(r) == g.phys(r))
    && (forall v :: v in need.virt ==> v in regs)
    && (forall v :: v in need.virt && !Written(ops, i, Virt(v, IsFloat(p, v))) ==>
          SameAt(w, v, h.virt(v), g.phys(Where(p, regs, v))))
  }

  lemma WrittenStep(ops: seq<Operand>, i: nat, loc: Location)
    requires i < |ops|
    ensures Written(ops, i, loc) <==> Written(ops, i + 1, loc) || (ops[i].def && ops[i].loc == loc)
  {
  }

  /** One operand's write. */
  lemma StoreHolds(p: Setup, w: Widths, ops: seq<Operand>, i: nat, x: int, regs: map<nat, nat>, need: Need, h: Host,
                   g: Host)
    requires i < |ops| && OperandOk(p, ops[i]) && WidthOk(w, ops[i]) && w.wide !! w.clean
    requires Apart(p, regs, ops[i], need)
    requires ops[i].loc.Virt? ==> ops[i].loc.index in regs
    requires HoldsBut(p, w, regs, need, ops, i, h, g)
    ensures HoldsBut(p, w, regs, need, ops, i + 1, Store(ops[i], x, h), Store(At(ops[i], regs), x, g))
  {
    var o := ops[i];
    var h', g' := Store(o, x, h), Store(At(o, regs), x, g);
    forall r | r in need.phys && !Written(ops, i + 1, Phys(r)) ensures h'.phys(r) == g'.phys(r) {
      WrittenStep(ops, i, Phys(r));
    }
    forall v | v in need.virt && !Written(ops, i + 1, Virt(v, IsFloat(p, v)))
      ensures SameAt(w, v, h'.virt(v), g'.phys(Where(p, regs, v)))
    {
      WrittenStep(ops, i, Virt(v, IsFloat(p, v)));
    }
  }

  /** All of them. */
  lemma {:induction false} StoresHold(p: Setup, w: Widths, n: Insn, ops': seq<Operand>, i: nat, results: nat -> int,
                                      regs: map<nat, nat>, need: Need, h: Host, g: Host)
    requires Typed(p, n) && w.wide !! w.clean && i <= |n.operands| == |ops'|
    requires forall k :: 0 <= k < |n.operands| ==>
               && WidthOk(w, n.operands[k]) && Apart(p, regs, n.operands[k], need) && ops'[k] == At(n.operands[k], regs)
               && (n.operands[k].loc.Virt? ==> n.operands[k].loc.index in regs)
    requires HoldsBut(p, w, regs, need, n.operands, i, h, g)
    ensures HoldsBut(p, w, regs, need, n.operands, |n.operands|,
                     StoreFrom(n.operands, i, results, h), StoreFrom(ops', i, results, g))
    decreases |n.operands| - i
  {
    if i < |n.operands| {
      assert OperandOk(p, n.operands[i]);
      StoreHolds(p, w, n.operands, i, results(i), regs, need, h, g);
      StoresHold(p, w, n, ops', i + 1, results, regs, need,
                 Store(n.operands[i], results(i), h), Store(ops'[i], results(i), g));
    }
  }

  lemma NothingWritten(ops: seq<Operand>, loc: Location)
    ensures !Written(ops, |ops|, loc)
  {
  }

  /** What is needed after an instruction and not written by it is needed before it. */
  lemma BeforeHolds(p: Setup, w: Widths, n: Insn, regs: map<nat, nat>, after: Need, h: Host, g: Host)
    requires Typed(p, n) && Holds(p, w, regs, NeedBefore(n, after), h, g)
    requires forall v :: v in after.virt ==> v in regs
    ensures HoldsBut(p, w, regs, after, n.operands, 0, h, g)
  {
    var ops := n.operands;
    forall r | r in after.phys && !Written(ops, 0, Phys(r)) ensures h.phys(r) == g.phys(r) {
      assert r !in PhysDefs(ops);
    }
    forall v | v in after.virt && !Written(ops, 0, Virt(v, IsFloat(p, v)))
      ensures SameAt(w, v, h.virt(v), g.phys(Where(p, regs, v)))
    {
      DefIsWritten(p, n, v);
    }
  }

  lemma DefIsWritten(p: Setup, n: Insn, v: nat)
    requires Typed(p, n)
    ensures v in DefSet(n.operands) ==> Written(n.operands, 0, Virt(v, IsFloat(p, v)))
  {
    if v in DefSet(n.operands) {
      DefOfMeaning(n.operands, v);
      var i :| 0 <= i < |n.operands| && PureDef(n.operands[i]) && n.operands[i].loc.index == v;
      assert OperandOk(p, n.operands[i]);
    }
  }

  /** The two versions of an operand read the same. */
  lemma SameInput(p: Setup, w: Widths, n: Insn, i: nat, regs: map<nat, nat>, after: Need, h: Host, g: Host)
    requires Typed(p, n) && i < |n.operands| && WidthOk(w, n.operands[i])
    requires Holds(p, w, regs, NeedBefore(n, after), h, g)
    ensures var o' := At(n.operands[i], regs);
            ShapeOf(o') == ShapeOf(n.operands[i]) && Input(o', g) == Input(n.operands[i], h)
  {
    var o := n.operands[i];
    assert OperandOk(p, o);
    if ReadsSomeVirt(o) {
      ReadSetMeaning(n.operands, o.loc.index);
      assert ReadsVirt(o, o.loc.index);
    }
    if o.loc.Phys? && o.use { assert o.loc.reg in PhysReads(n.operands); }
    if o.loc.MemPhys? { assert o.loc.base in PhysReads(n.operands); }
  }

  lemma SameInputs(p: Setup, w: Widths, n: Insn, ops': seq<Operand>, regs: map<nat, nat>, after: Need, h: Host, g: Host)
    requires Typed(p, n) && |ops'| == |n.operands|
    requires forall k :: 0 <= k < |n.operands| ==> WidthOk(w, n.operands[k]) && ops'[k] == At(n.operands[k], regs)
    requires Holds(p, w, regs, NeedBefore(n, after), h, g)
    ensures ShapesOf(ops') == ShapesOf(n.operands) && Inputs(ops', g) == Inputs(n.operands, h)
  {
    forall i | 0 <= i < |n.operands|
      ensures ShapeOf(ops'[i]) == ShapeOf(n.operands[i]) && Input(ops'[i], g) == Input(n.operands[i], h)
    {
      SameInput(p, w, n, i, regs, after, h, g);
    }
  }

  /** An instruction and its placed form do the same. */
  lemma PlacedHolds(m: Meaning, p: Setup, w: Widths, n: Insn, n': Insn, regs: map<nat, nat>, after: Need, h: Host,
                    g: Host)
    requires Typed(p, n) && w.wide !! w.clean && n'.opcode == n.opcode && |n'.operands| == |n.operands|
    requires forall k :: 0 <= k < |n.operands| ==>
               && WidthOk(w, n.operands[k]) && Apart(p, regs, n.operands[k], after)
               && n'.operands[k] == At(n.operands[k], regs)
               && (n.operands[k].loc.Virt? ==> n.operands[k].loc.index in regs)
    requires (forall v :: v in after.virt ==> v in regs) && Holds(p, w, regs, NeedBefore(n, after), h, g)
    ensures Holds(p, w, regs, after, Exec(m, n, h), Exec(m, n', g))
  {
    SameInputs(p, w, n, n'.operands, regs, after, h, g);
    var out := m(n.opcode, ShapesOf(n.operands), Inputs(n.operands, h), h.rest);
    BeforeHolds(p, w, n, regs, after, h, g);
    StoresHold(p, w, n, n'.operands, 0, out.results, regs, after, h, g);
    forall r: PhysReg ensures !Written(n.operands, |n.operands|, Phys(r)) { NothingWritten(n.operands, Phys(r)); }
    forall v: nat ensures !Written(n.operands, |n.operands|, Virt(v, IsFloat(p, v))) {
      NothingWritten(n.operands, Virt(v, IsFloat(p, v)));
    }
  }

  // ---------------------------------------------------------------------------------------------
  // Moves that are left out
  // ---------------------------------------------------------------------------------------------

  /** What a move between registers does to the virtual state. */
  lemma MoveIs(m: Meaning, p: Setup, n: Insn, h: Host)
    requires Typed(p, n) && n.opcode.mov && IsMove(n.operands) && Copies(m, n.opcode, ShapesOf(n.operands))
    ensures Exec(m, n, h) == Store(n.operands[0], Input(n.operands[1], h), h)
  {
    var ops := n.operands;
    var out := m(n.opcode, ShapesOf(ops), Inputs(ops, h), h.rest);
    assert Inputs(ops, h)[1] == Input(ops[1], h);
    NoMoreStores(ops, 1, out.results, Store(ops[0], out.results(0), h));
  }

  lemma {:induction false} NoMoreStores(ops: seq<Operand>, i: nat, results: nat -> int, h: Host)
    requires i <= |ops| && forall k :: i <= k < |ops| ==> !ops[k].def
    ensures StoreFrom(ops, i, results, h) == h
    decreases |ops| - i
  {
    if i < |ops| { NoMoreStores(ops, i + 1, results, h); }
  }

  /** Leaving out a move whose source and destination share a register changes nothing that is needed, when nothing
      else needed is in that register and the source fills it as far as anyone looks. */
  lemma MoveLeftOut(m: Meaning, p: Setup, w: Widths, n: Insn, regs: map<nat, nat>, after: Need, h: Host, g: Host)
    requires Typed(p, n) && n.opcode.mov && IsMove(n.operands) && Copies(m, n.opcode, ShapesOf(n.operands))
    requires Removable(p, w, n.operands) && w.wide !! w.clean && Apart(p, regs, n.operands[0], after)
    requires WidthOk(w, n.operands[0]) && WidthOk(w, n.operands[1])
    requires (n.operands[0].loc.Virt? ==> n.operands[0].loc.index in regs)
    requires (n.operands[1].loc.Virt? ==> n.operands[1].loc.index in regs)
    requires At(n.operands[0], regs).loc == At(n.operands[1], regs).loc
    requires (forall v :: v in after.virt ==> v in regs) && Holds(p, w, regs, NeedBefore(n, after), h, g)
    ensures Holds(p, w, regs, after, Exec(m, n, h), g)
  {
    var d, s := n.operands[0], n.operands[1];
    MoveIs(m, p, n, h);
    SameInput(p, w, n, 1, regs, after, h, g);
    BeforeHolds(p, w, n, regs, after, h, g);
    assert OperandOk(p, d) && OperandOk(p, s);
    if s.loc.Virt? {
      ReadSetMeaning(n.operands, s.loc.index);
      assert ReadsVirt(s, s.loc.index);
    }
    OnlyFirstWritten(n.operands);
    MovedValue(p, w, d, s, regs, NeedBefore(n, after), h, g);
  }

  lemma OnlyFirstWritten(ops: seq<Operand>)
    requires MoveShape(ops) && IsMove(ops)
    ensures forall loc :: Written(ops, 0, loc) <==> loc == ops[0].loc
  {
    forall loc ensures Written(ops, 0, loc) <==> loc == ops[0].loc {
      if loc == ops[0].loc { assert ops[0].def; }
    }
  }

  /** The value a left-out move would have given its destination is, as far as anyone looks, the one already there. */
  lemma MovedValue(p: Setup, w: Widths, d: Operand, s: Operand, regs: map<nat, nat>, before: Need, h: Host, g: Host)
    requires IsRegister(d) && IsRegister(s) && s.use && WidthOk(w, d) && WidthOk(w, s) && w.wide !! w.clean
    requires OperandOk(p, d) && OperandOk(p, s) && MoveWidthsOk(w, d, s) && Holds(p, w, regs, before, h, g)
    requires (d.loc.Virt? ==> d.loc.index in regs) && At(d, regs).loc == At(s, regs).loc
    requires if s.loc.Virt? then s.loc.index in before.virt else s.loc.reg in before.phys
    ensures var x := Low(d.width, Input(s, h));
            if d.loc.Virt? then SameAt(w, d.loc.index, x, g.phys(Where(p, regs, d.loc.index)))
            else x == g.phys(d.loc.reg)
  {
  }

  ghost predicate SamePhys(h: Host, g: Host) {
    h.rest == g.rest && forall q :: h.phys(q) == g.phys(q)
  }

  /** Leaving out a move between any two registers is invisible exactly when the destination already holds what the move
      would give it: within one register, when its value survives being read at the one width and written at the
      other; between registers of the same number in two banks, when they hold the same value. */
  lemma LeftOutExactly(m: Meaning, p: Setup, n: Insn, g: Host)
    requires Typed(p, n) && n.opcode.mov && IsMove(n.operands) && Copies(m, n.opcode, ShapesOf(n.operands))
    requires n.operands[0].loc.Phys? && n.operands[1].loc.Phys?
    ensures var d, s := n.operands[0], n.operands[1];
            SamePhys(Exec(m, n, g), g) <==> Low(d.width, Low(s.width, g.phys(s.loc.reg))) == g.phys(d.loc.reg)
  {
    MoveIs(m, p, n, g);
    var d, s := n.operands[0], n.operands[1];
    assert Exec(m, n, g).phys(d.loc.reg) == Low(d.width, Low(s.width, g.phys(s.loc.reg)));
  }

  // ---------------------------------------------------------------------------------------------
  // The whole list
  // ---------------------------------------------------------------------------------------------

  lemma HoldsWithin(p: Setup, w: Widths, small: map<nat, nat>, big: map<nat, nat>, need: Need, h: Host, g: Host)
    requires Within(small, big) && Holds(p, w, small, need, h, g)
    ensures Holds(p, w, big, need, h, g)
  {
  }

  lemma HoldsBack(p: Setup, w: Widths, small: map<nat, nat>, big: map<nat, nat>, need: Need, h: Host, g: Host)
    requires Within(small, big) && Holds(p, w, big, need, h, g) && need.virt <= small.Keys
    ensures Holds(p, w, small, need, h, g)
  {
  }

  /** Nobody needs what a killed instruction defines. */
  lemma {:induction false} KilledHolds(m: Meaning, p: Setup, w: Widths, n: Insn, regs: map<nat, nat>, after: Need,
                                       h: Host, g: Host)
    requires Typed(p, n) && DefOf(n.operands).Some? && DefOf(n.operands).value !in after.virt
    requires forall i :: 0 <= i < |n.operands| && n.operands[i].def ==> PureDef(n.operands[i])
    requires OnlyDefines(m, n.opcode) && Holds(p, w, regs, after, h, g)
    ensures Holds(p, w, regs, after, Exec(m, n, h), g)
  {
    var v, ops := DefOf(n.operands).value, n.operands;
    forall i | 0 <= i < |ops| && ops[i].def ensures ops[i].loc.Virt? && ops[i].loc.index == v { DefIsIn(ops, i); }
    var out := m(n.opcode, ShapesOf(ops), Inputs(ops, h), h.rest);
    StoresOnly(ops, 0, v, out.results, h);
  }

  lemma {:induction false} StoresOnly(ops: seq<Operand>, i: nat, v: nat, results: nat -> int, h: Host)
    requires forall k :: 0 <= k < |ops| && ops[k].def ==> ops[k].loc.Virt? && ops[k].loc.index == v
    ensures var h' := StoreFrom(ops, i, results, h);
            h'.rest == h.rest && h'.phys == h.phys && forall u :: u != v ==> h'.virt(u) == h.virt(u)
    decreases |ops| - i
  {
    if i < |ops| { StoresOnly(ops, i + 1, v, results, Store(ops[i], results(i), h)); }
  }

  /** An instruction that may be killed writes nothing but what it defines. */
  predicate KillOk(n: Insn) {
    !n.keep && DefOf(n.operands).Some? ==> forall i :: 0 <= i < |n.operands| && n.operands[i].def ==>
        PureDef(n.operands[i])
  }

  predicate ListOk(p: Setup, w: Widths, code: seq<Insn>) {
    AllTyped(p, code) && WidthsOk(w, code) && forall k :: 0 <= k < |code| ==> KillOk(code[k])
  }

  ghost predicate MeaningOk(m: Meaning, code: seq<Insn>) {
    MovesCopy(m, code) && DefsOnlyDefine(m, code)
  }

  /** One instruction that was not killed, and what became of it. */
  lemma InsnHolds(m: Meaning, p: Setup, w: Widths, n: Insn, a: Alloc, after: Need, h: Host, g: Host)
    requires Typed(p, n) && AllocateInsn(n, a).Some? && !Killed(n, a) && Used(n, a).Some?
    requires w.wide !! w.clean && forall i :: 0 <= i < |n.operands| ==> WidthOk(w, n.operands[i])
    requires InsnUndisturbed(p, w, n, a, after) && after.virt <= a.regs.Keys
    requires n.opcode.mov && IsMove(n.operands) ==> Copies(m, n.opcode, ShapesOf(n.operands))
    requires Holds(p, w, AllocateInsn(n, a).value.alloc.regs, NeedBefore(n, after), h, g)
    ensures Holds(p, w, a.regs, after, Exec(m, n, h), Exec(m, AllocateInsn(n, a).value.insn, g))
  {
    Passes(p, n, a);
    var s, u := AllocateInsn(n, a).value, Used(n, a).value;
    var regs, n' := u.alloc.regs, n.(operands := u.operands);
    forall i | 0 <= i < |n.operands|
      ensures n'.operands[i] == At(n.operands[i], regs) && (n.operands[i].loc.Virt? ==> n.operands[i].loc.index in regs)
    {
      Located(p, n, a, i);
    }
    HoldsWithin(p, w, s.alloc.regs, regs, NeedBefore(n, after), h, g);
    if SelfMove(n') {
      assert OperandOk(p, n.operands[0]) && OperandOk(p, n.operands[1]);
      MoveLeftOut(m, p, w, n, regs, after, h, g);
    } else {
      PlacedHolds(m, p, w, n, n', regs, after, h, g);
    }
    HoldsBack(p, w, a.regs, regs, after, Exec(m, n, h), Exec(m, s.insn, g));
  }

  /** Everything needed has a register. */
  lemma {:induction false} NeededPlaced(p: Setup, w: Widths, code: seq<Insn>, outs: set<PhysReg>)
    requires AllTyped(p, code) && Allocate(code, p.ints, p.floats).Some? && Undisturbed(p, w, code, outs)
    ensures NeededBefore(p, code, outs).virt <= Allocate(code, p.ints, p.floats).value.alloc.regs.Keys
    decreases |code|
  {
    if code != [] {
      assert forall j :: 0 <= j < |code| - 1 ==> code[1..][j] == code[j + 1];
      NeededPlaced(p, w, code[1..], outs);
      var n, a := code[0], Allocate(code[1..], p.ints, p.floats).value.alloc;
      if Killed(n, a) { KilledStep(n, a); }
    }
  }

  lemma ListTail(m: Meaning, p: Setup, w: Widths, code: seq<Insn>)
    requires code != [] && ListOk(p, w, code) && MeaningOk(m, code)
    ensures ListOk(p, w, code[1..]) && MeaningOk(m, code[1..]) && code[0] in code
  {
    assert forall j :: 0 <= j < |code| - 1 ==> code[1..][j] == code[j + 1];
  }

  /** One instruction, killed or not. */
  lemma StepHolds(m: Meaning, p: Setup, w: Widths, code: seq<Insn>, outs: set<PhysReg>, h: Host, g: Host)
    requires code != [] && ListOk(p, w, code) && MeaningOk(m, code)
    requires Allocate(code, p.ints, p.floats).Some? && Undisturbed(p, w, code, outs)
    requires Holds(p, w, Allocate(code, p.ints, p.floats).value.alloc.regs, NeededBefore(p, code, outs), h, g)
    ensures ListOk(p, w, code[1..]) && Undisturbed(p, w, code[1..], outs)
    ensures var tail := Allocate(code[1..], p.ints, p.floats).value;
            Holds(p, w, tail.alloc.regs, NeededBefore(p, code[1..], outs), Exec(m, code[0], h),
                  Exec(m, AllocateInsn(code[0], tail.alloc).value.insn, g))
  {
    var n, a, after := code[0], Allocate(code[1..], p.ints, p.floats).value.alloc, NeededBefore(p, code[1..], outs);
    ListTail(m, p, w, code);
    NeededPlaced(p, w, code[1..], outs);
    assert Typed(p, code[0]) && KillOk(code[0]);
    if Killed(n, a) {
      KilledStep(n, a);
      KilledHolds(m, p, w, n, a.regs, after, h, g);
    } else {
      Passes(p, n, a);
      InsnHolds(m, p, w, n, a, after, h, g);
    }
  }

  /** If nothing needed is written over, the allocated code, run from a physical state that holds what is needed on
      entry, ends with the same memory and CPU state as the virtual code and the same contents of every explicit
      register that is looked at afterwards. */
  lemma {:induction false} AllocationPreservesMeaning(m: Meaning, p: Setup, w: Widths, code: seq<Insn>,
                                                      outs: set<PhysReg>,
                                                      h: Host, g: Host)
    requires ListOk(p, w, code) && MeaningOk(m, code)
    requires Allocate(code, p.ints, p.floats).Some? && Undisturbed(p, w, code, outs)
    requires Holds(p, w, Allocate(code, p.ints, p.floats).value.alloc.regs, NeededBefore(p, code, outs), h, g)
    ensures var h', g' := ExecAll(m, code, h), ExecAll(m, Allocate(code, p.ints, p.floats).value.code, g);
            h'.rest == g'.rest && forall r :: r in outs ==> h'.phys(r) == g'.phys(r)
    decreases |code|
  {
    if code != [] {
      var n, tail := code[0], Allocate(code[1..], p.ints, p.floats).value;
      StepHolds(m, p, w, code, outs, h, g);
      ListTail(m, p, w, code);
      var n' := AllocateInsn(n, tail.alloc).value.insn;
      assert Allocate(code, p.ints, p.floats).value.code == [n'] + tail.code;
      assert ([n'] + tail.code)[1..] == tail.code;
      AllocationPreservesMeaning(m, p, w, code[1..], outs, Exec(m, n, h), Exec(m, n', g));
    }
  }

  // ---------------------------------------------------------------------------------------------
  // The condition is the right one, step by step
  // ---------------------------------------------------------------------------------------------

  /** What an instruction leaves in a register: at its own width, whatever it computes. */
  function Result(w: Widths, v: nat, x: int): int {
    Low(if v in w.wide then W64 else W32, x)
  }

  /** Whatever an instruction computes for v, writing it at v's own width keeps every other needed value exactly when
      none of them is in the register written. */
  lemma WriteIsSafeExactly(p: Setup, w: Widths, v: nat, regs: map<nat, nat>, need: Need, h: Host, g: Host)
    requires v in regs && v !in need.virt && Holds(p, w, regs, need, h, g)
    ensures (forall x :: Holds(p, w, regs, Need(need.virt + {v}, need.phys), SetVirt(h, v, Result(w, v, x)),
                               SetPhys(g, Where(p, regs, v), Result(w, v, x))))
       <==> (Where(p, regs, v) !in need.phys && forall u :: u in need.virt ==> Where(p, regs, u) != Where(p, regs, v))
  {
    var r := Where(p, regs, v);
    if r in need.phys { ExplicitLost(p, w, v, regs, need, h, g); }
    forall u | u in need.virt && Where(p, regs, u) == r
      ensures exists x :: !Holds(p, w, regs, Need(need.virt + {v}, need.phys), SetVirt(h, v, Result(w, v, x)),
                                 SetPhys(g, r, Result(w, v, x)))
    {
      VirtualLost(p, w, v, u, regs, need, h, g);
    }
  }

  /** One of the results 0 and 1 is not what is wanted in the register: of an explicit register ... */
  lemma ExplicitLost(p: Setup, w: Widths, v: nat, regs: map<nat, nat>, need: Need, h: Host, g: Host)
    requires v in regs && v !in need.virt && Where(p, regs, v) in need.phys
    ensures exists x :: !Holds(p, w, regs, Need(need.virt + {v}, need.phys), SetVirt(h, v, Result(w, v, x)),
                               SetPhys(g, Where(p, regs, v), Result(w, v, x)))
  {
    var r := Where(p, regs, v);
    var x := if h.phys(r) == 0 then 1 else 0;
    assert Result(w, v, x) == x != h.phys(r);
    assert !Holds(p, w, regs, Need(need.virt + {v}, need.phys), SetVirt(h, v, Result(w, v, x)),
                  SetPhys(g, r, Result(w, v, x)));
  }

  /** ... and of a virtual one. */
  lemma VirtualLost(p: Setup, w: Widths, v: nat, u: nat, regs: map<nat, nat>, need: Need, h: Host, g: Host)
    requires v in regs && v !in need.virt && u in need.virt && Where(p, regs, u) == Where(p, regs, v)
    ensures exists x :: !Holds(p, w, regs, Need(need.virt + {v}, need.phys), SetVirt(h, v, Result(w, v, x)),
                               SetPhys(g, Where(p, regs, v), Result(w, v, x)))
  {
    var r, need' := Where(p, regs, v), Need(need.virt + {v}, need.phys);
    var x := if SameAt(w, u, h.virt(u), 0) then 1 else 0;
    var h', g' := SetVirt(h, v, Result(w, v, x)), SetPhys(g, r, Result(w, v, x));
    assert Result(w, v, x) == x && !SameAt(w, u, h.virt(u), x);
    assert u in need'.virt && h'.virt(u) == h.virt(u) && g'.phys(Where(p, regs, u)) == x;
    assert !Holds(p, w, regs, need', h', g');
  }
}
