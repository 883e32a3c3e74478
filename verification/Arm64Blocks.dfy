/** The blocks the arm64 backend allocates: a body that names guest state and memory through x29 and x18, closed by a
    move of the return code into x0. */
module Arm64Blocks {
  import opened Wrappers
  import opened Arm64Code
  import opened Arm64RegAlloc
  import opened Arm64AllocCount
  import opened Arm64AllocMeaning
  import opened Arm64FirstFit

  // ---------------------------------------------------------------------------------------------
  // One instruction of a list that defines each register once
  // ---------------------------------------------------------------------------------------------

  /** Every register move keeps what is read of its destination when it is left out. */
  predicate MovesFit(w: Widths, code: seq<Insn>) {
    forall k :: 0 <= k < |code| && code[k].opcode.Op? && code[k].opcode.mov && IsMove(code[k].operands) ==>
      MoveWidthsOk(w, code[k].operands[0], code[k].operands[1])
  }

  /** Not the register of any value in use. */
  predicate Unused(p: Setup, a: Alloc, r: PhysReg) {
    r.number !in InUse(p, a, r.float)
  }

  lemma WhereInUse(p: Setup, a: Alloc, live: set<nat>, v: nat, r: PhysReg)
    requires AllocInv(p, a, live) && v in live && Unused(p, a, r)
    ensures v in a.regs && Where(p, a.regs, v) != r
  {
    assert a.regs[v] in Mask(p, IsFloat(p, v)) && a.regs[v] !in Free(a, IsFloat(p, v));
  }

  lemma PlacesApart(p: Setup, a: Alloc, live: set<nat>, u: nat, v: nat)
    requires AllocInv(p, a, live) && u in live && v in live && u != v
    ensures u in a.regs && v in a.regs && Where(p, a.regs, u) != Where(p, a.regs, v)
  {
  }

  /** Where the map a list's rest ends with and the one in force at an instruction both have an entry, they agree. */
  lemma SameWhere(p: Setup, regs: map<nat, nat>, regs': map<nat, nat>, v: nat)
    requires Extends(regs, regs') && v in regs
    ensures v in regs' && Where(p, regs', v) == Where(p, regs, v)
  {
  }

  /** The register an instruction writes for v is where no other value needed afterwards is, and is no unused one. */
  lemma WrittenApart(p: Setup, n: Insn, code: seq<Insn>, a: Alloc, live: set<nat>, v: nat, x: nat)
    requires Ready(p, n, code, a, live) && AllocateInsn(n, a).Some? && !Useless(n, live)
    requires v in DefSet(n.operands) || (v in ReadSet(n.operands) && DefOf(n.operands).None?)
    ensures Used(n, a).Some? && v in Used(n, a).value.alloc.regs
    ensures x in live && x != v ==>
              Where(p, Used(n, a).value.alloc.regs, x) != Where(p, Used(n, a).value.alloc.regs, v)
  {
    UsesInv(p, n, code, a, live);
    var u, l := Used(n, a).value.alloc, MidLive(n, live) + ReadSet(n.operands);
    if v in live && DefOf(n.operands).Some? {
      SameWhere(p, a.regs, u.regs, v);
      if x in live && x != v { SameWhere(p, a.regs, u.regs, x); PlacesApart(p, a, live, x, v); }
    } else {
      assert v in l;
      if x in live && x != v { PlacesApart(p, u, l, x, v); }
    }
  }

  lemma WrittenUnused(p: Setup, n: Insn, code: seq<Insn>, a: Alloc, live: set<nat>, v: nat, r: PhysReg)
    requires Ready(p, n, code, a, live) && AllocateInsn(n, a).Some? && !Useless(n, live)
    requires v in DefSet(n.operands) + ReadSet(n.operands) + live
    requires Used(n, a).Some? && Unused(p, a, r) && Unused(p, Used(n, a).value.alloc, r)
    ensures v in Used(n, a).value.alloc.regs && Where(p, Used(n, a).value.alloc.regs, v) != r
  {
    UsesInv(p, n, code, a, live);
    var u, l := Used(n, a).value.alloc, MidLive(n, live) + ReadSet(n.operands);
    if v in l {
      WhereInUse(p, u, l, v, r);
    } else {
      WhereInUse(p, a, live, v, r);
      SameWhere(p, a.regs, u.regs, v);
    }
  }

  /** Explicit registers needed after an instruction, or written by it, are not in use around it; or no virtual register
      is written, nor needed afterwards. */
  ghost predicate ExplicitApart(p: Setup, n: Insn, a: Alloc, after: Need)
    requires Used(n, a).Some?
  {
    || (after.virt == {} && forall k :: 0 <= k < |n.operands| && n.operands[k].def ==> n.operands[k].loc.Phys?)
    || (forall r :: r in after.phys + PhysDefs(n.operands) ==> Unused(p, a, r) && Unused(p, Used(n, a).value.alloc, r))
  }

  /** What operand i of an instruction writes. */
  lemma OperandApart(p: Setup, n: Insn, code: seq<Insn>, a: Alloc, after: Need, i: nat)
    requires Ready(p, n, code, a, after.virt) && AllocateInsn(n, a).Some? && !Useless(n, after.virt) && i < |n.operands|
    requires Used(n, a).Some?
    requires ExplicitApart(p, n, a, after)
    ensures Apart(p, Used(n, a).value.alloc.regs, n.operands[i], after)
  {
    var o, regs := n.operands[i], Used(n, a).value.alloc.regs;
    assert OperandOk(p, o);
    if o.def && o.loc.Virt? {
      var v := o.loc.index;
      WrittenIsDefOrRead(n, i);
      forall x | x in after.virt && x != v ensures Where(p, regs, x) != Where(p, regs, v) {
        WrittenApart(p, n, code, a, after.virt, v, x);
      }
      if Where(p, regs, v) in after.phys {
        WrittenUnused(p, n, code, a, after.virt, v, Where(p, regs, v));
        assert false;
      }
    }
    if o.def && o.loc.Phys? {
      assert o.loc.reg in PhysDefs(n.operands);
      forall v | v in after.virt ensures Where(p, regs, v) != o.loc.reg {
        WrittenUnused(p, n, code, a, after.virt, v, o.loc.reg);
      }
    }
  }

  lemma WrittenIsDefOrRead(n: Insn, i: nat)
    requires OneDef(n.operands) && (DefOf(n.operands).Some? ==> SoleDef(n.operands))
    requires i < |n.operands| && n.operands[i].def && n.operands[i].loc.Virt?
    ensures var v := n.operands[i].loc.index;
            v in DefSet(n.operands) || (v in ReadSet(n.operands) && DefOf(n.operands).None?)
  {
    var o := n.operands[i];
    if PureDef(o) {
      OnlyDef(n.operands, i);
    } else {
      ReadSetMeaning(n.operands, o.loc.index);
      assert ReadsVirt(o, o.loc.index);
      if DefOf(n.operands).Some? { WrittenIsPure(n.operands, i); }
    }
  }

  lemma WrittenIsPure(ops: seq<Operand>, i: nat)
    requires SoleDef(ops) && DefOf(ops).Some? && i < |ops| && ops[i].def
    ensures PureDef(ops[i])
  {
    DefOfMeaning(ops, DefOf(ops).value);
    var k :| 0 <= k < |ops| && PureDef(ops[k]) && ops[k].loc.index == DefOf(ops).value;
    assert ops[k].def;
  }

  /** An instruction of such a list disturbs nothing. */
  lemma InsnSafe(p: Setup, w: Widths, n: Insn, code: seq<Insn>, a: Alloc, after: Need)
    requires Ready(p, n, code, a, after.virt) && AllocateInsn(n, a).Some? && !Useless(n, after.virt) && Used(n, a).Some?
    requires ExplicitApart(p, n, a, after)
    requires n.opcode.mov && IsMove(n.operands) ==> MoveWidthsOk(w, n.operands[0], n.operands[1])
    ensures InsnUndisturbed(p, w, n, a, after)
  {
    AllocateInsnInv(p, n, code, a, after.virt);
    forall i | 0 <= i < |n.operands| ensures Apart(p, Used(n, a).value.alloc.regs, n.operands[i], after) {
      OperandApart(p, n, code, a, after, i);
    }
    KilledIsUseless(p, n, code, a, after.virt);
    if SelfMove(n.(operands := Used(n, a).value.operands)) {
      Passes(p, n, a);
      Located(p, n, a, 0);
      Located(p, n, a, 1);
    }
  }

  // ---------------------------------------------------------------------------------------------
  // The whole list
  // ---------------------------------------------------------------------------------------------

  /** The explicit registers a list names. */
  function Named(code: seq<Insn>): set<PhysReg> {
    if code == [] then {} else PhysDefs(code[0].operands) + PhysReads(code[0].operands) + Named(code[1..])
  }

  /** Needed is what the liveness of single definitions says. */
  lemma {:induction false} NeededIsLive(p: Setup, code: seq<Insn>, outs: set<PhysReg>)
    requires CodeOk(p, code) && Allocate(code, p.ints, p.floats).Some?
    ensures NeededBefore(p, code, outs).virt == Live(code)
    decreases |code|
  {
    if code != [] {
      ReadyAt(p, code);
      CodeTail(p, code);
      NeededIsLive(p, code[1..], outs);
      KilledIsUseless(p, code[0], code[1..], Allocate(code[1..], p.ints, p.floats).value.alloc, Live(code[1..]));
    }
  }

  /** No register of s is in use anywhere in the list. */
  ghost predicate NeverUsed(p: Setup, code: seq<Insn>, s: set<PhysReg>)
    requires Allocate(code, p.ints, p.floats).Some?
  {
    forall r :: r in s ==> r.number !in EverUsed(p, code, r.float)
  }

  lemma CodeIsTyped(p: Setup, code: seq<Insn>)
    requires CodeOk(p, code)
    ensures AllTyped(p, code)
  {
    forall k | 0 <= k < |code| ensures Typed(p, code[k]) { assert InsnOk(p, code[k]); }
  }

  lemma MovesFitTail(w: Widths, code: seq<Insn>)
    requires code != [] && MovesFit(w, code)
    ensures MovesFit(w, code[1..])
  {
    assert forall j :: 0 <= j < |code| - 1 ==> code[1..][j] == code[j + 1];
  }

  lemma NeverUsedTail(p: Setup, code: seq<Insn>, s: set<PhysReg>)
    requires code != [] && Allocate(code, p.ints, p.floats).Some? && NeverUsed(p, code, s)
    ensures NeverUsed(p, code[1..], s)
  {
  }

  /** A list whose last part is undisturbed, and whose explicit registers are never handed out, is undisturbed. */
  lemma {:induction false} BodyUndisturbed(p: Setup, w: Widths, code: seq<Insn>, k: nat, outs: set<PhysReg>)
    requires k <= |code| && CodeOk(p, code) && AllTyped(p, code) && AllTyped(p, code[k..]) && MovesFit(w, code)
    requires Allocate(code, p.ints, p.floats).Some?
    requires Allocate(code[k..], p.ints, p.floats).Some? && Undisturbed(p, w, code[k..], outs)
    requires NeverUsed(p, code, NeededBefore(p, code[k..], outs).phys + Named(code[..k]))
    ensures Undisturbed(p, w, code, outs)
    ensures NeededBefore(p, code, outs).phys <= NeededBefore(p, code[k..], outs).phys + Named(code[..k])
    decreases k
  {
    if k == 0 {
      assert code[0..] == code;
    } else {
      var n, tail := code[0], code[1..];
      CodeTail(p, code);
      CodeIsTyped(p, tail);
      MovesFitTail(w, code);
      assert tail[k - 1..] == code[k..] && code[..k][1..] == tail[..k - 1] && code[..k][0] == n;
      NeverUsedTail(p, code, NeededBefore(p, code[k..], outs).phys + Named(code[..k]));
      BodyUndisturbed(p, w, tail, k - 1, outs);
      HeadUndisturbed(p, w, code, outs, NeededBefore(p, code[k..], outs).phys + Named(code[..k]));
    }
  }

  /** The first instruction of such a list. */
  lemma HeadUndisturbed(p: Setup, w: Widths, code: seq<Insn>, outs: set<PhysReg>, s: set<PhysReg>)
    requires code != [] && CodeOk(p, code) && AllTyped(p, code) && AllTyped(p, code[1..]) && MovesFit(w, code)
    requires Allocate(code, p.ints, p.floats).Some? && Undisturbed(p, w, code[1..], outs)
    requires NeverUsed(p, code, s) && NeededBefore(p, code[1..], outs).phys <= s && PhysDefs(code[0].operands) <= s
    ensures Undisturbed(p, w, code, outs)
  {
    var n, tail := code[0], code[1..];
    var a, after := Allocate(tail, p.ints, p.floats).value.alloc, NeededBefore(p, tail, outs);
    ReadyAt(p, code);
    CodeTail(p, code);
    NeededIsLive(p, tail, outs);
    KilledIsUseless(p, n, tail, a, Live(tail));
    if !Killed(n, a) {
      Survives(p, n, tail, a, Live(tail));
      InUseWasUsed(p, tail, false);
      InUseWasUsed(p, tail, true);
      var u := Used(n, a).value.alloc;
      forall r | r in after.phys + PhysDefs(n.operands) ensures Unused(p, a, r) && Unused(p, u, r) {
        assert r in s;
        assert EverUsed(p, code, r.float) == EverUsed(p, tail, r.float) + InUse(p, u, r.float);
      }
      InsnSafe(p, w, n, tail, a, after);
    }
  }

  // ---------------------------------------------------------------------------------------------
  // Closing a block
  // ---------------------------------------------------------------------------------------------

  const X0: PhysReg := PhysReg(false, 0)

  /** The move of the return code into x0 that ends every block. */
  function Closing(mov: nat, v: nat): Insn {
    Insn(Op(mov, true), false, [Operand(Phys(X0), W64, false, true), Operand(Virt(v, false), W64, true, false)])
  }

  lemma ClosingIs(p: Setup, mov: nat, v: nat, outs: set<PhysReg>)
    ensures var n := Closing(mov, v);
            && DefOf(n.operands) == None && ReadSet(n.operands) == {v}
            && NeedBefore(n, Need({}, outs)) == Need({v}, outs - {X0})
  {
    var n := Closing(mov, v);
    assert n.operands[1..] == [n.operands[1]] && [n.operands[1]][1..] == [];
    assert DefOf([n.operands[1]]) == None && ReadSet([n.operands[1]]) == {v};
    assert n.operands[0].loc.reg == X0;
    assert PhysDefs(n.operands) == {X0};
  }

  lemma LastOf(p: Setup, code: seq<Insn>)
    requires CodeOk(p, code) && code != []
    ensures var last := code[|code| - 1..]; last == [code[|code| - 1]] && CodeOk(p, last) && last[1..] == []
  {
    var last := code[|code| - 1..];
    assert InsnOk(p, code[|code| - 1]);
  }

  lemma {:induction false} SuffixAllocates(p: Setup, code: seq<Insn>, k: nat)
    requires k <= |code| && Allocate(code, p.ints, p.floats).Some?
    ensures Allocate(code[k..], p.ints, p.floats).Some?
    decreases k
  {
    if k == 0 {
      assert code[0..] == code;
    } else {
      assert code[1..][k - 1..] == code[k..];
      SuffixAllocates(p, code[1..], k - 1);
    }
  }

  /** The closing move disturbs nothing, even if its source is given x0 itself. */
  lemma ClosingUndisturbed(p: Setup, w: Widths, code: seq<Insn>, mov: nat, v: nat, outs: set<PhysReg>)
    requires CodeOk(p, code) && code != [] && code[|code| - 1] == Closing(mov, v) && v in w.wide
    requires Allocate(code, p.ints, p.floats).Some? && AllTyped(p, code[|code| - 1..])
    ensures var last := code[|code| - 1..];
            && Allocate(last, p.ints, p.floats).Some? && Undisturbed(p, w, last, outs)
            && NeededBefore(p, last, outs) == Need({v}, outs - {X0})
  {
    var last, n, a := code[|code| - 1..], Closing(mov, v), Alloc(map[], p.ints, p.floats);
    LastOf(p, code);
    SuffixAllocates(p, code, |code| - 1);
    ClosingIs(p, mov, v, outs);
    assert Allocate([], p.ints, p.floats) == Some(Result([], a));
    CodeTail(p, last);
    ReadyAt(p, last);
    KilledIsUseless(p, n, [], a, {});
    Survives(p, n, [], a, {});
    assert NeededBefore(p, [], outs) == Need({}, outs);
    InsnSafe(p, w, n, [], a, Need({}, outs));
  }

  /** Where the closing move leaves the return code. */
  lemma {:induction false} ReturnCode(m: Meaning, p: Setup, code: seq<Insn>, mov: nat, v: nat, h: Host)
    requires code != [] && code[|code| - 1] == Closing(mov, v) && Typed(p, Closing(mov, v))
    requires Copies(m, Op(mov, true), ShapesOf(Closing(mov, v).operands))
    ensures ExecAll(m, code, h).phys(X0) == ExecAll(m, code[..|code| - 1], h).virt(v)
    decreases |code|
  {
    if |code| == 1 {
      assert code[1..] == [] && code[..0] == [];
      MoveIs(m, p, code[0], h);
      assert ExecAll(m, [], Exec(m, code[0], h)) == Exec(m, code[0], h);
    } else {
      assert code[1..][|code| - 2] == code[|code| - 1] && code[1..][..|code| - 2] == code[..|code| - 1][1..];
      ReturnCode(m, p, code[1..], mov, v, Exec(m, code[0], h));
    }
  }

  // ---------------------------------------------------------------------------------------------
  // Blocks
  // ---------------------------------------------------------------------------------------------

  /** Everything that is read was defined earlier in the block. */
  predicate Closed(code: seq<Insn>, known: set<nat>)
    decreases |code|
  {
    code == [] || (ReadSet(code[0].operands) <= known && Closed(code[1..], known + DefSet(code[0].operands)))
  }

  lemma {:induction false} LiveIsKnown(code: seq<Insn>, known: set<nat>)
    requires Closed(code, known)
    ensures Live(code) <= known
    decreases |code|
  {
    if code != [] { LiveIsKnown(code[1..], known + DefSet(code[0].operands)); }
  }

  lemma AllFree(p: Setup, a: Alloc, f: bool)
    requires AllocInv(p, a, {}) && Counted(p, a, {}, f)
    ensures Free(a, f) == Mask(p, f)
  {
    assert InBank(p, {}, f) == {};
    SameSize(Free(a, f), Mask(p, f));
  }

  /** Allocation of a closed list succeeds exactly when what is needed fits, and leaves every register free. */
  lemma ClosedAllocation(p: Setup, code: seq<Insn>)
    requires CodeOk(p, code) && Closed(code, {})
    ensures Allocate(code, p.ints, p.floats).Some? <==> Fits(p, code)
    ensures Allocate(code, p.ints, p.floats).Some? ==>
              var a := Allocate(code, p.ints, p.floats).value.alloc; a.ints == p.ints && a.floats == p.floats
  {
    LiveIsKnown(code, {});
    AllocateSucceedsExactly(p, code);
    if Allocate(code, p.ints, p.floats).Some? {
      AllocateInv(p, code);
      AllFree(p, Allocate(code, p.ints, p.floats).value.alloc, false);
      AllFree(p, Allocate(code, p.ints, p.floats).value.alloc, true);
    }
  }

  /** More registers than come before r are never needed at once, or r may not be handed out. */
  ghost predicate OutOfReach(p: Setup, code: seq<Insn>, r: PhysReg) {
    r.number in Mask(p, r.float) ==> Peak(p, code, r.float) <= Rank(Mask(p, r.float), r.number)
  }

  /** A block: its explicit registers but for the closing x0, and those looked at afterwards, are out of reach. */
  ghost predicate BlockOk(p: Setup, w: Widths, code: seq<Insn>, mov: nat, v: nat, outs: set<PhysReg>) {
    && CodeOk(p, code) && Closed(code, {}) && WidthsOk(w, code) && MovesFit(w, code)
    && code != [] && code[|code| - 1] == Closing(mov, v) && v in w.wide && X0 !in outs
    && forall r :: r in Named(code[..|code| - 1]) + outs ==> OutOfReach(p, code, r)
  }

  lemma OutOfReachUnused(p: Setup, code: seq<Insn>, s: set<PhysReg>)
    requires CodeOk(p, code) && Allocate(code, p.ints, p.floats).Some? && forall r :: r in s ==> OutOfReach(p, code, r)
    ensures NeverUsed(p, code, s)
  {
    forall r | r in s ensures r.number !in EverUsed(p, code, r.float) { EverUsedIsLowest(p, code, r.float); }
  }

  lemma BlockUndisturbed(p: Setup, w: Widths, code: seq<Insn>, mov: nat, v: nat, outs: set<PhysReg>)
    requires BlockOk(p, w, code, mov, v, outs) && Allocate(code, p.ints, p.floats).Some?
    ensures AllTyped(p, code) && Undisturbed(p, w, code, outs + {X0})
    ensures NeededBefore(p, code, outs + {X0}).virt == {}
    ensures NeededBefore(p, code, outs + {X0}).phys <= Named(code[..|code| - 1]) + outs
  {
    var k := |code| - 1;
    CodeIsTyped(p, code);
    LastOf(p, code);
    CodeIsTyped(p, code[k..]);
    ClosingUndisturbed(p, w, code, mov, v, outs + {X0});
    assert outs + {X0} - {X0} == outs;
    OutOfReachUnused(p, code, outs + Named(code[..k]));
    BodyUndisturbed(p, w, code, k, outs + {X0});
    NeededIsLive(p, code, outs + {X0});
    LiveIsKnown(code, {});
  }

  lemma KillsOk(p: Setup, code: seq<Insn>)
    requires CodeOk(p, code)
    ensures forall k :: 0 <= k < |code| ==> KillOk(code[k])
  {
    forall k | 0 <= k < |code| ensures KillOk(code[k]) {
      assert InsnOk(p, code[k]);
      var ops := code[k].operands;
      if DefOf(ops).Some? {
        forall i | 0 <= i < |ops| && ops[i].def ensures PureDef(ops[i]) { WrittenIsPure(ops, i); }
      }
    }
  }

  /** The allocated block does what the virtual one does: memory, CPU state, the explicit registers looked at afterwards
      and the return code in x0 are the same, whenever memory, CPU state and the named explicit registers were. */
  lemma BlockAllocation(m: Meaning, p: Setup, w: Widths, code: seq<Insn>, mov: nat, v: nat, outs: set<PhysReg>,
                        h: Host, g: Host)
    requires BlockOk(p, w, code, mov, v, outs) && Allocate(code, p.ints, p.floats).Some? && MeaningOk(m, code)
    requires h.rest == g.rest && forall r :: r in Named(code[..|code| - 1]) + outs ==> h.phys(r) == g.phys(r)
    ensures var h', g' := ExecAll(m, code, h), ExecAll(m, Allocate(code, p.ints, p.floats).value.code, g);
            && h'.rest == g'.rest && (forall r :: r in outs ==> h'.phys(r) == g'.phys(r))
            && g'.phys(PhysReg(false, 0)) == ExecAll(m, code[..|code| - 1], h).virt(v)
  {
    BlockUndisturbed(p, w, code, mov, v, outs);
    KillsOk(p, code);
    AllocationPreservesMeaning(m, p, w, code, outs + {X0}, h, g);
    var last := code[|code| - 1];
    assert last in code && Typed(p, last);
    ReturnCode(m, p, code, mov, v, h);
  }
}
