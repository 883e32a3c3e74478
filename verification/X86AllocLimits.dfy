/** A zero extension to 64 bits is a 32-bit register move, left out when its two registers are the same: why that is
    harmless in the blocks the backend builds, and a block it does not build where it is not. */
module X86AllocLimits {
  import opened Wrappers
  import opened X86Code
  import opened X86RegAlloc
  import opened X86AllocMeaning

  /** Load at a width, zero-extend the low 32 bits, store all 64. */
  function ExtendingBlock(w: Width): seq<Insn> {
    [Insn(Op(1), [Operand(Virt(0), w, false, true), Operand(MemPhys(Reserved(5), 0), w, true, false)]),
     Insn(Move(B32), [Operand(Virt(1), B64, false, true), Operand(Virt(0), B32, true, false)]),
     Insn(Op(2), [Operand(MemPhys(Reserved(5), 8), B64, false, true), Operand(Virt(1), B64, true, false)])]
  }

  function ExtendedBlock(w: Width): seq<Insn> {
    [Insn(Op(1), [Operand(Phys(AX), w, false, true), Operand(MemPhys(Reserved(5), 0), w, true, false)]),
     Insn(Dead, [Operand(Phys(AX), B64, false, true), Operand(Phys(AX), B32, true, false)]),
     Insn(Op(2), [Operand(MemPhys(Reserved(5), 8), B64, false, true), Operand(Phys(AX), B64, true, false)])]
  }

  /** The rest of list c becomes the rest of list d. */
  predicate Becomes(c: seq<Insn>, d: seq<Insn>, k: nat, a: Alloc) {
    k <= |c| == |d| && Allocate(c[k..]) == Some(Result(d[k..], a))
  }

  lemma Extend(c: seq<Insn>, d: seq<Insn>, k: nat, a: Alloc, a': Alloc)
    requires k < |c| && Becomes(c, d, k + 1, a) && RegsOk(a) && AllocateInsn(c[k], a) == Some(Step(d[k], a'))
    ensures Becomes(c, d, k, a')
  {
    assert c[k..][1..] == c[k + 1..] && d[k..] == [d[k]] + d[k + 1..];
  }

  lemma ExtendingStore(w: Width)
    ensures AllocateInsn(ExtendingBlock(w)[2], Alloc(map[], ALL))
         == Some(Step(ExtendedBlock(w)[2], Alloc(map[1 := 0], ALL - {0})))
  {
    var n, a := ExtendingBlock(w)[2], Alloc(map[], ALL);
    TwoOperands(n.operands[0], n.operands[1], a);
    assert Obtain(1, a) == Some(Alloc(map[1 := 0], ALL - {0}));
  }

  lemma ExtendingLoad(w: Width)
    ensures var a := Alloc(map[1 := 0, 0 := 0], ALL - {0});
            && AllocateInsn(ExtendingBlock(w)[0], a).Some?
            && AllocateInsn(ExtendingBlock(w)[0], a).value.insn == ExtendedBlock(w)[0]
  {
    var n, n', a := ExtendingBlock(w)[0], ExtendedBlock(w)[0], Alloc(map[1 := 0, 0 := 0], ALL - {0});
    TwoOperands(n.operands[0], n.operands[1], a);
    TwoOperands(n'.operands[0], n'.operands[1], a.(avail := a.avail + {0}));
  }

  lemma ExtendingMove(w: Width, a2: Alloc, a1: Alloc)
    requires a2 == Alloc(map[1 := 0], ALL - {0}) && a1 == Alloc(map[1 := 0, 0 := 0], ALL - {0})
    ensures AllocateInsn(ExtendingBlock(w)[1], a2) == Some(Step(ExtendedBlock(w)[1], a1))
  {
    var n := ExtendingBlock(w)[1];
    var x, y := n.operands[0], n.operands[1];
    TwoOperands(x, y, a2);
    var a' := Alloc(map[1 := 0], ALL);
    assert a2.avail + {0} == ALL;
    var x' := x.(loc := Phys(AX));
    TwoOperands(x', y, a');
    assert Obtain(0, a') == Some(a1);
  }

  lemma TwoOperands(x: Operand, y: Operand, a: Alloc)
    requires RegsOk(a)
    ensures !ReadsSomeVirt(x) && !ReadsSomeVirt(y) ==> UsePass([x, y], a) == Some(UseResult([x, y], a))
    ensures !ReadsSomeVirt(x) && ReadsSomeVirt(y) && Obtain(y.loc.index, a).Some? ==>
      var a' := Obtain(y.loc.index, a).value;
      UsePass([x, y], a) == Some(UseResult([x, y.(loc := Place(y.loc, a'.regs[y.loc.index]))], a'))
    ensures !PureDef(x) && !PureDef(y) ==> DefPass([x, y], a) == DefResult([x, y], a, false)
    ensures PureDef(x) && !PureDef(y) && x.loc.index in a.regs ==>
      var x' := x.(loc := Place(x.loc, a.regs[x.loc.index]));
      DefPass([x, y], a) == DefResult([x', y], a.(avail := a.avail + {a.regs[x.loc.index]}), false)
  {
    assert [x, y][1..] == [y] && [y][1..] == [];
    assert forall o: Operand :: [o] + [] == [o];
    assert forall o, q: Operand :: [o] + [q] == [o, q];
    var a' := if PureDef(x) && x.loc.index in a.regs then a.(avail := a.avail + {a.regs[x.loc.index]}) else a;
    assert !PureDef(y) ==> DefPass([y], a') == DefResult([y], a', false);
    if !ReadsSomeVirt(y) {
      assert UsePass([y], a) == Some(UseResult([y], a));
    } else if Obtain(y.loc.index, a).Some? {
      var b := Obtain(y.loc.index, a).value;
      assert UsePass([], b) == Some(UseResult([], b));
      assert UsePass([y], a) == Some(UseResult([y.(loc := Place(y.loc, b.regs[y.loc.index]))], b));
    }
  }

  /** Source and destination of the extension get the same register, so the move is left out. */
  lemma ExtensionIsRemoved(w: Width)
    ensures Allocate(ExtendingBlock(w)).Some? && Allocate(ExtendingBlock(w)).value.code == ExtendedBlock(w)
  {
    var c, d := ExtendingBlock(w), ExtendedBlock(w);
    var a2, a1 := Alloc(map[1 := 0], ALL - {0}), Alloc(map[1 := 0, 0 := 0], ALL - {0});
    assert c[3..] == [] && d[3..] == [];
    ExtendingStore(w);
    Extend(c, d, 2, Alloc(map[], ALL), a2);
    ExtendingMove(w, a2, a1);
    Extend(c, d, 1, a2, a1);
    ExtendingLoad(w);
    Extend(c, d, 0, a1, AllocateInsn(c[0], a1).value.alloc);
    assert c[0..] == c && d[0..] == d;
  }

  /** Opcode 1 loads cell 0, opcode 2 stores to cell 8; moves copy. */
  function LoadStore(): Meaning {
    (op: Opcode, shapes: seq<(Shape, bool, bool)>, inputs: seq<int>, rest: Rest) =>
      if op.Move? && |inputs| >= 2 then Outcome(inputs[1], rest)
      else if op == Op(1) then Outcome(if 0 in rest.memory then rest.memory[0] else 0, rest)
      else if op == Op(2) && |inputs| >= 2 then Outcome(0, rest.(memory := rest.memory[8 := inputs[1]]))
      else Outcome(0, rest)
  }

  lemma ExtendingSets(w: Width)
    ensures var c := ExtendingBlock(w);
            && PureDefSet(c[0].operands) == {0} && ReadSet(c[0].operands) == {}
            && PureDefSet(c[1].operands) == {1} && ReadSet(c[1].operands) == {0}
            && PureDefSet(c[2].operands) == {} && ReadSet(c[2].operands) == {1}
  {
    var c := ExtendingBlock(w);
    assert forall x, y: Operand :: [x, y][1..] == [y] && [y][1..] == [];
    assert PureDefSet([c[0].operands[1]]) == {} && ReadSet([c[0].operands[1]]) == {};
    assert PureDefSet([c[1].operands[1]]) == {} && ReadSet([c[1].operands[1]]) == {0};
    assert PureDefSet([c[2].operands[1]]) == {} && ReadSet([c[2].operands[1]]) == {1};
  }

  lemma ExtendingInsnOk(w: Width, k: nat)
    requires k < 3
    ensures InsnOk(ExtendingBlock(w)[k])
  {
    ExtendingSets(w);
  }

  lemma ExtendingDefinesFirst(w: Width)
    ensures DefinesFirst(ExtendingBlock(w))
  {
    var c := ExtendingBlock(w);
    ExtendingSets(w);
    assert !Mentions(c[0], 1);
  }

  lemma ExtendingOk(w: Width)
    ensures CodeOk(ExtendingBlock(w))
  {
    forall k | 0 <= k < 3 ensures InsnOk(ExtendingBlock(w)[k]) { ExtendingInsnOk(w, k); }
    ExtendingDefinesFirst(w);
  }

  lemma ExtendingClosed(w: Width)
    ensures Closed(ExtendingBlock(w))
  {
    var c := ExtendingBlock(w);
    ExtendingSets(w);
    assert 0 in PureDefSet(c[0].operands) && 1 in PureDefSet(c[1].operands);
  }

  lemma ExtendingWidths()
    ensures WidthsOk(map[0 := B32, 1 := B64], ExtendingBlock(B32))
  {
    var c, ws := ExtendingBlock(B32), map[0 := B32, 1 := B64];
    forall k | 0 <= k < 3
      ensures MoveWidthOk(c[k]) && forall i :: 0 <= i < |c[k].operands| ==> WidthOk(ws, c[k].operands[i])
    {
    }
  }

  /** After a 32-bit load the extension is not missed, whatever the opcodes mean: the block obeys the widths. */
  lemma ExtensionIsHarmless(m: Meaning, h: Host, g: Host)
    requires MeaningOk(m, ExtendingBlock(B32)) && SameOutside(h, g)
    ensures WidthsOk(map[0 := B32, 1 := B64], ExtendingBlock(B32))
    ensures SameOutside(ExecAll(m, ExtendingBlock(B32), h), ExecAll(m, ExtendedBlock(B32), g))
  {
    ExtendingOk(B32);
    ExtendingClosed(B32);
    ExtendingWidths();
    ExtensionIsRemoved(B32);
    NothingLive(ExtendingBlock(B32));
    AllocationPreservesMeaning(m, map[0 := B32, 1 := B64], ExtendingBlock(B32), h, g);
  }

  lemma ExtendingVirtual(h: Host)
    requires 0 in h.rest.memory
    ensures ExecAll(LoadStore(), ExtendingBlock(B64), h).rest.memory
         == h.rest.memory[8 := h.rest.memory[0] % 0x1_0000_0000]
  {
    var m, c, x := LoadStore(), ExtendingBlock(B64), h.rest.memory[0];
    ThreeInsns(m, c, h);
    var h1 := Exec(m, c[0], h);
    assert h1.virt(0) == x && h1.rest == h.rest;
    var h2 := Exec(m, c[1], h1);
    assert Inputs(c[1].operands, h1)[1] == x % 0x1_0000_0000;
    assert h2.virt(1) == x % 0x1_0000_0000 && h2.rest == h.rest;
    assert Inputs(c[2].operands, h2)[1] == x % 0x1_0000_0000;
  }

  lemma ExtendedPhysical(h: Host)
    requires 0 in h.rest.memory
    ensures ExecAll(LoadStore(), ExtendedBlock(B64), h).rest.memory == h.rest.memory[8 := h.rest.memory[0]]
  {
    var m, d := LoadStore(), ExtendedBlock(B64);
    ThreeInsns(m, d, h);
    var g1 := Exec(m, d[0], h);
    assert g1.phys(AX) == h.rest.memory[0] && g1.rest == h.rest;
    assert Inputs(d[2].operands, g1)[1] == h.rest.memory[0];
  }

  lemma NoWidths(ws: Widths)
    ensures !WidthsOk(ws, ExtendingBlock(B64))
  {
    var c := ExtendingBlock(B64);
    assert !WidthOk(ws, c[0].operands[0]) || !WidthOk(ws, c[1].operands[1]);
  }

  /** Reading at 32 bits a register that was loaded with 64 would be another matter: no assignment of widths allows it,
      and the upper half would be stored with the rest. No port is read at another width than its own, so no block the
      backend builds is of this kind. */
  lemma IllWidthExtension(h: Host)
    requires 0 in h.rest.memory
    ensures forall ws :: !WidthsOk(ws, ExtendingBlock(B64))
    ensures Allocate(ExtendingBlock(B64)).Some?
    ensures ExecAll(LoadStore(), ExtendingBlock(B64), h).rest.memory
         == h.rest.memory[8 := h.rest.memory[0] % 0x1_0000_0000]
    ensures ExecAll(LoadStore(), Allocate(ExtendingBlock(B64)).value.code, h).rest.memory
         == h.rest.memory[8 := h.rest.memory[0]]
  {
    ExtensionIsRemoved(B64);
    forall ws ensures !WidthsOk(ws, ExtendingBlock(B64)) { NoWidths(ws); }
    ExtendingVirtual(h);
    ExtendedPhysical(h);
  }

  lemma ThreeInsns(m: Meaning, c: seq<Insn>, h: Host)
    requires |c| == 3
    ensures ExecAll(m, c, h) == Exec(m, c[2], Exec(m, c[1], Exec(m, c[0], h)))
  {
    assert c[1..] == [c[1], c[2]] && [c[1], c[2]][1..] == [c[2]] && [c[2]][1..] == [];
    var h1 := Exec(m, c[0], h);
    assert ExecAll(m, [c[2]], Exec(m, c[1], h1)) == Exec(m, c[2], Exec(m, c[1], h1));
  }
}
