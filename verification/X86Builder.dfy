/** The x86 instruction builder: a list of instructions that allocate() rewrites in place. */
module X86Builder {
  import opened Wrappers
  import opened X86Code
  import opened X86RegAlloc

  class InstructionBuilder {
    var instructions: seq<Insn>

    constructor ()
      ensures instructions == []
    {
      instructions := [];
    }

    method Append(i: Insn)
      modifies this
      ensures instructions == old(instructions) + [i]
    {
      instructions := instructions + [i];
    }

    /** Reverse linear scan over the whole list; false when the six registers run out (setting a bit that does not
        exist throws). */
    method Allocate() returns (ok: bool)
      modifies this
      ensures ok == X86RegAlloc.Allocate(old(instructions)).Some?
      ensures ok ==> instructions == X86RegAlloc.Allocate(old(instructions)).value.code
    {
      ghost var original := instructions;
      var a := Alloc(map[], ALL);
      var r := |instructions|;
      assert original[r..] == [] && instructions[r..] == [];
      while r > 0
        invariant 0 <= r <= |original| == |instructions|
        invariant instructions[..r] == original[..r]
        invariant RegsOk(a)
        invariant X86RegAlloc.Allocate(original[r..]) == Some(Result(instructions[r..], a))
      {
        r := r - 1;
        var insn := instructions[r];
        assert insn == original[r] by { assert instructions[..r + 1][r] == original[..r + 1][r]; }
        assert original[r..][0] == insn && original[r..][1..] == original[r + 1..];
        var done, insn', a' := AllocateOne(insn, a);
        if !done {
          StaysFailed(original, r);
          return false;
        }
        ghost var before := instructions;
        instructions := instructions[r := insn'];
        a := a';
        assert instructions[r..] == [insn'] + before[r + 1..];
      }
      assert original[0..] == original && instructions[0..] == instructions;
      return true;
    }
  }

  lemma {:induction false} StaysFailed(code: seq<Insn>, k: nat)
    requires k <= |code| && X86RegAlloc.Allocate(code[k..]).None?
    ensures X86RegAlloc.Allocate(code).None?
    decreases k
  {
    if k == 0 {
      assert code[0..] == code;
    } else {
      assert code[1..][k - 1..] == code[k..];
      StaysFailed(code[1..], k - 1);
    }
  }

  /** One turn of the loop: free what the instruction defines, kill it if that was never used, give registers to what
      it reads, and kill a move that has become a move to itself. */
  method AllocateOne(insn: Insn, a0: Alloc) returns (ok: bool, insn': Insn, a: Alloc)
    requires RegsOk(a0)
    ensures ok == AllocateInsn(insn, a0).Some?
    ensures ok ==> AllocateInsn(insn, a0) == Some(Step(insn', a)) && RegsOk(a)
  {
    var killed, ops;
    killed, ops, a := KillDefs(insn.operands, a0);
    DefPassOk(insn.operands, a0);
    insn' := insn.(operands := ops);
    if killed {
      return true, insn'.(opcode := Dead), a;
    }
    ok, ops, a := AllocateUses(ops, a);
    if !ok {
      return;
    }
    insn' := insn'.(operands := ops);
    if SelfMove(insn') {
      insn' := insn'.(opcode := Dead);
    }
  }

  /** The outcome of a pass whose first operands, done, have already been dealt with. */
  function AfterDefs(done: seq<Operand>, d: DefResult): DefResult {
    d.(operands := done + d.operands)
  }

  function AfterUses(done: seq<Operand>, u: Option<UseResult>): Option<UseResult> {
    match u
    case None => None
    case Some(r) => Some(UseResult(done + r.operands, r.alloc))
  }

  lemma DefStep(done: seq<Operand>, ops: seq<Operand>, a: Alloc)
    requires RegsOk(a) && ops != []
    ensures var o := ops[0];
            if PureDef(o) then
              if o.loc.index in a.regs then
                AfterDefs(done, DefPass(ops, a)) ==
                  AfterDefs(done + [o.(loc := Place(o.loc, a.regs[o.loc.index]))],
                            DefPass(ops[1..], a.(avail := a.avail + {a.regs[o.loc.index]})))
              else AfterDefs(done, DefPass(ops, a)) == DefResult(done + ops, a, true)
            else AfterDefs(done, DefPass(ops, a)) == AfterDefs(done + [o], DefPass(ops[1..], a))
  {
    assert forall o, rest: seq<Operand> :: done + ([o] + rest) == (done + [o]) + rest;
  }

  lemma UseStep(done: seq<Operand>, ops: seq<Operand>, a: Alloc)
    requires RegsOk(a) && ops != []
    ensures var o := ops[0];
            if ReadsSomeVirt(o) then
              match Obtain(o.loc.index, a)
              case None => AfterUses(done, UsePass(ops, a)) == None
              case Some(a') =>
                AfterUses(done, UsePass(ops, a)) ==
                AfterUses(done + [o.(loc := Place(o.loc, a'.regs[o.loc.index]))], UsePass(ops[1..], a'))
            else AfterUses(done, UsePass(ops, a)) == AfterUses(done + [o], UsePass(ops[1..], a))
  {
    assert forall o, rest: seq<Operand> :: done + ([o] + rest) == (done + [o]) + rest;
  }

  /** Dealing with operand i moves it from the rest to what is done. */
  lemma Done(ops: seq<Operand>, i: nat, o: Operand)
    requires i < |ops|
    ensures var ops' := ops[i := o]; ops'[..i + 1] == ops[..i] + [o] && ops'[i + 1..] == ops[i..][1..]
  {
  }

  method KillDefs(ops0: seq<Operand>, a0: Alloc) returns (killed: bool, ops: seq<Operand>, a: Alloc)
    requires RegsOk(a0)
    ensures DefPass(ops0, a0) == DefResult(ops, a, killed)
  {
    killed, ops, a := false, ops0, a0;
    var i := 0;
    assert ops[..0] == [] && ops0[0..] == ops0;
    while i < |ops0|
      invariant 0 <= i <= |ops0| == |ops| && ops[i..] == ops0[i..] && RegsOk(a)
      invariant DefPass(ops0, a0) == AfterDefs(ops[..i], DefPass(ops0[i..], a))
    {
      var o := ops[i];
      assert ops[i..][0] == ops0[i..][0] && ops0[i..][1..] == ops0[i + 1..];
      DefStep(ops[..i], ops0[i..], a);
      if PureDef(o) {
        if o.loc.index !in a.regs {
          assert ops[..i] + ops0[i..] == ops;
          killed := true;
          return;
        }
        Done(ops, i, o.(loc := Place(o.loc, a.regs[o.loc.index])));
        ops := ops[i := o.(loc := Place(o.loc, a.regs[o.loc.index]))];
        a := a.(avail := a.avail + {a.regs[o.loc.index]});
      } else {
        Done(ops, i, o);
        assert ops[i := o] == ops;
      }
      i := i + 1;
    }
    assert ops[..i] + [] == ops;
  }

  method AllocateUses(ops0: seq<Operand>, a0: Alloc) returns (ok: bool, ops: seq<Operand>, a: Alloc)
    requires RegsOk(a0)
    ensures ok == UsePass(ops0, a0).Some?
    ensures ok ==> UsePass(ops0, a0) == Some(UseResult(ops, a))
  {
    ops, a := ops0, a0;
    var i := 0;
    assert ops[..0] == [] && ops0[0..] == ops0;
    assert forall r: seq<Operand> :: [] + r == r;
    while i < |ops0|
      invariant 0 <= i <= |ops0| == |ops| && ops[i..] == ops0[i..] && RegsOk(a)
      invariant UsePass(ops0, a0) == AfterUses(ops[..i], UsePass(ops0[i..], a))
    {
      var o := ops[i];
      assert ops[i..][0] == ops0[i..][0] && ops0[i..][1..] == ops0[i + 1..];
      UseStep(ops[..i], ops0[i..], a);
      if ReadsSomeVirt(o) {
        var v := o.loc.index;
        if v !in a.regs {
          var allocation := FindFirst(a.avail);
          if allocation == 6 {
            return false, ops, a;
          }
          a := Alloc(a.regs[v := allocation], a.avail - {allocation});
        }
        Done(ops, i, o.(loc := Place(o.loc, a.regs[v])));
        ops := ops[i := o.(loc := Place(o.loc, a.regs[v]))];
      } else {
        Done(ops, i, o);
        assert ops[i := o] == ops;
      }
      i := i + 1;
    }
    assert ops[..i] + [] == ops;
    ok := true;
  }
}
