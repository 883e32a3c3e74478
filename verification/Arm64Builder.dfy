/** The arm64 instruction builder: a list of instructions that allocate() rewrites in place. */
module Arm64Builder {
  import opened Wrappers
  import opened Arm64Code
  import opened Arm64RegAlloc

  class InstructionBuilder {
    const ints: set<nat>
    const floats: set<nat>
    var instructions: seq<Insn>

    constructor (ints: set<nat>, floats: set<nat>)
      ensures this.ints == ints && this.floats == floats && instructions == []
    {
      this.ints, this.floats, instructions := ints, floats, [];
    }

    method Append(i: Insn)
      modifies this
      ensures instructions == old(instructions) + [i]
    {
      instructions := instructions + [i];
    }

    /** Reverse linear scan over the whole list; false when a bank runs out (flipping a bit that does not exist
        throws). */
    method Allocate() returns (ok: bool)
      modifies this
      ensures ok == Arm64RegAlloc.Allocate(old(instructions), ints, floats).Some?
      ensures ok ==> instructions == Arm64RegAlloc.Allocate(old(instructions), ints, floats).value.code
    {
      ghost var original := instructions;
      var a := Alloc(map[], ints, floats);
      var r := |instructions|;
      assert original[r..] == [] && instructions[r..] == [];
      while r > 0
        invariant 0 <= r <= |original| == |instructions|
        invariant instructions[..r] == original[..r]
        invariant Arm64RegAlloc.Allocate(original[r..], ints, floats) == Some(Result(instructions[r..], a))
      {
        r := r - 1;
        var insn := instructions[r];
        assert insn == original[r] by { assert instructions[..r + 1][r] == original[..r + 1][r]; }
        assert original[r..][0] == insn && original[r..][1..] == original[r + 1..];
        var done, insn', a' := AllocateOne(insn, a);
        if !done {
          StaysFailed(original, r, ints, floats);
          return false;
        }
        ghost var before := instructions;
        instructions := instructions[r := insn'];
        a := a';
        assert instructions[r..] == [insn'] + before[r + 1..];
      }
      assert original[0..] == original && instructions[0..] == instructions;
      return true;
    }
  }

  lemma {:induction false} StaysFailed(code: seq<Insn>, k: nat, ints: set<nat>, floats: set<nat>)
    requires k <= |code| && Arm64RegAlloc.Allocate(code[k..], ints, floats).None?
    ensures Arm64RegAlloc.Allocate(code, ints, floats).None?
    decreases k
  {
    if k == 0 {
      assert code[0..] == code;
    } else {
      assert code[1..][k - 1..] == code[k..];
      StaysFailed(code[1..], k - 1, ints, floats);
    }
  }

  /** One turn of the loop. */
  method AllocateOne(insn: Insn, a0: Alloc) returns (ok: bool, insn': Insn, a: Alloc)
    ensures ok == AllocateInsn(insn, a0).Some?
    ensures ok ==> AllocateInsn(insn, a0) == Some(Step(insn', a))
  {
    var killed, unused, ops, entries;
    insn' := insn;
    ok, killed, unused, ops, entries, a := KillDefs(insn.operands, insn.keep, a0);
    if !ok {
      return;
    }
    insn' := insn.(operands := ops);
    if killed {
      insn' := insn'.(opcode := Dead);
      return;
    }
    ok, ops, entries, a := AllocateUses(ops, entries, a);
    if !ok {
      return;
    }
    insn' := insn'.(operands := ops);
    if unused {
      a := ForgetUnused(ops, entries, a);
    }
    if SelfMove(insn') {
      insn' := insn'.(opcode := Dead);
    }
  }

  /** The outcome of a pass whose first operands have already been dealt with. */
  function AfterDefs(done: seq<Operand>, made: seq<Entry>, unused: bool, d: Option<DefResult>): Option<DefResult> {
    match d
    case None => None
    case Some(r) => Some(DefResult(done + r.operands, r.alloc, r.killed, unused || r.unusedKeep, made + r.entries))
  }

  function AfterUses(done: seq<Operand>, made: seq<Entry>, u: Option<UseResult>): Option<UseResult> {
    match u
    case None => None
    case Some(r) => Some(UseResult(done + r.operands, r.alloc, made + r.entries))
  }

  lemma DefCons(done: seq<Operand>, made: seq<Entry>, unused: bool, o: Operand, e: Entry, u: bool, d: Option<DefResult>)
    ensures (match d case None => AfterDefs(done, made, unused, None)
                     case Some(r) => AfterDefs(done, made, unused, Some(Prepend(o, e, r, u))))
         == AfterDefs(done + [o], made + [e], unused || u, d)
  {
    if d.Some? {
      assert done + ([o] + d.value.operands) == (done + [o]) + d.value.operands;
      assert made + ([e] + d.value.entries) == (made + [e]) + d.value.entries;
    }
  }

  lemma UseCons(done: seq<Operand>, made: seq<Entry>, o: Operand, e: Entry, u: Option<UseResult>)
    ensures (match u case None => AfterUses(done, made, None)
                     case Some(r) => AfterUses(done, made, Some(UseResult([o] + r.operands, r.alloc, [e] + r.entries))))
         == AfterUses(done + [o], made + [e], u)
  {
    if u.Some? {
      assert done + ([o] + u.value.operands) == (done + [o]) + u.value.operands;
      assert made + ([e] + u.value.entries) == (made + [e]) + u.value.entries;
    }
  }

  method KillDefs(ops0: seq<Operand>, keep: bool, a0: Alloc)
    returns (ok: bool, killed: bool, unused: bool, ops: seq<Operand>, entries: seq<Entry>, a: Alloc)
    ensures DefPass(ops0, keep, a0) == if ok then Some(DefResult(ops, a, killed, unused, entries)) else None
    ensures ok ==> |entries| == |ops|
  {
    ok, killed, unused, ops, a := true, false, false, [], a0;
    entries := [];
    var i := 0;
    assert ops0[0..] == ops0;
    StartDefs(DefPass(ops0, keep, a0));
    while i < |ops0|
      invariant 0 <= i <= |ops0| && |ops| == i == |entries|
      invariant DefPass(ops0, keep, a0) == AfterDefs(ops, entries, unused, DefPass(ops0[i..], keep, a))
    {
      var o := ops0[i];
      assert ops0[i..][0] == o && ops0[i..][1..] == ops0[i + 1..];
      var e: Entry := (0, 0);
      ghost var before := unused;
      ghost var now := false;
      if PureDef(o) {
        var v, f := o.loc.index, o.loc.float;
        if v in a.regs {
          a := WithFree(a, f, Free(a, f) + {a.regs[v]});
          o := o.(loc := Place(o.loc, a.regs[v]));
        } else if keep {
          var allocation := FindFirst(Free(a, f), 0);
          if allocation >= 32 {
            ok := false;
            return;
          }
          a := WithFree(a, f, Free(a, f) - {allocation}).(regs := a.regs[v := allocation]);
          o := o.(loc := Place(o.loc, allocation));
          e := (v, allocation);
          unused := true;
          now := true;
        } else {
          killed := true;
          ops := ops + ops0[i..];
          entries := entries + seq(|ops0| - i, _ => (0, 0));
          return;
        }
      }
      DefCons(ops, entries, before, o, e, now, DefPass(ops0[i + 1..], keep, a));
      ops := ops + [o];
      entries := entries + [e];
      i := i + 1;
    }
    assert ops + [] == ops && entries + [] == entries;
  }

  lemma StartDefs(d: Option<DefResult>)
    ensures AfterDefs([], [], false, d) == d
  {
    if d.Some? { assert [] + d.value.operands == d.value.operands && [] + d.value.entries == d.value.entries; }
  }

  lemma StartUses(u: Option<UseResult>)
    ensures AfterUses([], [], u) == u
  {
    if u.Some? { assert [] + u.value.operands == u.value.operands && [] + u.value.entries == u.value.entries; }
  }

  method AllocateUses(ops0: seq<Operand>, entries0: seq<Entry>, a0: Alloc)
    returns (ok: bool, ops: seq<Operand>, entries: seq<Entry>, a: Alloc)
    requires |entries0| == |ops0|
    ensures UsePass(ops0, a0, entries0) == if ok then Some(UseResult(ops, a, entries)) else None
    ensures ok ==> |entries| == |ops|
  {
    ok, ops, entries, a := true, [], [], a0;
    var i := 0;
    assert ops0[0..] == ops0 && entries0[0..] == entries0;
    StartUses(UsePass(ops0, a0, entries0));
    while i < |ops0|
      invariant 0 <= i <= |ops0| && |ops| == i == |entries|
      invariant UsePass(ops0, a0, entries0) == AfterUses(ops, entries, UsePass(ops0[i..], a, entries0[i..]))
    {
      var o, e := ops0[i], entries0[i];
      assert ops0[i..][0] == o && ops0[i..][1..] == ops0[i + 1..] && entries0[i..][0] == e &&
          entries0[i..][1..] == entries0[i + 1..];
      if ReadsSomeVirt(o) {
        var v, f := o.loc.index, o.loc.float;
        if v !in a.regs {
          var allocation := FindFirst(Free(a, f), 0);
          if allocation >= 32 {
            ok := false;
            return;
          }
          a := WithFree(a, f, Free(a, f) - {allocation}).(regs := a.regs[v := allocation]);
          e := (v, allocation);
        }
        o := o.(loc := Place(o.loc, a.regs[v]));
      }
      UseCons(ops, entries, o, e, UsePass(ops0[i + 1..], a, entries0[i + 1..]));
      ops := ops + [o];
      entries := entries + [e];
      i := i + 1;
    }
    assert ops + [] == ops && entries + [] == entries;
  }

  method ForgetUnused(ops: seq<Operand>, entries: seq<Entry>, a0: Alloc) returns (a: Alloc)
    requires |entries| == |ops|
    ensures a == Cleanup(ops, entries, a0)
  {
    a := a0;
    assert ops[0..] == ops && entries[0..] == entries;
    for i := 0 to |ops|
      invariant Cleanup(ops, entries, a0) == Cleanup(ops[i..], entries[i..], a)
    {
      assert ops[i..][0] == ops[i] && ops[i..][1..] == ops[i + 1..];
      assert entries[i..][0] == entries[i] && entries[i..][1..] == entries[i + 1..];
      if ops[i].def {
        a := a.(regs := a.regs - {entries[i].0}, ints := Flip(a.ints, entries[i].1));
      }
    }
  }
}
