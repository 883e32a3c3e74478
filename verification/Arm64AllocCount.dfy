/** When the arm64 allocator succeeds, and what holds of the state it reaches over a whole instruction list. */
module Arm64AllocCount {
  import opened Wrappers
  import opened Arm64Code
  import opened Arm64RegAlloc

  /** Wherever allocation gets to, the live registers of each bank are in distinct physical registers. */
  lemma {:induction false} AllocateInv(p: Setup, code: seq<Insn>)
    requires CodeOk(p, code) && Allocate(code, p.ints, p.floats).Some?
    ensures var a := Allocate(code, p.ints, p.floats).value.alloc;
            AllocInv(p, a, Live(code)) && Passed(a, Live(code), code)
    decreases |code|
  {
    if code != [] {
      ReadyAt(p, code);
      var a, live := Allocate(code[1..], p.ints, p.floats).value.alloc, Live(code[1..]);
      AllocateInsnInv(p, code[0], code[1..], a, live);
      AllocateInsnPassed(p, code[0], code[1..], a, live);
      assert [code[0]] + code[1..] == code;
    }
  }

  lemma ReadyAt(p: Setup, code: seq<Insn>)
    requires code != [] && CodeOk(p, code) && Allocate(code[1..], p.ints, p.floats).Some?
    ensures Ready(p, code[0], code[1..], Allocate(code[1..], p.ints, p.floats).value.alloc, Live(code[1..]))
    decreases |code|, 0
  {
    CodeTail(p, code);
    HeadPrecedes(p, code);
    AllocateInv(p, code[1..]);
  }

  // ---------------------------------------------------------------------------------------------
  // Counting registers
  // ---------------------------------------------------------------------------------------------

  function InBank(p: Setup, s: set<nat>, float: bool): set<nat> {
    if float then s * p.floatVregs else s - p.floatVregs
  }

  /** The free registers of a bank are as many as the live ones leave. */
  predicate Counted(p: Setup, a: Alloc, live: set<nat>, float: bool) {
    |Free(a, float)| + |InBank(p, live, float)| == |Mask(p, float)|
  }

  lemma ObtainCount(p: Setup, a: Alloc, v: nat, f: bool, g: bool)
    requires forall r :: r in Free(a, f) ==> r < 32
    ensures Obtain(v, f, a).Some? <==> |Free(a, f)| > 0
    ensures Obtain(v, f, a).Some? ==>
              |Free(Obtain(v, f, a).value, g)| == |Free(a, g)| - if f == g then 1 else 0
  {
    FindFirstOk(Free(a, f), 0);
  }

  predicate FreeSmall(a: Alloc) {
    (forall r :: r in a.ints ==> r < 32) && (forall r :: r in a.floats ==> r < 32)
  }

  lemma BankAdd(p: Setup, s: set<nat>, v: nat, f: bool)
    requires v !in s
    ensures |InBank(p, s + {v}, f)| == |InBank(p, s, f)| + if IsFloat(p, v) == f then 1 else 0
  {
    assert InBank(p, s + {v}, f) == if IsFloat(p, v) == f then InBank(p, s, f) + {v} else InBank(p, s, f);
  }

  /** How many registers of a bank the operands still need. */
  function Needed(p: Setup, ops: seq<Operand>, have: set<nat>, f: bool): nat
    decreases |ops|
  {
    if ops == [] then 0
    else if ReadsSomeVirt(ops[0]) && ops[0].loc.index !in have then
      Needed(p, ops[1..], have + {ops[0].loc.index}, f) + if IsFloat(p, ops[0].loc.index) == f then 1 else 0
    else Needed(p, ops[1..], have, f)
  }

  /** The reads that need a register, one operand at a time. */
  lemma MissingStep(ops: seq<Operand>, have: set<nat>)
    requires ops != []
    ensures ReadsSomeVirt(ops[0]) && ops[0].loc.index !in have ==>
              var v := ops[0].loc.index;
              ReadSet(ops) - have == (ReadSet(ops[1..]) - (have + {v})) + {v}
    ensures !(ReadsSomeVirt(ops[0]) && ops[0].loc.index !in have) ==> ReadSet(ops) - have == ReadSet(ops[1..]) - have
  {
  }

  lemma {:induction false} NeededIs(p: Setup, ops: seq<Operand>, have: set<nat>, f: bool)
    ensures Needed(p, ops, have, f) == |InBank(p, ReadSet(ops) - have, f)|
    decreases |ops|
  {
    if ops == [] {
      assert InBank(p, ReadSet(ops) - have, f) == {};
    } else {
      MissingStep(ops, have);
      if ReadsSomeVirt(ops[0]) && ops[0].loc.index !in have {
        var v := ops[0].loc.index;
        NeededIs(p, ops[1..], have + {v}, f);
        BankAdd(p, ReadSet(ops[1..]) - (have + {v}), v, f);
      } else {
        NeededIs(p, ops[1..], have, f);
      }
    }
  }

  predicate Enough(p: Setup, ops: seq<Operand>, a: Alloc, f: bool) {
    Needed(p, ops, a.regs.Keys, f) <= |Free(a, f)|
  }

  /** The use pass succeeds exactly when each bank has a register for every read that has none yet. */
  lemma {:induction false} UsePassCount(p: Setup, ops: seq<Operand>, a: Alloc, entries: seq<Entry>)
    requires |entries| == |ops| && TypesOk(p, ops) && FreeSmall(a)
    ensures UsePass(ops, a, entries).Some? <==> Enough(p, ops, a, true) && Enough(p, ops, a, false)
    ensures UsePass(ops, a, entries).Some? ==>
              var b := UsePass(ops, a, entries).value.alloc;
              forall f :: |Free(b, f)| == |Free(a, f)| - Needed(p, ops, a.regs.Keys, f)
    decreases |ops|
  {
    if ops != [] {
      TypesTail(p, ops);
      if ReadsSomeVirt(ops[0]) && ops[0].loc.index !in a.regs {
        var v, g := ops[0].loc.index, ops[0].loc.float;
        ObtainCount(p, a, v, g, true);
        ObtainCount(p, a, v, g, false);
        if Obtain(v, g, a).Some? {
          assert Obtain(v, g, a).value.regs.Keys == a.regs.Keys + {v};
          UsePassCount(p, ops[1..], Obtain(v, g, a).value, entries[1..]);
        }
      } else {
        UsePassCount(p, ops[1..], a, entries[1..]);
      }
    }
  }

  // ---------------------------------------------------------------------------------------------
  // One instruction
  // ---------------------------------------------------------------------------------------------

  /** A kept instruction whose definition is unused needs one integer register more. */
  function Scratch(n: Insn, after: set<nat>, float: bool): nat {
    if UnusedKeep(n, after) && !float then 1 else 0
  }

  /** What is needed of a bank at an instruction fits. */
  predicate FitsBank(p: Setup, n: Insn, after: set<nat>, float: bool) {
    |InBank(p, LiveBefore(n, after), float)| + Scratch(n, after, float) <= |Mask(p, float)|
  }

  lemma ReleaseCount(p: Setup, a: Alloc, live: set<nat>, v: nat, f: bool)
    requires AllocInv(p, a, live) && v in live && Counted(p, a, live, f)
    ensures Counted(p, WithFree(a, IsFloat(p, v), Free(a, IsFloat(p, v)) + {a.regs[v]}), live - {v}, f)
  {
    assert live == (live - {v}) + {v};
    BankAdd(p, live - {v}, v, f);
  }

  lemma TakeCount(p: Setup, a: Alloc, live: set<nat>, v: nat, f: bool)
    requires SetupOk(p) && AllocInv(p, a, live) && v !in a.regs && Counted(p, a, live, f)
    requires Obtain(v, IsFloat(p, v), a).Some?
    ensures Counted(p, Obtain(v, IsFloat(p, v), a).value, live + {v}, f)
  {
    assert Free(a, IsFloat(p, v)) <= Mask(p, IsFloat(p, v));
    ObtainCount(p, a, v, IsFloat(p, v), f);
    BankAdd(p, live, v, f);
  }

  /** The first pass fails exactly when an unused kept definition finds no integer register. */
  lemma DefPassCount(p: Setup, n: Insn, code: seq<Insn>, a: Alloc, live: set<nat>, f: bool)
    requires Ready(p, n, code, a, live) && Counted(p, a, live, f)
    ensures DefPass(n.operands, n.keep, a) == None <==> UnusedKeep(n, live) && a.ints == {}
    ensures DefPass(n.operands, n.keep, a).Some? && !Mid(n, a).killed ==>
                Counted(p, Mid(n, a).alloc, MidLive(n, live), f)
  {
    DefPassIs(n.operands, n.keep, a);
    DefBankIs(p, n.operands);
    EntryIsLive(p, n, code, a, live);
    match DefOf(n.operands)
    case None => assert live - DefSet(n.operands) == live;
    case Some(v) =>
      if v in a.regs {
        ReleaseCount(p, a, live, v, f);
      } else if n.keep {
        ObtainInv(p, a, live, v);
        if Obtain(v, false, a).Some? { TakeCount(p, a, live, v, f); }
      }
  }

  lemma BankUnion(p: Setup, l: set<nat>, u: set<nat>, f: bool)
    ensures |InBank(p, l + u, f)| == |InBank(p, l, f)| + |InBank(p, u - l, f)|
  {
    assert InBank(p, l + u, f) == InBank(p, l, f) + InBank(p, u - l, f);
  }

  /** What is live between the passes, and read, is what is live before plus the scratch register's definition. */
  lemma MidCount(p: Setup, n: Insn, live: set<nat>, f: bool)
    requires InsnOk(p, n) && !Useless(n, live)
    ensures |InBank(p, MidLive(n, live) + ReadSet(n.operands), f)| ==
                |InBank(p, LiveBefore(n, live), f)| + Scratch(n, live, f)
  {
    var l := MidLive(n, live) + ReadSet(n.operands);
    if UnusedKeep(n, live) {
      var v := DefOf(n.operands).value;
      assert v in DefSet(n.operands) && v !in LiveBefore(n, live) && v !in p.floatVregs;
      assert l == LiveBefore(n, live) + {v};
      if f { assert InBank(p, l, f) == InBank(p, LiveBefore(n, live), f); }
      else { assert InBank(p, l, f) == InBank(p, LiveBefore(n, live), f) + {v}; }
    }
  }

  lemma MissingReads(p: Setup, n: Insn, code: seq<Insn>, a: Alloc, live: set<nat>)
    requires Ready(p, n, code, a, live) && !Useless(n, live) && DefPass(n.operands, n.keep, a).Some?
    ensures ReadSet(Mid(n, a).operands) == ReadSet(n.operands)
    ensures ReadSet(n.operands) - Mid(n, a).alloc.regs.Keys == ReadSet(n.operands) - MidLive(n, live)
  {
    DefPassInv(p, n, code, a, live);
    MidTypes(p, n, a);
    EntryIsLive(p, n, code, a, live);
  }

  lemma NeededMid(p: Setup, n: Insn, code: seq<Insn>, a: Alloc, live: set<nat>, f: bool)
    requires Ready(p, n, code, a, live) && !Useless(n, live) && DefPass(n.operands, n.keep, a).Some?
    ensures Needed(p, Mid(n, a).operands, Mid(n, a).alloc.regs.Keys, f) + |InBank(p, MidLive(n, live), f)|
         == |InBank(p, LiveBefore(n, live), f)| + Scratch(n, live, f)
  {
    MissingReads(p, n, code, a, live);
    NeededIs(p, Mid(n, a).operands, Mid(n, a).alloc.regs.Keys, f);
    BankUnion(p, MidLive(n, live), ReadSet(n.operands), f);
    MidCount(p, n, live, f);
  }

  lemma UsesCount(p: Setup, n: Insn, code: seq<Insn>, a: Alloc, live: set<nat>, f: bool)
    requires Ready(p, n, code, a, live) && Counted(p, a, live, f) && !Useless(n, live)
    requires DefPass(n.operands, n.keep, a).Some?
    ensures FitsBank(p, n, live, f) <==> Enough(p, Mid(n, a).operands, Mid(n, a).alloc, f)
    ensures |Free(Mid(n, a).alloc, f)| - Needed(p, Mid(n, a).operands, Mid(n, a).alloc.regs.Keys, f)
         == |Mask(p, f)| - |InBank(p, LiveBefore(n, live), f)| - Scratch(n, live, f)
  {
    DefPassInv(p, n, code, a, live);
    DefPassCount(p, n, code, a, live, f);
    NeededMid(p, n, code, a, live, f);
  }

  /** An instruction that is not useless is allocated exactly when what is live before it, and the scratch register of
      an unused kept definition, fit in the registers of each bank. */
  lemma AllocateInsnSucceeds(p: Setup, n: Insn, code: seq<Insn>, a: Alloc, live: set<nat>)
    requires Ready(p, n, code, a, live) && Counted(p, a, live, true) && Counted(p, a, live, false)
    ensures AllocateInsn(n, a).Some? <==>
                Useless(n, live) || (FitsBank(p, n, live, true) && FitsBank(p, n, live, false))
  {
    DefPassCount(p, n, code, a, live, false);
    if DefPass(n.operands, n.keep, a) == None {
      assert |InBank(p, live, false)| == |Mask(p, false)|;
      BankUnion(p, live, ReadSet(n.operands), false);
      assert LiveBefore(n, live) == live + ReadSet(n.operands);
    } else {
      DefPassInv(p, n, code, a, live);
      if !Useless(n, live) {
        UsesCount(p, n, code, a, live, true);
        UsesCount(p, n, code, a, live, false);
        MidTypes(p, n, a);
        UsePassCount(p, Mid(n, a).operands, Mid(n, a).alloc, Mid(n, a).entries);
      }
    }
  }

  lemma AllocateInsnCount(p: Setup, n: Insn, code: seq<Insn>, a: Alloc, live: set<nat>, f: bool)
    requires Ready(p, n, code, a, live) && Counted(p, a, live, f) && AllocateInsn(n, a).Some?
    ensures Counted(p, AllocateInsn(n, a).value.alloc, LiveBefore(n, live), f)
  {
    DefPassInv(p, n, code, a, live);
    if !Useless(n, live) {
      Survives(p, n, code, a, live);
      UsesCount(p, n, code, a, live, f);
      MidTypes(p, n, a);
      UsePassCount(p, Mid(n, a).operands, Mid(n, a).alloc, Mid(n, a).entries);
      if UnusedKeep(n, live) {
        UsesInv(p, n, code, a, live);
        UnusedKeepAlloc(p, n, code, a, live);
        var b, v := Used(n, a).value.alloc, DefOf(n.operands).value;
        ScratchTaken(p, b, MidLive(n, live) + ReadSet(n.operands), v);
      }
    }
  }

  lemma ScratchTaken(p: Setup, a: Alloc, live: set<nat>, v: nat)
    requires AllocInv(p, a, live) && v in live && !IsFloat(p, v)
    ensures |Flip(a.ints, a.regs[v])| == |a.ints| + 1
  {
    assert a.regs[v] !in Free(a, IsFloat(p, v));
  }

  // ---------------------------------------------------------------------------------------------
  // The whole list
  // ---------------------------------------------------------------------------------------------

  /** Instruction k of the list survives elimination or fits both banks. */
  predicate FitsAt(p: Setup, code: seq<Insn>, k: nat)
    requires k < |code|
  {
    var after := Live(code[k + 1..]);
    Useless(code[k], after) || (FitsBank(p, code[k], after, true) && FitsBank(p, code[k], after, false))
  }

  ghost predicate Fits(p: Setup, code: seq<Insn>) {
    forall k :: 0 <= k < |code| ==> FitsAt(p, code, k)
  }

  lemma FitsTail(p: Setup, code: seq<Insn>)
    requires code != []
    ensures Fits(p, code) <==> FitsAt(p, code, 0) && Fits(p, code[1..])
  {
    forall k | 0 <= k < |code| - 1 ensures FitsAt(p, code[1..], k) == FitsAt(p, code, k + 1) {
      assert code[1..][k + 1..] == code[k + 2..];
    }
    if FitsAt(p, code, 0) && Fits(p, code[1..]) {
      forall k | 0 <= k < |code| ensures FitsAt(p, code, k) {
        if k > 0 { assert FitsAt(p, code[1..], k - 1); }
      }
    }
    if Fits(p, code) {
      forall k | 0 <= k < |code[1..]| ensures FitsAt(p, code[1..], k) { assert FitsAt(p, code, k + 1); }
    }
  }

  /** The allocator runs out of registers exactly when, at some instruction it does not eliminate, what is live before
      it and its scratch register do not fit a bank; otherwise each bank ends with exactly the registers the values
      live on entry leave free. */
  lemma {:induction false} AllocateSucceedsExactly(p: Setup, code: seq<Insn>)
    requires CodeOk(p, code)
    ensures Allocate(code, p.ints, p.floats).Some? <==> Fits(p, code)
    ensures Allocate(code, p.ints, p.floats).Some? ==>
              forall f :: Counted(p, Allocate(code, p.ints, p.floats).value.alloc, Live(code), f)
    decreases |code|
  {
    if code == [] {
      assert forall f :: InBank(p, {}, f) == {};
    } else {
      CodeTail(p, code);
      FitsTail(p, code);
      AllocateSucceedsExactly(p, code[1..]);
      if Allocate(code[1..], p.ints, p.floats).Some? {
        ReadyAt(p, code);
        var a, live := Allocate(code[1..], p.ints, p.floats).value.alloc, Live(code[1..]);
        AllocateInsnSucceeds(p, code[0], code[1..], a, live);
        if AllocateInsn(code[0], a).Some? {
          AllocateInsnCount(p, code[0], code[1..], a, live, true);
          AllocateInsnCount(p, code[0], code[1..], a, live, false);
        }
      }
    }
  }
}
