/** Lists on which the arm64 allocator goes wrong, each with a program whose outcome it changes, and exactly when it
    does not. */
module Arm64AllocLimits {
  import opened Wrappers
  import opened Arm64Code
  import opened Arm64RegAlloc
  import opened Arm64AllocMeaning

  // ---------------------------------------------------------------------------------------------
  // Evaluating the allocator
  // ---------------------------------------------------------------------------------------------

  function Freed(a: Alloc, x: Operand): Alloc
    requires PureDef(x) && x.loc.index in a.regs
  {
    WithFree(a, x.loc.float, Free(a, x.loc.float) + {a.regs[x.loc.index]})
  }

  function Placed(x: Operand, a: Alloc): Operand
    requires (x.loc.Virt? || x.loc.MemVirt?) && x.loc.index in a.regs
  {
    x.(loc := Place(x.loc, a.regs[x.loc.index]))
  }

  function NoEntries(n: nat): (r: seq<Entry>)
    ensures |r| == n
  {
    seq(n, _ => (0, 0))
  }

  /** A read operand that gets its register, and the rest. */
  lemma UseFirst(x: Operand, rest: seq<Operand>, a: Alloc, a': Alloc, u: seq<Operand>, b: Alloc)
    requires ReadsSomeVirt(x) && ForUse(x, a) == Some(a') && x.loc.index in a'.regs
    requires UsePass(rest, a', NoEntries(|rest|)).Some? && UsePass(rest, a', NoEntries(|rest|)).value.operands == u
    requires UsePass(rest, a', NoEntries(|rest|)).value.alloc == b
    ensures var r := UsePass([x] + rest, a, NoEntries(|rest| + 1));
            r.Some? && r.value.operands == [Placed(x, a')] + u && r.value.alloc == b
  {
    assert ([x] + rest)[1..] == rest && NoEntries(|rest| + 1)[1..] == NoEntries(|rest|);
  }

  /** An instruction that defines a register in use and reads others. */
  lemma DefUses(op: Opcode, keep: bool, x: Operand, uses: seq<Operand>, a: Alloc, u: seq<Operand>, b: Alloc)
    requires op.Op? && PureDef(x) && x.loc.index in a.regs && NoDefs(uses)
    requires var r := UsePass(uses, Freed(a, x), NoEntries(|uses|));
             r.Some? && r.value.operands == u && r.value.alloc == b
    ensures var n' := Insn(op, keep, [Placed(x, a)] + u);
            AllocateInsn(Insn(op, keep, [x] + uses), a) ==
                Some(Step(if SelfMove(n') then n'.(opcode := Dead) else n', b))
  {
    var ops, x' := [x] + uses, Placed(x, a);
    assert ops[1..] == uses && ([x'] + uses)[1..] == uses;
    assert Entries(uses, (0, 0)) == NoEntries(|uses|);
    DefPassNone(uses, keep, Freed(a, x), 0, (0, 0));
    assert DefPass(ops, keep, a) == Some(DefResult([x'] + uses, Freed(a, x), false, false,
                                                   [(0, 0)] + NoEntries(|uses|)));
    assert ([(0, 0)] + NoEntries(|uses|))[1..] == NoEntries(|uses|);
  }

  /** An instruction that only reads one register. */
  lemma UseOnly(op: Opcode, keep: bool, x: Operand, a: Alloc, a': Alloc)
    requires op.Op? && ReadsSomeVirt(x) && !x.def && ForUse(x, a) == Some(a') && x.loc.index in a'.regs
    ensures AllocateInsn(Insn(op, keep, [x]), a) == Some(Step(Insn(op, keep, [Placed(x, a')]), a'))
  {
    DefPassNone([x], keep, a, 0, (0, 0));
    assert UsePass([], a', NoEntries(0)) == Some(UseResult([], a', []));
    UseFirst(x, [], a, a', [], a');
    assert [x] + [] == [x] && [Placed(x, a')] + [] == [Placed(x, a')];
    assert Entries([x], (0, 0)) == NoEntries(1);
  }

  /** A kept instruction whose only operand is an unused definition. */
  lemma KeepUnused(op: Opcode, x: Operand, a: Alloc)
    requires op.Op? && PureDef(x) && x.loc.index !in a.regs && Obtain(x.loc.index, x.loc.float, a).Some?
    ensures var v, a' := x.loc.index, Obtain(x.loc.index, x.loc.float, a).value;
            AllocateInsn(Insn(op, true, [x]), a) ==
                Some(Step(Insn(op, true, [Placed(x, a')]), Dropped(a', v, a'.regs[v])))
  {
    var v, a' := x.loc.index, Obtain(x.loc.index, x.loc.float, a).value;
    var x' := Placed(x, a');
    var e: Entry := (v, a'.regs[v]);
    assert [x][1..] == [] && [x'][1..] == [] && [e][1..] == [];
    assert [x'] + [] == [x'] && [e] + [] == [e];
    assert DefPass([], true, a') == Some(DefResult([], a', false, false, []));
    assert DefPass([x], true, a) == Some(DefResult([x'], a', false, true, [e]));
    assert [x'][0].def;
    CleanupOne([x'], [e], a', e);
    assert UsePass([], a', []) == Some(UseResult([], a', []));
    assert UsePass([x'], a', [e]) == Some(UseResult([x'], a', [e]));
  }

  /** The rest of list c becomes the rest of list d. */
  predicate Becomes(c: seq<Insn>, d: seq<Insn>, k: nat, ints: set<nat>, floats: set<nat>, a: Alloc) {
    k <= |c| == |d| && Allocate(c[k..], ints, floats) == Some(Result(d[k..], a))
  }

  lemma Extend(c: seq<Insn>, d: seq<Insn>, k: nat, ints: set<nat>, floats: set<nat>, a: Alloc, a': Alloc)
    requires k < |c| && Becomes(c, d, k + 1, ints, floats, a) && AllocateInsn(c[k], a) == Some(Step(d[k], a'))
    ensures Becomes(c, d, k, ints, floats, a')
  {
    assert c[k..][1..] == c[k + 1..] && d[k..] == [d[k]] + d[k + 1..];
  }

  lemma Start(c: seq<Insn>, d: seq<Insn>, ints: set<nat>, floats: set<nat>)
    requires |c| == |d|
    ensures Becomes(c, d, |c|, ints, floats, Alloc(map[], ints, floats))
  {
    assert c[|c|..] == [] && d[|d|..] == [];
  }

  lemma Whole(c: seq<Insn>, d: seq<Insn>, ints: set<nat>, floats: set<nat>, a: Alloc)
    requires Becomes(c, d, 0, ints, floats, a)
    ensures Allocate(c, ints, floats) == Some(Result(d, a))
  {
    assert c[0..] == c && d[0..] == d;
  }

  // ---------------------------------------------------------------------------------------------
  // An unused floating-point result that must be kept
  // ---------------------------------------------------------------------------------------------

  /** Exactly when the cleanup after an unused kept floating-point definition does no harm: its register number is free
      in the integer bank, and is lost there; or may be handed out there and no live integer register is in it. */
  lemma FloatKeepExactly(p: Setup, u: Alloc, live: set<nat>, v: nat)
    requires AllocInv(p, u, live + {v}) && v !in live && IsFloat(p, v)
    ensures var r := u.regs[v];
            AllocInv(p, Dropped(u, v, r), live) <==>
              r in u.ints || (r in p.ints && forall x :: x in live && !IsFloat(p, x) ==> u.regs[x] != r)
  {
    var r := u.regs[v];
    var d := Dropped(u, v, r);
    if r !in u.ints {
      assert r in d.ints;
      forall x | x in live && !IsFloat(p, x) && u.regs[x] == r ensures !AllocInv(p, d, live) {
        assert d.regs[x] in Free(d, IsFloat(p, x));
      }
    }
  }

  function Int(v: nat): Location {
    Virt(v, false)
  }

  function Def(loc: Location): Operand {
    Operand(loc, W64, false, true)
  }

  function Use(loc: Location): Operand {
    Operand(loc, W64, true, false)
  }

  function X(r: nat): Location {
    Phys(PhysReg(false, r))
  }

  /** Opcodes 1 and 2 give one and two; 3 stores its operand; 4 changes nothing but what it defines. */
  function Counting(): Meaning {
    (op: Opcode, shapes: Shapes, inputs: seq<int>, rest: Rest) =>
      if op == Op(3, false) && |inputs| == 1 then Outcome((i: nat) => 0, rest.(memory := rest.memory[0 := inputs[0]]))
      else if op.Op? && op.mov && |inputs| >= 2 then Outcome((i: nat) => inputs[1], rest)
      else if op.Op? then Outcome((i: nat) => op.code, rest)
      else Outcome((i: nat) => 0, rest)
  }

  /** Two values, the second stored; a kept floating-point result nobody uses; the first stored. */
  function FloatKeepBlock(): seq<Insn> {
    [Insn(Op(1, false), false, [Def(Int(0))]), Insn(Op(2, false), false, [Def(Int(3))]),
     Insn(Op(3, false), true, [Use(Int(3))]), Insn(Op(4, false), true, [Def(Virt(1, true))]),
     Insn(Op(3, false), true, [Use(Int(0))])]
  }

  function FloatKeepAllocated(): seq<Insn> {
    [Insn(Op(1, false), false, [Def(X(0))]), Insn(Op(2, false), false, [Def(X(0))]),
     Insn(Op(3, false), true, [Use(X(0))]), Insn(Op(4, false), true, [Def(Phys(PhysReg(true, 0)))]),
     Insn(Op(3, false), true, [Use(X(0))])]
  }

  lemma DefOnly(op: Opcode, x: Operand, a: Alloc)
    requires op.Op? && PureDef(x) && x.loc.index in a.regs
    ensures AllocateInsn(Insn(op, false, [x]), a) == Some(Step(Insn(op, false, [Placed(x, a)]), Freed(a, x)))
  {
    assert UsePass([], Freed(a, x), NoEntries(0)) == Some(UseResult([], Freed(a, x), []));
    DefUses(op, false, x, [], a, [], Freed(a, x));
    assert [x] + [] == [x] && [Placed(x, a)] + [] == [Placed(x, a)];
  }

  /** The first store leaves the value in x0; the cleanup makes x0 free. */
  lemma FloatKeepLast(ints: set<nat>, floats: set<nat>)
    requires 0 in ints && 0 in floats
    ensures Becomes(FloatKeepBlock(), FloatKeepAllocated(), 3, ints, floats, Alloc(map[0 := 0], ints, floats - {0}))
  {
    var c, d := FloatKeepBlock(), FloatKeepAllocated();
    var a0, a1 := Alloc(map[], ints, floats), Alloc(map[0 := 0], ints - {0}, floats);
    var a2 := Alloc(map[0 := 0, 1 := 0], ints - {0}, floats - {0});
    Start(c, d, ints, floats);
    UseOnly(Op(3, false), true, Use(Int(0)), a0, a1);
    Extend(c, d, 4, ints, floats, a0, a1);
    KeepUnused(Op(4, false), Def(Virt(1, true)), a1);
    assert Dropped(a2, 1, 0) == Alloc(map[0 := 0], ints, floats - {0}) by { assert ints - {0} + {0} == ints; }
    Extend(c, d, 3, ints, floats, a1, Dropped(a2, 1, 0));
  }

  /** Both values are given x0. */
  lemma FloatKeepAllocation(ints: set<nat>, floats: set<nat>)
    requires 0 in ints && 0 in floats
    ensures Allocate(FloatKeepBlock(), ints, floats).Some?
    ensures Allocate(FloatKeepBlock(), ints, floats).value.code == FloatKeepAllocated()
  {
    var c, d := FloatKeepBlock(), FloatKeepAllocated();
    FloatKeepLast(ints, floats);
    var a3, a4 := Alloc(map[0 := 0], ints, floats - {0}), Alloc(map[0 := 0, 3 := 0], ints - {0}, floats - {0});
    UseOnly(Op(3, false), true, Use(Int(3)), a3, a4);
    Extend(c, d, 2, ints, floats, a3, a4);
    DefOnly(Op(2, false), Def(Int(3)), a4);
    var a5 := Freed(a4, Def(Int(3)));
    Extend(c, d, 1, ints, floats, a4, a5);
    DefOnly(Op(1, false), Def(Int(0)), a5);
    Extend(c, d, 0, ints, floats, a5, Freed(a5, Def(Int(0))));
    Whole(c, d, ints, floats, Freed(a5, Def(Int(0))));
  }

  // Running lists one instruction at a time.

  lemma RunOne(m: Meaning, c: seq<Insn>, k: nat, h: Host)
    requires k < |c|
    ensures ExecAll(m, c[k..], h) == ExecAll(m, c[k + 1..], Exec(m, c[k], h))
  {
    assert c[k..][1..] == c[k + 1..];
  }

  lemma RunNone(m: Meaning, c: seq<Insn>, h: Host)
    ensures ExecAll(m, c[|c|..], h) == h
  {
    assert c[|c|..] == [];
  }

  /** Defining one register. */
  lemma RunDef(m: Meaning, op: Opcode, keep: bool, x: Operand, h: Host)
    requires op.Op?
    ensures var out := m(op, ShapesOf([x]), Inputs([x], h), h.rest);
            Exec(m, Insn(op, keep, [x]), h) == Store(x, out.results(0), h).(rest := out.rest)
  {
    var out := m(op, ShapesOf([x]), Inputs([x], h), h.rest);
    assert StoreFrom([x], 1, out.results, Store(x, out.results(0), h)) == Store(x, out.results(0), h);
  }

  function ValueAt(loc: Location, h: Host): int {
    match loc
    case Virt(v, _) => h.virt(v)
    case Phys(r) => h.phys(r)
    case _ => 0
  }

  lemma FloatKeepRun(c: seq<Insn>, x: Location, y: Location, z: Location, last: int, h: Host)
    requires IsRegister(Def(x)) && IsRegister(Def(y)) && IsRegister(Def(z)) && z != x
    requires (x.Virt? ==> y.Virt? && z.Virt? && y.index != x.index && z.index != x.index)
    requires (x.Phys? ==> y == x && z.Phys?)
    requires last == if x == y then 2 else 1
    requires c == [Insn(Op(1, false), false, [Def(x)]), Insn(Op(2, false), false, [Def(y)]),
                   Insn(Op(3, false), true, [Use(y)]), Insn(Op(4, false), true, [Def(z)]),
                   Insn(Op(3, false), true, [Use(x)])]
    ensures ExecAll(Counting(), c, h).rest.memory == h.rest.memory[0 := last]
  {
    var m := Counting();
    assert c[0..] == c;
    RunOne(m, c, 0, h);
    RunDef(m, Op(1, false), false, Def(x), h);
    var h1 := Exec(m, c[0], h);
    RunOne(m, c, 1, h1);
    RunDef(m, Op(2, false), false, Def(y), h1);
    var h2 := Exec(m, c[1], h1);
    assert ValueAt(x, h2) == last && h2.rest == h.rest;
    RunOne(m, c, 2, h2);
    RunDef(m, Op(3, false), true, Use(y), h2);
    var h3 := Exec(m, c[2], h2);
    assert ValueAt(x, h3) == last && h3.rest.memory == h.rest.memory[0 := Input(Use(y), h2)];
    RunOne(m, c, 3, h3);
    RunDef(m, Op(4, false), true, Def(z), h3);
    var h4 := Exec(m, c[3], h3);
    assert ValueAt(x, h4) == last && h4.rest == h3.rest;
    RunOne(m, c, 4, h4);
    RunDef(m, Op(3, false), true, Use(x), h4);
    RunNone(m, c, Exec(m, c[4], h4));
    assert Inputs([Use(x)], h4)[0] == last;
  }

  /** Whatever registers may be handed out, with number 0 of each bank among them: both values are given x0, and the
      last store writes the second where the virtual code writes the first. */
  lemma FloatKeepBreaksTheBank(ints: set<nat>, floats: set<nat>, h: Host)
    requires 0 in ints && 0 in floats
    ensures Allocate(FloatKeepBlock(), ints, floats).Some?
    ensures ExecAll(Counting(), FloatKeepBlock(), h).rest.memory == h.rest.memory[0 := 1]
    ensures ExecAll(Counting(), Allocate(FloatKeepBlock(), ints, floats).value.code, h).rest.memory ==
                h.rest.memory[0 := 2]
  {
    FloatKeepAllocation(ints, floats);
    FloatKeepRun(FloatKeepBlock(), Int(0), Int(3), Virt(1, true), 1, h);
    FloatKeepRun(FloatKeepAllocated(), X(0), X(0), Phys(PhysReg(true, 0)), 2, h);
  }

  // ---------------------------------------------------------------------------------------------
  // A move between the banks
  // ---------------------------------------------------------------------------------------------

  function D(r: nat): Location {
    Phys(PhysReg(true, r))
  }

  /** A value, moved to a floating-point register, and stored. */
  function CrossBankBlock(): seq<Insn> {
    [Insn(Op(1, false), false, [Def(Int(0))]), Insn(Op(0, true), false, [Def(Virt(1, true)), Use(Int(0))]),
     Insn(Op(3, false), true, [Use(Virt(1, true))])]
  }

  function CrossBankAllocated(): seq<Insn> {
    [Insn(Op(1, false), false, [Def(X(0))]), Insn(Dead, false, [Def(D(0)), Use(X(0))]),
     Insn(Op(3, false), true, [Use(D(0))])]
  }

  lemma CrossBankAllocation(ints: set<nat>, floats: set<nat>)
    requires 0 in ints && 0 in floats
    ensures Allocate(CrossBankBlock(), ints, floats).Some?
    ensures Allocate(CrossBankBlock(), ints, floats).value.code == CrossBankAllocated()
  {
    var c, d, x, y := CrossBankBlock(), CrossBankAllocated(), Def(Virt(1, true)), Use(Int(0));
    var a0, a1 := Alloc(map[], ints, floats), Alloc(map[1 := 0], ints, floats - {0});
    Start(c, d, ints, floats);
    UseOnly(Op(3, false), true, Use(Virt(1, true)), a0, a1);
    Extend(c, d, 2, ints, floats, a0, a1);
    var a2 := Alloc(map[1 := 0, 0 := 0], ints - {0}, floats);
    assert Freed(a1, x) == a1.(floats := floats) by { assert floats - {0} + {0} == floats; }
    UseOne(y, Freed(a1, x), a2);
    DefUses(Op(0, true), false, x, [y], a1, [Placed(y, a2)], a2);
    assert [x] + [y] == [x, y] && [Placed(x, a1)] + [Placed(y, a2)] == [Def(D(0)), Use(X(0))];
    assert SelfMove(Insn(Op(0, true), false, [Def(D(0)), Use(X(0))]));
    Extend(c, d, 1, ints, floats, a1, a2);
    DefOnly(Op(1, false), Def(Int(0)), a2);
    Extend(c, d, 0, ints, floats, a2, Freed(a2, Def(Int(0))));
    Whole(c, d, ints, floats, Freed(a2, Def(Int(0))));
  }

  lemma UseOne(x: Operand, a: Alloc, a': Alloc)
    requires ReadsSomeVirt(x) && ForUse(x, a) == Some(a') && x.loc.index in a'.regs
    ensures var r := UsePass([x], a, NoEntries(1));
            r.Some? && r.value.operands == [Placed(x, a')] && r.value.alloc == a'
  {
    assert UsePass([], a', NoEntries(0)) == Some(UseResult([], a', []));
    UseFirst(x, [], a, a', [], a');
    assert [x] + [] == [x] && [Placed(x, a')] + [] == [Placed(x, a')];
  }

  /** The two registers have the same number, so the move is left out, and what is stored is whatever d0 held. */
  lemma CrossBankMoveIsRemoved(ints: set<nat>, floats: set<nat>, h: Host)
    requires 0 in ints && 0 in floats
    ensures Allocate(CrossBankBlock(), ints, floats).Some?
    ensures ExecAll(Counting(), CrossBankBlock(), h).rest.memory == h.rest.memory[0 := 1]
    ensures ExecAll(Counting(), Allocate(CrossBankBlock(), ints, floats).value.code, h).rest.memory
         == h.rest.memory[0 := h.phys(PhysReg(true, 0))]
  {
    CrossBankAllocation(ints, floats);
    CrossBankVirtual(h);
    var m, d := Counting(), CrossBankAllocated();
    assert d[0..] == d;
    RunOne(m, d, 0, h);
    RunDef(m, Op(1, false), false, Def(X(0)), h);
    var h1 := Exec(m, d[0], h);
    RunOne(m, d, 1, h1);
    RunOne(m, d, 2, h1);
    RunDef(m, Op(3, false), true, Use(D(0)), h1);
    RunNone(m, d, Exec(m, d[2], h1));
    assert Inputs([Use(D(0))], h1)[0] == h.phys(PhysReg(true, 0));
  }

  lemma CrossBankVirtual(h: Host)
    ensures ExecAll(Counting(), CrossBankBlock(), h).rest.memory == h.rest.memory[0 := 1]
  {
    var m, c := Counting(), CrossBankBlock();
    assert c[0..] == c;
    RunOne(m, c, 0, h);
    RunDef(m, Op(1, false), false, Def(Int(0)), h);
    var h1 := Exec(m, c[0], h);
    RunOne(m, c, 1, h1);
    MoveIs(m, Setup({}, {}, {1}), c[1], h1);
    var h2 := Exec(m, c[1], h1);
    RunOne(m, c, 2, h2);
    RunDef(m, Op(3, false), true, Use(Virt(1, true)), h2);
    RunNone(m, c, Exec(m, c[2], h2));
    assert Inputs([Use(Virt(1, true))], h2)[0] == 1;
  }

  // ---------------------------------------------------------------------------------------------
  // A register that is defined again from its own value
  // ---------------------------------------------------------------------------------------------

  /** An instruction that reads the register it defines gives that register up before it reads: another value that is
      read there for the last time gets the same register exactly when no lower one was free. */
  lemma SharesExactly(p: Setup, op: Opcode, a: Alloc, live: set<nat>, d: nat, i: nat)
    requires op.Op? && !op.mov && SetupOk(p) && AllocInv(p, a, live) && d in live && i !in a.regs && d != i
    requires !IsFloat(p, d) && !IsFloat(p, i)
    ensures var n := Insn(op, false, [Def(Int(d)), Use(Int(d)), Use(Int(i))]);
            && AllocateInsn(n, a).Some? && {d, i} <= AllocateInsn(n, a).value.alloc.regs.Keys
            && AllocateInsn(n, a).value.alloc.regs[d] == a.regs[d]
            && (AllocateInsn(n, a).value.alloc.regs[i] == a.regs[d] <==> forall q :: q in a.ints ==> a.regs[d] < q)
  {
    var x, y, z := Def(Int(d)), Use(Int(d)), Use(Int(i));
    var b := Freed(a, x);
    var r := FindFirst(b.ints, 0);
    assert a.regs[d] in Mask(p, IsFloat(p, d)) && a.regs[d] !in Free(a, IsFloat(p, d));
    FindFirstOk(b.ints, 0);
    FindFirstLowest(b.ints, 0);
    var b' := Alloc(b.regs[i := r], b.ints - {r}, b.floats);
    UseTwo(y, z, b, b, b');
    DefUses(op, false, x, [y, z], a, [Placed(y, b), Placed(z, b')], b');
    assert [x] + [y, z] == [x, y, z];
    assert [Placed(x, a)] + [Placed(y, b), Placed(z, b')] == [Placed(x, a), Placed(y, b), Placed(z, b')];
  }

  lemma {:induction false} FindFirstLowest(s: set<nat>, i: nat)
    requires i <= 32 && (forall r :: r in s ==> i <= r < 32) && s != {}
    ensures forall r :: r in s ==> FindFirst(s, i) <= r
    decreases 32 - i
  {
    if i < 32 && i !in s { FindFirstLowest(s, i + 1); }
  }

  lemma UseTwo(x: Operand, y: Operand, a: Alloc, a': Alloc, a'': Alloc)
    requires ReadsSomeVirt(x) && ForUse(x, a) == Some(a') && x.loc.index in a'.regs
    requires ReadsSomeVirt(y) && ForUse(y, a') == Some(a'') && y.loc.index in a''.regs
    ensures var r := UsePass([x, y], a, NoEntries(2));
            r.Some? && r.value.operands == [Placed(x, a'), Placed(y, a'')] && r.value.alloc == a''
  {
    UseOne(y, a', a'');
    UseFirst(x, [y], a, a', [Placed(y, a'')], a'');
    assert [x] + [y] == [x, y] && [Placed(x, a')] + [Placed(y, a'')] == [Placed(x, a'), Placed(y, a'')];
  }
}
