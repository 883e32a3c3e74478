/** The arm64 translation of a bitcast to narrower elements: value and shift amount of its shift get one register, so
    that what is stored does not depend on what was cast. */
module Arm64Bitcast {
  import opened Wrappers
  import opened Arm64Code
  import opened Arm64RegAlloc
  import opened Arm64AllocMeaning
  import opened Arm64AllocLimits
  import opened Bits

  const MOV: Opcode := Op(0, true)
  const LDR: Opcode := Op(1, false)
  const LSL: Opcode := Op(2, false)
  const STR: Opcode := Op(3, false)

  function Const(value: int): Operand {
    Operand(Imm(value), W64, true, false)
  }

  /** The guest state at an offset from the context pointer x29. */
  function Cell(offset: int): Operand {
    Operand(MemPhys(PhysReg(false, 29), offset), W64, true, false)
  }

  /** One element, from instruction i on: the value v is copied to s, the amount is put in k, s is shifted up by it and
      copied to d. */
  predicate Element(c: seq<Insn>, i: nat, v: nat, s: nat, k: nat, d: nat, amount: int) {
    && i + 4 <= |c|
    && c[i] == Insn(MOV, false, [Def(Int(s)), Use(Int(v))])
    && c[i + 1] == Insn(MOV, false, [Def(Int(k)), Const(amount)])
    && c[i + 2] == Insn(LSL, false, [Def(Int(s)), Use(Int(s)), Use(Int(k))])
    && c[i + 3] == Insn(MOV, false, [Def(Int(d)), Use(Int(s))])
  }

  predicate ElementAllocated(c: seq<Insn>, i: nat, r: nat, amount: int) {
    && i + 4 <= |c|
    && c[i] == c[i + 3] == Insn(Dead, false, [Def(X(r)), Use(X(r))])
    && c[i + 1] == Insn(MOV, false, [Def(X(r)), Const(amount)])
    && c[i + 2] == Insn(LSL, false, [Def(X(r)), Use(X(r)), Use(X(r))])
  }

  // ---------------------------------------------------------------------------------------------
  // Allocation of one element
  // ---------------------------------------------------------------------------------------------

  lemma {:induction false} FindFirstIs(s: set<nat>, i: nat, r: nat)
    requires i <= r < 32 && r in s && forall q :: q in s ==> r <= q
    ensures FindFirst(s, i) == r
    decreases r - i
  {
    if i < r { FindFirstIs(s, i + 1, r); }
  }

  /** Register v gets r, the lowest free one. */
  lemma ObtainIs(v: nat, a: Alloc, r: nat)
    requires r in a.ints && r < 32 && forall q :: q in a.ints ==> r <= q
    ensures Obtain(v, false, a) == Some(Alloc(a.regs[v := r], a.ints - {r}, a.floats))
  {
    FindFirstIs(a.ints, 0, r);
  }

  /** An operand that names no virtual register. */
  predicate Fixed(o: Operand) {
    !o.def && (o.loc.Imm? || o.loc.MemPhys?)
  }

  lemma DefFixed(op: Opcode, x: Operand, c: Operand, a: Alloc)
    requires op.Op? && PureDef(x) && x.loc.index in a.regs && Fixed(c)
    ensures AllocateInsn(Insn(op, false, [x, c]), a)
         == Some(Step(Insn(op, false, [Placed(x, a), c]), Freed(a, x)))
  {
    assert UsePass([], Freed(a, x), NoEntries(0)) == Some(UseResult([], Freed(a, x), []));
    assert [c][1..] == [] && NoEntries(1)[1..] == NoEntries(0) && [c] + [] == [c];
    DefUses(op, false, x, [c], a, [c], Freed(a, x));
    assert [x] + [c] == [x, c] && [Placed(x, a)] + [c] == [Placed(x, a), c];
  }

  /** A store of a register that is not read later. */
  lemma UseFixed(x: Operand, c: Operand, a: Alloc, a': Alloc)
    requires ReadsSomeVirt(x) && !x.def && Fixed(c) && ForUse(x, a) == Some(a') && x.loc.index in a'.regs
    ensures AllocateInsn(Insn(STR, false, [x, c]), a) == Some(Step(Insn(STR, false, [Placed(x, a'), c]), a'))
  {
    var ops := [x, c];
    DefPassNone(ops, false, a, 0, (0, 0));
    assert UsePass([], a', NoEntries(0)) == Some(UseResult([], a', []));
    assert [c][1..] == [] && NoEntries(1)[1..] == NoEntries(0) && [c] + [] == [c];
    UseFirst(x, [c], a, a', [c], a');
    assert [x] + [c] == ops && [Placed(x, a')] + [c] == [Placed(x, a'), c];
    assert Entries(ops, (0, 0)) == NoEntries(2);
  }

  /** A move from a register that gets the destination's own. */
  lemma MoveMerges(x: nat, y: nat, r: nat, a: Alloc)
    requires x != y && x in a.regs && a.regs[x] == r && y !in a.regs && r < 32 && forall q :: q in a.ints ==> r <= q
    ensures AllocateInsn(Insn(MOV, false, [Def(Int(x)), Use(Int(y))]), a)
         == Some(Step(Insn(Dead, false, [Def(X(r)), Use(X(r))]),
                      Alloc(a.regs[y := r], a.ints + {r} - {r}, a.floats)))
  {
    var d, u := Def(Int(x)), Use(Int(y));
    var b := Freed(a, d);
    ObtainIs(y, b, r);
    var a' := Alloc(a.regs[y := r], a.ints + {r} - {r}, a.floats);
    UseOne(u, b, a');
    DefUses(MOV, false, d, [u], a, [Placed(u, a')], a');
    assert [d] + [u] == [d, u] && [Placed(d, a)] + [Placed(u, a')] == [Def(X(r)), Use(X(r))];
  }

  /** A shift whose amount gets the register of its value. */
  lemma ShiftMerges(s: nat, k: nat, r: nat, a: Alloc)
    requires s != k && s in a.regs && a.regs[s] == r && k !in a.regs && r < 32 && forall q :: q in a.ints ==> r <= q
    ensures AllocateInsn(Insn(LSL, false, [Def(Int(s)), Use(Int(s)), Use(Int(k))]), a)
         == Some(Step(Insn(LSL, false, [Def(X(r)), Use(X(r)), Use(X(r))]),
                      Alloc(a.regs[k := r], a.ints + {r} - {r}, a.floats)))
  {
    var d, u, w := Def(Int(s)), Use(Int(s)), Use(Int(k));
    var b := Freed(a, d);
    ObtainIs(k, b, r);
    var a' := Alloc(a.regs[k := r], a.ints + {r} - {r}, a.floats);
    UseTwo(u, w, b, b, a');
    DefUses(LSL, false, d, [u, w], a, [Use(X(r)), Use(X(r))], a');
    assert [d] + [u, w] == [d, u, w];
    assert [Placed(d, a)] + [Use(X(r)), Use(X(r))] == [Def(X(r)), Use(X(r)), Use(X(r))];
  }

  /** Wherever the four instructions stand, if no free register is lower than that of the result: everything gets that
      register, and both copies are left out. */
  lemma ElementMerges(c: seq<Insn>, d: seq<Insn>, i: nat, ints: set<nat>, floats: set<nat>, a: Alloc,
                      v: nat, s: nat, k: nat, e: nat, amount: int, r: nat)
    requires Element(c, i, v, s, k, e, amount) && ElementAllocated(d, i, r, amount)
    requires Becomes(c, d, i + 4, ints, floats, a)
    requires e in a.regs && a.regs[e] == r < 32 && forall q :: q in a.ints ==> r < q
    requires v !in a.regs && s !in a.regs && k !in a.regs && v != s && v != k && s != k
    ensures Becomes(c, d, i, ints, floats, Alloc(a.regs[s := r][k := r][v := r], a.ints, a.floats))
  {
    assert a.ints + {r} - {r} == a.ints;
    var a1 := Alloc(a.regs[s := r], a.ints, a.floats);
    MoveMerges(e, s, r, a);
    Extend(c, d, i + 3, ints, floats, a, a1);
    var a2 := Alloc(a1.regs[k := r], a.ints, a.floats);
    ShiftMerges(s, k, r, a1);
    Extend(c, d, i + 2, ints, floats, a1, a2);
    var a3 := Alloc(a2.regs, a.ints + {r}, a.floats);
    DefFixed(MOV, Def(Int(k)), Const(amount), a2);
    Extend(c, d, i + 1, ints, floats, a2, a3);
    MoveMerges(s, v, r, a3);
    assert a3.ints + {r} - {r} == a.ints;
    Extend(c, d, i, ints, floats, a3, Alloc(a3.regs[v := r], a.ints, a.floats));
  }

  // ---------------------------------------------------------------------------------------------
  // The bitcast of a 128-bit guest register to two 64-bit elements
  // ---------------------------------------------------------------------------------------------

  /** The two halves are read, cast and written back, and the return code is moved to x0. */
  function BitcastBlock(): seq<Insn> {
    [Insn(LDR, false, [Def(Int(33)), Cell(176)]), Insn(LDR, false, [Def(Int(34)), Cell(240)]),
     Insn(MOV, false, [Def(Int(37)), Use(Int(33))]), Insn(MOV, false, [Def(Int(38)), Const(0)]),
     Insn(LSL, false, [Def(Int(37)), Use(Int(37)), Use(Int(38))]), Insn(MOV, false, [Def(Int(35)), Use(Int(37))]),
     Insn(MOV, false, [Def(Int(39)), Use(Int(34))]), Insn(MOV, false, [Def(Int(40)), Const(64)]),
     Insn(LSL, false, [Def(Int(39)), Use(Int(39)), Use(Int(40))]), Insn(MOV, false, [Def(Int(36)), Use(Int(39))]),
     Insn(STR, false, [Use(Int(35)), Cell(176)]), Insn(STR, false, [Use(Int(36)), Cell(240)]),
     Insn(MOV, false, [Def(Int(41)), Const(0)]), Insn(MOV, false, [Def(X(0)), Use(Int(41))])]
  }

  function BitcastAllocated(): seq<Insn> {
    [Insn(LDR, false, [Def(X(1)), Cell(176)]), Insn(LDR, false, [Def(X(0)), Cell(240)]),
     Insn(Dead, false, [Def(X(1)), Use(X(1))]), Insn(MOV, false, [Def(X(1)), Const(0)]),
     Insn(LSL, false, [Def(X(1)), Use(X(1)), Use(X(1))]), Insn(Dead, false, [Def(X(1)), Use(X(1))]),
     Insn(Dead, false, [Def(X(0)), Use(X(0))]), Insn(MOV, false, [Def(X(0)), Const(64)]),
     Insn(LSL, false, [Def(X(0)), Use(X(0)), Use(X(0))]), Insn(Dead, false, [Def(X(0)), Use(X(0))]),
     Insn(STR, false, [Use(X(1)), Cell(176)]), Insn(STR, false, [Use(X(0)), Cell(240)]),
     Insn(MOV, false, [Def(X(0)), Const(0)]), Insn(Dead, false, [Def(X(0)), Use(X(0))])]
  }

  predicate IsBitcast(c: seq<Insn>) {
    && |c| == 14 && Element(c, 2, 33, 37, 38, 35, 0) && Element(c, 6, 34, 39, 40, 36, 64)
    && c[0] == Insn(LDR, false, [Def(Int(33)), Cell(176)]) && c[1] == Insn(LDR, false, [Def(Int(34)), Cell(240)])
    && c[10] == Insn(STR, false, [Use(Int(35)), Cell(176)]) && c[11] == Insn(STR, false, [Use(Int(36)), Cell(240)])
    && c[12] == Insn(MOV, false, [Def(Int(41)), Const(0)]) && c[13] == Insn(MOV, false, [Def(X(0)), Use(Int(41))])
  }

  predicate IsAllocated(c: seq<Insn>) {
    && |c| == 14 && ElementAllocated(c, 2, 1, 0) && ElementAllocated(c, 6, 0, 64)
    && c[0] == Insn(LDR, false, [Def(X(1)), Cell(176)]) && c[1] == Insn(LDR, false, [Def(X(0)), Cell(240)])
    && c[10] == Insn(STR, false, [Use(X(1)), Cell(176)]) && c[11] == Insn(STR, false, [Use(X(0)), Cell(240)])
    && c[12] == Insn(MOV, false, [Def(X(0)), Const(0)]) && c[13] == Insn(Dead, false, [Def(X(0)), Use(X(0))])
  }

  lemma BitcastLists()
    ensures IsBitcast(BitcastBlock()) && IsAllocated(BitcastAllocated())
  {
  }

  /** A move of a register that is not read later into an explicit one of the number it gets. */
  lemma ClosingMerges(v: nat, a: Alloc)
    requires v !in a.regs && 0 in a.ints
    ensures AllocateInsn(Insn(MOV, false, [Def(X(0)), Use(Int(v))]), a)
         == Some(Step(Insn(Dead, false, [Def(X(0)), Use(X(0))]), Alloc(a.regs[v := 0], a.ints - {0}, a.floats)))
  {
    var ops, a' := [Def(X(0)), Use(Int(v))], Alloc(a.regs[v := 0], a.ints - {0}, a.floats);
    DefPassNone(ops, false, a, 0, (0, 0));
    ObtainIs(v, a, 0);
    assert Entries(ops, (0, 0)) == NoEntries(2) && NoEntries(2)[1..] == NoEntries(1) && ops[1..] == [Use(Int(v))];
    UseOne(Use(Int(v)), a, a');
    assert [Def(X(0))] + [Use(X(0))] == [Def(X(0)), Use(X(0))];
  }

  /** The return code: x0 is handed out and given back. */
  lemma BitcastCloses(c: seq<Insn>, d: seq<Insn>, ints: set<nat>, floats: set<nat>)
    requires IsBitcast(c) && IsAllocated(d) && 0 in ints
    ensures Becomes(c, d, 12, ints, floats, Alloc(map[41 := 0], ints, floats))
  {
    var a0, a1 := Alloc(map[], ints, floats), Alloc(map[41 := 0], ints - {0}, floats);
    Start(c, d, ints, floats);
    ClosingMerges(41, a0);
    Extend(c, d, 13, ints, floats, a0, a1);
    DefFixed(MOV, Def(Int(41)), Const(0), a1);
    assert ints - {0} + {0} == ints;
    Extend(c, d, 12, ints, floats, a1, Alloc(map[41 := 0], ints, floats));
  }

  /** The stores: x0 and x1 are handed out. */
  lemma BitcastStores(c: seq<Insn>, d: seq<Insn>, ints: set<nat>, floats: set<nat>)
    requires IsBitcast(c) && IsAllocated(d) && 0 in ints && 1 in ints
    requires Becomes(c, d, 12, ints, floats, Alloc(map[41 := 0], ints, floats))
    ensures Becomes(c, d, 10, ints, floats, Alloc(map[41 := 0, 36 := 0, 35 := 1], ints - {0} - {1}, floats))
  {
    var a0, a1 := Alloc(map[41 := 0], ints, floats), Alloc(map[41 := 0, 36 := 0], ints - {0}, floats);
    var a2 := Alloc(map[41 := 0, 36 := 0, 35 := 1], ints - {0} - {1}, floats);
    ObtainIs(36, a0, 0);
    UseFixed(Use(Int(36)), Cell(240), a0, a1);
    Extend(c, d, 11, ints, floats, a0, a1);
    ObtainIs(35, a1, 1);
    UseFixed(Use(Int(35)), Cell(176), a1, a2);
    Extend(c, d, 10, ints, floats, a1, a2);
  }

  /** The elements: each takes one register. */
  lemma SecondMerges(c: seq<Insn>, d: seq<Insn>, ints: set<nat>, floats: set<nat>)
    requires IsBitcast(c) && IsAllocated(d)
    requires Becomes(c, d, 10, ints, floats, Alloc(map[41 := 0, 36 := 0, 35 := 1], ints - {0} - {1}, floats))
    ensures Becomes(c, d, 6, ints, floats,
                    Alloc(map[41 := 0, 36 := 0, 35 := 1, 39 := 0, 40 := 0, 34 := 0], ints - {0} - {1}, floats))
  {
    var a := Alloc(map[41 := 0, 36 := 0, 35 := 1], ints - {0} - {1}, floats);
    ElementMerges(c, d, 6, ints, floats, a, 34, 39, 40, 36, 64, 0);
    assert a.regs[39 := 0][40 := 0][34 := 0] == map[41 := 0, 36 := 0, 35 := 1, 39 := 0, 40 := 0, 34 := 0];
  }

  lemma FirstMerges(c: seq<Insn>, d: seq<Insn>, ints: set<nat>, floats: set<nat>, regs: map<nat, nat>)
    requires IsBitcast(c) && IsAllocated(d) && 35 in regs && regs[35] == 1
    requires 33 !in regs && 37 !in regs && 38 !in regs
    requires Becomes(c, d, 6, ints, floats, Alloc(regs, ints - {0} - {1}, floats))
    ensures Becomes(c, d, 2, ints, floats, Alloc(regs[37 := 1][38 := 1][33 := 1], ints - {0} - {1}, floats))
  {
    ElementMerges(c, d, 2, ints, floats, Alloc(regs, ints - {0} - {1}, floats), 33, 37, 38, 35, 0, 1);
  }

  /** The loads. */
  lemma BitcastLoads(c: seq<Insn>, d: seq<Insn>, ints: set<nat>, floats: set<nat>, a: Alloc)
    requires IsBitcast(c) && IsAllocated(d) && Becomes(c, d, 2, ints, floats, a)
    requires 33 in a.regs && a.regs[33] == 1 && 34 in a.regs && a.regs[34] == 0
    ensures Allocate(c, ints, floats).Some? && Allocate(c, ints, floats).value.code == d
  {
    DefFixed(LDR, Def(Int(34)), Cell(240), a);
    var b := Freed(a, Def(Int(34)));
    Extend(c, d, 1, ints, floats, a, b);
    DefFixed(LDR, Def(Int(33)), Cell(176), b);
    Extend(c, d, 0, ints, floats, b, Freed(b, Def(Int(33))));
    Whole(c, d, ints, floats, Freed(b, Def(Int(33))));
  }

  lemma BitcastAllocation(c: seq<Insn>, d: seq<Insn>, ints: set<nat>, floats: set<nat>)
    requires IsBitcast(c) && IsAllocated(d) && 0 in ints && 1 in ints
    ensures Allocate(c, ints, floats).Some? && Allocate(c, ints, floats).value.code == d
  {
    BitcastCloses(c, d, ints, floats);
    BitcastStores(c, d, ints, floats);
    SecondMerges(c, d, ints, floats);
    var regs: map<nat, nat> := map[41 := 0, 36 := 0, 35 := 1, 39 := 0, 40 := 0, 34 := 0];
    FirstMerges(c, d, ints, floats, regs);
    BitcastLoads(c, d, ints, floats, Alloc(regs[37 := 1][38 := 1][33 := 1], ints - {0} - {1}, floats));
  }

  // ---------------------------------------------------------------------------------------------
  // What the two lists do
  // ---------------------------------------------------------------------------------------------

  function Loaded(rest: Rest, address: int): int {
    if address in rest.memory then rest.memory[address] else 0
  }

  /** Loads, stores, moves and shifts; shl is the shift. */
  function Casting(shl: (int, int) -> int): Meaning {
    (op: Opcode, shapes: Shapes, inputs: seq<int>, rest: Rest) =>
      if |shapes| < 2 || |inputs| != |shapes| then Outcome((i: nat) => 0, rest)
      else if op == LDR && shapes[1].0.MemShape? then
        Outcome((i: nat) => Loaded(rest, inputs[1] + shapes[1].0.displacement), rest)
      else if op == STR && shapes[1].0.MemShape? then
        Outcome((i: nat) => 0, rest.(memory := rest.memory[inputs[1] + shapes[1].0.displacement := inputs[0]]))
      else if op == LSL && |inputs| == 3 then Outcome((i: nat) => shl(inputs[1], inputs[2]), rest)
      else if shapes[1].0.ImmShape? then Outcome((i: nat) => shapes[1].0.value, rest)
      else Outcome((i: nat) => inputs[1], rest)
  }

  /** One instruction whose first operand is the only one written. */
  lemma RunFirst(m: Meaning, op: Opcode, ops: seq<Operand>, h: Host)
    requires op.Op? && ops != [] && forall k :: 1 <= k < |ops| ==> !ops[k].def
    ensures var out := m(op, ShapesOf(ops), Inputs(ops, h), h.rest);
            Exec(m, Insn(op, false, ops), h) == Store(ops[0], out.results(0), h).(rest := out.rest)
  {
    var out := m(op, ShapesOf(ops), Inputs(ops, h), h.rest);
    NoMoreStores(ops, 1, out.results, Store(ops[0], out.results(0), h));
  }

  function Set(loc: Location, x: int, h: Host): Host {
    match loc
    case Virt(v, _) => SetVirt(h, v, x)
    case Phys(r) => SetPhys(h, r, x)
    case _ => h
  }

  lemma RunMove(shl: (int, int) -> int, x: Location, y: Location, h: Host)
    requires IsRegister(Def(x)) && IsRegister(Def(y))
    ensures Exec(Casting(shl), Insn(MOV, false, [Def(x), Use(y)]), h) == Set(x, ValueAt(y, h), h)
  {
    var ops := [Def(x), Use(y)];
    RunFirst(Casting(shl), MOV, ops, h);
    assert Inputs(ops, h)[1] == ValueAt(y, h) && ShapesOf(ops)[1] == ShapeOf(Use(y));
  }

  lemma RunConst(shl: (int, int) -> int, x: Location, k: int, h: Host)
    requires IsRegister(Def(x))
    ensures Exec(Casting(shl), Insn(MOV, false, [Def(x), Const(k)]), h) == Set(x, k, h)
  {
    var ops := [Def(x), Const(k)];
    RunFirst(Casting(shl), MOV, ops, h);
    assert ShapesOf(ops)[1] == ShapeOf(Const(k));
  }

  lemma RunShift(shl: (int, int) -> int, x: Location, y: Location, z: Location, h: Host)
    requires IsRegister(Def(x)) && IsRegister(Def(y)) && IsRegister(Def(z))
    ensures Exec(Casting(shl), Insn(LSL, false, [Def(x), Use(y), Use(z)]), h)
         == Set(x, shl(ValueAt(y, h), ValueAt(z, h)), h)
  {
    var ops := [Def(x), Use(y), Use(z)];
    RunFirst(Casting(shl), LSL, ops, h);
    assert Inputs(ops, h)[1] == ValueAt(y, h) && Inputs(ops, h)[2] == ValueAt(z, h);
  }

  function Context(h: Host): int {
    h.phys(PhysReg(false, 29))
  }

  lemma RunLoad(shl: (int, int) -> int, x: Location, offset: int, h: Host)
    requires IsRegister(Def(x))
    ensures Exec(Casting(shl), Insn(LDR, false, [Def(x), Cell(offset)]), h)
         == Set(x, Loaded(h.rest, Context(h) + offset), h)
  {
    var ops := [Def(x), Cell(offset)];
    RunFirst(Casting(shl), LDR, ops, h);
    assert Inputs(ops, h)[1] == Context(h) && ShapesOf(ops)[1] == ShapeOf(Cell(offset));
  }

  lemma RunStore(shl: (int, int) -> int, x: Location, offset: int, h: Host)
    requires IsRegister(Def(x))
    ensures Exec(Casting(shl), Insn(STR, false, [Use(x), Cell(offset)]), h)
         == h.(rest := h.rest.(memory := h.rest.memory[Context(h) + offset := ValueAt(x, h)]))
  {
    var ops := [Use(x), Cell(offset)];
    RunFirst(Casting(shl), STR, ops, h);
    assert Inputs(ops, h)[0] == ValueAt(x, h) && Inputs(ops, h)[1] == Context(h);
    assert ShapesOf(ops)[1] == ShapeOf(Cell(offset));
  }

  /** Four instructions, one after the other. */
  lemma RunFour(m: Meaning, c: seq<Insn>, i: nat, h: Host, h1: Host, h2: Host, h3: Host, h4: Host)
    requires i + 4 <= |c|
    requires Exec(m, c[i], h) == h1 && Exec(m, c[i + 1], h1) == h2
    requires Exec(m, c[i + 2], h2) == h3 && Exec(m, c[i + 3], h3) == h4
    ensures ExecAll(m, c[i..], h) == ExecAll(m, c[i + 4..], h4)
  {
    RunOne(m, c, i, h);
    RunOne(m, c, i + 1, h1);
    RunOne(m, c, i + 2, h2);
    RunOne(m, c, i + 3, h3);
  }

  /** What the element does on virtual registers. */
  function Shifted(shl: (int, int) -> int, v: nat, s: nat, k: nat, d: nat, amount: int, h: Host): Host {
    var h2 := Set(Int(k), amount, Set(Int(s), ValueAt(Int(v), h), h));
    var h3 := Set(Int(s), shl(ValueAt(Int(s), h2), ValueAt(Int(k), h2)), h2);
    Set(Int(d), ValueAt(Int(s), h3), h3)
  }

  lemma ElementShifts(shl: (int, int) -> int, c: seq<Insn>, i: nat, v: nat, s: nat, k: nat, d: nat, amount: int,
                      h: Host)
    requires Element(c, i, v, s, k, d, amount)
    ensures ExecAll(Casting(shl), c[i..], h) == ExecAll(Casting(shl), c[i + 4..], Shifted(shl, v, s, k, d, amount, h))
  {
    RunMove(shl, Int(s), Int(v), h);
    var h1 := Set(Int(s), ValueAt(Int(v), h), h);
    RunConst(shl, Int(k), amount, h1);
    var h2 := Set(Int(k), amount, h1);
    RunShift(shl, Int(s), Int(s), Int(k), h2);
    var h3 := Set(Int(s), shl(ValueAt(Int(s), h2), ValueAt(Int(k), h2)), h2);
    RunMove(shl, Int(d), Int(s), h3);
    RunFour(Casting(shl), c, i, h, h1, h2, h3, Set(Int(d), ValueAt(Int(s), h3), h3));
  }

  /** The value, shifted. */
  lemma ShiftedValue(shl: (int, int) -> int, v: nat, s: nat, k: nat, d: nat, amount: int, h: Host)
    requires s != k
    ensures var h' := Shifted(shl, v, s, k, d, amount, h);
            && h'.virt(d) == shl(h.virt(v), amount) && h'.rest == h.rest && h'.phys == h.phys
            && forall u: nat :: u != s && u != k && u != d ==> h'.virt(u) == h.virt(u)
  {
  }

  /** What it does as it is allocated. */
  function Forgotten(shl: (int, int) -> int, r: nat, amount: int, h: Host): Host {
    var h1 := Set(X(r), amount, h);
    Set(X(r), shl(ValueAt(X(r), h1), ValueAt(X(r), h1)), h1)
  }

  lemma ElementForgets(shl: (int, int) -> int, c: seq<Insn>, i: nat, r: nat, amount: int, h: Host)
    requires ElementAllocated(c, i, r, amount)
    ensures ExecAll(Casting(shl), c[i..], h) == ExecAll(Casting(shl), c[i + 4..], Forgotten(shl, r, amount, h))
  {
    var h1 := Set(X(r), amount, h);
    RunConst(shl, X(r), amount, h);
    RunShift(shl, X(r), X(r), X(r), h1);
    RunFour(Casting(shl), c, i, h, h, h1, Forgotten(shl, r, amount, h), Forgotten(shl, r, amount, h));
  }

  /** Nothing of the value, whatever it was. */
  lemma ForgottenValue(shl: (int, int) -> int, r: nat, amount: int, h: Host)
    ensures var h' := Forgotten(shl, r, amount, h);
            && h'.phys(PhysReg(false, r)) == shl(amount, amount) && h'.rest == h.rest
            && forall q :: q != PhysReg(false, r) ==> h'.phys(q) == h.phys(q)
  {
  }

  function AfterLoads(x: Location, y: Location, h: Host): Host {
    Set(y, Loaded(h.rest, Context(h) + 240), Set(x, Loaded(h.rest, Context(h) + 176), h))
  }

  /** The loads at the beginning. */
  lemma LoadsRun(shl: (int, int) -> int, c: seq<Insn>, x: Location, y: Location, h: Host)
    requires |c| == 14 && IsRegister(Def(x)) && IsRegister(Def(y)) && x != X(29)
    requires c[0] == Insn(LDR, false, [Def(x), Cell(176)]) && c[1] == Insn(LDR, false, [Def(y), Cell(240)])
    ensures ExecAll(Casting(shl), c, h) == ExecAll(Casting(shl), c[2..], AfterLoads(x, y, h))
  {
    var m := Casting(shl);
    assert c[0..] == c;
    RunOne(m, c, 0, h);
    RunLoad(shl, x, 176, h);
    var h1 := Set(x, Loaded(h.rest, Context(h) + 176), h);
    RunOne(m, c, 1, h1);
    RunLoad(shl, y, 240, h1);
    assert Context(h1) == Context(h) && h1.rest == h.rest;
  }

  /** The stores. */
  lemma StoresRun(shl: (int, int) -> int, c: seq<Insn>, x: Location, y: Location, h: Host)
    requires |c| == 14 && IsRegister(Def(x)) && IsRegister(Def(y))
    requires c[10] == Insn(STR, false, [Use(x), Cell(176)]) && c[11] == Insn(STR, false, [Use(y), Cell(240)])
    ensures ExecAll(Casting(shl), c[10..], h) == ExecAll(Casting(shl), c[12..], AfterStores(x, y, h))
  {
    var m := Casting(shl);
    RunOne(m, c, 10, h);
    RunStore(shl, x, 176, h);
    var h1 := h.(rest := h.rest.(memory := h.rest.memory[Context(h) + 176 := ValueAt(x, h)]));
    RunOne(m, c, 11, h1);
    RunStore(shl, y, 240, h1);
    assert ValueAt(y, h1) == ValueAt(y, h) && Context(h1) == Context(h);
  }

  function AfterStores(x: Location, y: Location, h: Host): Host {
    var b := Context(h);
    h.(rest := h.rest.(memory := h.rest.memory[b + 176 := ValueAt(x, h)][b + 240 := ValueAt(y, h)]))
  }

  /** The return code, moved or already there. */
  lemma CloseRuns(shl: (int, int) -> int, c: seq<Insn>, x: Location, h: Host)
    requires |c| == 14 && IsRegister(Def(x)) && c[12] == Insn(MOV, false, [Def(x), Const(0)])
    requires c[13].opcode.Dead? || c[13] == Insn(MOV, false, [Def(X(0)), Use(x)])
    ensures ExecAll(Casting(shl), c[12..], h).rest == h.rest
  {
    var m := Casting(shl);
    RunOne(m, c, 12, h);
    RunConst(shl, x, 0, h);
    var h1 := Set(x, 0, h);
    RunOne(m, c, 13, h1);
    if !c[13].opcode.Dead? { RunMove(shl, X(0), x, h1); }
    RunNone(m, c, Exec(m, c[13], h1));
  }

  /** The state before the stores. */
  function BeforeStores(shl: (int, int) -> int, h: Host): Host {
    Shifted(shl, 34, 39, 40, 36, 64, Shifted(shl, 33, 37, 38, 35, 0, AfterLoads(Int(33), Int(34), h)))
  }

  lemma VirtualRun(shl: (int, int) -> int, c: seq<Insn>, h: Host)
    requires IsBitcast(c)
    ensures ExecAll(Casting(shl), c, h) == ExecAll(Casting(shl), c[10..], BeforeStores(shl, h))
  {
    LoadsRun(shl, c, Int(33), Int(34), h);
    var h1 := AfterLoads(Int(33), Int(34), h);
    ElementShifts(shl, c, 2, 33, 37, 38, 35, 0, h1);
    ElementShifts(shl, c, 6, 34, 39, 40, 36, 64, Shifted(shl, 33, 37, 38, 35, 0, h1));
  }

  lemma BeforeStoresIs(shl: (int, int) -> int, h: Host)
    ensures var h', b := BeforeStores(shl, h), Context(h);
            && h'.virt(35) == shl(Loaded(h.rest, b + 176), 0) && h'.virt(36) == shl(Loaded(h.rest, b + 240), 64)
            && h'.rest == h.rest && h'.phys == h.phys
  {
    var h1 := AfterLoads(Int(33), Int(34), h);
    ShiftedValue(shl, 33, 37, 38, 35, 0, h1);
    ShiftedValue(shl, 34, 39, 40, 36, 64, Shifted(shl, 33, 37, 38, 35, 0, h1));
  }

  lemma StoredVirtual(shl: (int, int) -> int, h: Host)
    ensures var b := Context(h);
            AfterStores(Int(35), Int(36), BeforeStores(shl, h)).rest.memory ==
            h.rest.memory[b + 176 := shl(Loaded(h.rest, b + 176), 0)][b + 240 := shl(Loaded(h.rest, b + 240), 64)]
  {
    BeforeStoresIs(shl, h);
  }

  lemma BitcastVirtual(shl: (int, int) -> int, c: seq<Insn>, h: Host)
    requires IsBitcast(c)
    ensures ExecAll(Casting(shl), c, h).rest == AfterStores(Int(35), Int(36), BeforeStores(shl, h)).rest
  {
    VirtualRun(shl, c, h);
    StoresRun(shl, c, Int(35), Int(36), BeforeStores(shl, h));
    CloseRuns(shl, c, Int(41), AfterStores(Int(35), Int(36), BeforeStores(shl, h)));
  }

  /** The same for the allocated list. */
  function ForgottenBoth(shl: (int, int) -> int, h: Host): Host {
    Forgotten(shl, 0, 64, Forgotten(shl, 1, 0, AfterLoads(X(1), X(0), h)))
  }

  lemma PhysicalRun(shl: (int, int) -> int, d: seq<Insn>, h: Host)
    requires IsAllocated(d)
    ensures ExecAll(Casting(shl), d, h) == ExecAll(Casting(shl), d[10..], ForgottenBoth(shl, h))
  {
    LoadsRun(shl, d, X(1), X(0), h);
    var h1 := AfterLoads(X(1), X(0), h);
    ElementForgets(shl, d, 2, 1, 0, h1);
    ElementForgets(shl, d, 6, 0, 64, Forgotten(shl, 1, 0, h1));
  }

  lemma ForgottenBothIs(shl: (int, int) -> int, h: Host)
    ensures var h' := ForgottenBoth(shl, h);
            && h'.phys(PhysReg(false, 1)) == shl(0, 0) && h'.phys(PhysReg(false, 0)) == shl(64, 64)
            && h'.rest == h.rest && Context(h') == Context(h)
  {
    var h1 := AfterLoads(X(1), X(0), h);
    ForgottenValue(shl, 1, 0, h1);
    ForgottenValue(shl, 0, 64, Forgotten(shl, 1, 0, h1));
  }

  lemma StoredPhysical(shl: (int, int) -> int, h: Host)
    ensures var b := Context(h);
            AfterStores(X(1), X(0), ForgottenBoth(shl, h)).rest.memory ==
            h.rest.memory[b + 176 := shl(0, 0)][b + 240 := shl(64, 64)]
  {
    ForgottenBothIs(shl, h);
  }

  lemma BitcastPhysical(shl: (int, int) -> int, d: seq<Insn>, h: Host)
    requires IsAllocated(d)
    ensures ExecAll(Casting(shl), d, h).rest == AfterStores(X(1), X(0), ForgottenBoth(shl, h)).rest
  {
    PhysicalRun(shl, d, h);
    StoresRun(shl, d, X(1), X(0), ForgottenBoth(shl, h));
    CloseRuns(shl, d, X(0), AfterStores(X(1), X(0), ForgottenBoth(shl, h)));
  }

  /** The shift of a 64-bit register, by its amount modulo 64. */
  function Shl(x: int, y: int): int {
    x * Pow2(y % 64) % 0x1_0000_0000_0000_0000
  }

  lemma ShlByMultiple(x: int, y: int)
    requires y % 64 == 0 && 0 <= x < 0x1_0000_0000_0000_0000
    ensures Shl(x, y) == x
  {
    assert Pow2(0) == 1;
  }

  /** What the two lists leave in memory, whatever the halves of the register are. */
  lemma MemoryIs(h: Host)
    requires var b := Context(h);
             && b + 176 in h.rest.memory && 0 <= h.rest.memory[b + 176] < 0x1_0000_0000_0000_0000
             && b + 240 in h.rest.memory && 0 <= h.rest.memory[b + 240] < 0x1_0000_0000_0000_0000
    ensures AfterStores(Int(35), Int(36), BeforeStores(Shl, h)).rest.memory == h.rest.memory
    ensures AfterStores(X(1), X(0), ForgottenBoth(Shl, h)).rest.memory
         == h.rest.memory[Context(h) + 176 := 0][Context(h) + 240 := 64]
  {
    StoredVirtual(Shl, h);
    StoredPhysical(Shl, h);
    ShlByMultiple(h.rest.memory[Context(h) + 176], 0);
    ShlByMultiple(h.rest.memory[Context(h) + 240], 64);
    ShlByMultiple(0, 0);
    ShlByMultiple(64, 64);
  }

  /** Casting a 128-bit register to two 64-bit elements leaves it as it is. The allocated code writes 0 and 64 instead,
      whatever it held. */
  lemma BitcastIsMiscompiled(ints: set<nat>, floats: set<nat>, h: Host)
    requires 0 in ints && 1 in ints
    requires var b := Context(h);
             && b + 176 in h.rest.memory && 0 <= h.rest.memory[b + 176] < 0x1_0000_0000_0000_0000
             && b + 240 in h.rest.memory && 0 <= h.rest.memory[b + 240] < 0x1_0000_0000_0000_0000
    ensures Allocate(BitcastBlock(), ints, floats).Some?
    ensures var m, d := Casting(Shl), Allocate(BitcastBlock(), ints, floats).value.code;
            && ExecAll(m, BitcastBlock(), h).rest.memory == h.rest.memory
            && ExecAll(m, d, h).rest.memory == h.rest.memory[Context(h) + 176 := 0][Context(h) + 240 := 64]
  {
    BitcastLists();
    BitcastAllocation(BitcastBlock(), BitcastAllocated(), ints, floats);
    BitcastVirtual(Shl, BitcastBlock(), h);
    BitcastPhysical(Shl, BitcastAllocated(), h);
    MemoryIs(h);
  }
}
