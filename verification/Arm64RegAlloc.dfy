/** The arm64 backend's reverse linear-scan register allocator as a function on lists: two banks of registers, and
    instructions that survive even when the register they define is not used. Arm64Builder is the same in place. */
module Arm64RegAlloc {
  import opened Wrappers
  import opened Arm64Code

  /** vreg_to_preg and the free registers of each bank. */
  datatype Alloc = Alloc(regs: map<nat, nat>, ints: set<nat>, floats: set<nat>)

  function Free(a: Alloc, float: bool): set<nat> {
    if float then a.floats else a.ints
  }

  function WithFree(a: Alloc, float: bool, free: set<nat>): Alloc {
    if float then a.(floats := free) else a.(ints := free)
  }

  /** _Find_first on 32 bits, from bit i on: 32 when there is none. */
  function FindFirst(s: set<nat>, i: nat): (r: nat)
    ensures r <= 32 || r == i
    decreases 32 - i
  {
    if i >= 32 then 32 else if i in s then i else FindFirst(s, i + 1)
  }

  lemma {:induction false} FindFirstOk(s: set<nat>, i: nat)
    requires i <= 32 && forall r :: r in s ==> i <= r < 32
    ensures FindFirst(s, i) == 32 <==> s == {}
    ensures FindFirst(s, i) != 32 ==> FindFirst(s, i) in s
    decreases 32 - i
  {
    if i < 32 && i !in s { FindFirstOk(s, i + 1); }
  }

  function Flip(s: set<nat>, r: nat): set<nat> {
    if r in s then s - {r} else s + {r}
  }

  /** What the allocation lambda does: the first free register of the bank, recorded in the map. None when there is
      none (flipping bit 32 throws). */
  function Obtain(v: nat, float: bool, a: Alloc): Option<Alloc> {
    var r := FindFirst(Free(a, float), 0);
    if r >= 32 then None
    else Some(WithFree(a, float, Free(a, float) - {r}).(regs := a.regs[v := r]))
  }

  function Place(loc: Location, reg: nat): Location {
    match loc
    case Virt(_, f) => Phys(PhysReg(f, reg))
    case MemVirt(_, f, d) => MemPhys(PhysReg(f, reg), d)
    case _ => loc
  }

  /** An operand's entry in the table of this instruction's allocations; (0, 0) when it made none. */
  type Entry = (nat, nat)

  /** The pass over definitions. A definition gives its register back; one that was never allocated gets a register
      after all in an instruction that must be kept, and kills any other. */
  datatype DefResult = DefResult(operands: seq<Operand>, alloc: Alloc, killed: bool, unusedKeep: bool,
                                 entries: seq<Entry>)

  function Prepend(o: Operand, e: Entry, r: DefResult, unused: bool): DefResult {
    r.(operands := [o] + r.operands, entries := [e] + r.entries, unusedKeep := r.unusedKeep || unused)
  }

  function DefPass(ops: seq<Operand>, keep: bool, a: Alloc): Option<DefResult> {
    if ops == [] then Some(DefResult([], a, false, false, []))
    else if PureDef(ops[0]) then
      var v, f := ops[0].loc.index, ops[0].loc.float;
      if v in a.regs then
        match DefPass(ops[1..], keep, WithFree(a, f, Free(a, f) + {a.regs[v]}))
        case None => None
        case Some(r) => Some(Prepend(ops[0].(loc := Place(ops[0].loc, a.regs[v])), (0, 0), r, false))
      else if keep then
        match Obtain(v, f, a)
        case None => None
        case Some(a') =>
          match DefPass(ops[1..], keep, a')
          case None => None
          case Some(r) => Some(Prepend(ops[0].(loc := Place(ops[0].loc, a'.regs[v])), (v, a'.regs[v]), r, true))
      else Some(DefResult(ops, a, true, false, seq(|ops|, _ => (0, 0))))
    else
      match DefPass(ops[1..], keep, a)
      case None => None
      case Some(r) => Some(Prepend(ops[0], (0, 0), r, false))
  }

  /** The pass over uses; entries are filled in for the operands it allocates. */
  datatype UseResult = UseResult(operands: seq<Operand>, alloc: Alloc, entries: seq<Entry>)

  function UsePass(ops: seq<Operand>, a: Alloc, entries: seq<Entry>): Option<UseResult>
    requires |entries| == |ops|
    decreases |ops|
  {
    if ops == [] then Some(UseResult([], a, []))
    else if ReadsSomeVirt(ops[0]) then
      var v, f := ops[0].loc.index, ops[0].loc.float;
      match if v in a.regs then Some(a) else Obtain(v, f, a)
      case None => None
      case Some(a') =>
        match UsePass(ops[1..], a', entries[1..])
        case None => None
        case Some(r) =>
          var reg := if v in a'.regs then a'.regs[v] else 0;
          Some(UseResult([ops[0].(loc := Place(ops[0].loc, reg))] + r.operands, r.alloc,
                         [if v in a.regs then entries[0] else (v, reg)] + r.entries))
    else
      match UsePass(ops[1..], a, entries[1..])
      case None => None
      case Some(r) => Some(UseResult([ops[0]] + r.operands, r.alloc, [entries[0]] + r.entries))
  }

  /** After an unused kept definition every defining operand's entry is forgotten, and its register flipped - in the
      integer bank, whatever bank it came from. */
  function Cleanup(ops: seq<Operand>, entries: seq<Entry>, a: Alloc): Alloc
    requires |entries| == |ops|
    decreases |ops|
  {
    if ops == [] then a
    else Cleanup(ops[1..], entries[1..],
                 if ops[0].def then a.(regs := a.regs - {entries[0].0}, ints := Flip(a.ints, entries[0].1)) else a)
  }

  /** A move whose first two operands are registers of the same number, in whatever bank. */
  predicate SelfMove(n: Insn) {
    n.opcode.Op? && n.opcode.mov && |n.operands| >= 2 && n.operands[0].loc.Phys? && n.operands[1].loc.Phys?
    && n.operands[0].loc.reg.number == n.operands[1].loc.reg.number
  }

  datatype Step = Step(insn: Insn, alloc: Alloc)

  lemma {:induction false} DefPassLengths(ops: seq<Operand>, keep: bool, a: Alloc)
    requires DefPass(ops, keep, a).Some?
    ensures |DefPass(ops, keep, a).value.operands| == |ops| == |DefPass(ops, keep, a).value.entries|
    decreases |ops|
  {
    if ops != [] {
      if PureDef(ops[0]) {
        var v, f := ops[0].loc.index, ops[0].loc.float;
        if v in a.regs { DefPassLengths(ops[1..], keep, WithFree(a, f, Free(a, f) + {a.regs[v]})); }
        else if keep { DefPassLengths(ops[1..], keep, Obtain(v, f, a).value); }
      } else {
        DefPassLengths(ops[1..], keep, a);
      }
    }
  }

  lemma {:induction false} UsePassLengths(ops: seq<Operand>, a: Alloc, entries: seq<Entry>)
    requires |entries| == |ops| && UsePass(ops, a, entries).Some?
    ensures |UsePass(ops, a, entries).value.operands| == |ops| == |UsePass(ops, a, entries).value.entries|
    decreases |ops|
  {
    if ops != [] {
      var v := if ReadsSomeVirt(ops[0]) then ops[0].loc.index else 0;
      var a' := if !ReadsSomeVirt(ops[0]) || v in a.regs then a else Obtain(v, ops[0].loc.float, a).value;
      UsePassLengths(ops[1..], a', entries[1..]);
    }
  }

  /** One instruction: what becomes of it and the allocation state before it; None when registers run out. */
  function AllocateInsn(n: Insn, a: Alloc): Option<Step> {
    match DefPass(n.operands, n.keep, a)
    case None => None
    case Some(d) =>
      DefPassLengths(n.operands, n.keep, a);
      if d.killed then Some(Step(n.(opcode := Dead, operands := d.operands), d.alloc))
      else
        match UsePass(d.operands, d.alloc, d.entries)
        case None => None
        case Some(u) =>
          UsePassLengths(d.operands, d.alloc, d.entries);
          var n' := n.(operands := u.operands);
          Some(Step(if SelfMove(n') then n'.(opcode := Dead) else n',
                    if d.unusedKeep then Cleanup(u.operands, u.entries, u.alloc) else u.alloc))
  }

  datatype Result = Result(code: seq<Insn>, alloc: Alloc)

  /** The whole list, last instruction first; the masks are the registers the backend may hand out. */
  function Allocate(code: seq<Insn>, ints: set<nat>, floats: set<nat>): (r: Option<Result>)
    ensures r.Some? ==> |r.value.code| == |code|
  {
    if code == [] then Some(Result([], Alloc(map[], ints, floats)))
    else match Allocate(code[1..], ints, floats)
      case None => None
      case Some(rest) =>
        match AllocateInsn(code[0], rest.alloc)
        case None => None
        case Some(s) => Some(Result([s.insn] + rest.code, s.alloc))
  }

  // ---------------------------------------------------------------------------------------------
  // What the allocator asks of its input
  // ---------------------------------------------------------------------------------------------

  /** The registers that may be handed out, and the virtual registers of floating-point type. */
  datatype Setup = Setup(ints: set<nat>, floats: set<nat>, floatVregs: set<nat>)

  predicate SetupOk(p: Setup) {
    (forall r :: r in p.ints ==> r < 32) && (forall r :: r in p.floats ==> r < 32)
  }

  function Mask(p: Setup, float: bool): set<nat> {
    if float then p.floats else p.ints
  }

  function IsFloat(p: Setup, v: nat): bool {
    v in p.floatVregs
  }

  /** At most one virtual register is purely defined. */
  predicate OneDef(ops: seq<Operand>) {
    forall i, j :: 0 <= i < j < |ops| ==> !(PureDef(ops[i]) && PureDef(ops[j]))
  }

  /** At most one operand is written at all. */
  predicate SoleDef(ops: seq<Operand>) {
    forall i, j :: 0 <= i < j < |ops| ==> !(ops[i].def && ops[j].def)
  }

  /** No operand is empty; each virtual register has one type and is read or written where it is named; only registers
      are defined. Explicit registers may be any. */
  predicate OperandOk(p: Setup, o: Operand) {
    && !o.loc.Invalid?
    && (o.loc.Virt? ==> (o.use || o.def) && o.loc.float == IsFloat(p, o.loc.index))
    && (o.loc.MemVirt? ==> o.loc.float == IsFloat(p, o.loc.index))
    && (o.def ==> o.loc.Virt? || o.loc.Phys?)
  }

  predicate IsRegister(o: Operand) {
    o.loc.Virt? || o.loc.Phys?
  }

  function BankOf(o: Operand): bool
    requires IsRegister(o)
  {
    if o.loc.Virt? then o.loc.float else o.loc.reg.float
  }

  predicate IsMove(ops: seq<Operand>) {
    |ops| >= 2 && IsRegister(ops[0]) && IsRegister(ops[1])
  }

  /** A move between two registers writes only the first and reads only the second. */
  predicate MoveShape(ops: seq<Operand>) {
    IsMove(ops) ==>
      && ops[0].def && !ops[0].use && ops[1].use
      && forall i :: 1 <= i < |ops| ==> !ops[i].def
  }

  /** What is asked of a single instruction. */
  predicate Typed(p: Setup, n: Insn) {
    && n.opcode.Op? && OneDef(n.operands)
    && (forall i :: 0 <= i < |n.operands| ==> OperandOk(p, n.operands[i]))
    && (n.opcode.mov ==> MoveShape(n.operands))
  }

  /** What the allocator needs besides: nothing defined is also read by the same instruction, and nothing else is
      written by it; registers are moved within a bank; what is kept defines at most an integer register. */
  predicate InsnOk(p: Setup, n: Insn) {
    && Typed(p, n) && DefSet(n.operands) !! ReadSet(n.operands)
    && (n.opcode.mov && IsMove(n.operands) ==> BankOf(n.operands[0]) == BankOf(n.operands[1]))
    && (n.keep ==> DefSet(n.operands) !! p.floatVregs)
    && (DefOf(n.operands).Some? ==> SoleDef(n.operands))
  }

  /** Every virtual register is purely defined at most once, before every other mention of it. */
  predicate DefinesFirst(code: seq<Insn>) {
    forall i, j :: 0 <= i < j < |code| ==> forall v :: v in DefSet(code[j].operands) ==> !Mentions(code[i], v)
  }

  predicate CodeOk(p: Setup, code: seq<Insn>) {
    SetupOk(p) && (forall i :: 0 <= i < |code| ==> InsnOk(p, code[i])) && DefinesFirst(code)
  }

  lemma CodeTail(p: Setup, code: seq<Insn>)
    requires code != [] && CodeOk(p, code)
    ensures CodeOk(p, code[1..]) && InsnOk(p, code[0])
  {
    assert forall i :: 0 <= i < |code| - 1 ==> code[1..][i] == code[i + 1];
  }

  // ---------------------------------------------------------------------------------------------
  // Liveness
  // ---------------------------------------------------------------------------------------------

  /** Defines a register nobody needs, and need not be kept. */
  predicate Useless(n: Insn, after: set<nat>) {
    !n.keep && !(DefSet(n.operands) <= after)
  }

  predicate UnusedKeep(n: Insn, after: set<nat>) {
    n.keep && !(DefSet(n.operands) <= after)
  }

  function LiveBefore(n: Insn, after: set<nat>): set<nat> {
    if Useless(n, after) then after else (after - DefSet(n.operands)) + ReadSet(n.operands)
  }

  function Live(code: seq<Insn>): set<nat> {
    if code == [] then {} else LiveBefore(code[0], Live(code[1..]))
  }

  // ---------------------------------------------------------------------------------------------
  // The three passes in closed form
  // ---------------------------------------------------------------------------------------------

  function PlaceDef(o: Operand, reg: nat): Operand {
    if PureDef(o) then o.(loc := Place(o.loc, reg)) else o
  }

  function PlaceDefs(ops: seq<Operand>, reg: nat): (r: seq<Operand>)
    ensures |r| == |ops|
    ensures forall i :: 0 <= i < |ops| ==> r[i] == PlaceDef(ops[i], reg)
  {
    if ops == [] then [] else [PlaceDef(ops[0], reg)] + PlaceDefs(ops[1..], reg)
  }

  function Entries(ops: seq<Operand>, e: Entry): (r: seq<Entry>)
    ensures |r| == |ops|
    ensures forall i :: 0 <= i < |ops| ==> r[i] == if PureDef(ops[i]) then e else (0, 0)
  {
    if ops == [] then [] else [if PureDef(ops[0]) then e else (0, 0)] + Entries(ops[1..], e)
  }

  /** The bank of the purely defined register. */
  function DefBank(ops: seq<Operand>): bool {
    if ops == [] then false else if PureDef(ops[0]) then ops[0].loc.float else DefBank(ops[1..])
  }

  lemma OneDefTail(ops: seq<Operand>)
    requires ops != [] && OneDef(ops)
    ensures OneDef(ops[1..]) && (PureDef(ops[0]) ==> NoPure(ops[1..]))
  {
    assert forall i :: 0 <= i < |ops| - 1 ==> ops[1..][i] == ops[i + 1];
  }

  lemma SoleDefTail(ops: seq<Operand>)
    requires ops != [] && SoleDef(ops)
    ensures SoleDef(ops[1..]) && (ops[0].def ==> NoDefs(ops[1..]))
  {
    assert forall i :: 0 <= i < |ops| - 1 ==> ops[1..][i] == ops[i + 1];
  }

  predicate NoPure(ops: seq<Operand>) {
    forall i :: 0 <= i < |ops| ==> !PureDef(ops[i])
  }

  lemma NoPureTail(ops: seq<Operand>)
    requires ops != [] && NoPure(ops)
    ensures NoPure(ops[1..]) && !PureDef(ops[0])
  {
    assert forall i :: 0 <= i < |ops| - 1 ==> ops[1..][i] == ops[i + 1];
  }

  predicate NoDefs(ops: seq<Operand>) {
    forall i :: 0 <= i < |ops| ==> !ops[i].def
  }

  lemma NoDefsTail(ops: seq<Operand>)
    requires ops != [] && NoDefs(ops)
    ensures NoDefs(ops[1..]) && !ops[0].def
  {
    assert forall i :: 0 <= i < |ops| - 1 ==> ops[1..][i] == ops[i + 1];
  }

  lemma {:induction false} DefPassNone(ops: seq<Operand>, keep: bool, a: Alloc, reg: nat, e: Entry)
    requires NoPure(ops)
    ensures DefPass(ops, keep, a) == Some(DefResult(ops, a, false, false, Entries(ops, e))) && DefOf(ops) == None
    ensures PlaceDefs(ops, reg) == ops
    decreases |ops|
  {
    if ops != [] {
      NoPureTail(ops);
      DefPassNone(ops[1..], keep, a, reg, e);
      assert [ops[0]] + ops[1..] == ops;
    }
  }

  /** The definition pass, said at once: there is at most one definition. */
  lemma {:induction false} DefPassIs(ops: seq<Operand>, keep: bool, a: Alloc)
    requires OneDef(ops)
    ensures match DefOf(ops)
            case None => DefPass(ops, keep, a) == Some(DefResult(ops, a, false, false, Entries(ops, (0, 0))))
            case Some(v) =>
              var f := DefBank(ops);
              if v in a.regs then
                DefPass(ops, keep, a) ==
                  Some(DefResult(PlaceDefs(ops, a.regs[v]), WithFree(a, f, Free(a, f) + {a.regs[v]}),
                                 false, false, Entries(ops, (0, 0))))
              else if keep then
                DefPass(ops, keep, a) == match Obtain(v, f, a)
                  case None => None
                  case Some(a') => Some(DefResult(PlaceDefs(ops, a'.regs[v]), a', false, true,
                                                  Entries(ops, (v, a'.regs[v]))))
              else
                && DefPass(ops, keep, a).Some? && DefPass(ops, keep, a).value.killed
                && !DefPass(ops, keep, a).value.unusedKeep && DefPass(ops, keep, a).value.alloc == a
    decreases |ops|
  {
    if ops != [] {
      OneDefTail(ops);
      if PureDef(ops[0]) {
        var v, f := ops[0].loc.index, ops[0].loc.float;
        if v in a.regs {
          DefPassNone(ops[1..], keep, WithFree(a, f, Free(a, f) + {a.regs[v]}), a.regs[v], (0, 0));
        } else if keep && Obtain(v, f, a).Some? {
          var a' := Obtain(v, f, a).value;
          DefPassNone(ops[1..], keep, a', a'.regs[v], (v, a'.regs[v]));
        }
      } else {
        DefPassIs(ops[1..], keep, a);
        assert [ops[0]] + ops[1..] == ops;
      }
    }
  }

  function PlaceUse(o: Operand, regs: map<nat, nat>): Operand {
    if ReadsSomeVirt(o) && o.loc.index in regs then o.(loc := Place(o.loc, regs[o.loc.index])) else o
  }

  function PlaceUses(ops: seq<Operand>, regs: map<nat, nat>): (r: seq<Operand>)
    ensures |r| == |ops|
    ensures forall i :: 0 <= i < |ops| ==> r[i] == PlaceUse(ops[i], regs)
  {
    if ops == [] then [] else [PlaceUse(ops[0], regs)] + PlaceUses(ops[1..], regs)
  }

  /** The allocation for one read operand. */
  function ForUse(o: Operand, a: Alloc): Option<Alloc> {
    if !ReadsSomeVirt(o) || o.loc.index in a.regs then Some(a) else Obtain(o.loc.index, o.loc.float, a)
  }

  predicate Extends(regs: map<nat, nat>, regs': map<nat, nat>) {
    forall u :: u in regs ==> u in regs' && regs'[u] == regs[u]
  }

  /** The use pass gives every register read a place and never changes one already given; it leaves the entries of
      operands it does not read alone. */
  lemma {:induction false} UsePassIs(ops: seq<Operand>, a: Alloc, entries: seq<Entry>)
    requires |entries| == |ops| && UsePass(ops, a, entries).Some?
    ensures var r := UsePass(ops, a, entries).value;
            && r.alloc.regs.Keys == a.regs.Keys + ReadSet(ops) && Extends(a.regs, r.alloc.regs)
            && r.operands == PlaceUses(ops, r.alloc.regs) && |r.entries| == |ops|
            && forall i :: 0 <= i < |ops| && !ReadsSomeVirt(ops[i]) ==> r.entries[i] == entries[i]
    decreases |ops|
  {
    if ops != [] {
      var a' := ForUse(ops[0], a).value;
      UsePassIs(ops[1..], a', entries[1..]);
      var r, t := UsePass(ops, a, entries).value, UsePass(ops[1..], a', entries[1..]).value;
      assert r.alloc == t.alloc && r.operands[1..] == t.operands && r.entries[1..] == t.entries;
      forall i | 0 <= i < |ops| && !ReadsSomeVirt(ops[i]) ensures r.entries[i] == entries[i] {
        if i > 0 { assert r.entries[1..][i - 1] == t.entries[i - 1] && ops[1..][i - 1] == ops[i]; }
      }
    }
  }

  lemma {:induction false} CleanupNone(ops: seq<Operand>, entries: seq<Entry>, a: Alloc)
    requires |entries| == |ops| && NoDefs(ops)
    ensures Cleanup(ops, entries, a) == a
    decreases |ops|
  {
    if ops != [] {
      NoDefsTail(ops);
      CleanupNone(ops[1..], entries[1..], a);
    }
  }

  /** The cleanup, when the only definition is the unused one. */
  lemma {:induction false} CleanupOne(ops: seq<Operand>, entries: seq<Entry>, a: Alloc, e: Entry)
    requires |entries| == |ops| && SoleDef(ops) && exists i :: 0 <= i < |ops| && ops[i].def
    requires forall i :: 0 <= i < |ops| && ops[i].def ==> entries[i] == e
    ensures Cleanup(ops, entries, a) == a.(regs := a.regs - {e.0}, ints := Flip(a.ints, e.1))
    decreases |ops|
  {
    SoleDefTail(ops);
    if ops[0].def {
      CleanupNone(ops[1..], entries[1..], a.(regs := a.regs - {e.0}, ints := Flip(a.ints, e.1)));
    } else {
      var i :| 0 <= i < |ops| && ops[i].def;
      assert ops[1..][i - 1].def;
      assert forall j :: 0 <= j < |ops| - 1 ==> ops[1..][j] == ops[j + 1] && entries[1..][j] == entries[j + 1];
      CleanupOne(ops[1..], entries[1..], a, e);
    }
  }

  // ---------------------------------------------------------------------------------------------
  // The allocator's invariant
  // ---------------------------------------------------------------------------------------------

  /** Within each bank the live virtual registers hold distinct registers, none of them free; registers in use and free
      ones are ones that may be handed out. */
  ghost predicate AllocInv(p: Setup, a: Alloc, live: set<nat>) {
    && live <= a.regs.Keys && a.ints <= p.ints && a.floats <= p.floats
    && (forall v :: v in a.regs ==> a.regs[v] in Mask(p, IsFloat(p, v)))
    && (forall u, v :: u in live && v in live && IsFloat(p, u) == IsFloat(p, v) && a.regs[u] == a.regs[v] ==> u == v)
    && (forall v :: v in live ==> a.regs[v] !in Free(a, IsFloat(p, v)))
  }

  lemma ReleaseInv(p: Setup, a: Alloc, live: set<nat>, v: nat)
    requires AllocInv(p, a, live) && v in live
    ensures var f := IsFloat(p, v); AllocInv(p, WithFree(a, f, Free(a, f) + {a.regs[v]}), live - {v})
  {
    assert a.regs[v] in Mask(p, IsFloat(p, v));
  }

  lemma ObtainInv(p: Setup, a: Alloc, live: set<nat>, v: nat)
    requires SetupOk(p) && AllocInv(p, a, live) && v !in a.regs
    ensures Obtain(v, IsFloat(p, v), a).Some? <==> Free(a, IsFloat(p, v)) != {}
    ensures Obtain(v, IsFloat(p, v), a).Some? ==>
      var a' := Obtain(v, IsFloat(p, v), a).value;
      AllocInv(p, a', live + {v}) && a'.regs.Keys == a.regs.Keys + {v} && Extends(a.regs, a'.regs)
  {
    var f := IsFloat(p, v);
    assert Free(a, f) <= Mask(p, f);
    FindFirstOk(Free(a, f), 0);
    if Obtain(v, f, a).Some? {
      var r, a' := FindFirst(Free(a, f), 0), Obtain(v, f, a).value;
      assert r in Free(a, f) && Free(a', f) == Free(a, f) - {r} && Free(a', !f) == Free(a, !f);
      assert forall u :: u in live && IsFloat(p, u) == f ==> a.regs[u] != r;
    }
  }

  predicate TypesOk(p: Setup, ops: seq<Operand>) {
    forall i :: 0 <= i < |ops| && ReadsSomeVirt(ops[i]) ==> ops[i].loc.float == IsFloat(p, ops[i].loc.index)
  }

  lemma TypesTail(p: Setup, ops: seq<Operand>)
    requires ops != [] && TypesOk(p, ops)
    ensures TypesOk(p, ops[1..])
  {
    assert forall i :: 0 <= i < |ops| - 1 ==> ops[1..][i] == ops[i + 1];
  }

  lemma {:induction false} UsePassInv(p: Setup, ops: seq<Operand>, a: Alloc, entries: seq<Entry>, live: set<nat>)
    requires SetupOk(p) && |entries| == |ops| && AllocInv(p, a, live) && UsePass(ops, a, entries).Some?
    requires TypesOk(p, ops)
    requires forall v :: v in ReadSet(ops) && v in a.regs ==> v in live
    ensures AllocInv(p, UsePass(ops, a, entries).value.alloc, live + ReadSet(ops))
    decreases |ops|
  {
    if ops == [] {
      assert live + ReadSet(ops) == live;
    } else {
      TypesTail(p, ops);
      if ReadsSomeVirt(ops[0]) {
        var v := ops[0].loc.index;
        if v in a.regs {
          assert live + ReadSet(ops) == live + ReadSet(ops[1..]);
          UsePassInv(p, ops[1..], a, entries[1..], live);
        } else {
          ObtainInv(p, a, live, v);
          UsePassInv(p, ops[1..], Obtain(v, ops[0].loc.float, a).value, entries[1..], live + {v});
          assert live + ReadSet(ops) == live + {v} + ReadSet(ops[1..]);
        }
      } else {
        assert ReadSet(ops) == ReadSet(ops[1..]);
        UsePassInv(p, ops[1..], a, entries[1..], live);
      }
    }
  }

  // ---------------------------------------------------------------------------------------------
  // One instruction
  // ---------------------------------------------------------------------------------------------

  ghost predicate DefinedIn(code: seq<Insn>, v: nat) {
    exists j :: 0 <= j < |code| && v in DefSet(code[j].operands)
  }

  /** A register that has an entry but is not live is one whose definition has been passed. */
  ghost predicate Passed(a: Alloc, live: set<nat>, code: seq<Insn>) {
    forall v :: v in a.regs && v !in live ==> DefinedIn(code, v)
  }

  ghost predicate Precedes(n: Insn, code: seq<Insn>) {
    forall v :: v in ReadSet(n.operands) + DefSet(n.operands) ==> !DefinedIn(code, v)
  }

  lemma HeadPrecedes(p: Setup, code: seq<Insn>)
    requires code != [] && CodeOk(p, code)
    ensures Precedes(code[0], code[1..])
  {
    var ops := code[0].operands;
    forall v | v in ReadSet(ops) + DefSet(ops) ensures !DefinedIn(code[1..], v) {
      ReadSetMeaning(ops, v);
      DefOfMeaning(ops, v);
      if v in ReadSet(ops) {
        var i :| 0 <= i < |ops| && ReadsVirt(ops[i], v);
        assert Names(ops[i], v);
      } else {
        var i :| 0 <= i < |ops| && PureDef(ops[i]) && ops[i].loc.index == v;
        assert Names(ops[i], v);
      }
      assert Mentions(code[0], v);
      forall j | 0 <= j < |code[1..]|
        ensures v !in DefSet(code[1..][j].operands)
      {
        assert code[1..][j] == code[j + 1];
      }
    }
  }

  /** Everything known where an instruction is allocated. */
  ghost predicate Ready(p: Setup, n: Insn, code: seq<Insn>, a: Alloc, live: set<nat>) {
    SetupOk(p) && InsnOk(p, n) && Precedes(n, code) && AllocInv(p, a, live) && Passed(a, live, code)
  }

  lemma EntryIsLive(p: Setup, n: Insn, code: seq<Insn>, a: Alloc, live: set<nat>)
    requires Ready(p, n, code, a, live)
    ensures forall v :: v in ReadSet(n.operands) + DefSet(n.operands) ==> (v in a.regs <==> v in live)
  {
  }

  lemma {:induction false} DefBankIs(p: Setup, ops: seq<Operand>)
    requires forall i :: 0 <= i < |ops| ==> OperandOk(p, ops[i])
    ensures DefOf(ops).Some? ==> DefBank(ops) == IsFloat(p, DefOf(ops).value)
    decreases |ops|
  {
    if ops != [] && !PureDef(ops[0]) {
      assert forall i :: 0 <= i < |ops| - 1 ==> ops[1..][i] == ops[i + 1];
      DefBankIs(p, ops[1..]);
    } else if ops != [] {
      assert OperandOk(p, ops[0]);
    }
  }

  lemma {:induction false} ReadsKept(ops: seq<Operand>, reg: nat)
    ensures ReadSet(PlaceDefs(ops, reg)) == ReadSet(ops)
    decreases |ops|
  {
    if ops != [] { ReadsKept(ops[1..], reg); }
  }

  /** The outcome of the first pass, and of the second. */
  function Mid(n: Insn, a: Alloc): (d: DefResult)
    ensures DefPass(n.operands, n.keep, a).Some? ==> d == DefPass(n.operands, n.keep, a).value
    ensures |d.operands| == |n.operands| == |d.entries|
  {
    match DefPass(n.operands, n.keep, a)
    case None => DefResult(n.operands, a, false, false, Entries(n.operands, (0, 0)))
    case Some(d) => DefPassLengths(n.operands, n.keep, a); d
  }

  function Used(n: Insn, a: Alloc): Option<UseResult> {
    UsePass(Mid(n, a).operands, Mid(n, a).alloc, Mid(n, a).entries)
  }

  /** What counts as live between the passes: an unused kept definition does. */
  function MidLive(n: Insn, live: set<nat>): set<nat> {
    if UnusedKeep(n, live) then live + DefSet(n.operands) else live - DefSet(n.operands)
  }

  /** The register the definition gets, if the instruction survives. */
  function DefReg(n: Insn, a: Alloc): nat {
    match DefOf(n.operands)
    case None => 0
    case Some(v) => if v in Mid(n, a).alloc.regs then Mid(n, a).alloc.regs[v] else 0
  }

  /** Between the passes: definitions are placed, reads are not. */
  lemma MidOperands(n: Insn, a: Alloc)
    requires OneDef(n.operands) && DefPass(n.operands, n.keep, a).Some? && !Mid(n, a).killed
    ensures Mid(n, a).operands == PlaceDefs(n.operands, DefReg(n, a))
    ensures DefOf(n.operands).Some? ==> DefOf(n.operands).value in Mid(n, a).alloc.regs
    ensures Mid(n, a).unusedKeep ==>
              DefOf(n.operands).Some? &&
                  Mid(n, a).entries == Entries(n.operands, (DefOf(n.operands).value, DefReg(n, a)))
  {
    DefPassIs(n.operands, n.keep, a);
    if DefOf(n.operands) == None {
      DefOfMeaning(n.operands, 0);
      NothingPlaced(n.operands, DefReg(n, a));
    }
  }

  lemma {:induction false} NothingPlaced(ops: seq<Operand>, reg: nat)
    requires forall i :: 0 <= i < |ops| ==> !PureDef(ops[i])
    ensures PlaceDefs(ops, reg) == ops
    decreases |ops|
  {
    if ops != [] {
      assert forall i :: 0 <= i < |ops| - 1 ==> ops[1..][i] == ops[i + 1];
      NothingPlaced(ops[1..], reg);
    }
  }

  lemma MidTypes(p: Setup, n: Insn, a: Alloc)
    requires InsnOk(p, n) && DefPass(n.operands, n.keep, a).Some? && !Mid(n, a).killed
    ensures TypesOk(p, Mid(n, a).operands) && ReadSet(Mid(n, a).operands) == ReadSet(n.operands)
  {
    var ops, ops' := n.operands, Mid(n, a).operands;
    MidOperands(n, a);
    ReadsKept(ops, DefReg(n, a));
    forall i | 0 <= i < |ops'| && ReadsSomeVirt(ops'[i]) ensures ops'[i].loc.float == IsFloat(p, ops'[i].loc.index) {
      assert OperandOk(p, ops[i]) && ops'[i] == PlaceDef(ops[i], DefReg(n, a));
    }
  }

  /** The definition pass keeps the invariant, kills exactly the useless and spots exactly the unused kept. */
  lemma DefPassInv(p: Setup, n: Insn, code: seq<Insn>, a: Alloc, live: set<nat>)
    requires Ready(p, n, code, a, live) && DefPass(n.operands, n.keep, a).Some?
    ensures var d := Mid(n, a);
            && (d.killed <==> Useless(n, live)) && (d.unusedKeep <==> UnusedKeep(n, live))
            && (d.killed ==> d.alloc == a)
            && (!d.killed ==> AllocInv(p, d.alloc, MidLive(n, live)) && Extends(a.regs, d.alloc.regs)
                              && d.alloc.regs.Keys ==
                                  if d.unusedKeep then a.regs.Keys + DefSet(n.operands) else a.regs.Keys)
  {
    DefPassIs(n.operands, n.keep, a);
    DefBankIs(p, n.operands);
    EntryIsLive(p, n, code, a, live);
    match DefOf(n.operands)
    case None => assert live - DefSet(n.operands) == live;
    case Some(v) =>
      if v in a.regs { ReleaseInv(p, a, live, v); } else if n.keep { ObtainInv(p, a, live, v); }
  }

  /** An instruction that is allocated and not useless has been through both passes. */
  lemma Survives(p: Setup, n: Insn, code: seq<Insn>, a: Alloc, live: set<nat>)
    requires Ready(p, n, code, a, live) && AllocateInsn(n, a).Some? && !Useless(n, live)
    ensures DefPass(n.operands, n.keep, a).Some? && !Mid(n, a).killed && Used(n, a).Some?
    ensures var s, u := AllocateInsn(n, a).value, Used(n, a).value;
            && s.insn.operands == u.operands && s.insn.keep == n.keep && |u.operands| == |n.operands| == |u.entries|
            && (s.insn.opcode == n.opcode || (s.insn.opcode.Dead? && SelfMove(n.(operands := u.operands))))
            && s.alloc == if UnusedKeep(n, live) then Cleanup(u.operands, u.entries, u.alloc) else u.alloc
  {
    DefPassInv(p, n, code, a, live);
    UsePassLengths(Mid(n, a).operands, Mid(n, a).alloc, Mid(n, a).entries);
  }

  /** The operands of a surviving instruction. */
  lemma SurvivingOperands(p: Setup, n: Insn, code: seq<Insn>, a: Alloc, live: set<nat>)
    requires Ready(p, n, code, a, live) && AllocateInsn(n, a).Some? && !Useless(n, live)
    ensures Used(n, a).Some? && |AllocateInsn(n, a).value.insn.operands| == |n.operands|
    ensures forall i :: 0 <= i < |n.operands| ==>
              AllocateInsn(n, a).value.insn.operands[i] ==
                  PlaceUse(PlaceDef(n.operands[i], DefReg(n, a)), Used(n, a).value.alloc.regs)
  {
    Survives(p, n, code, a, live);
    MidOperands(n, a);
    UsePassIs(Mid(n, a).operands, Mid(n, a).alloc, Mid(n, a).entries);
  }

  /** The state after the second pass. */
  lemma UsesInv(p: Setup, n: Insn, code: seq<Insn>, a: Alloc, live: set<nat>)
    requires Ready(p, n, code, a, live) && AllocateInsn(n, a).Some? && !Useless(n, live)
    ensures Used(n, a).Some? && AllocInv(p, Used(n, a).value.alloc, MidLive(n, live) + ReadSet(n.operands))
    ensures Used(n, a).value.alloc.regs.Keys == Mid(n, a).alloc.regs.Keys + ReadSet(n.operands)
    ensures Extends(a.regs, Used(n, a).value.alloc.regs) && Extends(Mid(n, a).alloc.regs, Used(n, a).value.alloc.regs)
  {
    Survives(p, n, code, a, live);
    DefPassInv(p, n, code, a, live);
    MidTypes(p, n, a);
    EntryIsLive(p, n, code, a, live);
    var d := Mid(n, a);
    forall v | v in ReadSet(d.operands) && v in d.alloc.regs ensures v in MidLive(n, live) {}
    UsePassInv(p, d.operands, d.alloc, d.entries, MidLive(n, live));
    UsePassIs(d.operands, d.alloc, d.entries);
  }

  /** The only defining operand is the pure definition, and its entry is the one the allocation made. */
  lemma UnusedEntries(ops: seq<Operand>, ops': seq<Operand>, entries: seq<Entry>, reg: nat, regs: map<nat, nat>,
                      e: Entry)
    requires SoleDef(ops) && DefOf(ops).Some? && |ops'| == |ops| == |entries|
    requires forall i :: 0 <= i < |ops| ==> ops'[i] == PlaceUse(PlaceDef(ops[i], reg), regs)
    requires forall i :: 0 <= i < |ops| && PureDef(ops[i]) ==> entries[i] == e
    ensures SoleDef(ops') && (exists i :: 0 <= i < |ops'| && ops'[i].def)
    ensures forall i :: 0 <= i < |ops'| && ops'[i].def ==> entries[i] == e
  {
    DefOfMeaning(ops, DefOf(ops).value);
    var k :| 0 <= k < |ops| && PureDef(ops[k]);
    assert forall i :: 0 <= i < |ops| ==> ops'[i].def == ops[i].def;
    assert ops'[k].def;
    assert forall i :: 0 <= i < |ops| && ops[i].def ==> i == k;
  }

  /** The cleanup gives back the scratch register and forgets the definition. */
  lemma CleanupIs(n: Insn, a: Alloc)
    requires SoleDef(n.operands) && DefPass(n.operands, n.keep, a).Some? && !Mid(n, a).killed
    requires Mid(n, a).unusedKeep && Used(n, a).Some?
    ensures DefOf(n.operands).Some? && |Used(n, a).value.entries| == |Used(n, a).value.operands|
    ensures Cleanup(Used(n, a).value.operands, Used(n, a).value.entries, Used(n, a).value.alloc)
         == Dropped(Used(n, a).value.alloc, DefOf(n.operands).value, DefReg(n, a))
  {
    var ops, d := n.operands, Mid(n, a);
    MidOperands(n, a);
    UsePassIs(d.operands, d.alloc, d.entries);
    var u, e := Used(n, a).value, (DefOf(ops).value, DefReg(n, a));
    forall i | 0 <= i < |ops| && PureDef(ops[i]) ensures u.entries[i] == e {
      assert d.operands[i] == PlaceDef(ops[i], DefReg(n, a));
    }
    UnusedEntries(ops, u.operands, u.entries, DefReg(n, a), u.alloc.regs, e);
    CleanupOne(u.operands, u.entries, u.alloc, e);
  }

  function Dropped(a: Alloc, v: nat, r: nat): Alloc {
    a.(regs := a.regs - {v}, ints := Flip(a.ints, r))
  }

  /** Giving the scratch register back. */
  lemma DropScratch(p: Setup, a: Alloc, live: set<nat>, v: nat)
    requires AllocInv(p, a, live) && v in live && !IsFloat(p, v)
    ensures AllocInv(p, a.(regs := a.regs - {v}, ints := Flip(a.ints, a.regs[v])), live - {v})
    ensures a.regs[v] in Flip(a.ints, a.regs[v])
  {
    assert a.regs[v] in Mask(p, IsFloat(p, v)) && a.regs[v] !in Free(a, IsFloat(p, v));
  }

  /** The state before an instruction with an unused kept definition. */
  lemma UnusedKeepAlloc(p: Setup, n: Insn, code: seq<Insn>, a: Alloc, live: set<nat>)
    requires Ready(p, n, code, a, live) && AllocateInsn(n, a).Some? && UnusedKeep(n, live)
    ensures DefOf(n.operands).Some? && Used(n, a).Some?
    ensures var s, u, v := AllocateInsn(n, a).value, Used(n, a).value, DefOf(n.operands).value;
            && v !in a.regs && v in MidLive(n, live) && !IsFloat(p, v) && v in u.alloc.regs &&
                u.alloc.regs[v] == DefReg(n, a)
            && s.alloc == u.alloc.(regs := u.alloc.regs - {v}, ints := Flip(u.alloc.ints, u.alloc.regs[v]))
  {
    Survives(p, n, code, a, live);
    DefPassInv(p, n, code, a, live);
    UsesInv(p, n, code, a, live);
    CleanupIs(n, a);
    EntryIsLive(p, n, code, a, live);
    MidOperands(n, a);
  }

  /** Live registers stay in distinct registers of their bank across an instruction. */
  lemma AllocateInsnInv(p: Setup, n: Insn, code: seq<Insn>, a: Alloc, live: set<nat>)
    requires Ready(p, n, code, a, live) && AllocateInsn(n, a).Some?
    ensures AllocInv(p, AllocateInsn(n, a).value.alloc, LiveBefore(n, live))
  {
    DefPassInv(p, n, code, a, live);
    if !Useless(n, live) {
      UsesInv(p, n, code, a, live);
      Survives(p, n, code, a, live);
      if UnusedKeep(n, live) {
        UnusedKeepAlloc(p, n, code, a, live);
        var v := DefOf(n.operands).value;
        DropScratch(p, Used(n, a).value.alloc, MidLive(n, live) + ReadSet(n.operands), v);
        assert MidLive(n, live) + ReadSet(n.operands) - {v} == LiveBefore(n, live);
      }
    }
  }

  lemma AllocateInsnKeys(p: Setup, n: Insn, code: seq<Insn>, a: Alloc, live: set<nat>)
    requires Ready(p, n, code, a, live) && AllocateInsn(n, a).Some?
    ensures var s := AllocateInsn(n, a).value;
            && Extends(a.regs, s.alloc.regs)
            && s.alloc.regs.Keys == if Useless(n, live) then a.regs.Keys else a.regs.Keys + ReadSet(n.operands)
  {
    DefPassInv(p, n, code, a, live);
    if !Useless(n, live) {
      Survives(p, n, code, a, live);
      UsesInv(p, n, code, a, live);
      if UnusedKeep(n, live) { UnusedKeepAlloc(p, n, code, a, live); }
    }
  }

  /** Entries stay settled. */
  lemma AllocateInsnPassed(p: Setup, n: Insn, code: seq<Insn>, a: Alloc, live: set<nat>)
    requires Ready(p, n, code, a, live) && AllocateInsn(n, a).Some?
    ensures Passed(AllocateInsn(n, a).value.alloc, LiveBefore(n, live), [n] + code)
  {
    var regs := AllocateInsn(n, a).value.alloc.regs;
    AllocateInsnKeys(p, n, code, a, live);
    EntryIsLive(p, n, code, a, live);
    forall v | v in regs && v !in LiveBefore(n, live) ensures DefinedIn([n] + code, v) {
      if v in DefSet(n.operands) {
        assert v in DefSet(([n] + code)[0].operands);
      } else {
        assert DefinedIn(code, v);
        var j :| 0 <= j < |code| && v in DefSet(code[j].operands);
        assert ([n] + code)[j + 1] == code[j];
      }
    }
  }

  // ---------------------------------------------------------------------------------------------
  // Instructions that must be kept
  // ---------------------------------------------------------------------------------------------

  /** A kept instruction is never killed for an unused definition: only being a move of a register to itself can kill
      it. */
  lemma KeptSurvives(p: Setup, n: Insn, code: seq<Insn>, a: Alloc, live: set<nat>)
    requires Ready(p, n, code, a, live) && AllocateInsn(n, a).Some? && n.keep
    ensures var n' := AllocateInsn(n, a).value.insn; n'.opcode == n.opcode || SelfMove(n.(operands := n'.operands))
  {
    Survives(p, n, code, a, live);
  }

  /** An unused kept definition is given a register that no value live across the instruction and none of the
      instruction's own operands is in, and that is free again before the instruction. */
  lemma ScratchIsFresh(p: Setup, n: Insn, code: seq<Insn>, a: Alloc, live: set<nat>, i: nat)
    requires Ready(p, n, code, a, live) && AllocateInsn(n, a).Some? && UnusedKeep(n, live)
    requires i < |n.operands| && PureDef(n.operands[i])
    ensures var s, r := AllocateInsn(n, a).value, DefReg(n, a);
            && |s.insn.operands| == |n.operands| && s.insn.operands[i].loc == Phys(PhysReg(false, r))
            && r in p.ints && r in s.alloc.ints
            && forall v :: v in live + ReadSet(n.operands) && !IsFloat(p, v) ==>
                v in s.alloc.regs && s.alloc.regs[v] != r
  {
    SurvivingOperands(p, n, code, a, live);
    UsesInv(p, n, code, a, live);
    UnusedKeepAlloc(p, n, code, a, live);
    OnlyDef(n.operands, i);
    var v := DefOf(n.operands).value;
    DropScratch(p, Used(n, a).value.alloc, MidLive(n, live) + ReadSet(n.operands), v);
    assert OperandOk(p, n.operands[i]);
    ScratchApart(p, Used(n, a).value.alloc, MidLive(n, live) + ReadSet(n.operands), v);
  }

  lemma ScratchApart(p: Setup, a: Alloc, live: set<nat>, v: nat)
    requires AllocInv(p, a, live) && v in live && !IsFloat(p, v)
    ensures a.regs[v] in p.ints
    ensures forall u :: u in live && u != v && !IsFloat(p, u) ==> a.regs[u] != a.regs[v]
  {
    assert a.regs[v] in Mask(p, IsFloat(p, v));
  }

  lemma {:induction false} OnlyDef(ops: seq<Operand>, i: nat)
    requires OneDef(ops) && i < |ops| && PureDef(ops[i])
    ensures DefOf(ops) == Some(ops[i].loc.index)
    decreases |ops|
  {
    if i > 0 {
      assert !PureDef(ops[0]);
      OneDefTail(ops);
      OnlyDef(ops[1..], i - 1);
    }
  }
}
