/** Which of its six registers the x86 allocator ever hands out. */
module X86FirstFit {
  import opened X86Code
  import opened X86RegAlloc

  /** The most virtual registers that are live at once. */
  function Peak(code: seq<Insn>): nat {
    if code == [] then 0 else Max(|Live(code)|, Peak(code[1..]))
  }

  function Max(a: nat, b: nat): nat {
    if a < b then b else a
  }

  /** The first p registers, and no others, have been handed out; the others are free. */
  ghost predicate FirstFit(a: Alloc, p: nat) {
    && p <= 6
    && (forall v :: v in a.regs ==> a.regs[v] < p)
    && (forall r: nat :: r < p ==> HandedOut(a, r))
    && (forall r: nat :: p <= r < 6 ==> r in a.avail)
    && (forall r :: r in a.avail ==> r < 6)
  }

  ghost predicate HandedOut(a: Alloc, r: nat) {
    exists v :: v in a.regs && a.regs[v] == r
  }

  function From(p: nat): set<nat> {
    set r | r in ALL && p <= r
  }

  lemma FromSize(p: nat)
    requires p <= 6
    ensures |From(p)| == 6 - p
    decreases 6 - p
  {
    if p == 6 {
      assert From(p) == {};
    } else {
      FromSize(p + 1);
      assert From(p) == {p} + From(p + 1);
    }
  }

  lemma SubsetSize(s: set<nat>, t: set<nat>)
    requires s <= t
    ensures |s| <= |t|
  {
    assert t == s + (t - s);
  }

  lemma FreeCount(a: Alloc, p: nat)
    requires FirstFit(a, p) && a.avail != {}
    ensures FindFirst(a.avail) < p ==> |a.avail| >= 7 - p
    ensures FindFirst(a.avail) >= p ==> FindFirst(a.avail) == p && |a.avail| == 6 - p
  {
    var r := FindFirst(a.avail);
    FromSize(p);
    if r < p {
      SubsetSize(From(p) + {r}, a.avail);
    } else {
      assert a.avail == From(p);
    }
  }

  /** Taking the lowest free register: one handed out before, if any of those is free, or the next one. */
  lemma ObtainFirst(v: nat, a: Alloc, p: nat)
    requires FirstFit(a, p) && v !in a.regs && Obtain(v, a).Some? && |a.avail| <= 6
    ensures FirstFit(Obtain(v, a).value, Max(p, 7 - |a.avail|)) && |Obtain(v, a).value.avail| == |a.avail| - 1
  {
    var r, a' := FindFirst(a.avail), Obtain(v, a).value;
    FindFirstOk(a.avail);
    FreeCount(a, p);
    assert a'.regs[v] == r;
    forall q: nat | q < p ensures HandedOut(a', q) { StaysHandedOut(v, a, q); }
  }

  lemma StaysHandedOut(v: nat, a: Alloc, q: nat)
    requires v !in a.regs && Obtain(v, a).Some? && HandedOut(a, q)
    ensures HandedOut(Obtain(v, a).value, q)
  {
    var u :| u in a.regs && a.regs[u] == q;
    assert Obtain(v, a).value.regs[u] == q;
  }

  lemma {:induction false} UsePassFirst(ops: seq<Operand>, a: Alloc, p: nat)
    requires FirstFit(a, p) && RegsOk(a) && UsePass(ops, a).Some? && 6 - p <= |a.avail| <= 6
    ensures var a' := UsePass(ops, a).value.alloc;
            |a'.avail| <= |a.avail| && FirstFit(a', Max(p, 6 - |a'.avail|))
    decreases |ops|
  {
    if ops != [] {
      if ReadsSomeVirt(ops[0]) && ops[0].loc.index !in a.regs {
        ObtainFirst(ops[0].loc.index, a, p);
        UsePassFirst(ops[1..], Obtain(ops[0].loc.index, a).value, Max(p, 7 - |a.avail|));
      } else {
        UsePassFirst(ops[1..], a, p);
      }
    }
  }

  lemma DefPassFirst(ops: seq<Operand>, a: Alloc, p: nat)
    requires RegsOk(a) && FirstFit(a, p)
    ensures RegsOk(DefPass(ops, a).alloc) && FirstFit(DefPass(ops, a).alloc, p)
    ensures a.avail <= DefPass(ops, a).alloc.avail
  {
    DefPassOk(ops, a);
    AvailGrows(ops, a);
    forall r: nat | r < p ensures HandedOut(DefPass(ops, a).alloc, r) { assert HandedOut(a, r); }
  }

  lemma InsnFirst(n: Insn, a: Alloc, p: nat)
    requires RegsOk(a) && FirstFit(a, p) && AllocateInsn(n, a).Some? && 6 - p <= |a.avail|
    ensures var a' := AllocateInsn(n, a).value.alloc;
            |a'.avail| <= 6 && FirstFit(a', Max(p, 6 - |a'.avail|))
  {
    var d := DefPass(n.operands, a);
    DefPassFirst(n.operands, a, p);
    SubsetSize(a.avail, d.alloc.avail);
    FromSize(0);
    SubsetSize(d.alloc.avail, From(0));
    if !d.killed { UsePassFirst(d.operands, d.alloc, p); }
  }

  lemma {:induction false} AvailGrows(ops: seq<Operand>, a: Alloc)
    requires RegsOk(a) && forall r :: r in a.avail ==> r < 6
    ensures a.avail <= DefPass(ops, a).alloc.avail && forall r :: r in DefPass(ops, a).alloc.avail ==> r < 6
    decreases |ops|
  {
    if ops != [] && !(PureDef(ops[0]) && ops[0].loc.index !in a.regs) {
      AvailGrows(ops[1..], if PureDef(ops[0]) then a.(avail := a.avail + {a.regs[ops[0].loc.index]}) else a);
    }
  }

  lemma {:induction false} AllocateFirst(code: seq<Insn>)
    requires CodeOk(code) && Allocate(code).Some?
    ensures FirstFit(Allocate(code).value.alloc, Peak(code))
    decreases |code|
  {
    if code != [] {
      LiveTail(code);
      AllocateFirst(code[1..]);
      AllocateCount(code[1..]);
      AllocateCount(code);
      PeakIsMore(code[1..]);
      InsnFirst(code[0], Allocate(code[1..]).value.alloc, Peak(code[1..]));
    }
  }

  lemma PeakIsMore(code: seq<Insn>)
    ensures |Live(code)| <= Peak(code)
  {
  }

  /** First fit: the registers are handed out in the order AX, CX, DX, BX, DI, SI, and exactly as many of them as there
      are ever virtual registers live at once. */
  lemma HandedOutExactly(code: seq<Insn>)
    requires CodeOk(code) && Allocate(code).Some?
    ensures var regs := Allocate(code).value.alloc.regs;
            && ((exists v :: v in regs && Assign(regs[v]) == AX) <==> Peak(code) >= 1)
            && ((exists v :: v in regs && Assign(regs[v]) == CX) <==> Peak(code) >= 2)
            && ((exists v :: v in regs && Assign(regs[v]) == DX) <==> Peak(code) >= 3)
            && ((exists v :: v in regs && Assign(regs[v]) == BX) <==> Peak(code) >= 4)
            && ((exists v :: v in regs && Assign(regs[v]) == DI) <==> Peak(code) >= 5)
            && ((exists v :: v in regs && Assign(regs[v]) == SI) <==> Peak(code) >= 6)
  {
    AllocateFirst(code);
    var a := Allocate(code).value.alloc;
    forall r: nat | r < 6
      ensures (exists v :: v in a.regs && Assign(a.regs[v]) == Assign(r)) <==> r < Peak(code)
    {
      NameHandedOut(a, r, Peak(code));
    }
    assert Assign(0) == AX && Assign(1) == CX && Assign(2) == DX;
    assert Assign(3) == BX && Assign(4) == DI && Assign(5) == SI;
  }

  lemma NameHandedOut(a: Alloc, r: nat, p: nat)
    requires FirstFit(a, p) && r < 6
    ensures (exists v :: v in a.regs && Assign(a.regs[v]) == Assign(r)) <==> r < p
  {
    if r < p { assert HandedOut(a, r); }
    forall v | v in a.regs && Assign(a.regs[v]) == Assign(r) ensures r < p { AssignInjective(a.regs[v], r); }
  }
}
