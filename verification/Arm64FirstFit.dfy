/** Which physical registers the arm64 allocator ever hands out: the lowest ones of each bank, as many as are ever in
    use at once. Registers the list names explicitly are safe when they are above those. */
module Arm64FirstFit {
  import opened Arm64Code
  import opened Arm64RegAlloc
  import opened Arm64AllocCount
  import opened Arm64AllocMeaning

  /** How many registers of the bank come before r. */
  function Rank(mask: set<nat>, r: nat): nat {
    |set q | q in mask && q < r|
  }

  /** The k lowest registers of the bank. */
  function Lowest(mask: set<nat>, k: nat): set<nat> {
    set r | r in mask && Rank(mask, r) < k
  }

  // ---------------------------------------------------------------------------------------------
  // Ranks
  // ---------------------------------------------------------------------------------------------

  lemma SubsetSize(s: set<nat>, t: set<nat>)
    requires s <= t
    ensures |s| <= |t|
  {
    assert t == s + (t - s);
  }

  lemma RankMonotone(mask: set<nat>, q: nat, r: nat)
    requires q in mask && q < r
    ensures Rank(mask, q) < Rank(mask, r)
  {
    var a, b := set x | x in mask && x < q, set x | x in mask && x < r;
    assert q in b && q !in a && a + {q} <= b;
    SubsetSize(a + {q}, b);
  }

  /** Everything up to r is in s: s has more than Rank(r) elements. */
  lemma RankBelow(mask: set<nat>, s: set<nat>, r: nat)
    requires r in s && forall q :: q in mask && q < r ==> q in s
    ensures Rank(mask, r) < |s|
  {
    var a := set q | q in mask && q < r;
    assert r !in a && a + {r} <= s;
    SubsetSize(a + {r}, s);
  }

  lemma {:induction false} HasGreatest(s: set<nat>) returns (r: nat)
    requires s != {}
    ensures r in s && forall q :: q in s ==> q <= r
    decreases |s|
  {
    var x :| x in s;
    if s == {x} {
      r := x;
    } else {
      var y := HasGreatest(s - {x});
      r := if x < y then y else x;
      forall q | q in s ensures q <= r { if q != x { assert q in s - {x}; } }
    }
  }

  lemma RankWithoutTop(mask: set<nat>, top: nat, r: nat)
    requires top in mask && (forall q :: q in mask ==> q <= top) && r in mask
    ensures Rank(mask, r) == Rank(mask - {top}, r)
    ensures Rank(mask, top) == |mask| - 1
  {
    assert (set q | q in mask && q < r) == (set q | q in mask - {top} && q < r);
    assert (set q | q in mask && q < top) == mask - {top};
  }

  lemma {:induction false} LowestSize(mask: set<nat>, k: nat)
    requires k <= |mask|
    ensures |Lowest(mask, k)| == k
    decreases |mask|
  {
    if mask == {} {
      assert Lowest(mask, k) == {};
    } else {
      var top := HasGreatest(mask);
      var rest := mask - {top};
      forall r | r in mask ensures Rank(mask, r) == Rank(rest, r) && Rank(mask, top) == |mask| - 1 {
        RankWithoutTop(mask, top, r);
      }
      if k == |mask| {
        forall r | r in mask ensures r in Lowest(mask, k) { if r != top { RankMonotone(mask, r, top); } }
        assert Lowest(mask, k) == mask;
      } else {
        LowestSize(rest, k);
        forall r | r in mask ensures r in Lowest(mask, k) <==> r in Lowest(rest, k) {}
        assert Lowest(mask, k) == Lowest(rest, k);
      }
    }
  }

  // ---------------------------------------------------------------------------------------------
  // First fit
  // ---------------------------------------------------------------------------------------------

  /** What left the free set came before everything that stayed. */
  predicate TookLowest(free: set<nat>, free': set<nat>) {
    free' <= free && forall t, q :: t in free - free' && q in free' ==> t < q
  }

  lemma TookLowestTwice(f0: set<nat>, f1: set<nat>, f2: set<nat>)
    requires TookLowest(f0, f1) && TookLowest(f1, f2)
    ensures TookLowest(f0, f2)
  {
    forall t, q | t in f0 - f2 && q in f2 ensures t < q {
      if t in f1 { assert t in f1 - f2; } else { assert t in f0 - f1; }
    }
  }

  lemma {:induction false} FindFirstLeast(s: set<nat>, i: nat)
    requires i <= 32 && forall r :: r in s ==> i <= r
    ensures forall r :: r in s ==> FindFirst(s, i) <= r || FindFirst(s, i) == 32
    decreases 32 - i
  {
    if i < 32 && i !in s { FindFirstLeast(s, i + 1); }
  }

  lemma ObtainTakesLowest(v: nat, f: bool, a: Alloc, g: bool)
    requires FreeSmall(a) && Obtain(v, f, a).Some?
    ensures TookLowest(Free(a, g), Free(Obtain(v, f, a).value, g)) && FreeSmall(Obtain(v, f, a).value)
  {
    FindFirstLeast(Free(a, f), 0);
  }

  lemma {:induction false} UsePassTakesLowest(ops: seq<Operand>, a: Alloc, entries: seq<Entry>, g: bool)
    requires |entries| == |ops| && FreeSmall(a) && UsePass(ops, a, entries).Some?
    ensures TookLowest(Free(a, g), Free(UsePass(ops, a, entries).value.alloc, g))
    decreases |ops|
  {
    if ops != [] {
      if ReadsSomeVirt(ops[0]) && ops[0].loc.index !in a.regs {
        var v, f := ops[0].loc.index, ops[0].loc.float;
        var a' := Obtain(v, f, a).value;
        ObtainTakesLowest(v, f, a, g);
        UsePassTakesLowest(ops[1..], a', entries[1..], g);
        TookLowestTwice(Free(a, g), Free(a', g), Free(UsePass(ops, a, entries).value.alloc, g));
      } else {
        UsePassTakesLowest(ops[1..], a, entries[1..], g);
      }
    }
  }

  /** Taking the lowest free registers: if all that was in use was among the lowest k, then all that has ever been in
      use is exactly the lowest so many as were ever in use at once. */
  lemma UsedStaysLowest(mask: set<nat>, k: nat, free: set<nat>, free': set<nat>)
    requires free <= mask && TookLowest(free, free') && k <= |mask| && mask - free <= Lowest(mask, k)
    ensures var used := |mask - free'|;
            Lowest(mask, k) + (mask - free') == Lowest(mask, if used > k then used else k)
  {
    var used := mask - free';
    SubsetSize(used, mask);
    forall t | t in free - free' ensures Rank(mask, t) < |used| {
      forall q | q in mask && q < t ensures q in used { if q in free { assert q !in free'; } }
      RankBelow(mask, used, t);
    }
    if |used| <= k {
      assert used <= Lowest(mask, k);
      assert Lowest(mask, k) + used == Lowest(mask, k);
    } else {
      forall x | x in used ensures x in Lowest(mask, |used|) {
        if x !in free { assert x in Lowest(mask, k); }
      }
      LowestSize(mask, |used|);
      SameSize(used, Lowest(mask, |used|));
      assert Lowest(mask, k) <= Lowest(mask, |used|);
    }
  }

  lemma SameSize(s: set<nat>, t: set<nat>)
    requires s <= t && |s| == |t|
    ensures s == t
  {
    assert t == s + (t - s);
    assert |t - s| == 0;
  }

  // ---------------------------------------------------------------------------------------------
  // Over a whole list
  // ---------------------------------------------------------------------------------------------

  function InUse(p: Setup, a: Alloc, f: bool): set<nat> {
    Mask(p, f) - Free(a, f)
  }

  /** The registers of a bank that are in use somewhere while the list is allocated. */
  function EverUsed(p: Setup, code: seq<Insn>, f: bool): set<nat>
    requires Allocate(code, p.ints, p.floats).Some?
  {
    if code == [] then {}
    else
      var rest, a := EverUsed(p, code[1..], f), Allocate(code[1..], p.ints, p.floats).value.alloc;
      if Killed(code[0], a) || Used(code[0], a).None? then rest else rest + InUse(p, Used(code[0], a).value.alloc, f)
  }

  /** How many registers of a bank an instruction needs at once: those live before it, and its scratch register. */
  function Demand(p: Setup, n: Insn, after: set<nat>, f: bool): nat {
    if Useless(n, after) then 0 else |InBank(p, LiveBefore(n, after), f)| + Scratch(n, after, f)
  }

  /** The most any instruction needs. */
  function Peak(p: Setup, code: seq<Insn>, f: bool): nat {
    if code == [] then 0
    else
      var d, rest := Demand(p, code[0], Live(code[1..]), f), Peak(p, code[1..], f);
      if d > rest then d else rest
  }

  lemma KilledIsUseless(p: Setup, n: Insn, code: seq<Insn>, a: Alloc, live: set<nat>)
    requires Ready(p, n, code, a, live)
    ensures Killed(n, a) <==> Useless(n, live)
  {
    EntryIsLive(p, n, code, a, live);
  }

  lemma InUseSize(p: Setup, a: Alloc, f: bool)
    requires Free(a, f) <= Mask(p, f)
    ensures |InUse(p, a, f)| + |Free(a, f)| == |Mask(p, f)|
  {
    assert Mask(p, f) == Free(a, f) + InUse(p, a, f);
  }

  /** As many registers are in use while an instruction executes as it needs. */
  lemma InUseIsDemand(p: Setup, n: Insn, code: seq<Insn>, a: Alloc, live: set<nat>, f: bool)
    requires Ready(p, n, code, a, live) && Counted(p, a, live, f) && AllocateInsn(n, a).Some? && !Useless(n, live)
    ensures Used(n, a).Some? && |InUse(p, Used(n, a).value.alloc, f)| == Demand(p, n, live, f)
  {
    UsesInv(p, n, code, a, live);
    InUseSize(p, Used(n, a).value.alloc, f);
    FreeWhileUsed(p, n, code, a, live, f);
  }

  lemma FreeWhileUsed(p: Setup, n: Insn, code: seq<Insn>, a: Alloc, live: set<nat>, f: bool)
    requires Ready(p, n, code, a, live) && Counted(p, a, live, f) && AllocateInsn(n, a).Some? && !Useless(n, live)
    ensures Used(n, a).Some? && |Free(Used(n, a).value.alloc, f)| == |Mask(p, f)| - Demand(p, n, live, f)
  {
    Survives(p, n, code, a, live);
    UsesCount(p, n, code, a, live, f);
    DefPassInv(p, n, code, a, live);
    MidTypes(p, n, a);
    UsePassCount(p, Mid(n, a).operands, Mid(n, a).alloc, Mid(n, a).entries);
  }

  /** What is taken while an instruction executes is the lowest there was, of a free set no smaller than after it. */
  lemma InsnTakesLowest(p: Setup, n: Insn, code: seq<Insn>, a: Alloc, live: set<nat>, f: bool) returns (free: set<nat>)
    requires Ready(p, n, code, a, live) && AllocateInsn(n, a).Some? && !Useless(n, live)
    ensures Used(n, a).Some? && Free(a, f) <= free <= Mask(p, f) && TookLowest(free, Free(Used(n, a).value.alloc, f))
  {
    Survives(p, n, code, a, live);
    DefPassInv(p, n, code, a, live);
    var d := Mid(n, a);
    assert FreeSmall(d.alloc);
    UsePassTakesLowest(d.operands, d.alloc, d.entries, f);
    if UnusedKeep(n, live) {
      DefPassIs(n.operands, n.keep, a);
      assert FreeSmall(a);
      ObtainTakesLowest(DefOf(n.operands).value, DefBank(n.operands), a, f);
      TookLowestTwice(Free(a, f), Free(d.alloc, f), Free(Used(n, a).value.alloc, f));
      free := Free(a, f);
    } else {
      DefPassIs(n.operands, n.keep, a);
      free := Free(d.alloc, f);
    }
  }

  /** What is in use before the list was in use somewhere. */
  lemma {:induction false} InUseWasUsed(p: Setup, code: seq<Insn>, f: bool)
    requires CodeOk(p, code) && Allocate(code, p.ints, p.floats).Some?
    ensures InUse(p, Allocate(code, p.ints, p.floats).value.alloc, f) <= EverUsed(p, code, f)
    decreases |code|
  {
    if code != [] {
      ReadyAt(p, code);
      CodeTail(p, code);
      InUseWasUsed(p, code[1..], f);
      var n, tail := code[0], code[1..];
      var a, live := Allocate(tail, p.ints, p.floats).value.alloc, Live(tail);
      KilledIsUseless(p, n, tail, a, live);
      if Killed(n, a) {
        KilledStep(n, a);
      } else {
        Survives(p, n, tail, a, live);
        if UnusedKeep(n, live) {
          UnusedKeepAlloc(p, n, tail, a, live);
          UsesInv(p, n, tail, a, live);
          var u, v := Used(n, a).value.alloc, DefOf(n.operands).value;
          assert u.regs[v] !in Free(u, IsFloat(p, v));
        }
      }
    }
  }

  /** One instruction more. */
  lemma EverUsedStep(p: Setup, n: Insn, code: seq<Insn>, a: Alloc, live: set<nat>, f: bool, k: nat)
    requires Ready(p, n, code, a, live) && Counted(p, a, live, f) && AllocateInsn(n, a).Some? && !Useless(n, live)
    requires k <= |Mask(p, f)| && InUse(p, a, f) <= Lowest(Mask(p, f), k) && Used(n, a).Some?
    ensures var d := Demand(p, n, live, f);
            && d <= |Mask(p, f)|
            && Lowest(Mask(p, f), k) + InUse(p, Used(n, a).value.alloc, f) == Lowest(Mask(p, f), if d > k then d else k)
  {
    var free := InsnTakesLowest(p, n, code, a, live, f);
    InUseIsDemand(p, n, code, a, live, f);
    assert Mask(p, f) - free <= InUse(p, a, f);
    UsedStaysLowest(Mask(p, f), k, free, Free(Used(n, a).value.alloc, f));
    SubsetSize(InUse(p, Used(n, a).value.alloc, f), Mask(p, f));
  }

  /** First fit: the registers ever in use are exactly the lowest of the bank, as many as are ever needed at once. */
  lemma {:induction false} EverUsedIsLowest(p: Setup, code: seq<Insn>, f: bool)
    requires CodeOk(p, code) && Allocate(code, p.ints, p.floats).Some?
    ensures Peak(p, code, f) <= |Mask(p, f)| && EverUsed(p, code, f) == Lowest(Mask(p, f), Peak(p, code, f))
    decreases |code|
  {
    if code != [] {
      ReadyAt(p, code);
      CodeTail(p, code);
      var n, tail := code[0], code[1..];
      var a, live := Allocate(tail, p.ints, p.floats).value.alloc, Live(tail);
      EverUsedIsLowest(p, tail, f);
      InUseWasUsed(p, tail, f);
      AllocateSucceedsExactly(p, tail);
      KilledIsUseless(p, n, tail, a, live);
      if !Killed(n, a) {
        Survives(p, n, tail, a, live);
        EverUsedStep(p, n, tail, a, live, f, Peak(p, tail, f));
      }
    }
  }

  /** Instruction j needs more than k registers of the bank at once. */
  predicate NeedsMore(p: Setup, code: seq<Insn>, j: nat, f: bool, k: nat) {
    j < |code| && Demand(p, code[j], Live(code[j + 1..]), f) > k
  }

  lemma NeedsMoreTail(p: Setup, code: seq<Insn>, j: nat, f: bool, k: nat)
    requires code != []
    ensures NeedsMore(p, code[1..], j, f, k) <==> NeedsMore(p, code, j + 1, f, k)
  {
    if j < |code| - 1 { assert code[1..][j] == code[j + 1] && code[1..][j + 1..] == code[j + 2..]; }
  }

  lemma {:induction false} PeakIsReached(p: Setup, code: seq<Insn>, f: bool, k: nat)
    ensures Peak(p, code, f) > k <==> exists j: nat :: NeedsMore(p, code, j, f, k)
    decreases |code|
  {
    if code == [] {
      forall j: nat ensures !NeedsMore(p, code, j, f, k) {}
    } else {
      PeakIsReached(p, code[1..], f, k);
      PeakStep(p, code, f, k, Peak(p, code[1..], f) > k);
      PeakOver(p, code, f, k);
    }
  }

  lemma PeakOver(p: Setup, code: seq<Insn>, f: bool, k: nat)
    requires code != []
    ensures Peak(p, code, f) > k <==> Demand(p, code[0], Live(code[1..]), f) > k || Peak(p, code[1..], f) > k
  {
  }

  lemma PeakStep(p: Setup, code: seq<Insn>, f: bool, k: nat, later: bool)
    requires code != [] && (later <==> exists j: nat :: NeedsMore(p, code[1..], j, f, k))
    ensures (Demand(p, code[0], Live(code[1..]), f) > k || later) <==> exists j: nat :: NeedsMore(p, code, j, f, k)
  {
    forall j: nat ensures NeedsMore(p, code[1..], j, f, k) <==> NeedsMore(p, code, j + 1, f, k) {
      NeedsMoreTail(p, code, j, f, k);
    }
    if later {
      var j: nat :| NeedsMore(p, code[1..], j, f, k);
      assert NeedsMore(p, code, j + 1, f, k);
    }
    if Demand(p, code[0], Live(code[1..]), f) > k { assert NeedsMore(p, code, 0, f, k); }
    if j: nat :| NeedsMore(p, code, j, f, k) {
      if j > 0 { assert NeedsMore(p, code[1..], j - 1, f, k); }
    }
  }

  /** A register is handed out exactly when it may be, and some instruction needs more registers at once than come
      before it. */
  lemma HandedOutExactly(p: Setup, code: seq<Insn>, r: PhysReg)
    requires CodeOk(p, code) && Allocate(code, p.ints, p.floats).Some?
    ensures r.number in EverUsed(p, code, r.float) <==>
              r.number in Mask(p, r.float) && exists j: nat ::
                  NeedsMore(p, code, j, r.float, Rank(Mask(p, r.float), r.number))
  {
    EverUsedIsLowest(p, code, r.float);
    PeakIsReached(p, code, r.float, Rank(Mask(p, r.float), r.number));
  }

  function Below(n: nat): (s: set<nat>)
    ensures |s| == n && forall q: nat :: q in s <==> q < n
  {
    if n == 0 then {} else Below(n - 1) + {n - 1}
  }

  /** The registers before number n, but for one. */
  function BelowBut(n: nat, gap: nat): set<nat> {
    Below(n) - {gap}
  }

  lemma RankBelowBut(n: nat, gap: nat, r: nat)
    requires r < n && r != gap
    ensures r in BelowBut(n, gap) && Rank(BelowBut(n, gap), r) == if gap < r then r - 1 else r
  {
    assert (set q | q in BelowBut(n, gap) && q < r) == BelowBut(r, gap);
  }

  /** With the backend's mask, which leaves out only number 22, the memory base x18 has eighteen registers before it and
      the context pointer x29 twenty-eight. */
  lemma BaseRanks()
    ensures 18 in BelowBut(32, 22) && Rank(BelowBut(32, 22), 18) == 18
    ensures 29 in BelowBut(32, 22) && Rank(BelowBut(32, 22), 29) == 28
  {
    RankBelowBut(32, 22, 18);
    RankBelowBut(32, 22, 29);
  }

  /** The backend hands out the memory base exactly when some instruction needs more than eighteen integer registers at
      once, and the context pointer when one needs more than twenty-eight. */
  lemma BasesHandedOutExactly(p: Setup, code: seq<Insn>)
    requires CodeOk(p, code) && Allocate(code, p.ints, p.floats).Some? && p.ints == BelowBut(32, 22)
    ensures 18 in EverUsed(p, code, false) <==> exists j: nat :: NeedsMore(p, code, j, false, 18)
    ensures 29 in EverUsed(p, code, false) <==> exists j: nat :: NeedsMore(p, code, j, false, 28)
  {
    BaseRanks();
    HandedOutExactly(p, code, PhysReg(false, 18));
    HandedOutExactly(p, code, PhysReg(false, 29));
  }
}
