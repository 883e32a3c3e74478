/** The register-cache part of the RISC-V translation context, as an object whose bitsets and code buffer its methods
    update. Every method is the corresponding function of RegCache on the object's state. */
module RegCacheContext {
  import opened RegCache

  class TranslationContext {
    var regLoaded: set<nat>
    var regWritten: set<nat>
    var flagLoaded: set<nat>
    var flagWritten: set<nat>
    var code: seq<HostInsn>

    ghost function State(): Tracker
      reads this
    {
      Tracker(regLoaded, regWritten, flagLoaded, flagWritten, code)
    }

    constructor ()
      ensures State() == BeginBlock()
    {
      regLoaded, regWritten, flagLoaded, flagWritten, code := {0, 1, 2, 3, 4, 5, 6, 7}, {}, {}, {}, [];
    }

    method Begin()
      modifies this
      ensures State() == BeginBlock()
    {
      regLoaded, regWritten, flagLoaded, flagWritten, code := {0, 1, 2, 3, 4, 5, 6, 7}, {}, {}, {}, [];
    }

    method GetOrLoadMappedRegister(idx: nat) returns (reg: nat)
      requires IsMapped(idx)
      modifies this
      ensures State() == GetOrLoad(old(State()), idx) && reg == idx - 1
    {
      if IsGpr(idx) {
        var i := idx - 1;
        reg := i;
        if i !in regLoaded {
          regLoaded := regLoaded + {i};
          code := code + [Ld(reg, 8 * idx)];
        }
      } else {
        var i := idx - FIRST_FLAG;
        reg := 16 + i;
        if i !in flagLoaded {
          flagLoaded := flagLoaded + {i};
          code := code + [Lb(reg, FLAG_OFF + i)];
        }
      }
    }

    method GetOrAssignMappedRegister(idx: nat) returns (reg: nat)
      requires IsMapped(idx)
      modifies this
      ensures State() == GetOrAssign(old(State()), idx) && reg == idx - 1
    {
      if IsGpr(idx) {
        var i := idx - 1;
        regWritten, regLoaded := regWritten + {i}, regLoaded + {i};
        reg := i;
      } else {
        var i := idx - FIRST_FLAG;
        flagWritten, flagLoaded := flagWritten + {i}, flagLoaded + {i};
        reg := 16 + i;
      }
    }

    method MaterialiseAccess(a: Access)
      requires AccessOk(a)
      modifies this
      ensures State() == Materialise(old(State()), a)
    {
      match a {
        case Read(idx, v) =>
          var reg := GetOrLoadMappedRegister(idx);
          code := code + [FromMapped(v, reg)];
        case Write(idx, v) =>
          var reg := GetOrAssignMappedRegister(idx);
          code := code + [ToMapped(reg, v)];
        case Compute(v, f) =>
          code := code + [Calc(v, f)];
      }
    }

    /** The registers the instruction reads, by a walk over its nodes. */
    static method RegistersUsed(p: Instruction) returns (used: set<nat>)
      ensures forall idx :: idx in used <==> ReadsReg(p, idx)
    {
      used := {};
      for k := 0 to |p|
        invariant forall idx :: idx in used <==> ReadsReg(p[..k], idx)
      {
        assert p[..k + 1] == p[..k] + [p[k]];
        ghost var before := used;
        if p[k].Read? { used := used + {p[k].idx}; }
        forall idx ensures idx in used <==> ReadsReg(p[..k + 1], idx) {
          if ReadsReg(p[..k], idx) {
            var i :| 0 <= i < k && p[..k][i].Read? && p[..k][i].idx == idx;
            assert p[..k + 1][i] == p[..k][i];
          }
          if p[k].Read? && p[k].idx == idx { assert p[..k + 1][k] == p[k]; }
          if ReadsReg(p[..k + 1], idx) {
            var i :| 0 <= i < k + 1 && p[..k + 1][i].Read? && p[..k + 1][i].idx == idx;
            assert i < k ==> p[..k][i] == p[..k + 1][i];
          }
        }
      }
      assert p[..|p|] == p;
    }

    method End(p: Instruction)
      requires InstructionOk(p)
      modifies this
      ensures State() == EndInstruction(old(State()), p)
    {
      var used := RegistersUsed(p);
      var idx := 1;
      while idx <= LAST
        invariant 1 <= idx <= LAST + 1
        invariant Preload(State(), p, idx) == Preload(old(State()), p, 1)
      {
        if idx in used {
          var _ := GetOrLoadMappedRegister(idx);
        }
        idx := idx + 1;
      }
      for k := 0 to |p|
        invariant MaterialiseAll(State(), p[k..]) == EndInstruction(old(State()), p)
      {
        assert p[k..][0] == p[k] && p[k..][1..] == p[k + 1..];
        MaterialiseAccess(p[k]);
      }
    }

    method WriteBackRegisters()
      modifies this
      ensures State() == WriteBack(old(State()))
    {
      var i := 8;
      while i < 16
        invariant 8 <= i <= 16
        invariant WriteBackRegs(State(), i) == WriteBackRegs(old(State()), 8)
      {
        if i in regWritten {
          code := code + [Sd(i, 8 * i + 8)];
        }
        i := i + 1;
      }
      i := 0;
      while i < 8
        invariant 0 <= i <= 8
        invariant WriteBackFlags(State(), i) == WriteBack(old(State()))
      {
        if i in flagWritten {
          code := code + [Sb(16 + i, FLAG_OFF + i)];
        }
        i := i + 1;
      }
    }
  }
}
