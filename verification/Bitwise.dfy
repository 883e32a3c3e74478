/** The RISC-V lowering of bit extraction and insertion.

    Words are their 64 bits, lowest first. Both builders choose between several instruction sequences by the place
    of the field, and values wider than a register are held in two of them. */
module Bitwise {
  type Word = s: seq<bool> | |s| == 64 witness Zeros()

  function Zeros(): (r: seq<bool>)
    ensures |r| == 64
  {
    seq(64, _ => false)
  }

  function Sll(x: Word, n: nat): Word {
    seq(64, k requires 0 <= k < 64 => k >= n && x[k - n])
  }

  function Srl(x: Word, n: nat): Word {
    seq(64, k requires 0 <= k < 64 => k + n < 64 && x[k + n])
  }

  function Sra(x: Word, n: nat): Word {
    seq(64, k requires 0 <= k < 64 => if k + n < 64 then x[k + n] else x[63])
  }

  /** srliw: the low word shifted, and the 32-bit result sign-extended. */
  function SrlW(x: Word, n: nat): Word {
    seq(64, k requires 0 <= k < 64 => if k < 31 then k + n < 32 && x[k + n] else n == 0 && x[31])
  }

  function SextWord(x: Word): Word {
    seq(64, k requires 0 <= k < 64 => if k < 32 then x[k] else x[31])
  }

  function BitAnd(x: Word, y: Word): Word {
    seq(64, k requires 0 <= k < 64 => x[k] && y[k])
  }

  function BitOr(x: Word, y: Word): Word {
    seq(64, k requires 0 <= k < 64 => x[k] || y[k])
  }

  function Not(x: Word): Word {
    seq(64, k requires 0 <= k < 64 => !x[k])
  }

  /** 2^length - 1. */
  function LowMask(length: nat): Word {
    seq(64, k requires 0 <= k < 64 => k < length)
  }

  /** A 12-bit sign-extended immediate. */
  predicate IsITypeImm(x: Word) {
    forall k :: 11 <= k < 64 ==> x[k] == x[11]
  }

  // ---------------------------------------------------------------------------------------------
  // The instructions used
  // ---------------------------------------------------------------------------------------------

  datatype Insn =
    | Andi(rd: nat, rs: nat, imm: Word)
    | And(rd: nat, rs: nat, rs2: nat)
    | Or(rd: nat, rs: nat, rs2: nat)
    | Slli(rd: nat, rs: nat, sh: nat)
    | Srli(rd: nat, rs: nat, sh: nat)
    | Srai(rd: nat, rs: nat, sh: nat)
    | SrliW(rd: nat, rs: nat, sh: nat)
    | SextW(rd: nat, rs: nat)
    | Li(rd: nat, value: Word)

  type Regs = map<nat, Word>

  function Get(g: Regs, r: nat): Word {
    if r in g then g[r] else Zeros()
  }

  /** Immediates and shift amounts the instruction can encode. */
  predicate Encodable(i: Insn) {
    match i
    case Andi(_, _, imm) => IsITypeImm(imm)
    case Slli(_, _, n) => n < 64
    case Srli(_, _, n) => n < 64
    case Srai(_, _, n) => n < 64
    case SrliW(_, _, n) => n < 32
    case _ => true
  }

  function Exec(i: Insn, g: Regs): Regs {
    match i
    case Andi(d, s, imm) => g[d := BitAnd(Get(g, s), imm)]
    case And(d, s, t) => g[d := BitAnd(Get(g, s), Get(g, t))]
    case Or(d, s, t) => g[d := BitOr(Get(g, s), Get(g, t))]
    case Slli(d, s, n) => g[d := Sll(Get(g, s), n)]
    case Srli(d, s, n) => g[d := Srl(Get(g, s), n)]
    case Srai(d, s, n) => g[d := Sra(Get(g, s), n)]
    case SrliW(d, s, n) => g[d := SrlW(Get(g, s), n)]
    case SextW(d, s) => g[d := SextWord(Get(g, s))]
    case Li(d, v) => g[d := v]
  }

  /** Executes a list that was built by appending. */
  function ExecAll(code: seq<Insn>, g: Regs): Regs {
    if code == [] then g else Exec(code[|code| - 1], ExecAll(code[..|code| - 1], g))
  }

  lemma ExecAppend(code: seq<Insn>, i: Insn, g: Regs)
    ensures ExecAll(code + [i], g) == Exec(i, ExecAll(code, g))
  {
    assert (code + [i])[..|code|] == code;
  }

  // ---------------------------------------------------------------------------------------------
  // Fields
  // ---------------------------------------------------------------------------------------------

  /** The low bits of r are the bits of x from position from on. */
  predicate Extracts(r: Word, x: Word, from: nat, length: nat)
    requires from + length <= 64
  {
    r[..length] == x[from..from + length]
  }

  /** Every bit from the field's top bit on is that bit. */
  predicate SignExtended(r: Word, length: nat)
    requires 1 <= length <= 64
  {
    forall k :: length <= k < 64 ==> r[k] == r[length - 1]
  }

  /** r is s with its bits at .. at+length replaced by the low bits of b. */
  predicate Replaces(r: Word, s: Word, b: Word, at: nat, length: nat)
    requires at + length <= 64
  {
    r == s[..at] + b[..length] + s[at + length..]
  }

  lemma ShiftsExtract(x: Word, from: nat, length: nat)
    requires 1 <= length && from + length <= 64
    ensures Extracts(Sra(Sll(x, 64 - (from + length)), 64 - length), x, from, length)
    ensures SignExtended(Sra(Sll(x, 64 - (from + length)), 64 - length), length)
    ensures from + length == 64 ==>
      Extracts(Sra(x, 64 - length), x, from, length) && SignExtended(Sra(x, 64 - length), length)
  {
  }

  lemma WordExtracts(x: Word)
    ensures Extracts(SextWord(x), x, 0, 32) && SignExtended(SextWord(x), 32)
  {
  }

  /** The four ways of extracting one bit leave it alone in the word. */
  lemma FlagExtracts(x: Word, from: nat)
    requires from < 64
    ensures IsBit(BitAnd(Srl(x, from), LowMask(1)), x[from])
    ensures IsBit(BitAnd(x, LowMask(1)), x[0]) && IsBit(Srl(x, 63), x[63]) && IsBit(SrlW(x, 31), x[31])
  {
  }

  predicate IsBit(r: Word, b: bool) {
    forall k :: 0 <= k < 64 ==> r[k] == (k == 0 && b)
  }

  function InsertMask(at: nat, length: nat): Word {
    Not(Sll(LowMask(length), at))
  }

  lemma ShiftsInsert(s: Word, b: Word, at: nat, length: nat)
    requires 1 <= length && at + length <= 64
    ensures Replaces(BitOr(BitAnd(s, InsertMask(at, length)), Srl(Sll(b, 64 - length), 64 - (length + at))), s, b,
                     at, length)
  {
  }

  lemma SrlZero(x: Word)
    ensures Srl(x, 0) == x
  {
  }

  lemma MaskInserts(s: Word, b: Word, length: nat)
    requires 1 <= length < 64
    ensures Replaces(BitOr(BitAnd(s, InsertMask(0, length)), BitAnd(b, Not(InsertMask(0, length)))), s, b, 0, length)
    ensures IsITypeImm(InsertMask(0, length)) <==> length <= 11
    ensures IsITypeImm(InsertMask(0, length)) ==> IsITypeImm(Not(InsertMask(0, length)))
  {
    var m := InsertMask(0, length);
    assert forall k :: 0 <= k < 64 ==> m[k] == (k >= length);
    if IsITypeImm(m) { assert m[63] == m[11]; }
  }

  // ---------------------------------------------------------------------------------------------
  // The sequences
  // ---------------------------------------------------------------------------------------------

  datatype OutType = FlagOut | GprOut | OtherOut

  /** An operand in one register, or a 128-bit one in two. */
  datatype Source = One(reg: nat) | Two(low: nat, high: nat)

  function Part(s: Source, pos: nat): nat {
    if s.One? then s.reg else if pos < 64 then s.low else s.high
  }

  /** The 64 or 128 bits of an operand, lowest first. */
  function Value(g: Regs, s: Source): (r: seq<bool>)
    ensures |r| == if s.One? then 64 else 128
  {
    if s.One? then Get(g, s.reg) else Get(g, s.low) + Get(g, s.high)
  }

  /** A field that does not cross the two registers lies in one of them. */
  lemma PartHolds(g: Regs, s: Source, from: nat, length: nat)
    requires 1 <= length && from + length <= |Value(g, s)| && !(from < 64 < from + length)
    ensures var start := if from < 64 then from else from - 64;
            Get(g, Part(s, from))[start..start + length] == Value(g, s)[from..from + length]
  {
  }

  class Builder {
    var code: seq<Insn>
    var next: nat

    constructor (first: nat)
      ensures code == [] && next == first
    {
      code, next := [], first;
    }

    ghost function After(g: Regs): Regs
      reads this
    {
      ExecAll(code, g)
    }

    method Append(i: Insn)
      requires Encodable(i)
      modifies this`code
      ensures code == old(code) + [i]
    {
      code := code + [i];
    }

    method NextRegister() returns (r: nat)
      modifies this`next
      ensures r == old(next) && next == r + 1
    {
      r := next;
      next := next + 1;
    }

    /** False when the lowering throws. A single bit into a flag comes out alone; any other field comes out in the low
        bits with its sign extended through the whole register, and only the destination changes. */
    method BitExtract(out: nat, outType: OutType, src: Source, from0: nat, length: nat) returns (ok: bool)
      requires 1 <= length <= 64 && from0 + length <= if src.One? then 64 else 128
      requires outType == FlagOut ==> length == 1 && src.One?
      modifies this`code
      ensures ok <==> outType == FlagOut || (outType == GprOut && !(from0 < 64 < from0 + length))
      ensures !ok ==> code == old(code)
      ensures ok ==> code == old(code) + ExtractCode(out, outType, src, from0, length)
      ensures ok ==> forall g ::
        var from := if from0 < 64 then from0 else from0 - 64;
        && ExtractedFrom(old(After(g)), After(g), out, Part(src, from0), from, length)
        && (outType == GprOut ==> SignExtended(Get(After(g), out), length))
        && (outType == FlagOut ==> FlagExtractedFrom(old(After(g)), After(g), out, Part(src, from0), from))
    {
      if outType == FlagOut {
        ExtractFlag(out, src.reg, from0);
        return true;
      }
      if outType != GprOut || (from0 < 64 && from0 + length > 64) {
        return false;
      }
      var src1 := Part(src, from0);
      var from := if from0 >= 64 then from0 - 64 else from0;
      ExtractField(out, src1, from, length);
      return true;
    }

    method ExtractFlag(out: nat, src: nat, from: nat)
      requires from < 64
      modifies this`code
      ensures code == old(code) + FlagCode(out, src, from)
      ensures forall g :: FlagExtractedFrom(old(After(g)), After(g), out, src, from)
    {
      ghost var code0 := code;
      if from == 0 {
        Append(Andi(out, src, LowMask(1)));
      } else if from == 63 {
        Append(Srli(out, src, 63));
      } else if from == 31 {
        Append(SrliW(out, src, 31));
      } else {
        Append(Srli(out, src, from));
        Append(Andi(out, out, LowMask(1)));
      }
      assert code == code0 + FlagCode(out, src, from);
      forall g ensures FlagExtractedFrom(ExecAll(code0, g), ExecAll(code, g), out, src, from) {
        ExecConcat(code0, FlagCode(out, src, from), g);
        FlagCodeExtracts(ExecAll(code0, g), out, src, from);
      }
    }

    method ExtractField(out: nat, src: nat, from: nat, length: nat)
      requires 1 <= length && from + length <= 64
      modifies this`code
      ensures code == old(code) + FieldCode(out, src, from, length)
      ensures forall g ::
        ExtractedFrom(old(After(g)), After(g), out, src, from, length) && SignExtended(Get(After(g), out), length)
    {
      ghost var code0 := code;
      if from == 0 && length == 32 {
        Append(SextW(out, src));
      } else {
        var temp := if length + from < 64 then out else src;
        if length + from < 64 {
          Append(Slli(out, src, 64 - (from + length)));
        }
        Append(Srai(out, temp, 64 - length));
      }
      assert code == code0 + FieldCode(out, src, from, length);
      forall g
        ensures ExtractedFrom(ExecAll(code0, g), ExecAll(code, g), out, src, from, length)
        ensures SignExtended(Get(ExecAll(code, g), out), length)
      {
        ExecConcat(code0, FieldCode(out, src, from, length), g);
        FieldCodeExtracts(ExecAll(code0, g), out, src, from, length);
      }
    }

    /** False when the field crosses the two registers of a 128-bit destination: then nothing is emitted. wide is what
        the host computes for the mask of a field that starts at bit 64 or above, which is shifted by as much. With the
        right mask exactly the field is replaced, and of the registers in use only the half of the destination it lies
        in changes. */
    method BitInsert(out: Source, src: Source, bits: nat, at0: nat, length: nat, wide: Word) returns (ok: bool)
      requires 1 <= length < 64 && at0 + length <= if out.One? then 64 else 128
      requires Part(out, at0) < next && Part(src, at0) < next && bits < next && Part(out, at0) != bits
      modifies this
      ensures ok <==> !(at0 < 64 < at0 + length)
      ensures !ok ==> code == old(code) && next == old(next)
      ensures next >= old(next)
      ensures ok ==>
        var at, mask := if at0 < 64 then at0 else at0 - 64, if at0 < 64 then InsertMask(at0, length) else wide;
        code == old(code) +
          InsertCode(Part(out, at0), Part(src, at0), bits, at, length, mask, old(next), old(next) + 1)
      ensures ok && (at0 >= 64 ==> wide == InsertMask(at0 - 64, length)) ==> forall g ::
        InsertedFrom(old(After(g)), After(g), Part(out, at0), Part(src, at0), bits,
                     if at0 < 64 then at0 else at0 - 64, length, old(next))
    {
      if at0 < 64 && at0 + length > 64 {
        return false;
      }
      var mask := if at0 < 64 then InsertMask(at0, length) else wide;
      var at := if at0 >= 64 then at0 - 64 else at0;
      ghost var code0, first := code, next;
      InsertField(Part(out, at0), Part(src, at0), bits, at, length, mask);
      if at0 < 64 || wide == InsertMask(at0 - 64, length) {
        EmittedInserts(code0, Part(out, at0), Part(src, at0), bits, at, length, first);
      }
      return true;
    }

    method InsertField(out: nat, src: nat, bits: nat, at: nat, length: nat, mask: Word)
      requires 1 <= length < 64 && at + length <= 64
      requires out < next && src < next && bits < next && out != bits
      modifies this
      ensures next >= old(next)
      ensures code == old(code) + InsertCode(out, src, bits, at, length, mask, old(next), old(next) + 1)
    {
      var temp := NextRegister();
      if at == 0 && IsITypeImm(mask) {
        Append(Andi(temp, bits, Not(mask)));
        Append(Andi(out, src, mask));
        Append(Or(out, out, temp));
      } else {
        var temp1 := NextRegister();
        Append(Li(temp1, mask));
        Append(And(out, src, temp1));
        Append(Slli(temp, bits, 64 - length));
        if length + at != 64 {
          Append(Srli(temp, temp, 64 - (length + at)));
        }
        Append(Or(out, out, temp));
      }
    }
  }

  /** g' is g with a field of src in the low bits of out. */
  ghost predicate ExtractedFrom(g: Regs, g': Regs, out: nat, src: nat, from: nat, length: nat)
    requires from + length <= 64
  {
    Extracts(Get(g', out), Get(g, src), from, length) && forall r :: r != out ==> Get(g', r) == Get(g, r)
  }

  /** g' is g with one bit of src, alone, in out. */
  ghost predicate FlagExtractedFrom(g: Regs, g': Regs, out: nat, src: nat, from: nat)
    requires from < 64
  {
    && IsBit(Get(g', out), Get(g, src)[from]) && Extracts(Get(g', out), Get(g, src), from, 1)
    && forall r :: r != out ==> Get(g', r) == Get(g, r)
  }

  function FlagCode(out: nat, src: nat, from: nat): seq<Insn>
    requires from < 64
  {
    if from == 0 then [Andi(out, src, LowMask(1))]
    else if from == 63 then [Srli(out, src, 63)]
    else if from == 31 then [SrliW(out, src, 31)]
    else [Srli(out, src, from), Andi(out, out, LowMask(1))]
  }

  lemma ExecOne(i: Insn, g: Regs)
    ensures ExecAll([i], g) == Exec(i, g)
  {
    assert [i][..0] == [];
  }

  lemma ExecTwo(i: Insn, j: Insn, g: Regs)
    ensures ExecAll([i, j], g) == Exec(j, Exec(i, g))
  {
    ExecOne(i, g);
    assert [i, j][..1] == [i];
  }

  lemma FlagCodeExtracts(g: Regs, out: nat, src: nat, from: nat)
    requires from < 64
    ensures FlagExtractedFrom(g, ExecAll(FlagCode(out, src, from), g), out, src, from)
  {
    FlagExtracts(Get(g, src), from);
    if from == 0 || from == 63 || from == 31 {
      ExecOne(FlagCode(out, src, from)[0], g);
    } else {
      ExecTwo(Srli(out, src, from), Andi(out, out, LowMask(1)), g);
    }
  }

  function FieldCode(out: nat, src: nat, from: nat, length: nat): seq<Insn>
    requires 1 <= length && from + length <= 64
  {
    if from == 0 && length == 32 then [SextW(out, src)]
    else if length + from < 64 then [Slli(out, src, 64 - (from + length)), Srai(out, out, 64 - length)]
    else [Srai(out, src, 64 - length)]
  }

  /** What is emitted to extract a field. */
  function ExtractCode(out: nat, outType: OutType, src: Source, from: nat, length: nat): seq<Insn>
    requires 1 <= length <= 64 && from + length <= if src.One? then 64 else 128
    requires (outType == FlagOut ==> src.One?) && !(from < 64 < from + length)
  {
    if outType == FlagOut then FlagCode(out, src.reg, from)
    else FieldCode(out, Part(src, from), if from < 64 then from else from - 64, length)
  }

  lemma TwoShiftsExtract(g: Regs, out: nat, src: nat, from: nat, length: nat)
    requires 1 <= length && from + length < 64
    ensures var code := [Slli(out, src, 64 - (from + length)), Srai(out, out, 64 - length)];
            ExtractedFrom(g, ExecAll(code, g), out, src, from, length) &&
                SignExtended(Get(ExecAll(code, g), out), length)
  {
    ShiftsExtract(Get(g, src), from, length);
    ExecTwo(Slli(out, src, 64 - (from + length)), Srai(out, out, 64 - length), g);
  }

  lemma FieldCodeExtracts(g: Regs, out: nat, src: nat, from: nat, length: nat)
    requires 1 <= length && from + length <= 64
    ensures ExtractedFrom(g, ExecAll(FieldCode(out, src, from, length), g), out, src, from, length)
    ensures SignExtended(Get(ExecAll(FieldCode(out, src, from, length), g), out), length)
  {
    if from == 0 && length == 32 {
      WordExtracts(Get(g, src));
      ExecOne(SextW(out, src), g);
    } else if length + from < 64 {
      TwoShiftsExtract(g, out, src, from, length);
    } else {
      ShiftsExtract(Get(g, src), from, length);
      ExecOne(Srai(out, src, 64 - length), g);
    }
  }

  /** g' is g with the field inserted into out, but for registers from first on. */
  ghost predicate InsertedFrom(g: Regs, g': Regs, out: nat, src: nat, bits: nat, at: nat, length: nat, first: nat)
    requires at + length <= 64
  {
    && Replaces(Get(g', out), Get(g, src), Get(g, bits), at, length)
    && forall r: nat :: r < first && r != out ==> Get(g', r) == Get(g, r)
  }

  lemma {:induction false} ExecConcat(a: seq<Insn>, b: seq<Insn>, g: Regs)
    ensures ExecAll(a + b, g) == ExecAll(b, ExecAll(a, g))
    decreases |b|
  {
    if b == [] {
      assert a + b == a;
    } else {
      ExecConcat(a, b[..|b| - 1], g);
      assert (a + b)[..|a + b| - 1] == a + b[..|b| - 1];
    }
  }

  function LowCode(out: nat, src: nat, bits: nat, mask: Word, temp: nat): seq<Insn> {
    [Andi(temp, bits, Not(mask)), Andi(out, src, mask), Or(out, out, temp)]
  }

  lemma ExecThree(i: Insn, j: Insn, k: Insn, g: Regs)
    ensures ExecAll([i, j, k], g) == Exec(k, Exec(j, Exec(i, g)))
  {
    assert [i, j, k][..2] == [i, j] && [i, j][..1] == [i] && [i][..0] == [];
    assert ExecAll([i], g) == Exec(i, g);
  }

  /** What the low path leaves in the destination. */
  lemma LowCodeRuns(g: Regs, out: nat, src: nat, bits: nat, mask: Word, temp: nat)
    requires out < temp && src < temp && bits < temp
    ensures var g' := ExecAll(LowCode(out, src, bits, mask, temp), g);
            && Get(g', out) == BitOr(BitAnd(Get(g, src), mask), BitAnd(Get(g, bits), Not(mask)))
            && forall r: nat :: r < temp && r != out ==> Get(g', r) == Get(g, r)
  {
    ExecThree(Andi(temp, bits, Not(mask)), Andi(out, src, mask), Or(out, out, temp), g);
  }

  function ShiftCode(out: nat, src: nat, bits: nat, at: nat, length: nat, mask: Word, temp: nat, temp1: nat): seq<Insn>
    requires 1 <= length && at + length <= 64
  {
    [Li(temp1, mask), And(out, src, temp1), Slli(temp, bits, 64 - length)]
    + (if length + at != 64 then [Srli(temp, temp, 64 - (length + at))] else [])
    + [Or(out, out, temp)]
  }

  /** The registers once the mask has been applied and the bits put in place. */
  function Prepared(g: Regs, out: nat, src: nat, bits: nat, at: nat, length: nat, mask: Word, temp: nat,
                    temp1: nat): Regs
    requires 1 <= length && at + length <= 64
  {
    var shifted := Sll(Get(g, bits), 64 - length);
    var g1 := g[temp1 := mask][out := BitAnd(Get(g, src), mask)][temp := shifted];
    if length + at != 64 then g1[temp := Srl(shifted, 64 - (length + at))] else g1
  }

  lemma ShiftCodeExecs(g: Regs, out: nat, src: nat, bits: nat, at: nat, length: nat, mask: Word, temp: nat, temp1: nat)
    requires 1 <= length && at + length <= 64 && out < temp && src < temp && bits < temp && temp < temp1 && out != bits
    ensures ExecAll(ShiftCode(out, src, bits, at, length, mask, temp, temp1), g)
         == Exec(Or(out, out, temp), Prepared(g, out, src, bits, at, length, mask, temp, temp1))
  {
    var i, j, k := Li(temp1, mask), And(out, src, temp1), Slli(temp, bits, 64 - length);
    var s := Srli(temp, temp, 64 - (length + at));
    ExecThree(i, j, k, g);
    assert ExecAll([i, j, k], g)
        == g[temp1 := mask][out := BitAnd(Get(g, src), mask)][temp := Sll(Get(g, bits), 64 - length)];
    if length + at != 64 {
      ExecAppend([i, j, k], s, g);
      ExecAppend([i, j, k] + [s], Or(out, out, temp), g);
    } else {
      assert [i, j, k] + [] == [i, j, k];
      ExecAppend([i, j, k], Or(out, out, temp), g);
    }
  }

  /** What the shift path leaves in the destination. */
  lemma ShiftCodeRuns(g: Regs, out: nat, src: nat, bits: nat, at: nat, length: nat, mask: Word, temp: nat, temp1: nat)
    requires 1 <= length && at + length <= 64 && out < temp && src < temp && bits < temp && temp < temp1 && out != bits
    ensures var g' := ExecAll(ShiftCode(out, src, bits, at, length, mask, temp, temp1), g);
            && Get(g', out)
               == BitOr(BitAnd(Get(g, src), mask), Srl(Sll(Get(g, bits), 64 - length), 64 - (length + at)))
            && forall r: nat :: r < temp && r != out ==> Get(g', r) == Get(g, r)
  {
    ShiftCodeExecs(g, out, src, bits, at, length, mask, temp, temp1);
    SrlZero(Sll(Get(g, bits), 64 - length));
  }

  /** What is emitted to insert a field. */
  function InsertCode(out: nat, src: nat, bits: nat, at: nat, length: nat, mask: Word, temp: nat, temp1: nat): seq<Insn>
    requires 1 <= length && at + length <= 64
  {
    if at == 0 && IsITypeImm(mask) then LowCode(out, src, bits, mask, temp)
    else ShiftCode(out, src, bits, at, length, mask, temp, temp1)
  }

  lemma InsertCodeInserts(g: Regs, out: nat, src: nat, bits: nat, at: nat, length: nat, temp: nat, temp1: nat)
    requires 1 <= length < 64 && at + length <= 64 && out < temp && src < temp && bits < temp && temp < temp1
    requires out != bits
    ensures var code := InsertCode(out, src, bits, at, length, InsertMask(at, length), temp, temp1);
            InsertedFrom(g, ExecAll(code, g), out, src, bits, at, length, temp)
  {
    var mask := InsertMask(at, length);
    if at == 0 && IsITypeImm(mask) {
      LowCodeRuns(g, out, src, bits, mask, temp);
      MaskInserts(Get(g, src), Get(g, bits), length);
    } else {
      ShiftCodeRuns(g, out, src, bits, at, length, mask, temp, temp1);
      ShiftsInsert(Get(g, src), Get(g, bits), at, length);
    }
  }

  lemma EmittedInserts(code: seq<Insn>, out: nat, src: nat, bits: nat, at: nat, length: nat, temp: nat)
    requires 1 <= length < 64 && at + length <= 64 && out < temp && src < temp && bits < temp && out != bits
    ensures var emitted := InsertCode(out, src, bits, at, length, InsertMask(at, length), temp, temp + 1);
            forall g :: InsertedFrom(ExecAll(code, g), ExecAll(code + emitted, g), out, src, bits, at, length, temp)
  {
    var emitted := InsertCode(out, src, bits, at, length, InsertMask(at, length), temp, temp + 1);
    forall g ensures InsertedFrom(ExecAll(code, g), ExecAll(code + emitted, g), out, src, bits, at, length, temp) {
      ExecConcat(code, emitted, g);
      InsertCodeInserts(ExecAll(code, g), out, src, bits, at, length, temp, temp + 1);
    }
  }

  function Ones(): Word {
    seq(64, _ => true)
  }

  /** With another mask zeros over ones are not inserted ... */
  lemma WrongMaskShows(out: nat, src: nat, bits: nat, at: nat, length: nat, mask: Word, temp: nat, temp1: nat)
    requires 1 <= length < 64 && at + length <= 64 && out < temp && src < temp && bits < temp && temp < temp1
    requires out != bits && src != bits && mask != InsertMask(at, length)
    ensures var code := InsertCode(out, src, bits, at, length, mask, temp, temp1);
            exists g :: !InsertedFrom(g, ExecAll(code, g), out, src, bits, at, length, temp)
  {
    var g: Regs := map[src := Ones(), bits := Zeros()];
    var code := InsertCode(out, src, bits, at, length, mask, temp, temp1);
    if at == 0 && IsITypeImm(mask) {
      LowCodeRuns(g, out, src, bits, mask, temp);
    } else {
      ShiftCodeRuns(g, out, src, bits, at, length, mask, temp, temp1);
    }
    ZerosOverOnes(mask, at, length);
    assert Get(ExecAll(code, g), out) == mask;
    assert !InsertedFrom(g, ExecAll(code, g), out, src, bits, at, length, temp);
  }

  lemma ZerosOverOnes(mask: Word, at: nat, length: nat)
    requires 1 <= length && at + length <= 64
    ensures BitOr(BitAnd(Ones(), mask), BitAnd(Zeros(), Not(mask))) == mask
    ensures BitOr(BitAnd(Ones(), mask), Srl(Sll(Zeros(), 64 - length), 64 - (length + at))) == mask
    ensures Replaces(mask, Ones(), Zeros(), at, length) ==> mask == InsertMask(at, length)
  {
    assert Ones()[..at] + Zeros()[..length] + Ones()[at + length..] == InsertMask(at, length);
  }

  /** ... so the field is always inserted exactly when the mask is right. */
  lemma InsertsExactly(out: nat, src: nat, bits: nat, at: nat, length: nat, mask: Word, temp: nat, temp1: nat)
    requires 1 <= length < 64 && at + length <= 64 && out < temp && src < temp && bits < temp && temp < temp1
    requires out != bits && src != bits
    ensures var code := InsertCode(out, src, bits, at, length, mask, temp, temp1);
            (forall g :: InsertedFrom(g, ExecAll(code, g), out, src, bits, at, length, temp)) <==>
            mask == InsertMask(at, length)
  {
    if mask == InsertMask(at, length) {
      forall g
        ensures InsertedFrom(g, ExecAll(InsertCode(out, src, bits, at, length, mask, temp, temp1), g), out, src, bits,
                             at, length, temp)
      {
        InsertCodeInserts(g, out, src, bits, at, length, temp, temp1);
      }
    } else {
      WrongMaskShows(out, src, bits, at, length, mask, temp, temp1);
    }
  }

  /** Running what is emitted to insert a field and then what is emitted to extract it gives the inserted bits with
      their sign extended, and changes no other register in use. */
  lemma InsertThenExtract(g: Regs, out: nat, src: nat, bits: nat, at: nat, length: nat, temp: nat, temp1: nat, e: nat)
    requires 1 <= length < 64 && at + length <= 64 && out < temp && src < temp && bits < temp && temp < temp1
    requires out != bits
    ensures var g' := ExecAll(InsertCode(out, src, bits, at, length, InsertMask(at, length), temp, temp1)
                              + FieldCode(e, out, at, length), g);
            && Get(g', e)[..length] == Get(g, bits)[..length] && SignExtended(Get(g', e), length)
            && forall r: nat :: r < temp && r != out && r != e ==> Get(g', r) == Get(g, r)
  {
    var insert := InsertCode(out, src, bits, at, length, InsertMask(at, length), temp, temp1);
    var extract := FieldCode(e, out, at, length);
    ExecConcat(insert, extract, g);
    var g1 := ExecAll(insert, g);
    InsertCodeInserts(g, out, src, bits, at, length, temp, temp1);
    FieldCodeExtracts(g1, e, out, at, length);
    assert Get(g1, out)[at..at + length] == Get(g, bits)[..length];
  }
}
