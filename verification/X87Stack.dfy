/** The x87 register stack as the translator lowers it.

    Eight slots, the TOP field of the status word, and a tag word with two bits a slot (00 valid, 01 zero,
    10 special, 11 empty). Contents gives the stack that the slots stand for. */
module X87Stack {
  const EMPTY: bv16 := 3
  const ZERO_TAG: bv16 := 1
  const SPECIAL: bv16 := 2

  /** The indefinite NaN an overflowing push stores. */
  const INDEFINITE: bv64 := 0xFFF8_0000_0000_0000

  // ---------------------------------------------------------------------------------------------
  // Fields of the status and tag words
  // ---------------------------------------------------------------------------------------------

  function Top(status: bv16): bv16 {
    (status >> 11) & 7
  }

  /** The slot of ST(i). */
  function SlotOf(status: bv16, i: bv16): bv16 {
    if i == 0 then Top(status) else (Top(status) + i) % 8
  }

  lemma SlotBelow(status: bv16, i: bv16)
    ensures SlotOf(status, i) < 8
  {
  }

  lemma ShiftBelow(slot: bv16)
    requires slot < 8
    ensures slot << 1 < 16
  {
  }

  function TagAt(tag: bv16, slot: bv16): bv16
    requires slot < 8
  {
    (tag >> (slot << 1)) & 3
  }

  function SetTag(tag: bv16, slot: bv16, val: bv16): bv16
    requires slot < 8
  {
    (tag & !(3 << (slot << 1))) | (val << (slot << 1))
  }

  /** bit_insert of the three TOP bits. */
  function MoveTop(status: bv16, delta: bv16): bv16 {
    (status & !(7 << 11)) | (((Top(status) + delta) & 7) << 11)
  }

  function SetC1(status: bv16, c1: bv16): bv16 {
    (status & !(1 << 9)) | ((c1 & 1) << 9)
  }

  /** The eight-bit constants for -1 and 1. */
  const PUSH: bv16 := 0xFF
  const POP: bv16 := 1

  /** Setting one tag changes that tag and leaves the other seven as they were. */
  lemma SetTagExact(tag: bv16, slot: bv16, val: bv16, other: bv16)
    requires slot < 8 && other < 8 && val < 4
    ensures TagAt(SetTag(tag, slot, val), other) == if other == slot then val else TagAt(tag, other)
  {
  }

  lemma MoveTopTop(status: bv16)
    ensures Top(MoveTop(status, PUSH)) == (Top(status) + 7) % 8 && Top(MoveTop(status, POP)) == (Top(status) + 1) % 8
  {
  }

  lemma Renumber(top: bv16, i: bv16)
    requires top < 8 && i < 7
    ensures ((top + 7) % 8 + (i + 1)) % 8 == (top + i) % 8 && ((top + 1) % 8 + i) % 8 == (top + (i + 1)) % 8
    ensures ((top + 1) % 8 + 7) % 8 == top % 8 && top % 8 == top
  {
  }

  /** A push renumbers ST(i) to ST(i+1), and the new ST(0) is the old ST(7); a pop does the reverse. */
  lemma MoveTopSlots(status: bv16, i: bv16)
    requires i < 7
    ensures SlotOf(MoveTop(status, PUSH), i + 1) == SlotOf(status, i)
    ensures SlotOf(MoveTop(status, PUSH), 0) == SlotOf(status, 7)
    ensures SlotOf(MoveTop(status, POP), i) == SlotOf(status, i + 1)
    ensures SlotOf(MoveTop(status, POP), 7) == SlotOf(status, 0)
  {
    MoveTopTop(status);
    Renumber(Top(status), i);
  }

  /** The other status bits stay as they were. */
  lemma MoveTopElsewhere(status: bv16)
    ensures MoveTop(status, PUSH) & 0xC7FF == status & 0xC7FF && MoveTop(status, POP) & 0xC7FF == status & 0xC7FF
  {
  }

  lemma SetC1Exact(status: bv16, c1: bv16)
    requires c1 < 2
    ensures SetC1(status, c1) & 0xFDFF == status & 0xFDFF && (SetC1(status, c1) >> 9) & 1 == c1
    ensures Top(SetC1(status, c1)) == Top(status)
  {
  }

  lemma SlotsDistinct(status: bv16, i: bv16, j: bv16)
    requires i < 8 && j < 8 && i != j
    ensures SlotOf(status, i) != SlotOf(status, j)
  {
  }

  // ---------------------------------------------------------------------------------------------
  // The unit
  // ---------------------------------------------------------------------------------------------

  /** One of the eight registers in memory. */
  datatype Slot = Slot(number: bv16)

  datatype Fpu = Fpu(status: bv16, tag: bv16, slots: map<Slot, bv64>)

  function Lookup(slots: map<Slot, bv64>, k: bv16): bv64 {
    if Slot(k) in slots then slots[Slot(k)] else 0
  }

  function St(f: Fpu, i: bv16): bv64 {
    Lookup(f.slots, SlotOf(f.status, i))
  }

  function TagOf(f: Fpu, i: bv16): bv16 {
    TagAt(f.tag, SlotOf(f.status, i))
  }

  /** Plus and minus zero get their own tag; nothing else is told apart. */
  function Classify(v: bv64): bv16 {
    if v & 0x7FFF_FFFF_FFFF_FFFF == 0 then ZERO_TAG else 0
  }

  function Push(f: Fpu, v: bv64): Fpu {
    var k := SlotOf(f.status, 7);
    if TagAt(f.tag, k) == EMPTY then
      Fpu(MoveTop(SetC1(f.status, 0), PUSH), SetTag(f.tag, k, Classify(v)), f.slots[Slot(k) := v])
    else
      Fpu(MoveTop(SetC1(f.status, 1), PUSH), SetTag(f.tag, k, SPECIAL), f.slots[Slot(k) := INDEFINITE])
  }

  function Pop(f: Fpu): Fpu {
    f.(tag := SetTag(f.tag, SlotOf(f.status, 0), EMPTY), status := MoveTop(f.status, POP))
  }

  // ---------------------------------------------------------------------------------------------
  // What a push and a pop do, register by register
  // ---------------------------------------------------------------------------------------------

  lemma LookupUpdate(slots: map<Slot, bv64>, k: bv16, v: bv64, j: bv16)
    ensures Lookup(slots[Slot(k) := v], j) == if j == k then v else Lookup(slots, j)
  {
  }

  lemma PushSlots(status: bv16, c1: bv16, i: bv16)
    requires c1 < 2 && i < 7
    ensures var s' := MoveTop(SetC1(status, c1), PUSH);
            SlotOf(s', i + 1) == SlotOf(status, i) && SlotOf(s', i + 1) != SlotOf(status, 7) &&
                SlotOf(s', 0) == SlotOf(status, 7)
  {
    SetC1Exact(status, c1);
    MoveTopSlots(SetC1(status, c1), i);
    SlotsDistinct(status, i, 7);
  }

  /** ST(i) becomes ST(i+1), with its tag. */
  lemma PushAt(f: Fpu, v: bv64, i: bv16)
    requires i < 7
    ensures TagOf(Push(f, v), i + 1) == TagOf(f, i) && St(Push(f, v), i + 1) == St(f, i)
  {
    var k := SlotOf(f.status, 7);
    if TagAt(f.tag, k) == EMPTY {
      PushSlots(f.status, 0, i);
      SetTagExact(f.tag, k, Classify(v), SlotOf(f.status, i));
      LookupUpdate(f.slots, k, v, SlotOf(f.status, i));
    } else {
      PushSlots(f.status, 1, i);
      SetTagExact(f.tag, k, SPECIAL, SlotOf(f.status, i));
      LookupUpdate(f.slots, k, INDEFINITE, SlotOf(f.status, i));
    }
  }

  lemma ZeroTag(v: bv64)
    ensures Classify(v) == if v == 0x0000_0000_0000_0000 || v == 0x8000_0000_0000_0000 then 1 else 0
  {
  }

  /** With room - ST(7) tagged 3 - the new ST(0) is the value, tagged 1 exactly when it is plus or minus zero and 0
      otherwise; on overflow it is the indefinite NaN, tagged 2. */
  lemma PushTop(f: Fpu, v: bv64)
    ensures TagOf(f, 7) == 3 ==>
      && St(Push(f, v), 0) == v
      && TagOf(Push(f, v), 0) == if v == 0x0000_0000_0000_0000 || v == 0x8000_0000_0000_0000 then 1 else 0
    ensures TagOf(f, 7) != 3 ==> TagOf(Push(f, v), 0) == 2 && St(Push(f, v), 0) == 0xFFF8_0000_0000_0000
  {
    var k := SlotOf(f.status, 7);
    ZeroTag(v);
    if TagAt(f.tag, k) == EMPTY {
      PushSlots(f.status, 0, 0);
      SetTagExact(f.tag, k, Classify(v), k);
      LookupUpdate(f.slots, k, v, k);
    } else {
      PushSlots(f.status, 1, 0);
      SetTagExact(f.tag, k, SPECIAL, k);
      LookupUpdate(f.slots, k, INDEFINITE, k);
    }
  }

  /** C1 says whether the push overflowed, and no other status bit outside TOP changes. */
  lemma PushStatus(f: Fpu, v: bv64)
    ensures TagOf(f, 7) == 3 ==> StatusAfterPush(Push(f, v).status, f.status, 0)
    ensures TagOf(f, 7) != 3 ==> StatusAfterPush(Push(f, v).status, f.status, 1)
  {
    StatusBits(f.status, 0);
    StatusBits(f.status, 1);
  }

  predicate StatusAfterPush(s': bv16, s: bv16, c1: bv16) {
    (s' >> 9) & 1 == c1 && s' & 0xC5FF == s & 0xC5FF && Top(s') == (Top(s) + 7) % 8
  }

  lemma StatusBits(status: bv16, c1: bv16)
    requires c1 < 2
    ensures StatusAfterPush(MoveTop(SetC1(status, c1), PUSH), status, c1)
  {
  }

  /** ST(i+1) becomes ST(i), and the old ST(0) is left as ST(7), tagged 3, empty. */
  lemma PopAt(f: Fpu, i: bv16)
    requires i < 7
    ensures TagOf(Pop(f), i) == TagOf(f, i + 1) && St(Pop(f), i) == St(f, i + 1)
    ensures TagOf(Pop(f), 7) == 3 && Pop(f).status & 0xC7FF == f.status & 0xC7FF
  {
    MoveTopSlots(f.status, i);
    SlotsDistinct(f.status, 0, i + 1);
    SetTagExact(f.tag, SlotOf(f.status, 0), EMPTY, SlotOf(f.status, i + 1));
    SetTagExact(f.tag, SlotOf(f.status, 0), EMPTY, SlotOf(f.status, 0));
    MoveTopElsewhere(f.status);
  }

  // ---------------------------------------------------------------------------------------------
  // The eight registers from the top
  // ---------------------------------------------------------------------------------------------

  const FIRST: bv16 := 0
  const REGISTERS: nat := 8

  /** One register: whether it is in use, and what it holds. */
  datatype Reg = Reg(inUse: bool, value: bv64)

  function RegAt(f: Fpu, i: bv16): Reg {
    Reg(TagOf(f, i) != 3, St(f, i))
  }

  /** n registers from ST(i) on. */
  function Regs(f: Fpu, i: bv16, n: nat): (r: seq<Reg>)
    ensures |r| == n
    decreases n
  {
    if n == 0 then [] else [RegAt(f, i)] + Regs(f, i + 1, n - 1)
  }

  function View(f: Fpu): (r: seq<Reg>)
    ensures |r| == 8
  {
    Regs(f, FIRST, REGISTERS)
  }

  /** n registers are left from ST(i) on. */
  predicate Left(i: bv16, n: nat) {
    || (i == 0 && n == 8) || (i == 1 && n == 7) || (i == 2 && n == 6) || (i == 3 && n == 5) || (i == 4 && n == 4)
    || (i == 5 && n == 3) || (i == 6 && n == 2) || (i == 7 && n == 1) || (i == 8 && n == 0)
  }

  lemma PushReg(f: Fpu, v: bv64, i: bv16)
    requires i < 7
    ensures RegAt(Push(f, v), i + 1) == RegAt(f, i)
  {
    PushAt(f, v, i);
  }

  lemma PopReg(f: Fpu, i: bv16)
    requires i < 7
    ensures RegAt(Pop(f), i) == RegAt(f, i + 1)
  {
    PopAt(f, i);
  }

  lemma {:induction false} PushRegs(f: Fpu, v: bv64, i: bv16, n: nat)
    requires Left(i, n + 1)
    ensures Regs(Push(f, v), i + 1, n) == Regs(f, i, n)
    decreases n
  {
    if n > 0 {
      PushReg(f, v, i);
      PushRegs(f, v, i + 1, n - 1);
    }
  }

  lemma {:induction false} PopRegs(f: Fpu, i: bv16, n: nat)
    requires Left(i, n + 1)
    ensures Regs(Pop(f), i, n) == Regs(f, i + 1, n)
    decreases n
  {
    if n > 0 {
      PopReg(f, i);
      PopRegs(f, i + 1, n - 1);
    }
  }

  lemma {:induction false} RegsLast(f: Fpu, i: bv16, n: nat)
    requires Left(i, n + 1)
    ensures Regs(f, i, n + 1) == Regs(f, i, n) + [RegAt(f, 7)]
    decreases n
  {
    if n > 0 { RegsLast(f, i + 1, n - 1); }
  }

  // ---------------------------------------------------------------------------------------------
  // The bounded stack they stand for
  // ---------------------------------------------------------------------------------------------

  datatype Op = DoPush(v: bv64) | DoPop

  function Step(f: Fpu, op: Op): Fpu {
    match op
    case DoPush(v) => Push(f, v)
    case DoPop => Pop(f)
  }

  /** What an operation makes of the registers: a push onto a used ST(7) loses it and leaves the indefinite NaN on top;
      the register a pop leaves as ST(7) keeps what it held. */
  function StepView(s: seq<Reg>, op: Op): (r: seq<Reg>)
    requires |s| == 8
    ensures |r| == 8
  {
    match op
    case DoPush(v) => [Reg(true, if s[7].inUse then 0xFFF8_0000_0000_0000 else v)] + s[..7]
    case DoPop => s[1..] + [Reg(false, s[0].value)]
  }

  lemma PushTopReg(f: Fpu, v: bv64)
    ensures RegAt(Push(f, v), 0) == Reg(true, if RegAt(f, 7).inUse then 0xFFF8_0000_0000_0000 else v)
  {
    PushTop(f, v);
  }

  lemma PopLastReg(f: Fpu)
    ensures RegAt(Pop(f), 7) == Reg(false, St(f, 0))
  {
    PopAt(f, 0);
    MoveTopSlots(f.status, 0);
  }

  lemma PushViewOk(f: Fpu, v: bv64)
    ensures View(Push(f, v)) == StepView(View(f), DoPush(v))
  {
    PushRegs(f, v, FIRST, REGISTERS - 1);
    RegsLast(f, FIRST, REGISTERS - 1);
    PushTopReg(f, v);
  }

  lemma PopViewOk(f: Fpu)
    ensures View(Pop(f)) == StepView(View(f), DoPop)
  {
    PopRegs(f, FIRST, REGISTERS - 1);
    RegsLast(Pop(f), FIRST, REGISTERS - 1);
    PopLastReg(f);
  }

  /** The registers in use are ST(0) to ST(d-1). */
  predicate Depth(s: seq<Reg>, d: nat) {
    |s| == 8 && d <= 8 && forall i :: 0 <= i < 8 ==> (s[i].inUse <==> i < d)
  }

  function Contents(s: seq<Reg>, d: nat): (r: seq<bv64>)
    requires d <= |s|
    ensures |r| == d
  {
    seq(d, i requires 0 <= i < d => s[i].value)
  }

  /** A stack of at most eight values: pushing on a full one loses the deepest value and leaves the indefinite NaN. */
  function SpecStep(s: seq<bv64>, op: Op): (r: seq<bv64>)
    requires |s| <= 8
    ensures |r| <= 8
  {
    match op
    case DoPush(v) => if |s| < 8 then [v] + s else [0xFFF8_0000_0000_0000] + s[..7]
    case DoPop => if s == [] then [] else s[1..]
  }

  lemma StepRefines(s: seq<Reg>, d: nat, op: Op)
    requires Depth(s, d)
    ensures var t := SpecStep(Contents(s, d), op); Depth(StepView(s, op), |t|) && Contents(StepView(s, op), |t|) == t
  {
    match op
    case DoPush(v) => PushRefines(s, d, v);
    case DoPop => PopRefines(s, d);
  }

  lemma PushRefines(s: seq<Reg>, d: nat, v: bv64)
    requires Depth(s, d)
    ensures var t, s' := SpecStep(Contents(s, d), DoPush(v)), StepView(s, DoPush(v));
            Depth(s', |t|) && Contents(s', |t|) == t
  {
    var s' := StepView(s, DoPush(v));
    assert forall i :: 1 <= i < 8 ==> s'[i] == s[i - 1];
  }

  lemma PopRefines(s: seq<Reg>, d: nat)
    requires Depth(s, d)
    ensures var t, s' := SpecStep(Contents(s, d), DoPop), StepView(s, DoPop);
            Depth(s', |t|) && Contents(s', |t|) == t
  {
    var s' := StepView(s, DoPop);
    assert forall i :: 0 <= i < 7 ==> s'[i] == s[i + 1];
  }

  function Run(f: Fpu, ops: seq<Op>): Fpu
    decreases |ops|
  {
    if ops == [] then f else Run(Step(f, ops[0]), ops[1..])
  }

  function SpecRun(s: seq<bv64>, ops: seq<Op>): (r: seq<bv64>)
    requires |s| <= 8
    ensures |r| <= 8
    decreases |ops|
  {
    if ops == [] then s else SpecRun(SpecStep(s, ops[0]), ops[1..])
  }

  /** Over every run of pushes and pops the registers in use are exactly the bounded stack's values, in order. */
  lemma {:induction false} RunRefines(f: Fpu, d: nat, ops: seq<Op>)
    requires Depth(View(f), d)
    ensures var s := SpecRun(Contents(View(f), d), ops);
            Depth(View(Run(f, ops)), |s|) && Contents(View(Run(f, ops)), |s|) == s
    decreases |ops|
  {
    if ops != [] {
      StepViewOk(f, ops[0]);
      StepRefines(View(f), d, ops[0]);
      RunRefines(Step(f, ops[0]), |SpecStep(Contents(View(f), d), ops[0])|, ops[1..]);
    }
  }

  lemma StepViewOk(f: Fpu, op: Op)
    ensures View(Step(f, op)) == StepView(View(f), op)
  {
    match op
    case DoPush(v) => PushViewOk(f, v);
    case DoPop => PopViewOk(f);
  }

  /** The initial state, all tags empty, is the empty stack. */
  lemma InitialDepth(slots: map<Slot, bv64>)
    ensures Depth(View(Fpu(0, 0xFFFF, slots)), 0)
  {
    AllEmpty(Fpu(0, 0xFFFF, slots), FIRST, REGISTERS);
  }

  lemma {:induction false} AllEmpty(f: Fpu, i: bv16, n: nat)
    requires f.tag == 0xFFFF
    ensures forall k :: 0 <= k < n ==> !Regs(f, i, n)[k].inUse
    decreases n
  {
    if n > 0 {
      TagAtEmpty(SlotOf(f.status, i));
      AllEmpty(f, i + 1, n - 1);
    }
  }

  lemma TagAtEmpty(slot: bv16)
    requires slot < 8
    ensures TagAt(0xFFFF, slot) == 3
  {
  }

  /** A push that has room, then a pop: the same registers in use, the same values in them, TOP restored. */
  lemma PushThenPop(f: Fpu, d: nat, v: bv64)
    requires Depth(View(f), d) && d < 8
    ensures Depth(View(Pop(Push(f, v))), d) && Contents(View(Pop(Push(f, v))), d) == Contents(View(f), d)
    ensures Top(Pop(Push(f, v)).status) == Top(f.status)
  {
    PushViewOk(f, v);
    PopViewOk(Push(f, v));
    StepRefines(View(f), d, DoPush(v));
    StepRefines(View(Push(f, v)), d + 1, DoPop);
    PushPopStatus(f, v);
  }

  lemma PushPopStatus(f: Fpu, v: bv64)
    ensures Top(Pop(Push(f, v)).status) == Top(f.status)
  {
    PushStatus(f, v);
    MoveTopTop(Push(f, v).status);
    Renumber(Top(f.status), 0);
  }

  // ---------------------------------------------------------------------------------------------
  // The operations as the translator emits them
  // ---------------------------------------------------------------------------------------------

  class Unit {
    var status: bv16
    var tag: bv16
    var slots: map<Slot, bv64>

    ghost function State(): Fpu
      reads this
    {
      Fpu(status, tag, slots)
    }

    constructor (slots: map<Slot, bv64>)
      ensures State() == Fpu(0, 0xFFFF, slots)
    {
      status, tag, this.slots := 0, 0xFFFF, slots;
    }

    method TagSet(i: bv16, val: bv16)
      modifies this`tag
      ensures tag == SetTag(old(tag), SlotOf(status, i), val)
    {
      ghost var slot := SlotOf(status, i);
      SlotBelow(status, i);
      ShiftBelow(slot);
      var shift := SlotOf(status, i) << 1;
      var cleared := tag & !(3 << shift);
      tag := cleared | (val << shift);
    }

    method StackSet(i: bv16, v: bv64)
      modifies this`slots
      ensures slots == old(slots)[Slot(SlotOf(status, i)) := v]
    {
      slots := slots[Slot(SlotOf(status, i)) := v];
    }

    /** Moves TOP by one; throws for any other distance. */
    method StackIndexMove(val: int) returns (ok: bool)
      modifies this`status
      ensures ok <==> val == 1 || val == -1
      ensures status == if val == 1 then MoveTop(old(status), POP) else if val ==
                  -1 then MoveTop(old(status), PUSH) else old(status)
    {
      if val != 1 && val != -1 {
        return false;
      }
      var top := (Top(status) + if val == 1 then POP else PUSH) & 7;
      status := (status & !(7 << 11)) | (top << 11);
      return true;
    }

    method FpuPush(v: bv64)
      modifies this
      ensures State() == Push(old(State()), v)
    {
      var room := TagAt(tag, SlotOf(status, 7)) == EMPTY;
      TagSet(7, if room then Classify(v) else SPECIAL);
      StackSet(7, if room then v else INDEFINITE);
      status := SetC1(status, if room then 0 else 1);
      var _ := StackIndexMove(-1);
    }

    method FpuPop()
      modifies this
      ensures State() == Pop(old(State()))
    {
      TagSet(0, EMPTY);
      var _ := StackIndexMove(1);
    }
  }
}
