/** The arena allocator and the machine-code writer as functions on values: the bump pointer, growth, the log of
    finalised translations, and the patches made to them. Addresses are absolute; 0 is null. */
module CodeLog {
  type byte = x: int | 0 <= x < 256

  function AlignUp(size: nat): (r: nat)
    ensures size <= r < size + 16 && r % 16 == 0
  {
    (size + 15) / 16 * 16
  }

  // ---------------------------------------------------------------------------------------------
  // The allocator
  // ---------------------------------------------------------------------------------------------

  datatype Allocator = Allocator(next: nat, current: nat, currentSize: nat)

  datatype Allocation = At(ptr: nat) | OutOfMemory | NotCurrent

  /** Where a new allocation would start: after the current one, on a 16-byte boundary. */
  function Place(a: Allocator): nat {
    a.next + AlignUp(a.currentSize)
  }

  /** A null original asks for a new allocation, any other for a new size of the current one. The arena's end is only
      checked against the start of a new allocation, and the bump pointer has moved by then. */
  function Allocate(a: Allocator, end: nat, original: nat, size: nat): (Allocator, Allocation) {
    if original == 0 then
      if Place(a) > end then (a.(next := Place(a)), OutOfMemory)
      else (Allocator(Place(a), Place(a), size), At(Place(a)))
    else if original != a.current then (a, NotCurrent)
    else (a.(currentSize := size), At(original))
  }

  // ---------------------------------------------------------------------------------------------
  // The writer
  // ---------------------------------------------------------------------------------------------

  /** A finalised translation. */
  datatype Block = Block(addr: nat, code: seq<byte>)

  /** pending: the bytes emitted since the last reset. sealed: finalised since the last reset, so the last block of
      the log is the allocation being written. */
  datatype Writer = Writer(alloc: Allocator, ptr: nat, allocSize: nat, pending: seq<byte>, log: seq<Block>,
                           sealed: bool)

  datatype Op = Emit(code: seq<byte>) | Finalise | Reset | Patch(target: nat, code: seq<byte>)

  function Grown(allocSize: nat): nat {
    if allocSize == 0 then 64 else allocSize * 2
  }

  /** The state and whether the call returned rather than threw. */
  function EnsureCapacity(w: Writer, extra: nat, end: nat): (Writer, bool) {
    if |w.pending| + extra <= w.allocSize then (w, true)
    else
      var (a, r) := Allocate(w.alloc, end, w.ptr, Grown(w.allocSize));
      match r
      case At(p) => (w.(alloc := a, allocSize := Grown(w.allocSize), ptr := p), true)
      case _ => (w.(alloc := a, allocSize := Grown(w.allocSize)), false)
  }

  function CopyIn(w: Writer, code: seq<byte>, end: nat): (Writer, bool) {
    var (w', ok) := EnsureCapacity(w, |code|, end);
    if ok then (w'.(pending := w.pending + code), true) else (w', false)
  }

  /** The log after the writer's bytes at p have been finalised: finalising again without a reset extends the last
      translation instead of adding one. */
  function Record(log: seq<Block>, sealed: bool, p: nat, code: seq<byte>): seq<Block> {
    if sealed && |log| > 0 then log[..|log| - 1] + [Block(p, code)] else log + [Block(p, code)]
  }

  function DoFinalise(w: Writer, end: nat): (Writer, bool) {
    var (a, r) := Allocate(w.alloc, end, w.ptr, |w.pending|);
    match r
    case At(p) => (Writer(a, p, |w.pending|, w.pending, Record(w.log, w.sealed, p, w.pending), true), true)
    case _ => (w.(alloc := a), false)
  }

  function DoReset(w: Writer): Writer {
    w.(ptr := 0, allocSize := 0, pending := [], sealed := false)
  }

  /** m with code written at position at. */
  function Overwrite(m: seq<byte>, at: nat, code: seq<byte>): (r: seq<byte>)
    requires at + |code| <= |m|
    ensures |r| == |m|
  {
    m[..at] + code + m[at + |code|..]
  }

  /** The bytes at target lie inside block b. */
  predicate Contains(b: Block, target: nat, n: nat) {
    b.addr <= target && target + n <= b.addr + |b.code|
  }

  function PatchBlock(b: Block, target: nat, code: seq<byte>): (r: Block)
    ensures r.addr == b.addr && |r.code| == |b.code|
  {
    if Contains(b, target, |code|) then Block(b.addr, Overwrite(b.code, target - b.addr, code)) else b
  }

  function PatchLog(log: seq<Block>, target: nat, code: seq<byte>): (r: seq<Block>)
    ensures |r| == |log| && forall i :: 0 <= i < |log| ==> r[i] == PatchBlock(log[i], target, code)
  {
    seq(|log|, i requires 0 <= i < |log| => PatchBlock(log[i], target, code))
  }

  /** A patch of code that has been finalised, possibly of the translation still being extended. */
  function DoPatch(w: Writer, target: nat, code: seq<byte>): Writer {
    w.(log := PatchLog(w.log, target, code),
       pending := if w.sealed && |w.log| > 0 && Contains(w.log[|w.log| - 1], target, |code|)
                  then PatchBlock(Block(w.ptr, w.pending), target, code).code else w.pending)
  }

  function Step(w: Writer, op: Op, end: nat): (Writer, bool) {
    match op
    case Emit(code) => CopyIn(w, code, end)
    case Finalise => DoFinalise(w, end)
    case Reset => (DoReset(w), true)
    case Patch(target, code) => (DoPatch(w, target, code), true)
  }

  // ---------------------------------------------------------------------------------------------
  // What every operation keeps
  // ---------------------------------------------------------------------------------------------

  /** Where the writer's bytes are, or would be. */
  function Start(w: Writer): nat {
    if w.ptr != 0 then w.ptr else Place(w.alloc)
  }

  predicate BlockOk(b: Block, base: nat, end: nat) {
    base <= b.addr && b.addr % 16 == 0 && b.addr + |b.code| <= end
  }

  /** Translations lie in the arena on 16-byte boundaries, in the order they were made, and do not overlap. */
  ghost predicate LogOk(log: seq<Block>, base: nat, end: nat) {
    && (forall i :: 0 <= i < |log| ==> BlockOk(log[i], base, end))
    && (forall i, j :: 0 <= i < j < |log| ==> log[i].addr + |log[i].code| <= log[j].addr)
  }

  predicate AllocOk(a: Allocator, base: nat) {
    0 < base <= a.next && base % 16 == 0 && a.next % 16 == 0
  }

  /** All of the log, except a translation still being extended, ends before p. */
  ghost predicate LogBelow(log: seq<Block>, n: nat, p: nat)
    requires n <= |log|
  {
    forall i :: 0 <= i < n ==> log[i].addr + |log[i].code| <= p
  }

  predicate OpenOk(w: Writer, end: nat) {
    && (w.ptr != 0 ==> w.ptr == w.alloc.current == w.alloc.next && w.alloc.currentSize == w.allocSize
                       && w.ptr + |w.pending| <= end)
    && (w.ptr == 0 ==> w.pending == [] && !w.sealed)
    && (w.sealed ==> |w.log| > 0 && w.log[|w.log| - 1].addr == w.ptr
                     && w.log[|w.log| - 1].code <= w.pending && |w.log[|w.log| - 1].code| <= w.allocSize)
  }

  ghost predicate Inv(w: Writer, base: nat, end: nat) {
    && AllocOk(w.alloc, base) && LogOk(w.log, base, end) && OpenOk(w, end)
    && LogBelow(w.log, if w.sealed then |w.log| - 1 else |w.log|, Start(w))
  }

  /** The writer has not lost a failed allocation: it would otherwise write through a null pointer. */
  predicate Ready(w: Writer) {
    w.ptr == 0 ==> w.allocSize == 0
  }

  /** n more bytes do not run past the end of the arena. A start beyond the end is caught by the allocator. */
  predicate Fits(w: Writer, n: nat, end: nat) {
    Start(w) <= end ==> Start(w) + |w.pending| + n <= end
  }

  /** A patch stays inside one finalised translation. */
  predicate InLog(log: seq<Block>, target: nat, n: nat) {
    exists k :: 0 <= k < |log| && Contains(log[k], target, n)
  }

  predicate OpOk(w: Writer, op: Op, end: nat) {
    && (op.Emit? ==> Ready(w) && Fits(w, |op.code|, end))
    && (op.Patch? ==> exists k :: 0 <= k < |w.log| && w.log[k].addr <= op.target &&
                                  op.target + |op.code| <= w.log[k].addr + |w.log[k].code|)
  }

  lemma PatchInLog(w: Writer, op: Op, end: nat)
    requires OpOk(w, op, end) && op.Patch?
    ensures InLog(w.log, op.target, |op.code|)
  {
    var k :| 0 <= k < |w.log| && w.log[k].addr <= op.target &&
             op.target + |op.code| <= w.log[k].addr + |w.log[k].code|;
    assert Contains(w.log[k], op.target, |op.code|);
  }

  lemma InitialInv(base: nat, end: nat)
    requires base > 0 && base % 16 == 0
    ensures Inv(Writer(Allocator(base, 0, 0), 0, 0, [], [], false), base, end)
  {
  }

  lemma CapacityKeepsInv(w: Writer, extra: nat, base: nat, end: nat)
    requires Inv(w, base, end) && Ready(w) && Fits(w, extra, end)
    ensures var (w', ok) := EnsureCapacity(w, extra, end);
            && Inv(w', base, end) && w'.log == w.log && w'.pending == w.pending && w'.sealed == w.sealed
            && (ok ==> Ready(w') && Start(w') == Start(w)
                       && |w.pending| + extra <= if w'.ptr == 0 then 0 else end - w'.ptr)
  {
  }

  lemma EmitKeepsInv(w: Writer, code: seq<byte>, base: nat, end: nat)
    requires Inv(w, base, end) && Ready(w) && Fits(w, |code|, end)
    ensures var (w', ok) := CopyIn(w, code, end);
            Inv(w', base, end) && w'.log == w.log && (ok ==> Ready(w') && w'.pending == w.pending + code)
  {
    CapacityKeepsInv(w, |code|, base, end);
    var (w', ok) := EnsureCapacity(w, |code|, end);
    if ok && w'.ptr == 0 { assert w.pending + code == []; }
  }

  lemma FinaliseKeepsInv(w: Writer, base: nat, end: nat)
    requires Inv(w, base, end)
    ensures Inv(DoFinalise(w, end).0, base, end)
  {
    var (w', ok) := DoFinalise(w, end);
    if ok {
      var n := if w.sealed then |w.log| - 1 else |w.log|;
      assert w'.log == w.log[..n] + [Block(Start(w), w.pending)];
      assert LogBelow(w.log, n, Start(w));
      forall i | 0 <= i < |w'.log| ensures BlockOk(w'.log[i], base, end) {
        if i < n { assert w'.log[i] == w.log[i]; }
      }
    }
  }

  lemma ResetKeepsInv(w: Writer, base: nat, end: nat)
    requires Inv(w, base, end)
    ensures Inv(DoReset(w), base, end) && Ready(DoReset(w))
  {
    var w' := DoReset(w);
    assert Start(w) <= Place(w.alloc);
    forall i | 0 <= i < |w.log| ensures w.log[i].addr + |w.log[i].code| <= Place(w.alloc) {
      if i < |w.log| - 1 || !w.sealed { assert w.log[i].addr + |w.log[i].code| <= Start(w); }
    }
  }

  lemma PatchKeepsInv(w: Writer, target: nat, code: seq<byte>, base: nat, end: nat)
    requires Inv(w, base, end) && InLog(w.log, target, |code|)
    ensures Inv(DoPatch(w, target, code), base, end)
  {
    PatchKeepsLog(w.log, target, code, base, end);
    PatchKeepsOpen(w, target, code, end);
  }

  lemma PatchKeepsLog(log: seq<Block>, target: nat, code: seq<byte>, base: nat, end: nat)
    requires LogOk(log, base, end)
    ensures LogOk(PatchLog(log, target, code), base, end)
    ensures forall n, p :: 0 <= n <= |log| && LogBelow(log, n, p) ==> LogBelow(PatchLog(log, target, code), n, p)
  {
  }

  lemma PatchKeepsOpen(w: Writer, target: nat, code: seq<byte>, end: nat)
    requires OpenOk(w, end)
    ensures OpenOk(DoPatch(w, target, code), end)
  {
    if w.sealed && Contains(w.log[|w.log| - 1], target, |code|) {
      PatchPrefix(w.log[|w.log| - 1], Block(w.ptr, w.pending), target, code);
    }
  }

  /** Patching a translation and the longer one that extends it keeps the first a prefix of the second. */
  lemma PatchPrefix(b: Block, c: Block, target: nat, code: seq<byte>)
    requires b.addr == c.addr && b.code <= c.code && Contains(b, target, |code|)
    ensures PatchBlock(b, target, code).code <= PatchBlock(c, target, code).code
  {
  }

  lemma StepKeepsInv(w: Writer, op: Op, base: nat, end: nat)
    requires Inv(w, base, end) && OpOk(w, op, end)
    ensures Inv(Step(w, op, end).0, base, end)
  {
    match op
    case Emit(code) => EmitKeepsInv(w, code, base, end);
    case Finalise => FinaliseKeepsInv(w, base, end);
    case Reset => ResetKeepsInv(w, base, end);
    case Patch(target, code) => PatchInLog(w, op, end); PatchKeepsInv(w, target, code, base, end);
  }

  // ---------------------------------------------------------------------------------------------
  // Whole runs
  // ---------------------------------------------------------------------------------------------

  function Run(w: Writer, ops: seq<Op>, end: nat): Writer
    decreases |ops|
  {
    if ops == [] then w else Run(Step(w, ops[0], end).0, ops[1..], end)
  }

  predicate RunOk(w: Writer, ops: seq<Op>, end: nat)
    decreases |ops|
  {
    ops == [] || (OpOk(w, ops[0], end) && RunOk(Step(w, ops[0], end).0, ops[1..], end))
  }

  /** Over every run the finalised translations stay aligned, ordered and disjoint. */
  lemma {:induction false} RunKeepsInv(w: Writer, ops: seq<Op>, base: nat, end: nat)
    requires Inv(w, base, end) && RunOk(w, ops, end)
    ensures Inv(Run(w, ops, end), base, end)
    decreases |ops|
  {
    if ops != [] {
      StepKeepsInv(w, ops[0], base, end);
      RunKeepsInv(Step(w, ops[0], end).0, ops[1..], base, end);
    }
  }

  // ---------------------------------------------------------------------------------------------
  // Patches
  // ---------------------------------------------------------------------------------------------

  datatype Edit = Edit(target: nat, code: seq<byte>)

  /** The patches of a run, in order, and the run without them. */
  function PatchesOf(ops: seq<Op>): seq<Edit> {
    if ops == [] then []
    else (if ops[0].Patch? then [Edit(ops[0].target, ops[0].code)] else []) + PatchesOf(ops[1..])
  }

  function Unpatched(ops: seq<Op>): (r: seq<Op>)
    ensures forall op :: op in r ==> !op.Patch?
  {
    if ops == [] then [] else (if ops[0].Patch? then [] else [ops[0]]) + Unpatched(ops[1..])
  }

  predicate Covers(e: Edit, x: nat) {
    e.target <= x < e.target + |e.code|
  }

  /** The byte at address x, which was b, after the edits: the last edit that covers x decides. */
  function ByteAfter(edits: seq<Edit>, x: nat, b: byte): byte
    decreases |edits|
  {
    if edits == [] then b
    else
      var e := edits[|edits| - 1];
      if Covers(e, x) then e.code[x - e.target] else ByteAfter(edits[..|edits| - 1], x, b)
  }

  /** Block b is block a with exactly the edits made. */
  predicate EditedAs(edits: seq<Edit>, a: Block, b: Block) {
    && a.addr == b.addr && |a.code| == |b.code|
    && forall j :: 0 <= j < |a.code| ==> b.code[j] == ByteAfter(edits, a.addr + j, a.code[j])
  }

  /** The run with patches and the run without are in the same state but for the edited bytes. */
  ghost predicate InStep(v: Writer, w: Writer, edits: seq<Edit>) {
    && v.alloc == w.alloc && v.ptr == w.ptr && v.allocSize == w.allocSize && v.sealed == w.sealed && |v.log| == |w.log|
    && (forall i :: 0 <= i < |v.log| ==> EditedAs(edits, v.log[i], w.log[i]))
    && EditedAs(edits, Block(v.ptr, v.pending), Block(w.ptr, w.pending))
    && forall e :: e in edits ==> InLog(w.log, e.target, |e.code|)
  }

  lemma {:induction false} Uncovered(edits: seq<Edit>, x: nat, b: byte)
    requires forall e :: e in edits ==> !Covers(e, x)
    ensures ByteAfter(edits, x, b) == b
    decreases |edits|
  {
    if edits != [] {
      assert edits[|edits| - 1] in edits;
      Uncovered(edits[..|edits| - 1], x, b);
    }
  }

  /** The log ends no later than the bytes being written. */
  lemma LogEnds(w: Writer, base: nat, end: nat)
    requires Inv(w, base, end)
    ensures LogBelow(w.log, |w.log|, Start(w) + |w.pending|)
  {
    forall i | 0 <= i < |w.log| ensures w.log[i].addr + |w.log[i].code| <= Start(w) + |w.pending| {
      if i < |w.log| - 1 || !w.sealed { assert w.log[i].addr + |w.log[i].code| <= Start(w); }
    }
  }

  /** Emitting leaves the two runs in step: no earlier patch reaches the new bytes. */
  lemma EmitInStep(v: Writer, w: Writer, edits: seq<Edit>, code: seq<byte>, base: nat, end: nat)
    requires InStep(v, w, edits) && Inv(w, base, end) && Ready(w) && Fits(w, |code|, end)
    ensures InStep(CopyIn(v, code, end).0, CopyIn(w, code, end).0, edits)
  {
    var v', w' := CopyIn(v, code, end).0, CopyIn(w, code, end).0;
    LogEnds(w, base, end);
    if CopyIn(w, code, end).1 && w'.ptr != 0 {
      assert w'.ptr == Start(w);
      forall j | 0 <= j < |v'.pending| ensures w'.pending[j] == ByteAfter(edits, v'.ptr + j, v'.pending[j]) {
        if j >= |v.pending| {
          NewByte(w, edits, Start(w) + j, v'.pending[j], base, end);
        } else {
          assert Block(w.ptr, w.pending).code[j] == w.pending[j];
        }
      }
    }
  }

  lemma NewByte(w: Writer, edits: seq<Edit>, x: nat, b: byte, base: nat, end: nat)
    requires Inv(w, base, end) && x >= Start(w) + |w.pending|
    requires forall e :: e in edits ==> InLog(w.log, e.target, |e.code|)
    ensures ByteAfter(edits, x, b) == b
  {
    LogEnds(w, base, end);
    forall e | e in edits ensures !Covers(e, x) {
      var k :| 0 <= k < |w.log| && Contains(w.log[k], e.target, |e.code|);
    }
    Uncovered(edits, x, b);
  }

  lemma FinaliseInStep(v: Writer, w: Writer, edits: seq<Edit>, base: nat, end: nat)
    requires InStep(v, w, edits) && Inv(w, base, end)
    ensures InStep(DoFinalise(v, end).0, DoFinalise(w, end).0, edits)
  {
    var (w', ok) := DoFinalise(w, end);
    if ok {
      forall e | e in edits ensures InLog(w'.log, e.target, |e.code|) {
        var k :| 0 <= k < |w.log| && Contains(w.log[k], e.target, |e.code|);
        assert Contains(w'.log[k], e.target, |e.code|);
      }
      if w.ptr == 0 { assert v.pending == [] && w.pending == []; }
    }
  }

  /** n bytes at target reach nothing of block b. */
  predicate Apart(b: Block, target: nat, n: nat) {
    n == 0 || target + n <= b.addr || b.addr + |b.code| <= target
  }

  /** A patch edits the block it is in, and no other. */
  lemma EditBlock(edits: seq<Edit>, a: Block, b: Block, target: nat, code: seq<byte>)
    requires EditedAs(edits, a, b) && (Contains(b, target, |code|) || Apart(b, target, |code|))
    ensures EditedAs(edits + [Edit(target, code)], a, PatchBlock(b, target, code))
  {
    var e, b' := Edit(target, code), PatchBlock(b, target, code);
    assert (edits + [e])[..|edits|] == edits;
    forall j | 0 <= j < |a.code| ensures b'.code[j] == ByteAfter(edits + [e], a.addr + j, a.code[j]) {
      assert b.code[j] == ByteAfter(edits, a.addr + j, a.code[j]);
    }
  }

  /** A patch inside one translation of the log reaches no byte of the others. */
  lemma ReachesOne(log: seq<Block>, base: nat, end: nat, i: nat, target: nat, code: seq<byte>)
    requires LogOk(log, base, end) && i < |log| && InLog(log, target, |code|)
    ensures Contains(log[i], target, |code|) || Apart(log[i], target, |code|)
  {
    var k :| 0 <= k < |log| && Contains(log[k], target, |code|);
    if k < i { assert log[k].addr + |log[k].code| <= log[i].addr; }
    if i < k { assert log[i].addr + |log[i].code| <= log[k].addr; }
  }

  /** ... nor of what is being written after it. */
  lemma ReachesPending(w: Writer, base: nat, end: nat, target: nat, code: seq<byte>)
    requires Inv(w, base, end) && InLog(w.log, target, |code|)
    ensures var b := Block(w.ptr, w.pending);
            || (w.sealed && Contains(w.log[|w.log| - 1], target, |code|) && Contains(b, target, |code|))
            || Apart(b, target, |code|)
  {
    var k :| 0 <= k < |w.log| && Contains(w.log[k], target, |code|);
    if !w.sealed || k < |w.log| - 1 { assert w.log[k].addr + |w.log[k].code| <= Start(w); }
  }

  lemma PatchInStep(v: Writer, w: Writer, edits: seq<Edit>, target: nat, code: seq<byte>, base: nat, end: nat)
    requires InStep(v, w, edits) && Inv(w, base, end) && InLog(w.log, target, |code|)
    ensures InStep(v, DoPatch(w, target, code), edits + [Edit(target, code)])
  {
    var w', edits' := DoPatch(w, target, code), edits + [Edit(target, code)];
    forall i | 0 <= i < |v.log| ensures EditedAs(edits', v.log[i], w'.log[i]) {
      ReachesOne(w.log, base, end, i, target, code);
      EditBlock(edits, v.log[i], w.log[i], target, code);
    }
    PendingInStep(v, w, edits, target, code, base, end);
    forall e | e in edits' ensures InLog(w'.log, e.target, |e.code|) {
      var k :| 0 <= k < |w.log| && Contains(w.log[k], e.target, |e.code|);
      assert Contains(w'.log[k], e.target, |e.code|);
    }
  }

  lemma PendingInStep(v: Writer, w: Writer, edits: seq<Edit>, target: nat, code: seq<byte>, base: nat, end: nat)
    requires InStep(v, w, edits) && Inv(w, base, end) && InLog(w.log, target, |code|)
    ensures EditedAs(edits + [Edit(target, code)], Block(v.ptr, v.pending),
                     Block(w.ptr, DoPatch(w, target, code).pending))
  {
    ReachesPending(w, base, end, target, code);
    EditBlock(edits, Block(v.ptr, v.pending), Block(w.ptr, w.pending), target, code);
    PendingAsBlock(w, base, end, target, code);
  }

  /** Whether a patch is recorded in the bytes being written is decided by the bytes it reaches. */
  lemma PendingAsBlock(w: Writer, base: nat, end: nat, target: nat, code: seq<byte>)
    requires Inv(w, base, end) && InLog(w.log, target, |code|)
    ensures DoPatch(w, target, code).pending == PatchBlock(Block(w.ptr, w.pending), target, code).code
  {
    var b := Block(w.ptr, w.pending);
    ReachesPending(w, base, end, target, code);
    if Contains(b, target, |code|) && Apart(b, target, |code|) {
      assert Overwrite(b.code, target - b.addr, code) == b.code;
    }
  }

  lemma StepInStep(v: Writer, w: Writer, edits: seq<Edit>, op: Op, base: nat, end: nat)
    requires InStep(v, w, edits) && Inv(w, base, end) && OpOk(w, op, end) && !op.Patch?
    ensures InStep(Step(v, op, end).0, Step(w, op, end).0, edits)
  {
    match op
    case Emit(code) => EmitInStep(v, w, edits, code, base, end);
    case Finalise => FinaliseInStep(v, w, edits, base, end);
    case Reset =>
  }

  /** The edits of one operation, and what the run without patches does in its place. */
  function EditsOf(op: Op): seq<Edit> {
    if op.Patch? then [Edit(op.target, op.code)] else []
  }

  function SkipPatch(v: Writer, op: Op, end: nat): Writer {
    if op.Patch? then v else Step(v, op, end).0
  }

  lemma OpInStep(v: Writer, w: Writer, edits: seq<Edit>, op: Op, base: nat, end: nat)
    requires InStep(v, w, edits) && Inv(w, base, end) && OpOk(w, op, end)
    ensures InStep(SkipPatch(v, op, end), Step(w, op, end).0, edits + EditsOf(op))
  {
    if op.Patch? {
      PatchInStep(v, w, edits, op.target, op.code, base, end);
    } else {
      StepInStep(v, w, edits, op, base, end);
      assert edits + [] == edits;
    }
  }

  lemma RunSkips(v: Writer, ops: seq<Op>, end: nat)
    requires ops != []
    ensures Run(v, Unpatched(ops), end) == Run(SkipPatch(v, ops[0], end), Unpatched(ops[1..]), end)
    ensures PatchesOf(ops) == EditsOf(ops[0]) + PatchesOf(ops[1..])
  {
    if ops[0].Patch? {
      assert Unpatched(ops) == Unpatched(ops[1..]);
    } else {
      assert Unpatched(ops)[1..] == Unpatched(ops[1..]);
    }
  }

  lemma {:induction false} RunInStep(v: Writer, w: Writer, edits: seq<Edit>, ops: seq<Op>, base: nat, end: nat)
    requires InStep(v, w, edits) && Inv(w, base, end) && RunOk(w, ops, end)
    ensures InStep(Run(v, Unpatched(ops), end), Run(w, ops, end), edits + PatchesOf(ops))
    decreases |ops|
  {
    if ops == [] {
      assert edits + [] == edits;
    } else {
      StepKeepsInv(w, ops[0], base, end);
      OpInStep(v, w, edits, ops[0], base, end);
      RunSkips(v, ops, end);
      RunInStep(SkipPatch(v, ops[0], end), Step(w, ops[0], end).0, edits + EditsOf(ops[0]), ops[1..], base, end);
      assert edits + EditsOf(ops[0]) + PatchesOf(ops[1..]) == edits + PatchesOf(ops);
    }
  }

  /** Over every run that interleaves emits, finalises, resets and patches, the translations are where they would be
      without the patches, and hold the bytes emitted with exactly the patches made. */
  lemma PatchesApply(w: Writer, ops: seq<Op>, base: nat, end: nat)
    requires Inv(w, base, end) && RunOk(w, ops, end)
    ensures var v', w' := Run(w, Unpatched(ops), end), Run(w, ops, end);
            && |v'.log| == |w'.log| && v'.alloc == w'.alloc
            && forall i :: 0 <= i < |w'.log| ==> EditedAs(PatchesOf(ops), v'.log[i], w'.log[i])
  {
    assert forall b: Block :: EditedAs([], b, b);
    RunInStep(w, w, [], ops, base, end);
    assert [] + PatchesOf(ops) == PatchesOf(ops);
  }

  lemma {:induction false} UnpatchedGrows(w: Writer, ops: seq<Op>, end: nat)
    requires (w.sealed ==> |w.log| > 0) && forall op :: op in ops ==> !op.Patch?
    ensures var n := if w.sealed then |w.log| - 1 else |w.log|; w.log[..n] <= Run(w, ops, end).log
    decreases |ops|
  {
    if ops != [] {
      var w' := Step(w, ops[0], end).0;
      UnpatchedGrows(w', ops[1..], end);
      var n, n' := if w.sealed then |w.log| - 1 else |w.log|, if w'.sealed then |w'.log| - 1 else |w'.log|;
      assert w.log[..n] <= w'.log[..n'];
    }
  }

  /** Once the writer has been reset, a finalised translation never moves, and only patches change its bytes. */
  lemma LogOnlyGrows(w: Writer, ops: seq<Op>, base: nat, end: nat)
    requires Inv(w, base, end) && RunOk(w, ops, end)
    ensures var n, w' := if w.sealed then |w.log| - 1 else |w.log|, Run(w, ops, end);
            n <= |w'.log| && forall i :: 0 <= i < n ==> EditedAs(PatchesOf(ops), w.log[i], w'.log[i])
  {
    PatchesApply(w, ops, base, end);
    UnpatchedGrows(w, Unpatched(ops), end);
    var n, v' := if w.sealed then |w.log| - 1 else |w.log|, Run(w, Unpatched(ops), end);
    assert forall i :: 0 <= i < n ==> v'.log[i] == w.log[..n][i];
  }

  /** All the bytes of a run of emits. */
  function Bytes(chunks: seq<seq<byte>>): seq<byte> {
    if chunks == [] then [] else chunks[0] + Bytes(chunks[1..])
  }

  function Emits(chunks: seq<seq<byte>>): seq<Op> {
    if chunks == [] then [] else [Emit(chunks[0])] + Emits(chunks[1..])
  }

  /** One translation: some emits, then finalise, then reset. */
  lemma {:induction false} RunEmits(w: Writer, chunks: seq<seq<byte>>, base: nat, end: nat)
    requires Inv(w, base, end) && Ready(w) && Fits(w, |Bytes(chunks)|, end) && Start(w) <= end
    ensures var w' := Run(w, Emits(chunks), end);
            Inv(w', base, end) && Ready(w') && Start(w') == Start(w) && w'.log == w.log && w'.sealed == w.sealed
            && w'.pending == w.pending + Bytes(chunks)
    decreases |chunks|
  {
    if chunks != [] {
      var (w', ok) := CopyIn(w, chunks[0], end);
      EmitKeepsInv(w, chunks[0], base, end);
      RunEmits(w', chunks[1..], base, end);
      assert Emits(chunks)[1..] == Emits(chunks[1..]);
      assert w.pending + chunks[0] + Bytes(chunks[1..]) == w.pending + Bytes(chunks);
    }
  }

  lemma {:induction false} RunAppend(w: Writer, a: seq<Op>, b: seq<Op>, end: nat)
    ensures Run(w, a + b, end) == Run(Run(w, a, end), b, end)
    decreases |a|
  {
    if a == [] { assert a + b == b; } else {
      RunAppend(Step(w, a[0], end).0, a[1..], b, end);
      assert (a + b)[1..] == a[1..] + b;
    }
  }

  /** The writer refines an append-only log: making a translation that fits adds exactly one block, holding exactly
      the bytes emitted, and the rest of the log stays as it was. */
  lemma OneTranslation(w: Writer, chunks: seq<seq<byte>>, base: nat, end: nat)
    requires Inv(w, base, end) && w.ptr == 0 && w.allocSize == 0
    requires Start(w) + |Bytes(chunks)| <= end
    ensures var w' := Run(w, Emits(chunks) + [Finalise, Reset], end);
            Inv(w', base, end) && w'.log == w.log + [Block(Start(w), Bytes(chunks))] && w'.ptr == 0 && w'.allocSize == 0
  {
    RunEmits(w, chunks, base, end);
    RunAppend(w, Emits(chunks), [Finalise, Reset], end);
    var w1 := Run(w, Emits(chunks), end);
    var w2 := DoFinalise(w1, end).0;
    FinaliseKeepsInv(w1, base, end);
    ResetKeepsInv(w2, base, end);
    assert [Finalise, Reset][1..] == [Reset] && [Reset][1..] == [];
    assert Run(w1, [Finalise, Reset], end) == Run(w2, [Reset], end) == DoReset(w2);
    assert w.pending + Bytes(chunks) == Bytes(chunks);
  }

  // ---------------------------------------------------------------------------------------------
  // Capacity
  // ---------------------------------------------------------------------------------------------

  /** The bytes emitted fit the size asked of the allocator, which doubling keeps up with. */
  predicate WithinCapacity(w: Writer) {
    |w.pending| <= w.allocSize && (w.allocSize == 0 || w.allocSize >= 64)
  }

  /** Emits of at most 64 bytes never outrun the doubling; a longer one does exactly when the doubled size is still
      too small. */
  lemma EmitCapacity(w: Writer, code: seq<byte>, end: nat)
    requires WithinCapacity(w)
    ensures var (w', ok) := CopyIn(w, code, end);
            && (|code| <= 64 ==> |w'.pending| <= w'.allocSize)
            && (ok ==> (WithinCapacity(w') <==>
                          |w.pending| + |code| <= w.allocSize || |w.pending| + |code| <= Grown(w.allocSize)))
  {
  }
}
