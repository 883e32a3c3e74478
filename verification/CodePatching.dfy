/** Patching code while the writer goes on making translations.

    The window writer changes the arena and the writer's record of it together, so that translations can be made
    before and after any patch, and the arena still holds every logged translation as it was patched. */
module CodePatching {
  import opened CodeLog
  import opened CodeArena
  import opened ChainWindow

  /** A patch inside a block gives the patched block; one that does not reach the block leaves it. */
  lemma PatchHolds(m: seq<byte>, base: nat, b: Block, target: nat, code: seq<byte>)
    requires Holds(m, base, b) && base <= target && target - base + |code| <= |m|
    requires Contains(b, target, |code|) || Apart(b, target, |code|)
    ensures Holds(Overwrite(m, target - base, code), base, PatchBlock(b, target, code))
  {
    if Contains(b, target, |code|) {
      PatchInside(m, base, b, target, code);
    } else if |code| == 0 {
      assert Overwrite(m, target - base, code) == m;
    } else {
      OverwriteElsewhere(m, base, b, target - base, code);
    }
  }

  lemma LogPatched(m: seq<byte>, w: Writer, base: nat, target: nat, code: seq<byte>, i: nat)
    requires LogOk(w.log, base, base + |m|) && InLog(w.log, target, |code|) && base <= target
    requires target - base + |code| <= |m|
    requires i < |w.log| && Holds(m, base, w.log[i])
    ensures Holds(Overwrite(m, target - base, code), base, PatchBlock(w.log[i], target, code))
  {
    ReachesOne(w.log, base, base + |m|, i, target, code);
    PatchHolds(m, base, w.log[i], target, code);
  }

  lemma PendingPatched(m: seq<byte>, w: Writer, base: nat, target: nat, code: seq<byte>)
    requires Inv(w, base, base + |m|) && InLog(w.log, target, |code|) && base <= target && target - base + |code| <= |m|
    requires Holds(m, base, Block(w.ptr, w.pending))
    ensures Holds(Overwrite(m, target - base, code), base, Block(w.ptr, DoPatch(w, target, code).pending))
  {
    var b := Block(w.ptr, w.pending);
    ReachesPending(w, base, base + |m|, target, code);
    PatchHolds(m, base, b, target, code);
    PendingAsBlock(w, base, base + |m|, target, code);
  }

  lemma PatchKeepsBytes(m: seq<byte>, w: Writer, base: nat, end: nat, target: nat, code: seq<byte>)
    requires Inv(w, base, end) && InLog(w.log, target, |code|) && base <= target && target + |code| <= end == base + |m|
    requires InMemory(m, base, w)
    ensures InMemory(Overwrite(m, target - base, code), base, DoPatch(w, target, code))
  {
    forall i | 0 <= i < |w.log|
      ensures Holds(Overwrite(m, target - base, code), base, DoPatch(w, target, code).log[i])
    {
      LogPatched(m, w, base, target, code, i);
    }
    if w.ptr != 0 { PendingPatched(m, w, base, target, code); }
  }

  lemma Inside(w: Writer, base: nat, end: nat, target: nat, size: nat)
    requires Inv(w, base, end) && InLog(w.log, target, size)
    ensures 0 < base <= target && target + size <= end && forall n: nat :: n <= size ==> InLog(w.log, target, n)
  {
    var k :| 0 <= k < |w.log| && Contains(w.log[k], target, size);
    assert BlockOk(w.log[k], base, end);
    forall n: nat | n <= size ensures InLog(w.log, target, n) { assert Contains(w.log[k], target, n); }
  }

  /** A window writer is made, written and finalised. */
  method WriteWindow(arena: Arena, target: nat, size: nat, code: seq<byte>) returns (ok: bool)
    requires 0 < arena.base <= target && target + size <= arena.End()
    modifies arena.mem
    ensures ok <==> |code| <= size
    ensures arena.mem[..] == if ok then Overwrite(old(arena.mem[..]), target - arena.base, code) else old(arena.mem[..])
  {
    var c := new ChainWriter(arena, target, size);
    assert c.written + code == code;
    ok := c.CopyIn(code);
    if ok {
      assert arena.mem[..] == Overwrite(c.before, target - arena.base, code);
      c.Finalise();
    }
  }

  /** A well-formed record that is in memory. */
  ghost predicate Recorded(m: seq<byte>, base: nat, end: nat, w: Writer) {
    Inv(w, base, end) && end == base + |m| && InMemory(m, base, w)
  }

  lemma ValidIs(w: MachineCodeWriter)
    ensures w.Valid() <==>
              Recorded(w.allocator.arena.mem[..], w.allocator.arena.base, w.allocator.arena.End(), w.State())
              && w.codeSize == |w.pending|
  {
  }

  lemma PatchRecorded(m: seq<byte>, base: nat, end: nat, w: Writer, target: nat, code: seq<byte>)
    requires Recorded(m, base, end, w) && InLog(w.log, target, |code|) && base <= target && target + |code| <= end
    ensures Recorded(Overwrite(m, target - base, code), base, end, DoPatch(w, target, code))
  {
    PatchKeepsInv(w, target, code, base, end);
    PatchKeepsBytes(m, w, base, end, target, code);
  }

  /** Memory and record after an attempt to patch. */
  lemma PatchOutcome(m: seq<byte>, base: nat, end: nat, w: Writer, target: nat, size: nat, code: seq<byte>)
    returns (m': seq<byte>, w': Writer)
    requires Recorded(m, base, end, w) && InLog(w.log, target, size)
    ensures 0 < base <= target && target + size <= end == base + |m|
    ensures Recorded(m', base, end, w') && |w'.pending| == |w.pending|
    ensures m' == if |code| <= size then Overwrite(m, target - base, code) else m
    ensures w' == if |code| <= size then DoPatch(w, target, code) else w
    ensures w' == w.(log := w'.log, pending := w'.pending)
  {
    Inside(w, base, end, target, size);
    m', w' := m, w;
    if |code| <= size {
      PatchRecorded(m, base, end, w, target, code);
      m', w' := Overwrite(m, target - base, code), DoPatch(w, target, code);
    }
  }

  /** The writer's record becomes that of state. */
  ghost method Record(w: MachineCodeWriter, state: Writer)
    requires state == w.State().(log := state.log, pending := state.pending)
    modifies w`log, w`pending
    ensures w.State() == state
  {
    w.log, w.pending := state.log, state.pending;
  }

  /** Patch size bytes at target, inside a finalised translation. False, with nothing changed, exactly when the new code
      does not fit the window. */
  method PatchCode(w: MachineCodeWriter, target: nat, size: nat, code: seq<byte>) returns (ok: bool)
    requires w.Valid() && InLog(w.log, target, size)
    modifies w`log, w`pending, w.allocator.arena.mem
    ensures ok <==> |code| <= size
    ensures w.State() == if ok then DoPatch(old(w.State()), target, code) else old(w.State())
    ensures w.Valid()
  {
    ValidIs(w);
    ghost var arena := w.allocator.arena;
    ghost var m, state := PatchOutcome(arena.mem[..], arena.base, arena.End(), w.State(), target, size, code);
    ok := WriteWindow(w.allocator.arena, target, size, code);
    assert arena.mem[..] == m;
    Record(w, state);
    ValidIs(w);
  }
}
