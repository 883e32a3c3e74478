/** The arena, its allocator, the machine-code writer and the window writer used for patching, as objects over one
    array of code bytes. Each method is the corresponding step of CodeLog, and the bytes are where the log says. */
module CodeArena {
  import opened CodeLog

  /** mem holds the bytes from address base on; base is page aligned. */
  class Arena {
    const base: nat
    const mem: array<byte>

    constructor (base: nat, size: nat)
      requires base > 0 && base % 4096 == 0
      ensures this.base == base && mem.Length == size && fresh(mem)
    {
      this.base := base;
      mem := new byte[size](_ => 0);
    }

    function End(): nat {
      base + mem.Length
    }
  }

  class ArenaAllocator {
    const arena: Arena
    var next: nat
    var current: nat
    var currentSize: nat

    ghost function State(): Allocator
      reads this
    {
      Allocator(next, current, currentSize)
    }

    constructor (arena: Arena)
      ensures this.arena == arena && State() == Allocator(arena.base, 0, 0)
    {
      this.arena := arena;
      next, current, currentSize := arena.base, 0, 0;
    }

    method Allocate(original: nat, size: nat) returns (r: Allocation)
      modifies this
      ensures (State(), r) == CodeLog.Allocate(old(State()), arena.End(), original, size)
      ensures original == 0 ==> old(next + currentSize) <= next < old(next + currentSize) + 16
      ensures original == 0 && old(next) % 16 == 0 ==> next % 16 == 0
      ensures original != 0 ==> next == old(next)
    {
      if original == 0 {
        next := next + (currentSize + 15) / 16 * 16;
        if next > arena.End() {
          return OutOfMemory;
        }
        currentSize := size;
        current := next;
        return At(current);
      } else {
        if original != current {
          return NotCurrent;
        }
        currentSize := size;
        return At(original);
      }
    }
  }

  class MachineCodeWriter {
    const allocator: ArenaAllocator
    var codePtr: nat
    var codeSize: nat
    var allocSize: nat
    ghost var pending: seq<byte>
    ghost var log: seq<Block>
    ghost var sealed: bool

    ghost function State(): Writer
      reads this, allocator
    {
      Writer(allocator.State(), codePtr, allocSize, pending, log, sealed)
    }

    /** The bytes of every finalised translation and of the one being written are in the arena. */
    ghost predicate Valid()
      reads this, allocator, allocator.arena.mem
    {
      Inv(State(), allocator.arena.base, allocator.arena.End()) && BytesInArena()
    }

    ghost predicate BytesInArena()
      reads this, allocator, allocator.arena.mem
    {
      codeSize == |pending| && InMemory(allocator.arena.mem[..], allocator.arena.base, State())
    }

    constructor (allocator: ArenaAllocator)
      requires allocator.State() == Allocator(allocator.arena.base, 0, 0)
      requires allocator.arena.base > 0 && allocator.arena.base % 16 == 0
      ensures this.allocator == allocator && Valid() && State() == Writer(allocator.State(), 0, 0, [], [], false)
    {
      this.allocator := allocator;
      codePtr, codeSize, allocSize := 0, 0, 0;
      pending, log, sealed := [], [], false;
    }

    method EnsureCapacity(extra: nat) returns (ok: bool)
      requires codeSize == |pending|
      modifies this`codePtr, this`allocSize, allocator
      ensures (State(), ok) == CodeLog.EnsureCapacity(old(State()), extra, allocator.arena.End())
      ensures codeSize + extra <= old(allocSize) ==> ok && allocSize == old(allocSize) && codePtr == old(codePtr)
      ensures codeSize + extra > old(allocSize) ==> allocSize == if old(allocSize) == 0 then 64 else 2 * old(allocSize)
      ensures codeSize + extra > old(allocSize) && old(codePtr) == 0 ==>
        old(allocator.next + allocator.currentSize) <= allocator.next < old(allocator.next + allocator.currentSize) + 16
    {
      if codeSize + extra > allocSize {
        if allocSize == 0 { allocSize := 64; } else { allocSize := allocSize * 2; }
        var r := allocator.Allocate(codePtr, allocSize);
        if !r.At? {
          return false;
        }
        codePtr := r.ptr;
      }
      return true;
    }

    /** The memcpy of copy_in. */
    method Append(code: seq<byte>)
      requires BytesInArena() && codePtr != 0
      requires codePtr - allocator.arena.base + |pending| + |code| <= allocator.arena.mem.Length
      requires LogBelow(log, |log|, codePtr + |pending|)
      modifies this`codeSize, this`pending, allocator.arena.mem
      ensures pending == old(pending) + code && BytesInArena()
    {
      ghost var w, m, base := State(), allocator.arena.mem[..], allocator.arena.base;
      ghost var m', w' := Overwrite(m, w.ptr - base + |w.pending|, code), w.(pending := w.pending + code);
      assert InMemory(m', base, w') by { BlitKeeps(m, base, w, code); }
      pending := pending + code;
      assert State() == w';
      Blit(allocator.arena.mem, codePtr - allocator.arena.base + codeSize, code);
      codeSize := codeSize + |code|;
      assert allocator.arena.mem[..] == m' && State() == w';
    }

    /** False when the allocator throws. */
    method CopyIn(code: seq<byte>) returns (ok: bool)
      requires Valid() && Ready(State()) && Fits(State(), |code|, allocator.arena.End())
      modifies this, allocator, allocator.arena.mem
      ensures (State(), ok) == CodeLog.CopyIn(old(State()), code, allocator.arena.End()) && log == old(log)
      ensures Valid()
    {
      EmitKeepsInv(State(), code, allocator.arena.base, allocator.arena.End());
      RoomIsMade(allocator.arena.mem[..], allocator.arena.base, State(), |code|);
      ok := EnsureCapacity(|code|);
      if !ok {
        return;
      }
      if code == [] {
        assert pending + code == pending;
      } else {
        Append(code);
      }
    }

    method Finalise() returns (ok: bool)
      requires Valid()
      modifies this, allocator
      ensures (State(), ok) == DoFinalise(old(State()), allocator.arena.End())
      ensures Valid()
    {
      FinaliseKeepsInv(State(), allocator.arena.base, allocator.arena.End());
      var r := allocator.Allocate(codePtr, codeSize);
      if !r.At? {
        return false;
      }
      codePtr := r.ptr;
      allocSize := codeSize;
      log := Record(log, sealed, codePtr, pending);
      sealed := true;
      return true;
    }

    method Reset()
      requires Valid()
      modifies this
      ensures State() == DoReset(old(State())) && Valid() && Ready(State())
    {
      ResetKeepsInv(State(), allocator.arena.base, allocator.arena.End());
      codePtr := 0;
      allocSize, codeSize := 0, 0;
      pending, sealed := [], false;
    }
  }

  /** Block b's bytes are in the arena. */
  predicate Holds(m: seq<byte>, base: nat, b: Block) {
    base <= b.addr && b.addr - base + |b.code| <= |m| && m[b.addr - base..b.addr - base + |b.code|] == b.code
  }

  /** All translations, and the one being written, are in memory. */
  ghost predicate InMemory(m: seq<byte>, base: nat, w: Writer) {
    && (forall i :: 0 <= i < |w.log| ==> Holds(m, base, w.log[i]))
    && (w.ptr != 0 ==> Holds(m, base, Block(w.ptr, w.pending)))
  }

  /** memcpy into the code buffer. */
  method Blit(mem: array<byte>, at: nat, code: seq<byte>)
    requires at + |code| <= mem.Length
    modifies mem
    ensures mem[..] == Overwrite(old(mem[..]), at, code)
  {
    forall i | 0 <= i < |code| {
      mem[at + i] := code[i];
    }
  }

  /** Writing somewhere else leaves a block alone. */
  lemma OverwriteElsewhere(m: seq<byte>, base: nat, b: Block, at: nat, code: seq<byte>)
    requires at + |code| <= |m| && Holds(m, base, b)
    requires b.addr - base + |b.code| <= at || at + |code| <= b.addr - base
    ensures Holds(Overwrite(m, at, code), base, b)
  {
    var m', lo, hi := Overwrite(m, at, code), b.addr - base, b.addr - base + |b.code|;
    assert m'[lo..hi] == m[lo..hi];
  }

  /** Making room moves nothing, and leaves room above everything in the log. */
  lemma RoomIsMade(m: seq<byte>, base: nat, w: Writer, extra: nat)
    requires Inv(w, base, base + |m|) && Ready(w) && Fits(w, extra, base + |m|) && InMemory(m, base, w)
    ensures var (w', ok) := EnsureCapacity(w, extra, base + |m|);
            && InMemory(m, base, w')
            && (ok && extra > 0 ==> w'.ptr != 0 && w'.ptr - base + |w.pending| + extra <= |m|
                                    && LogBelow(w.log, |w.log|, w'.ptr + |w.pending|))
  {
    CapacityKeepsInv(w, extra, base, base + |m|);
    LogEnds(w, base, base + |m|);
    var (w', ok) := EnsureCapacity(w, extra, base + |m|);
    if w.ptr == 0 && w'.ptr != 0 {
      assert w.pending == [];
      assert Holds(m, base, Block(w'.ptr, []));
    }
  }

  /** Appending to the bytes being written keeps the whole log in memory. */
  lemma BlitKeeps(m: seq<byte>, base: nat, w: Writer, code: seq<byte>)
    requires InMemory(m, base, w) && w.ptr != 0 && w.ptr - base + |w.pending| + |code| <= |m|
    requires LogBelow(w.log, |w.log|, w.ptr + |w.pending|)
    ensures InMemory(Overwrite(m, w.ptr - base + |w.pending|, code), base, w.(pending := w.pending + code))
  {
    var at := w.ptr - base + |w.pending|;
    var m' := Overwrite(m, at, code);
    BlitExtends(m, base, Block(w.ptr, w.pending), code);
    forall i | 0 <= i < |w.log| ensures Holds(m', base, w.log[i]) { OverwriteElsewhere(m, base, w.log[i], at, code); }
  }

  lemma BlitExtends(m: seq<byte>, base: nat, b: Block, code: seq<byte>)
    requires Holds(m, base, b) && b.addr - base + |b.code| + |code| <= |m|
    ensures Holds(Overwrite(m, b.addr - base + |b.code|, code), base, Block(b.addr, b.code + code))
  {
    var at := b.addr - base + |b.code|;
    var m' := Overwrite(m, at, code);
    assert m'[b.addr - base..at] == m[b.addr - base..at] && m'[at..at + |code|] == code;
    assert m'[b.addr - base..at + |code|] == m'[b.addr - base..at] + m'[at..at + |code|];
  }
}
