/** The writer used to patch code that is already in the arena.

    It starts in the middle of a 16-byte line and its allocator refuses to go beyond the window. It has no log of its
    own: what a patch does to the logged translations is said here as lemmas. */
module ChainWindow {
  import opened CodeLog
  import opened CodeArena

  class ChainWriter {
    const arena: Arena
    const target: nat
    const limit: nat
    var codePtr: nat
    var codeSize: nat
    var allocSize: nat
    ghost const before: seq<byte>
    ghost var written: seq<byte>

    /** The arena is as it was except for the bytes written so far, which are at the target. */
    ghost predicate Valid()
      reads this, arena.mem
    {
      && 0 < arena.base <= target && target - target % 16 + limit <= arena.End()
      && codePtr == target - target % 16 && codeSize == target % 16 + |written| <= limit
      && (allocSize == limit || allocSize == codeSize)
      && |before| == arena.mem.Length && arena.mem[..] == Overwrite(before, target - arena.base, written)
    }

    constructor (arena: Arena, target: nat, size: nat)
      requires 0 < arena.base <= target && target + size <= arena.End()
      ensures this.arena == arena && this.target == target && limit == size + target % 16 && allocSize == limit
      ensures before == arena.mem[..] && written == [] && Valid()
    {
      this.arena, this.target := arena, target;
      limit := size + target % 16;
      codePtr, codeSize, allocSize := target - target % 16, target % 16, size + target % 16;
      before, written := arena.mem[..], [];
    }

    /** The window's allocator: a size check, and a null pointer when it fails. */
    method Allocate(original: nat, size: nat) returns (ptr: nat)
      ensures ptr == if size <= limit then original else 0
    {
      ptr := if size <= limit then original else 0;
    }

    /** False when the bytes do not fit the window: the code pointer is then null and nothing has been written. */
    method CopyIn(code: seq<byte>) returns (ok: bool)
      requires Valid() && allocSize == limit
      modifies this, arena.mem
      ensures ok <==> target % 16 + |old(written)| + |code| <= limit
      ensures ok ==> Valid() && allocSize == limit && written == old(written) + code
      ensures !ok ==> codePtr == 0 && arena.mem[..] == old(arena.mem[..])
      ensures !ok ==> allocSize == if limit == 0 then 64 else 2 * limit
    {
      if codeSize + |code| > allocSize {
        allocSize := if allocSize == 0 then 64 else allocSize * 2;
        codePtr := Allocate(codePtr, allocSize);
        return false;
      }
      OverwriteAgain(before, target - arena.base, written, code);
      Blit(arena.mem, codePtr - arena.base + codeSize, code);
      codeSize := codeSize + |code|;
      written := written + code;
      return true;
    }

    /** Run by the destructor; never leaves the window. */
    method Finalise()
      requires Valid()
      modifies this`codePtr, this`allocSize
      ensures Valid() && allocSize == codeSize
    {
      codePtr := Allocate(codePtr, codeSize);
      allocSize := codeSize;
    }
  }

  lemma OverwriteAgain(m: seq<byte>, at: nat, a: seq<byte>, b: seq<byte>)
    requires at + |a| + |b| <= |m|
    ensures Overwrite(Overwrite(m, at, a), at + |a|, b) == Overwrite(m, at, a + b)
  {
    var m1 := Overwrite(m, at, a);
    assert m1[..at + |a|] == m[..at] + a && m1[at + |a| + |b|..] == m[at + |a| + |b|..];
    assert (m[..at] + a) + b == m[..at] + (a + b);
  }

  /** A patch inside one finalised translation changes that translation at the window and nowhere else. */
  lemma PatchInside(m: seq<byte>, base: nat, b: Block, target: nat, code: seq<byte>)
    requires Holds(m, base, b) && b.addr <= target && target + |code| <= b.addr + |b.code|
    ensures Holds(Overwrite(m, target - base, code), base, Block(b.addr, Overwrite(b.code, target - b.addr, code)))
  {
    var m', lo, hi := Overwrite(m, target - base, code), b.addr - base, b.addr - base + |b.code|;
    assert m[lo..hi] == b.code;
    assert m'[lo..hi] == Overwrite(m[lo..hi], target - b.addr, code);
  }

  /** It leaves every other translation of a well-formed log as it was. */
  lemma PatchKeepsOthers(m: seq<byte>, base: nat, end: nat, log: seq<Block>, k: nat, target: nat, code: seq<byte>)
    requires LogOk(log, base, end) && end == base + |m| && k < |log|
    requires forall i :: 0 <= i < |log| ==> Holds(m, base, log[i])
    requires log[k].addr <= target && target + |code| <= log[k].addr + |log[k].code|
    ensures forall i :: 0 <= i < |log| && i != k ==> Holds(Overwrite(m, target - base, code), base, log[i])
  {
    forall i | 0 <= i < |log| && i != k ensures Holds(Overwrite(m, target - base, code), base, log[i]) {
      if i < k {
        assert log[i].addr + |log[i].code| <= log[k].addr;
      } else {
        assert log[k].addr + |log[k].code| <= log[i].addr;
      }
      OverwriteElsewhere(m, base, log[i], target - base, code);
    }
  }
}
