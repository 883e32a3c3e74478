/** The guest CPU state as the packed structure in memory that all translated code works on. */
module CpuState {
  /** A 64-bit machine word and a byte. */
  type Word = x: int | 0 <= x < 0x1_0000_0000_0000_0000
  type Byte = x: int | 0 <= x < 256

  /** The structure's bytes, by their offset; bytes never written are zero. */
  type Bytes = map<nat, Byte>

  /** How many registers the structure declares. */
  const COUNT := 65

  /** Declared sizes, in the order of declaration: PC and the sixteen general-purpose registers, eight flags, FS, GS and
      the base of the x87 stack, four 16-bit x87 registers, thirty-two ZMM registers, XCR0. */
  function Size(idx: nat): nat {
    if idx <= 16 then 8
    else if idx <= 24 then 1
    else if idx <= 27 then 8
    else if idx <= 31 then 2
    else if idx <= 63 then 64
    else 8
  }

  /** Where a register lies: the structure is packed, so right after those declared before it. */
  function Place(idx: nat): nat {
    if idx == 0 then 0 else Place(idx - 1) + Size(idx - 1)
  }

  lemma {:induction false} PlacesAscend(i: nat, j: nat)
    requires i < j
    ensures Place(i) + Size(i) <= Place(j)
    decreases j
  {
    if i + 1 < j { PlacesAscend(i, j - 1); }
  }

  /** No byte belongs to two registers. */
  lemma PlacesDisjoint(i: nat, j: nat, o: nat)
    requires Place(i) <= o < Place(i) + Size(i) && Place(j) <= o < Place(j) + Size(j)
    ensures i == j
  {
    if i < j { PlacesAscend(i, j); }
    if j < i { PlacesAscend(j, i); }
  }

  lemma {:induction false} GprPlace(idx: nat)
    requires idx <= 17
    ensures Place(idx) == 8 * idx
    decreases idx
  {
    if idx > 0 { GprPlace(idx - 1); }
  }

  lemma {:induction false} FlagPlace(idx: nat)
    requires 17 <= idx <= 25
    ensures Place(idx) == 136 + (idx - 17)
    decreases idx
  {
    if idx == 17 { GprPlace(17); } else { FlagPlace(idx - 1); }
  }

  // ---------------------------------------------------------------------------------------------
  // Little-endian access
  // ---------------------------------------------------------------------------------------------

  function ByteAt(cpu: Bytes, o: nat): Byte {
    if o in cpu then cpu[o] else 0
  }

  /** How many values n bytes can hold. */
  function Capacity(n: nat): nat {
    if n == 0 then 1 else 256 * Capacity(n - 1)
  }

  function LoadBytes(cpu: Bytes, o: nat, n: nat): (v: nat)
    ensures v < Capacity(n)
    decreases n, o
  {
    if n == 0 then 0 else ByteAt(cpu, o) + 256 * LoadBytes(cpu, o + 1, n - 1)
  }

  /** The n low bytes of v. */
  function StoreBytes(cpu: Bytes, o: nat, n: nat, v: nat): Bytes
    decreases n, o
  {
    if n == 0 then cpu else StoreBytes(cpu[o := v % 256], o + 1, n - 1, v / 256)
  }

  lemma DoubleCapacity()
    ensures Capacity(1) == 256 && Capacity(8) == 0x1_0000_0000_0000_0000
  {
    assert Capacity(2) == 0x1_0000 && Capacity(4) == 0x1_0000_0000 && Capacity(6) == 0x1_0000_0000_0000;
  }

  lemma {:induction false} StoreOutside(cpu: Bytes, o: nat, n: nat, v: nat, p: nat)
    requires p < o || o + n <= p
    ensures ByteAt(StoreBytes(cpu, o, n, v), p) == ByteAt(cpu, p)
    decreases n
  {
    if n > 0 { StoreOutside(cpu[o := v % 256], o + 1, n - 1, v / 256, p); }
  }

  lemma {:induction false} LoadSame(cpu: Bytes, cpu': Bytes, o: nat, n: nat)
    requires forall p :: o <= p < o + n ==> ByteAt(cpu', p) == ByteAt(cpu, p)
    ensures LoadBytes(cpu', o, n) == LoadBytes(cpu, o, n)
    decreases n
  {
    if n > 0 { LoadSame(cpu, cpu', o + 1, n - 1); }
  }

  /** What fits is loaded back as it was stored. */
  lemma {:induction false} LoadOfStore(cpu: Bytes, o: nat, n: nat, v: nat)
    requires v < Capacity(n)
    ensures LoadBytes(StoreBytes(cpu, o, n, v), o, n) == v
    decreases n
  {
    if n > 0 {
      StoreOutside(cpu[o := v % 256], o + 1, n - 1, v / 256, o);
      LoadOfStore(cpu[o := v % 256], o + 1, n - 1, v / 256);
    }
  }

  // ---------------------------------------------------------------------------------------------
  // Registers
  // ---------------------------------------------------------------------------------------------

  function RegIn(cpu: Bytes, idx: nat): nat {
    LoadBytes(cpu, Place(idx), Size(idx))
  }

  function PutReg(cpu: Bytes, idx: nat, v: nat): Bytes {
    StoreBytes(cpu, Place(idx), Size(idx), v)
  }

  lemma PutSets(cpu: Bytes, idx: nat, v: nat)
    requires v < Capacity(Size(idx))
    ensures RegIn(PutReg(cpu, idx, v), idx) == v
  {
    LoadOfStore(cpu, Place(idx), Size(idx), v);
  }

  /** Storing one register leaves every other as it was. */
  lemma PutKeeps(cpu: Bytes, idx: nat, v: nat, other: nat)
    requires other != idx
    ensures RegIn(PutReg(cpu, idx, v), other) == RegIn(cpu, other)
  {
    var cpu' := PutReg(cpu, idx, v);
    forall p: nat | Place(other) <= p < Place(other) + Size(other) ensures ByteAt(cpu', p) == ByteAt(cpu, p) {
      if Place(idx) <= p < Place(idx) + Size(idx) { PlacesDisjoint(idx, other, p); }
      StoreOutside(cpu, Place(idx), Size(idx), v, p);
    }
    LoadSame(cpu, cpu', Place(other), Size(other));
  }

  /** The layout in numbers: RAX, R15, the first and the last flag, FS, the x87 control word, ZMM0 and the end. */
  lemma Layout()
    ensures Place(1) == 8 && Place(16) == 128 && Place(17) == 136 && Place(24) == 143 && Place(25) == 144
    ensures Place(28) == 168 && Place(32) == 176 && Place(COUNT) == 2232
  {
    GprPlace(1);
    GprPlace(16);
    FlagPlace(17);
    FlagPlace(24);
    FlagPlace(25);
    assert Place(26) == 152 && Place(27) == 160 && Place(28) == 168 && Place(30) == 172;
    VectorPlace(64);
  }

  lemma {:induction false} VectorPlace(idx: nat)
    requires 32 <= idx <= 64
    ensures Place(idx) == Place(32) + 64 * (idx - 32)
    decreases idx
  {
    if idx > 32 { VectorPlace(idx - 1); }
  }
}
