/** The arm64 backend's materialisation of an immediate.

    One mov for short values, else a movz for the lowest sixteen bits and a movk for each further sixteen. The
    immediate is given as a signed integer and is wanted modulo the width of the register. */
module MovImm {
  import opened Bits

  datatype Insn = Mov(imm: nat) | Movz(imm: nat) | Movk(imm: nat, shift: nat)

  /** Immediates have 16 bits and shifts are multiples of 16 below 64. */
  predicate Encodable(i: Insn) {
    i.imm < 0x10000 && (i.Movk? ==> i.shift in {16, 32, 48})
  }

  /** movk replaces 16 bits and keeps the others. */
  function Exec(i: Insn, reg: nat): int {
    match i
    case Mov(v) => v
    case Movz(v) => v
    case Movk(v, s) => reg - Field(reg, s, 16) * Pow2(s) + v * Pow2(s)
  }

  lemma MovkBelow(reg: nat, v: nat, s: nat)
    requires reg < Pow2(s)
    ensures Exec(Movk(v, s), reg) == reg + v * Pow2(s)
  {
    DivModUnique(reg, 0, reg, Pow2(s));
    DivModUnique(0, 0, 0, Pow2(16));
  }

  /** The register after a list that was built by appending; nothing is assumed of it before. */
  function ExecAll(code: seq<Insn>, reg: nat): int {
    if code == [] then reg
    else
      var r := ExecAll(code[..|code| - 1], reg);
      if r >= 0 then Exec(code[|code| - 1], r) else r
  }

  function BitLength(x: nat): nat {
    if x == 0 then 0 else 1 + BitLength(x / 2)
  }

  lemma {:induction false} BitLengthBounds(x: nat)
    ensures x < Pow2(BitLength(x))
    ensures x > 0 ==> BitLength(x) >= 1 && Pow2(BitLength(x) - 1) <= x
    decreases x
  {
    if x > 0 { BitLengthBounds(x / 2); }
  }

  lemma Regroup(x: int, q: int, hi: int, mid: int, low: int, c: int, m: int)
    requires x == q * m + low && q == hi * c + mid && 0 <= mid < c && 0 <= low < m
    ensures c * m > 0 && x % (c * m) == low + mid * m
  {
    MulAddRight(hi * c, mid, m);
    MulAssoc(hi, c, m);
    MulSub(c, mid + 1, m);
    if c > mid + 1 { MulPositive(c - (mid + 1), m); }
    MulAddRight(mid, 1, m);
    if mid > 0 { MulPositive(mid, m); }
    MulPositive(c, m);
    DivModUnique(x, hi, mid * m + low, c * m);
  }

  lemma DivModEquation(x: int, m: int)
    requires m > 0
    ensures x == (x / m) * m + x % m && 0 <= x % m < m
  {
  }

  lemma ChunkOf(x: int, m: int, c: int)
    requires m > 0 && c > 0
    ensures c * m > 0 && x % (c * m) == x % m + ((x / m) % c) * m
  {
    DivModEquation(x, m);
    DivModEquation(x / m, c);
    Regroup(x, x / m, (x / m) / c, (x / m) % c, x % m, c, m);
  }

  /** The low s + n bits of x are its low s bits and the field above them. */
  lemma ChunkStep(x: nat, s: nat, n: nat)
    ensures x % Pow2(s + n) == x % Pow2(s) + Field(x, s, n) * Pow2(s)
  {
    Pow2Add(n, s);
    ChunkOf(x, Pow2(s), Pow2(n));
  }

  /** immediate >> s & 0xFFFF. */
  function Chunk(x: nat, s: nat): (r: nat)
    ensures r < 0x10000
  {
    FieldBound(x, s);
    Field(x, s, 16)
  }

  lemma FieldBound(x: nat, s: nat)
    ensures 0 <= Field(x, s, 16) < 0x10000
  {
    assert Pow2(8) == 256;
    Pow2Add(8, 8);
  }

  predicate AllEncodable(code: seq<Insn>) {
    forall k :: 0 <= k < |code| ==> Encodable(code[k])
  }

  /** Whatever the register held before, it holds v afterwards. */
  ghost predicate Sets(code: seq<Insn>, v: int) {
    forall reg: nat :: ExecAll(code, reg) == v
  }

  /** The low n 16-bit chunks. */
  function Low(x: nat, n: nat): (r: nat) {
    x % Pow2(16 * n)
  }

  /** A movz of the lowest chunk and a movk of each further one. */
  method MovChunks(immediate: nat, moveCount: nat) returns (code: seq<Insn>)
    requires 1 <= moveCount <= 4
    ensures |code| == moveCount && AllEncodable(code) && Sets(code, Low(immediate, moveCount))
  {
    FirstChunk(immediate);
    code := [Movz(Chunk(immediate, 0))];
    OneMove(code, Low(immediate, 1));
    for i := 1 to moveCount
      invariant |code| == i && AllEncodable(code) && Sets(code, Low(immediate, i))
    {
      MovkStep(code, immediate, i);
      code := code + [Movk(Chunk(immediate, 16 * i), 16 * i)];
    }
  }

  /** v is imm to width bits, and the whole 64-bit pattern of imm when that fits. */
  predicate Represents(v: int, imm: int, width: nat) {
    Cong(v, imm, Pow2(width)) && (imm % Pow2(64) < Pow2(width) ==> v == imm % Pow2(64))
  }

  /** For any immediate and any width up to 64 bits the register ends up congruent to it modulo 2^width, and equal to
      its 64-bit pattern when that fits the width, whatever it held before; after at most four instructions, and no more
      than the width and the pattern have 16-bit chunks. */
  method MovImmediate(imm: int, width: nat) returns (code: seq<Insn>)
    requires 1 <= width <= 64
    ensures 1 <= |code| <= 4 && AllEncodable(code)
    ensures forall n: nat :: 1 <= n < |code| ==> 16 * n < width && Pow2(16 * n) <= imm % Pow2(64)
    ensures exists v :: Sets(code, v) && Represents(v, imm, width)
  {
    var immediate: nat := imm % Pow2(64);
    SizeOk(immediate);
    var bits := BitLength(OrOne(immediate));
    var actualSize := if bits > width then width else bits;
    var moveCount := actualSize / 16 + if actualSize % 16 != 0 then 1 else 0;
    if actualSize < 16 {
      FirstChunk(immediate);
      code := [Mov(Chunk(immediate, 0))];
      OneMove(code, Low(immediate, 1));
      MovOk(imm, immediate, bits, width, 1);
    } else {
      CountOk(actualSize);
      code := MovChunks(immediate, moveCount);
      forall n: nat | 1 <= n < moveCount ensures 16 * n < width && Pow2(16 * n) <= immediate {
        ChunkNeeded(immediate, bits, n);
      }
      MovOk(imm, immediate, bits, width, moveCount);
    }
  }

  lemma CountOk(size: nat)
    requires 16 <= size <= 64
    ensures var n := size / 16 + if size % 16 != 0 then 1 else 0; 1 <= n <= 4 && 16 * n >= size
  {
  }

  lemma OneMove(code: seq<Insn>, v: nat)
    requires |code| == 1 && !code[0].Movk? && code[0].imm == v
    ensures Sets(code, v)
  {
    assert code[..0] == [];
  }

  lemma MovkStep(code: seq<Insn>, immediate: nat, i: nat)
    requires 1 <= i < 4 && Sets(code, Low(immediate, i))
    ensures Encodable(Movk(Chunk(immediate, 16 * i), 16 * i))
    ensures Sets(code + [Movk(Chunk(immediate, 16 * i), 16 * i)], Low(immediate, i + 1))
  {
    var next := Movk(Chunk(immediate, 16 * i), 16 * i);
    assert (code + [next])[..|code|] == code;
    MovkBelow(immediate % Pow2(16 * i), Chunk(immediate, 16 * i), 16 * i);
    ChunkStep(immediate, 16 * i, 16);
    assert 16 * i + 16 == 16 * (i + 1);
  }

  lemma FirstChunk(x: nat)
    ensures Chunk(x, 0) == Low(x, 1)
  {
    DivModUnique(x, x, 0, Pow2(0));
  }

  /** 64 - clz(x | 1) is enough bits for x, and at most 64. */
  lemma SizeOk(x: nat)
    requires x < Pow2(64)
    ensures x <= OrOne(x) < Pow2(BitLength(OrOne(x))) && 1 <= BitLength(OrOne(x)) <= 64
  {
    Pow2Big();
    BitLengthBounds(OrOne(x));
    BitLengthAtMost(OrOne(x), 64);
  }

  lemma ChunkNeeded(x: nat, bits: nat, n: nat)
    requires bits == BitLength(OrOne(x)) && 1 <= n && 16 * n < bits
    ensures Pow2(16 * n) <= x
  {
    BitLengthBounds(OrOne(x));
    Pow2Monotone(16 * n, bits - 1);
    assert Pow2(16 * n) == 2 * Pow2(16 * n - 1);
  }

  lemma BitLengthAtMost(y: nat, n: nat)
    requires 0 < y < Pow2(n)
    ensures BitLength(y) <= n
  {
    BitLengthBounds(y);
    if BitLength(y) > n { Pow2Monotone(n, BitLength(y) - 1); }
  }

  function OrOne(x: nat): nat {
    if x % 2 == 0 then x + 1 else x
  }

  /** The low 16 n bits, when they cover the width or the whole value. */
  lemma MovOk(imm: int, immediate: nat, bits: nat, width: nat, n: nat)
    requires immediate == imm % Pow2(64) < Pow2(bits) && width <= 64
    requires 16 * n >= width || 16 * n >= bits
    ensures Represents(Low(immediate, n), imm, width)
  {
    CongMod(imm, Pow2(64));
    CongNarrow(immediate, imm, width, 64);
    if 16 * n >= bits {
      Pow2Monotone(bits, 16 * n);
      DivModUnique(immediate, 0, immediate, Pow2(16 * n));
    } else {
      CongMod(immediate, Pow2(16 * n));
      CongNarrow(Low(immediate, n), immediate, width, 16 * n);
      if immediate < Pow2(width) {
        Pow2Monotone(width, 16 * n);
        DivModUnique(immediate, 0, immediate, Pow2(16 * n));
      }
    }
  }
}
