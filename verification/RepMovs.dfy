/** The loop the translator emits for REP MOVS, as an IR action list with labels and branches, and its execution. */
module RepMovs {
  const W := 0x1_0000_0000_0000_0000

  type Memory = map<int, int>

  function Get(m: Memory, a: int): int {
    if a in m then m[a] else 0
  }

  datatype Register = Rcx | Rdi | Rsi

  /** Expressions of the loop, all of 64 bits. Select takes its first operand when the direction flag is set. */
  datatype Expr = Reg(r: Register) | Const(v: int) | Plus(a: Expr, b: Expr) | Minus(a: Expr,
                      b: Expr) | Select(a: Expr, b: Expr)

  /** Move is the store of the element read at RSI to the address in RDI. */
  datatype Action =
    | Label
    | BranchIfZero(e: Expr, target: nat)
    | Branch(target: nat)
    | Move(size: nat)
    | WriteReg(dest: Register, e: Expr)

  datatype Cpu = Cpu(rcx: int, rdi: int, rsi: int, df: bool, mem: Memory)

  predicate CpuOk(c: Cpu) {
    0 <= c.rcx < W && 0 <= c.rdi < W && 0 <= c.rsi < W
  }

  function ReadReg(r: Register, c: Cpu): int {
    match r
    case Rcx => c.rcx
    case Rdi => c.rdi
    case Rsi => c.rsi
  }

  function Eval(e: Expr, c: Cpu): int {
    match e
    case Reg(r) => ReadReg(r, c)
    case Const(v) => v % W
    case Plus(a, b) => (Eval(a, c) + Eval(b, c)) % W
    case Minus(a, b) => (Eval(a, c) - Eval(b, c)) % W
    case Select(a, b) => if c.df then Eval(a, c) else Eval(b, c)
  }

  /** Addresses wrap. */
  function ByteAt(a: int, b: int): int {
    (a + b) % W
  }

  /** n bytes from address a on. */
  function ReadBytes(m: Memory, a: int, n: nat): (r: seq<int>)
    ensures |r| == n
  {
    seq(n, k requires 0 <= k < n => Get(m, ByteAt(a, k)))
  }

  function WriteBytes(m: Memory, a: int, bytes: seq<int>): Memory
    decreases |bytes|
  {
    if bytes == [] then m
    else WriteBytes(m, a, bytes[..|bytes| - 1])[ByteAt(a, |bytes| - 1) := bytes[|bytes| - 1]]
  }

  function MoveElement(c: Cpu, size: nat): Cpu {
    c.(mem := WriteBytes(c.mem, c.rdi, ReadBytes(c.mem, c.rsi, size)))
  }

  /** One action: the state and where control goes. */
  function Step(a: Action, pc: nat, c: Cpu): (nat, Cpu) {
    match a
    case Label => (pc + 1, c)
    case BranchIfZero(e, t) => (if Eval(e, c) == 0 then t else pc + 1, c)
    case Branch(t) => (t, c)
    case Move(size) => (pc + 1, MoveElement(c, size))
    case WriteReg(Rcx, e) => (pc + 1, c.(rcx := Eval(e, c)))
    case WriteReg(Rdi, e) => (pc + 1, c.(rdi := Eval(e, c)))
    case WriteReg(Rsi, e) => (pc + 1, c.(rsi := Eval(e, c)))
  }

  /** n actions, or fewer when control leaves the list. */
  function Run(prog: seq<Action>, pc: nat, c: Cpu, n: nat): (nat, Cpu)
    decreases n
  {
    if n == 0 || pc >= |prog| then (pc, c)
    else var (pc', c') := Step(prog[pc], pc, c); Run(prog, pc', c', n - 1)
  }

  // ---------------------------------------------------------------------------------------------
  // The emitted loop
  // ---------------------------------------------------------------------------------------------

  datatype Class = MovsB | MovsW | MovsD | MovsQ

  function Size(k: Class): (r: nat)
    ensures r == 1 || r == 2 || r == 4 || r == 8
  {
    match k
    case MovsB => 1
    case MovsW => 2
    case MovsD => 4
    case MovsQ => 8
  }

  function Advance(r: Register, size: nat): Expr {
    Select(Minus(Reg(r), Const(size)), Plus(Reg(r), Const(size)))
  }

  /** The action list. */
  function Program(k: Class): seq<Action> {
    [Label,
     BranchIfZero(Reg(Rcx), 7),
     Move(Size(k)),
     WriteReg(Rdi, Advance(Rdi, Size(k))),
     WriteReg(Rsi, Advance(Rsi, Size(k))),
     WriteReg(Rcx, Minus(Reg(Rcx), Const(1))),
     Branch(0),
     Label]
  }

  /** The translator appends actions in order; the exit branch gets its target once the end label is known. */
  method Translate(k: Class) returns (prog: seq<Action>)
    ensures prog == Program(k)
    ensures |prog| == 8 && prog[1] == BranchIfZero(Reg(Rcx), 7) && prog[6] == Branch(0) && prog[7] == Label
    ensures k.MovsB? ==> prog[2] == Move(1)
    ensures k.MovsW? ==> prog[2] == Move(2)
    ensures k.MovsD? ==> prog[2] == Move(4)
    ensures k.MovsQ? ==> prog[2] == Move(8)
  {
    var align := Size(k);
    var loopStart: nat := 0;
    prog := [Label];
    var brLoop := |prog|;
    prog := prog + [BranchIfZero(Reg(Rcx), 0)];
    prog := prog + [Move(align)];
    prog := prog + [WriteReg(Rdi, Select(Minus(Reg(Rdi), Const(align)), Plus(Reg(Rdi), Const(align))))];
    prog := prog + [WriteReg(Rsi, Select(Minus(Reg(Rsi), Const(align)), Plus(Reg(Rsi), Const(align))))];
    prog := prog + [WriteReg(Rcx, Minus(Reg(Rcx), Const(1)))];
    prog := prog + [Branch(loopStart)];
    var loopEnd := |prog|;
    prog := prog + [Label];
    prog := prog[brLoop := BranchIfZero(Reg(Rcx), loopEnd)];
  }

  // ---------------------------------------------------------------------------------------------
  // Termination and the final registers
  // ---------------------------------------------------------------------------------------------

  /** How far the pointers move at each step. */
  function Stride(k: Class, df: bool): int {
    if df then 0 - Size(k) else Size(k)
  }

  /** One turn of the loop. */
  function Turn(k: Class, c: Cpu): Cpu {
    var d := Stride(k, c.df);
    Cpu(c.rcx - 1, (c.rdi + d) % W, (c.rsi + d) % W, c.df, MoveElement(c, Size(k)).mem)
  }

  function Turns(k: Class, c: Cpu, n: nat): Cpu
    decreases n
  {
    if n == 0 then c else Turns(k, Turn(k, c), n - 1)
  }

  lemma AdvanceIsStride(k: Class, c: Cpu, r: Register)
    ensures Eval(Advance(r, Size(k)), c) == (ReadReg(r, c) + Stride(k, c.df)) % W
  {
    var size, x := Size(k), ReadReg(r, c);
    assert Eval(Const(size), c) == size && Eval(Reg(r), c) == x;
    assert Eval(Minus(Reg(r), Const(size)), c) == (x - size) % W;
    assert Eval(Plus(Reg(r), Const(size)), c) == (x + size) % W;
  }

  lemma RunStep(prog: seq<Action>, pc: nat, c: Cpu, n: nat)
    requires pc < |prog| && n > 0
    ensures Run(prog, pc, c, n) == Run(prog, Step(prog[pc], pc, c).0, Step(prog[pc], pc, c).1, n - 1)
  {
  }

  /** Seven actions make one turn. */
  lemma OneTurn(k: Class, c: Cpu, n: nat)
    requires CpuOk(c) && c.rcx > 0 && n >= 7
    ensures Run(Program(k), 0, c, n) == Run(Program(k), 0, Turn(k, c), n - 7)
  {
    var p, size := Program(k), Size(k);
    var c1 := MoveElement(c, size);
    var c2 := c1.(rdi := Eval(Advance(Rdi, size), c1));
    var c3 := c2.(rsi := Eval(Advance(Rsi, size), c2));
    var c4 := c3.(rcx := Eval(Minus(Reg(Rcx), Const(1)), c3));
    RunStep(p, 0, c, n);
    RunStep(p, 1, c, n - 1);
    RunStep(p, 2, c, n - 2);
    RunStep(p, 3, c1, n - 3);
    RunStep(p, 4, c2, n - 4);
    RunStep(p, 5, c3, n - 5);
    RunStep(p, 6, c4, n - 6);
    AdvanceIsStride(k, c1, Rdi);
    AdvanceIsStride(k, c2, Rsi);
    assert Eval(Const(1), c3) == 1 && Eval(Reg(Rcx), c3) == c.rcx;
    assert c4 == Turn(k, c);
  }

  /** The loop ends: RCX is its measure, seven actions a turn and three to leave. */
  lemma {:induction false} Terminates(k: Class, c: Cpu)
    requires CpuOk(c)
    ensures Run(Program(k), 0, c, 7 * c.rcx + 3) == (8, Turns(k, c, c.rcx))
    decreases c.rcx
  {
    if c.rcx == 0 {
      var p := Program(k);
      RunStep(p, 0, c, 3);
      RunStep(p, 1, c, 2);
      RunStep(p, 7, c, 1);
    } else {
      OneTurn(k, c, 7 * c.rcx + 3);
      Terminates(k, Turn(k, c));
    }
  }

  /** A pointer n strides on. */
  function Moved(p: int, n: int, d: int): int {
    (p + n * d) % W
  }

  /** After n turns: the count is n lower and the pointers have moved n strides, modulo 2^64. */
  lemma {:induction false} TurnsRegisters(k: Class, c: Cpu, n: nat)
    requires 0 <= c.rdi < W && 0 <= c.rsi < W
    ensures var c', d := Turns(k, c, n), Stride(k, c.df);
            && c'.rcx == c.rcx - n && c'.df == c.df
            && c'.rdi == Moved(c.rdi, n, d) && c'.rsi == Moved(c.rsi, n, d)
    decreases n
  {
    var d := Stride(k, c.df);
    if n == 0 {
      MovedZero(c.rdi, d);
      MovedZero(c.rsi, d);
    } else {
      TurnsRegisters(k, Turn(k, c), n - 1);
      ModStep(c.rdi, n, d);
      ModStep(c.rsi, n, d);
    }
  }

  lemma MovedZero(p: int, d: int)
    requires 0 <= p < W
    ensures Moved(p, 0, d) == p
  {
  }

  lemma ModStep(x: int, n: int, d: int)
    ensures Moved((x + d) % W, n - 1, d) == Moved(x, n, d)
  {
    var q := (x + d) / W;
    assert (x + d) % W == x + d - q * W;
    assert (n - 1) * d == n * d - d;
    ModShift(x + n * d, q);
  }

  lemma ModShift(x: int, q: int)
    ensures (x - q * W) % W == x % W
  {
  }

  /** Both pointers have moved by len, in the direction the flag says, modulo 2^64. */
  predicate MovedBy(c: Cpu, c': Cpu, len: nat) {
    if c.df then
      c'.rdi == (c.rdi - len) % 0x1_0000_0000_0000_0000 && c'.rsi == (c.rsi - len) % 0x1_0000_0000_0000_0000
    else
      c'.rdi == (c.rdi + len) % 0x1_0000_0000_0000_0000 && c'.rsi == (c.rsi + len) % 0x1_0000_0000_0000_0000
  }

  /** RCX moves of k are len bytes. */
  predicate Length(k: Class, rcx: int, len: nat) {
    match k
    case MovsB => len == rcx
    case MovsW => len == 2 * rcx
    case MovsD => len == 4 * rcx
    case MovsQ => len == 8 * rcx
  }

  lemma MovedLength(p: int, k: Class, n: int, df: bool, len: nat)
    requires Length(k, n, len)
    ensures Moved(p, n, Stride(k, df)) == (if df then p - len else p + len) % 0x1_0000_0000_0000_0000
  {
    assert n * Stride(k, df) == if df then 0 - len else len by {
      match k
      case MovsB =>
      case MovsW =>
      case MovsD =>
      case MovsQ =>
    }
  }

  lemma TurnsMove(k: Class, c: Cpu, len: nat)
    requires CpuOk(c) && Length(k, c.rcx, len)
    ensures var c' := Turns(k, c, c.rcx); c'.rcx == 0 && c'.df == c.df && MovedBy(c, c', len)
  {
    TurnsRegisters(k, c, c.rcx);
    MovedLength(c.rdi, k, c.rcx, c.df, len);
    MovedLength(c.rsi, k, c.rcx, c.df, len);
  }

  /** What the documentation of the instruction says of the registers: RCX ends as zero, and RDI and RSI have moved by
      one, two, four or eight times RCX. */
  lemma FinalRegisters(k: Class, c: Cpu, len: nat)
    requires CpuOk(c) && Length(k, c.rcx, len)
    ensures var (pc, c') := Run(Program(k), 0, c, 7 * c.rcx + 3);
            pc == 8 && c'.rcx == 0 && c'.df == c.df && MovedBy(c, c', len)
  {
    Terminates(k, c);
    TurnsMove(k, c, len);
  }

  // ---------------------------------------------------------------------------------------------
  // The final memory
  // ---------------------------------------------------------------------------------------------

  /** Address of byte b of element i, counted from pointer p in the direction of the stride. */
  function At(p: int, d: int, i: int, b: int): int {
    (p + i * d + b) % W
  }

  predicate Outside(x: int, a: int, n: nat) {
    forall b :: 0 <= b < n ==> ByteAt(a, b) != x
  }

  lemma {:induction false} WriteBytesAt(m: Memory, a: int, bytes: seq<int>)
    requires |bytes| <= 8
    ensures forall b :: 0 <= b < |bytes| ==> Get(WriteBytes(m, a, bytes), ByteAt(a, b)) == bytes[b]
    decreases |bytes|
  {
    if bytes != [] {
      var last, init := |bytes| - 1, bytes[..|bytes| - 1];
      WriteBytesAt(m, a, init);
      forall b | 0 <= b < |bytes| ensures Get(WriteBytes(m, a, bytes), ByteAt(a, b)) == bytes[b] {
        if b < last { NearDistinct(a, b, last); assert init[b] == bytes[b]; }
      }
    }
  }

  lemma {:induction false} WriteBytesElsewhere(m: Memory, a: int, bytes: seq<int>, x: int)
    requires Outside(x, a, |bytes|)
    ensures Get(WriteBytes(m, a, bytes), x) == Get(m, x)
    decreases |bytes|
  {
    if bytes != [] {
      assert ByteAt(a, |bytes| - 1) != x;
      WriteBytesElsewhere(m, a, bytes[..|bytes| - 1], x);
    }
  }

  lemma NearDistinct(a: int, b: int, c: int)
    requires 0 <= b < c < 8
    ensures ByteAt(a, b) != ByteAt(a, c)
  {
  }

  /** Two bytes of different elements of two runs, the first element being the earlier, have different addresses. */
  ghost predicate Apart(p: int, q: int, d: int, size: nat, n: nat) {
    forall i, j, b, e :: 0 <= i < j < n && 0 <= b < size && 0 <= e < size ==> At(p, d, i, b) != At(q, d, j, e)
  }

  lemma AtTurn(p: int, d: int, i: int, b: int)
    ensures At((p + d) % W, d, i, b) == At(p, d, i + 1, b)
  {
    var q := (p + d) / W;
    assert (p + d) % W == p + d - q * W;
    assert (i + 1) * d == i * d + d;
    ModShift(p + (i + 1) * d + b, q);
  }

  lemma AtFirst(p: int, d: int, b: int)
    ensures At(p, d, 0, b) == ByteAt(p, b)
  {
  }

  lemma ApartTurn(p: int, q: int, d: int, size: nat, n: nat)
    requires n > 0 && Apart(p, q, d, size, n)
    ensures Apart((p + d) % W, (q + d) % W, d, size, n - 1)
  {
    var p', q' := (p + d) % W, (q + d) % W;
    forall i, j, b, e | 0 <= i < j < n - 1 && 0 <= b < size && 0 <= e < size
      ensures At(p', d, i, b) != At(q', d, j, e)
    {
      AtTurn(p, d, i, b);
      AtTurn(q, d, j, e);
    }
  }

  /** Byte b of element i has been copied. */
  predicate Copied(m: Memory, m': Memory, rdi: int, rsi: int, d: int, i: int, b: int) {
    Get(m', At(rdi, d, i, b)) == Get(m, At(rsi, d, i, b))
  }

  ghost predicate AllCopied(m: Memory, m': Memory, rdi: int, rsi: int, d: int, size: nat, n: nat) {
    forall i, b :: 0 <= i < n && 0 <= b < size ==> Copied(m, m', rdi, rsi, d, i, b)
  }

  /** x is none of the addresses written. */
  ghost predicate Untouched(x: int, rdi: int, d: int, size: nat, n: nat) {
    forall i, b :: 0 <= i < n && 0 <= b < size ==> At(rdi, d, i, b) != x
  }

  lemma UntouchedTurn(x: int, rdi: int, d: int, size: nat, n: nat)
    requires n > 0 && Untouched(x, rdi, d, size, n)
    ensures Untouched(x, (rdi + d) % W, d, size, n - 1) && Outside(x, rdi, size)
  {
    var rdi' := (rdi + d) % W;
    forall i, b | 0 <= i < n - 1 && 0 <= b < size ensures At(rdi', d, i, b) != x {
      AtTurn(rdi, d, i, b);
      assert At(rdi, d, i + 1, b) != x;
    }
    forall b | 0 <= b < size ensures ByteAt(rdi, b) != x {
      AtFirst(rdi, d, b);
      assert At(rdi, d, 0, b) != x;
    }
  }

  /** Memory nobody points at stays as it was, whatever overlaps. */
  lemma {:induction false} ElsewhereUnchanged(k: Class, c: Cpu, n: nat, x: int)
    requires Untouched(x, c.rdi, Stride(k, c.df), Size(k), n)
    ensures Get(Turns(k, c, n).mem, x) == Get(c.mem, x)
    decreases n
  {
    if n > 0 {
      UntouchedTurn(x, c.rdi, Stride(k, c.df), Size(k), n);
      WriteBytesElsewhere(c.mem, c.rdi, ReadBytes(c.mem, c.rsi, Size(k)), x);
      ElsewhereUnchanged(k, Turn(k, c), n - 1, x);
    }
  }

  /** The first element stays copied. */
  lemma FirstCopied(k: Class, c: Cpu, n: nat, b: int)
    requires n > 0 && 0 <= b < Size(k) && Apart(c.rdi, c.rdi, Stride(k, c.df), Size(k), n)
    ensures Copied(c.mem, Turns(k, c, n).mem, c.rdi, c.rsi, Stride(k, c.df), 0, b)
  {
    var d, size := Stride(k, c.df), Size(k);
    AtFirst(c.rdi, d, b);
    AtFirst(c.rsi, d, b);
    WriteBytesAt(c.mem, c.rdi, ReadBytes(c.mem, c.rsi, size));
    var x := At(c.rdi, d, 0, b);
    var rdi' := (c.rdi + d) % W;
    forall i, e | 0 <= i < n - 1 && 0 <= e < size ensures At(rdi', d, i, e) != x {
      AtTurn(c.rdi, d, i, e);
      assert At(c.rdi, d, 0, b) != At(c.rdi, d, i + 1, e);
    }
    ElsewhereUnchanged(k, Turn(k, c), n - 1, x);
  }

  /** A later element reads what was there before the first turn. */
  lemma LaterSource(k: Class, c: Cpu, n: nat, i: int, b: int)
    requires 0 < i < n && 0 <= b < Size(k) && Apart(c.rdi, c.rsi, Stride(k, c.df), Size(k), n)
    ensures Get(Turn(k, c).mem, At(c.rsi, Stride(k, c.df), i, b)) == Get(c.mem, At(c.rsi, Stride(k, c.df), i, b))
  {
    var d, size := Stride(k, c.df), Size(k);
    forall e | 0 <= e < size ensures ByteAt(c.rdi, e) != At(c.rsi, d, i, b) {
      AtFirst(c.rdi, d, e);
      assert At(c.rdi, d, 0, e) != At(c.rsi, d, i, b);
    }
    WriteBytesElsewhere(c.mem, c.rdi, ReadBytes(c.mem, c.rsi, size), At(c.rsi, d, i, b));
  }

  /** If no element is written over a later element's source or destination, every element ends up copied. */
  lemma {:induction false} TurnsCopy(k: Class, c: Cpu, n: nat)
    requires Apart(c.rdi, c.rsi, Stride(k, c.df), Size(k), n) && Apart(c.rdi, c.rdi, Stride(k, c.df), Size(k), n)
    ensures AllCopied(c.mem, Turns(k, c, n).mem, c.rdi, c.rsi, Stride(k, c.df), Size(k), n)
    decreases n
  {
    if n > 0 {
      var d, size, c1 := Stride(k, c.df), Size(k), Turn(k, c);
      ApartTurn(c.rdi, c.rsi, d, size, n);
      ApartTurn(c.rdi, c.rdi, d, size, n);
      TurnsCopy(k, c1, n - 1);
      forall i, b | 0 <= i < n && 0 <= b < size ensures Copied(c.mem, Turns(k, c, n).mem, c.rdi, c.rsi, d, i, b) {
        if i == 0 {
          FirstCopied(k, c, n, b);
        } else {
          assert Copied(c1.mem, Turns(k, c1, n - 1).mem, c1.rdi, c1.rsi, d, i - 1, b);
          AtTurn(c.rdi, d, i - 1, b);
          AtTurn(c.rsi, d, i - 1, b);
          LaterSource(k, c, n, i, b);
        }
      }
    }
  }

  /** Ranges of len bytes from p and q on do not meet, modulo 2^64. */
  ghost predicate Disjoint(p: int, q: int, len: nat) {
    forall j, l :: 0 <= j < len && 0 <= l < len ==> ByteAt(p, j) != ByteAt(q, l)
  }

  /** len bytes from RSI on have been copied to RDI, and no other byte has changed. */
  ghost predicate ForwardCopied(c: Cpu, m: Memory, len: nat) {
    && (forall j :: 0 <= j < len ==> Get(m, ByteAt(c.rdi, j)) == Get(c.mem, ByteAt(c.rsi, j)))
    && (forall x :: Outside(x, c.rdi, len) ==> Get(m, x) == Get(c.mem, x))
  }

  /** The forward copy: when the destination range does not meet the source range, the destination ends up equal to
      the original source and every other byte of memory is unchanged. The ranges are one, two, four or eight times RCX
      bytes long. */
  lemma ForwardCopy(k: Class, c: Cpu, len: nat)
    requires CpuOk(c) && !c.df && Length(k, c.rcx, len) && Disjoint(c.rdi, c.rsi, len)
    ensures ForwardCopied(c, Run(Program(k), 0, c, 7 * c.rcx + 3).1.mem, len)
  {
    var n := c.rcx;
    assert len == n * Size(k);
    Terminates(k, c);
    DestinationIsSource(k, c, n);
    forall x | Outside(x, c.rdi, n * Size(k)) ensures Get(Turns(k, c, n).mem, x) == Get(c.mem, x) {
      OutsideUntouched(x, c.rdi, Size(k), n);
      ElsewhereUnchanged(k, c, n, x);
    }
  }

  lemma DestinationIsSource(k: Class, c: Cpu, n: nat)
    requires CpuOk(c) && !c.df && Disjoint(c.rdi, c.rsi, n * Size(k))
    ensures forall j :: 0 <= j < n * Size(k) ==>
                Get(Turns(k, c, n).mem, ByteAt(c.rdi, j)) == Get(c.mem, ByteAt(c.rsi, j))
  {
    var size := Size(k);
    DisjointApart(c.rdi, c.rsi, size, n);
    DisjointShort(c.rdi, c.rsi, n * size);
    ShortApart(c.rdi, size, n);
    TurnsCopy(k, c, n);
    forall j | 0 <= j < n * size ensures Get(Turns(k, c, n).mem, ByteAt(c.rdi, j)) == Get(c.mem, ByteAt(c.rsi, j)) {
      ByteCopied(c.mem, Turns(k, c, n).mem, c.rdi, c.rsi, size, n, j);
    }
  }

  lemma ByteCopied(m: Memory, m': Memory, rdi: int, rsi: int, size: nat, n: nat, j: int)
    requires AllCopied(m, m', rdi, rsi, size, size, n) && size > 0 && 0 <= j < n * size
    ensures Get(m', ByteAt(rdi, j)) == Get(m, ByteAt(rsi, j))
  {
    ElementOf(j, size, n);
    assert Copied(m, m', rdi, rsi, size, j / size, j % size);
  }

  /** Byte j of a range is byte j % size of element j / size. */
  lemma ElementOf(j: int, size: nat, n: nat)
    requires 0 <= j < n * size && size > 0
    ensures 0 <= j / size < n && 0 <= j % size < size && (j / size) * size + j % size == j
  {
    var q := j / size;
    if q >= n { MulOrder(q, n, size); }
  }

  lemma MulOrder(a: int, b: int, c: int)
    requires a >= b && c >= 0
    ensures a * c >= b * c
  {
    assert (a - b) * c >= 0;
  }

  lemma InRange(i: int, b: int, size: nat, n: nat)
    requires 0 <= i < n && 0 <= b < size
    ensures 0 <= i * size + b < n * size
  {
    assert (n - 1 - i) * size >= 0;
    assert (n - 1 - i) * size == n * size - size - i * size;
  }

  lemma DisjointApart(p: int, q: int, size: nat, n: nat)
    requires Disjoint(p, q, n * size)
    ensures Apart(p, q, size, size, n)
  {
    forall i, j, b, e | 0 <= i < j < n && 0 <= b < size && 0 <= e < size
      ensures At(p, size, i, b) != At(q, size, j, e)
    {
      InRange(i, b, size, n);
      InRange(j, e, size, n);
      assert ByteAt(p, i * size + b) != ByteAt(q, j * size + e);
    }
  }

  /** Two disjoint ranges cannot cover the address space. */
  lemma DisjointShort(p: int, q: int, len: nat)
    requires 0 <= p < W && 0 <= q < W && Disjoint(p, q, len)
    ensures len < W
  {
    assert ByteAt(p, (q - p) % W) == ByteAt(q, 0);
  }

  lemma ShortApart(p: int, size: nat, n: nat)
    requires n * size < W
    ensures Apart(p, p, size, size, n)
  {
    forall i, j, b, e | 0 <= i < j < n && 0 <= b < size && 0 <= e < size
      ensures At(p, size, i, b) != At(p, size, j, e)
    {
      InRange(i, b, size, n);
      InRange(j, e, size, n);
      InRange(i, b, size, j);
      FarDistinct(p, i * size + b, j * size + e);
    }
  }

  lemma FarDistinct(p: int, x: int, y: int)
    requires 0 <= x < y < W
    ensures ByteAt(p, x) != ByteAt(p, y)
  {
  }

  lemma OutsideUntouched(x: int, p: int, size: nat, n: nat)
    requires Outside(x, p, n * size)
    ensures Untouched(x, p, size, size, n)
  {
    forall i, b | 0 <= i < n && 0 <= b < size ensures At(p, size, i, b) != x {
      InRange(i, b, size, n);
      assert ByteAt(p, i * size + b) != x;
    }
  }
}
