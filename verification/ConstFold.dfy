/** The RISC-V backend's translation-time evaluator of IR trees.

    It decides which jumps are direct and what their target is, and computes in 64-bit signed integers whatever
    the width of the tree, so its values are right only up to congruence. */
module ConstFold {
  import opened Bits

  // ---------------------------------------------------------------------------------------------
  // Trees and what they mean
  // ---------------------------------------------------------------------------------------------

  datatype ArithOp = Add | Sub | Mul | And | Or | Xor

  datatype CastOp = Bitcast | Trunc | Zx | Sx

  datatype ShiftOp = Lsl | Lsr | Asr

  /** flagsUsed: some flag port of the node has a target. Divide is division or remainder, of the signedness of the
      node's type. RunTime is any node the evaluator never folds. */
  datatype Node =
    | Constant(width: nat, value: nat)
    | ReadPc
    | Binary(op: ArithOp, flagsUsed: bool, lhs: Node, rhs: Node)
    | Divide(signed: bool, remainder: bool, flagsUsed: bool, lhs: Node, rhs: Node)
    | Cast(castOp: CastOp, castWidth: nat, source: Node)
    | Extract(from: nat, length: nat, source: Node)
    | Shift(shiftOp: ShiftOp, input: Node, amount: Node)
    | RunTime(rtWidth: nat, id: nat)

  function Width(n: Node): nat {
    match n
    case Constant(w, _) => w
    case ReadPc => 64
    case Binary(_, _, l, _) => Width(l)
    case Divide(_, _, _, l, _) => Width(l)
    case Cast(_, w, _) => w
    case Extract(_, length, _) => length
    case Shift(_, i, _) => Width(i)
    case RunTime(w, _) => w
  }

  /** What the IR's constructors and translators guarantee. A right shift is of a scalar of at most 64 bits. */
  predicate WellFormed(n: Node) {
    Width(n) >= 1 &&
    match n
    case Constant(w, v) => w <= 64 && v < Pow2(64)
    case ReadPc => true
    case Binary(_, _, l, r) => WellFormed(l) && WellFormed(r) && Width(l) == Width(r)
    case Divide(_, _, _, l, r) => WellFormed(l) && WellFormed(r) && Width(l) == Width(r)
    case Cast(op, w, s) =>
      WellFormed(s) &&
      (match op
       case Bitcast => w == Width(s)
       case Trunc => w <= Width(s)
       case Zx => w >= Width(s)
       case Sx => w >= Width(s))
    case Extract(from, length, s) => WellFormed(s) && from + length <= Width(s)
    case Shift(op, i, a) => WellFormed(i) && WellFormed(a) && Width(a) <= 64 && (op == Lsl || Width(i) <= 64)
    case RunTime(_, _) => true
  }

  /** Bitwise operations on the low n bits of two's-complement integers. */
  function BitOp(op: ArithOp, n: nat, x: int, y: int): (r: nat)
    ensures r < Pow2(n)
  {
    if n == 0 then 0 else OneBit(op, x % 2, y % 2) + 2 * BitOp(op, n - 1, x / 2, y / 2)
  }

  function OneBit(op: ArithOp, x: nat, y: nat): (r: nat)
    ensures r < 2
  {
    match op
    case And => if x == 1 && y == 1 then 1 else 0
    case Or => if x == 1 || y == 1 then 1 else 0
    case Xor => if x != y then 1 else 0
    case _ => 0
  }

  /** Bit k of a two's-complement integer. */
  predicate Bit(x: int, k: nat)
    decreases k
  {
    if k == 0 then x % 2 == 1 else Bit(x / 2, k - 1)
  }

  /** Each bit of a conjunction, disjunction or exclusive or is that of the two bits of the operands. */
  lemma {:induction false} BitOpBits(op: ArithOp, n: nat, x: int, y: int, k: nat)
    requires k < n
    ensures op == And ==> (Bit(BitOp(op, n, x, y), k) <==> Bit(x, k) && Bit(y, k))
    ensures op == Or ==> (Bit(BitOp(op, n, x, y), k) <==> Bit(x, k) || Bit(y, k))
    ensures op == Xor ==> (Bit(BitOp(op, n, x, y), k) <==> Bit(x, k) != Bit(y, k))
    decreases k
  {
    assert BitOp(op, n, x, y) % 2 == OneBit(op, x % 2, y % 2);
    assert BitOp(op, n, x, y) / 2 == BitOp(op, n - 1, x / 2, y / 2);
    if k > 0 { BitOpBits(op, n - 1, x / 2, y / 2, k - 1); }
  }

  /** A w-bit pattern read as a signed integer. */
  function Signed(x: int, w: nat): int
    requires w >= 1
  {
    var r := x % Pow2(w);
    if r < Pow2(w - 1) then r else r - Pow2(w)
  }

  function Arith(op: ArithOp, w: nat, x: int, y: int): int {
    match op
    case Add => (x + y) % Pow2(w)
    case Sub => (x - y) % Pow2(w)
    case Mul => (x * y) % Pow2(w)
    case _ => BitOp(op, w, x, y)
  }

  /** Division that rounds towards zero, and its remainder. */
  function TruncDiv(x: int, y: int): int
    requires y != 0
  {
    var q := Abs(x) / Abs(y);
    if (x < 0) == (y < 0) then q else -q
  }

  function TruncRem(x: int, y: int): int
    requires y != 0
  {
    if x < 0 then -(Abs(x) % Abs(y)) else Abs(x) % Abs(y)
  }

  function Abs(x: int): nat {
    if x < 0 then -x else x
  }

  function Quotient(remainder: bool, x: int, y: int): int
    requires y != 0
  {
    if remainder then TruncRem(x, y) else TruncDiv(x, y)
  }

  /** The quotient and the remainder make up the dividend, and the remainder is smaller than the divisor and has the
      dividend's sign. */
  lemma QuotientDivides(x: int, y: int)
    requires y != 0
    ensures Quotient(false, x, y) * y + Quotient(true, x, y) == x
    ensures Abs(Quotient(true, x, y)) < Abs(y)
    ensures if x >= 0 then Quotient(true, x, y) >= 0 else Quotient(true, x, y) <= 0
  {
    var q, a, b := Abs(x) / Abs(y), Abs(x), Abs(y);
    assert a == q * b + a % b;
    NegateProduct(q, b);
  }

  lemma NegateProduct(q: int, b: int)
    ensures (-q) * b == -(q * b) && q * (-b) == -(q * b) && (-q) * (-b) == q * b
  {
  }

  /** A w-bit pattern as the operand of a division. */
  function AsOperand(signed: bool, x: int, w: nat): int
    requires w >= 1
  {
    if signed then Signed(x, w) else x % Pow2(w)
  }

  /** The operand is congruent to the pattern, and in the range of signed or of unsigned w-bit integers. */
  lemma AsOperandRange(signed: bool, x: int, w: nat)
    requires w >= 1
    ensures Cong(AsOperand(signed, x, w), x, Pow2(w))
    ensures signed ==> 0 - Pow2(w - 1) <= AsOperand(signed, x, w) < Pow2(w - 1)
    ensures !signed ==> 0 <= AsOperand(signed, x, w) < Pow2(w)
  {
    var r := AsOperand(signed, x, w);
    CongMod(x, Pow2(w));
    if r != x % Pow2(w) {
      CongBy(r, x % Pow2(w), -1, Pow2(w));
    }
  }

  /** Division of w-bit values; dividing by zero has no meaning of its own. */
  function DivideMeaning(signed: bool, remainder: bool, w: nat, x: int, y: int): int
    requires w >= 1
  {
    if AsOperand(signed, y, w) == 0 then 0
    else Quotient(remainder, AsOperand(signed, x, w), AsOperand(signed, y, w)) % Pow2(w)
  }

  function ShiftMeaning(op: ShiftOp, w: nat, x: int, a: nat): int
    requires w >= 1
  {
    match op
    case Lsl => (x * Pow2(a)) % Pow2(w)
    case Lsr => (x % Pow2(w)) / Pow2(a)
    case Asr => (Signed(x, w) / Pow2(a)) % Pow2(w)
  }

  /** The value of a tree, given the address of the instruction and the values of the run-time nodes. */
  function Meaning(n: Node, pc: nat, env: map<nat, int>): (r: nat)
    requires WellFormed(n)
  {
    match n
    case Constant(w, v) => v % Pow2(w)
    case ReadPc => pc % Pow2(64)
    case Binary(op, _, l, r) => Arith(op, Width(l), Meaning(l, pc, env), Meaning(r, pc, env))
    case Divide(sg, rem, _, l, r) => DivideMeaning(sg, rem, Width(l), Meaning(l, pc, env), Meaning(r, pc, env))
    case Cast(op, w, s) =>
      if op == Sx then Signed(Meaning(s, pc, env), Width(s)) % Pow2(w) else Meaning(s, pc, env) % Pow2(w)
    case Extract(from, length, s) => Field(Meaning(s, pc, env), from, length)
    case Shift(op, i, a) =>
      var x := Meaning(i, pc, env);
      ShiftValueNonNegative(op, Width(i), x, Meaning(a, pc, env));
      ShiftMeaning(op, Width(i), x, Meaning(a, pc, env))
    case RunTime(w, id) => (if id in env then env[id] else 0) % Pow2(w)
  }

  lemma ShiftValueNonNegative(op: ShiftOp, w: nat, x: int, a: nat)
    requires w >= 1
    ensures ShiftMeaning(op, w, x, a) >= 0
  {
    if op == Lsr { DivNonNegative(x % Pow2(w), Pow2(a)); }
  }

  lemma DivNonNegative(x: int, m: int)
    requires x >= 0 && m > 0
    ensures x / m >= 0
  {
  }

  // ---------------------------------------------------------------------------------------------
  // The evaluator
  // ---------------------------------------------------------------------------------------------

  /** Throws: a constant of a width no register holds. Undefined: a shift by an amount outside 0..63, a division by
      zero or one that overflows. */
  datatype Folded = Value(v: int) | Unknown | Throws | Undefined

  /** The 64-bit signed integer with the same low 64 bits. */
  function Wrap(x: int): int {
    Signed(x, 64)
  }

  predicate IsGprOrFlag(w: nat) {
    w in {1, 8, 16, 32, 64}
  }

  function FoldArith(op: ArithOp, x: int, y: int): int {
    match op
    case Add => Wrap(x + y)
    case Sub => Wrap(x - y)
    case Mul => Wrap(x * y)
    case _ => Wrap(BitOp(op, 64, x, y))
  }

  /** (uint64_t)x << s >> t and x << s >> t on 64-bit integers. */
  function UnsignedShifts(x: int, s: nat, t: nat): int {
    ((x * Pow2(s)) % Pow2(64)) / Pow2(t)
  }

  function SignedShifts(x: int, s: nat, t: nat): int {
    Wrap(x * Pow2(s)) / Pow2(t)
  }

  function FoldCast(op: CastOp, sourceWidth: nat, x: int): Folded {
    if op == Bitcast then Value(x)
    else if !(1 <= sourceWidth <= 64) then Undefined
    else if op == Sx then Value(SignedShifts(x, 64 - sourceWidth, 64 - sourceWidth))
    else Value(Wrap(UnsignedShifts(x, 64 - sourceWidth, 64 - sourceWidth)))
  }

  function FoldExtract(from: nat, length: nat, x: int): Folded {
    if !(1 <= from + length <= 64 && length >= 1) then Undefined
    else Value(Wrap(UnsignedShifts(x, 64 - (from + length), 64 - length)))
  }

  function FoldShift(op: ShiftOp, x: int, a: int): Folded {
    if !(0 <= a <= 63) then Undefined
    else match op
      case Lsl => Value(Wrap(x * Pow2(a)))
      case Lsr => Value(Wrap((x % Pow2(64)) / Pow2(a)))
      case Asr => Value(x / Pow2(a))
  }

  /** Division of 64-bit signed integers, whatever the operands' type; undefined for a zero divisor and on overflow. */
  function FoldDivide(remainder: bool, x: int, y: int): Folded {
    if y == 0 || (x == 0 - Pow2(63) && y == -1) then Undefined else Value(Quotient(remainder, x, y))
  }

  function GetAsInt(n: Node, pc: nat): Folded {
    match n
    case Constant(w, v) => if IsGprOrFlag(w) then Value(Wrap(v)) else Throws
    case ReadPc => Value(Wrap(pc))
    case Binary(op, flagsUsed, l, r) =>
      if flagsUsed then Unknown
      else
        var x := GetAsInt(l, pc);
        if !x.Value? then x
        else
          var y := GetAsInt(r, pc);
          if !y.Value? then y else Value(FoldArith(op, x.v, y.v))
    case Divide(_, rem, flagsUsed, l, r) =>
      if flagsUsed then Unknown
      else
        var x := GetAsInt(l, pc);
        if !x.Value? then x
        else
          var y := GetAsInt(r, pc);
          if !y.Value? then y else FoldDivide(rem, x.v, y.v)
    case Cast(op, _, s) =>
      var x := GetAsInt(s, pc);
      if !x.Value? then x else FoldCast(op, Width(s), x.v)
    case Extract(from, length, s) =>
      var x := GetAsInt(s, pc);
      if !x.Value? then x else FoldExtract(from, length, x.v)
    case Shift(op, i, a) =>
      var x, y := GetAsInt(i, pc), GetAsInt(a, pc);
      if x.Throws? || x.Undefined? then x
      else if y.Throws? || y.Undefined? then y
      else if x.Value? && y.Value? then FoldShift(op, x.v, y.v)
      else Unknown
    case RunTime(_, _) => Unknown
  }

  // ---------------------------------------------------------------------------------------------
  // Each operation
  // ---------------------------------------------------------------------------------------------

  /** The modulus up to which a folded value of a w-bit tree is right: it has 64 bits. */
  function Modulus(w: nat): (m: nat)
    ensures m > 0
  {
    Pow2(if w <= 64 then w else 64)
  }

  lemma SignedCong(x: int, w: nat)
    requires w >= 1
    ensures Cong(Signed(x, w), x, Pow2(w)) && 0 - Pow2(w - 1) <= Signed(x, w) < Pow2(w - 1)
  {
    CongMod(x, Pow2(w));
    var r := x % Pow2(w);
    if r >= Pow2(w - 1) {
      CongBy(r - Pow2(w), r, -1, Pow2(w));
    }
  }

  lemma WrapCong(x: int, w: nat)
    ensures Cong(Wrap(x), x, Modulus(w))
  {
    SignedCong(x, 64);
    CongNarrow(Wrap(x), x, if w <= 64 then w else 64, 64);
  }

  /** A value known modulo 2^w is known modulo the modulus of w. */
  lemma ModulusCong(x: int, w: nat)
    ensures Cong(x % Pow2(w), x, Modulus(w))
  {
    CongMod(x, Pow2(w));
    CongNarrow(x % Pow2(w), x, if w <= 64 then w else 64, w);
  }

  /** The low n bits of a bitwise operation depend only on the low n bits of its operands. */
  lemma {:induction false} BitOpCong(op: ArithOp, n: nat, x: int, x': int, y: int, y': int)
    requires Cong(x, x', Pow2(n)) && Cong(y, y', Pow2(n))
    ensures BitOp(op, n, x, y) == BitOp(op, n, x', y')
    decreases n
  {
    if n > 0 {
      Halve(x, x', n);
      Halve(y, y', n);
      BitOpCong(op, n - 1, x / 2, x' / 2, y / 2, y' / 2);
    }
  }

  lemma Halve(x: int, x': int, n: nat)
    requires n > 0 && Cong(x, x', Pow2(n))
    ensures x % 2 == x' % 2 && Cong(x / 2, x' / 2, Pow2(n - 1))
  {
    var k := CongWitness(x, x', Pow2(n));
    assert x == x' + (k * Pow2(n - 1)) * 2 by { MulSwapRight(k, 2, Pow2(n - 1)); }
    DivAddMultiple(x', k * Pow2(n - 1), 2);
    CongBy(x, x', k * Pow2(n - 1), 2);
    CongBy(x / 2, x' / 2, k, Pow2(n - 1));
  }

  /** The bits of a wider result from bit w on. */
  lemma {:induction false} BitOpAbove(op: ArithOp, w: nat, n: nat, x: int, y: int) returns (k: int)
    requires w <= n
    ensures BitOp(op, n, x, y) == BitOp(op, w, x, y) + k * Pow2(w)
    decreases n
  {
    if w == 0 {
      k := BitOp(op, n, x, y);
    } else {
      k := BitOpAbove(op, w - 1, n - 1, x / 2, y / 2);
      MulSwapRight(k, 2, Pow2(w - 1));
    }
  }

  lemma BitOpLow(op: ArithOp, w: nat, n: nat, x: int, y: int)
    requires w <= n
    ensures Cong(BitOp(op, n, x, y), BitOp(op, w, x, y), Pow2(w))
  {
    var k := BitOpAbove(op, w, n, x, y);
    CongBy(BitOp(op, n, x, y), BitOp(op, w, x, y), k, Pow2(w));
  }

  lemma FoldArithOk(op: ArithOp, w: nat, x: int, x': int, y: int, y': int)
    requires Cong(x, x', Modulus(w)) && Cong(y, y', Modulus(w))
    ensures Cong(FoldArith(op, x, y), Arith(op, w, x', y'), Modulus(w))
  {
    match op
    case Add => CongAdd(x, x', y, y', Modulus(w)); WrapCong(x + y, w); ModulusCong(x' + y', w);
    case Sub => CongAdd(x, x', y, y', Modulus(w)); WrapCong(x - y, w); ModulusCong(x' - y', w);
    case Mul => CongMul(x, x', y, y', Modulus(w)); WrapCong(x * y, w); ModulusCong(x' * y', w);
    case _ =>
      var m := if w <= 64 then w else 64;
      WrapCong(BitOp(op, 64, x, y), w);
      BitOpLow(op, m, 64, x, y);
      BitOpCong(op, m, x, x', y, y');
      BitOpLow(op, m, w, x', y');
  }

  /** Shifting left by s and then right by t in 64 bits selects bits t-s .. 64-s. */
  lemma UnsignedShiftsSelect(x: int, s: nat, t: nat)
    requires s <= t <= 63
    ensures UnsignedShifts(x, s, t) == Field(x, t - s, 64 - t) && 0 <= UnsignedShifts(x, s, t) < Pow2(64 - t)
  {
    LowTimes(x, s, 64);
    Pow2Add(t - s, s);
    var y := x % Pow2(64 - s);
    DivScale(y, Pow2(t - s), Pow2(s));
    CongMod(x, Pow2(64 - s));
    FieldCong(y, x, t - s, 64 - t, 64 - s);
    Pow2Add(t - s, 64 - t);
    DivBounds(y, Pow2(t - s), Pow2(64 - t));
    DivModUnique(y / Pow2(t - s), 0, y / Pow2(t - s), Pow2(64 - t));
  }

  lemma LowTimes(x: int, s: nat, n: nat)
    requires s <= n
    ensures (x * Pow2(s)) % Pow2(n) == (x % Pow2(n - s)) * Pow2(s)
  {
    var m := Pow2(n - s);
    Pow2Add(n - s, s);
    var q, r := x / m, x % m;
    assert x == q * m + r;
    MulAddRight(q * m, r, Pow2(s));
    MulAssoc(q, m, Pow2(s));
    ScaleBelow(r, m, Pow2(s));
    DivModUnique(x * Pow2(s), q, r * Pow2(s), Pow2(n));
  }

  lemma ScaleBelow(r: int, m: int, c: int)
    requires 0 <= r < m && c > 0
    ensures 0 <= r * c < m * c
  {
    MulSub(m, r, c);
    MulPositive(m - r, c);
    if r > 0 { MulPositive(r, c); }
  }

  lemma DivScale(y: int, m: int, c: int)
    requires m > 0 && c > 0 && m * c > 0
    ensures (y * c) / (m * c) == y / m
  {
    var q, r := y / m, y % m;
    assert y == q * m + r;
    MulAddRight(q * m, r, c);
    MulAssoc(q, m, c);
    ScaleBelow(r, m, c);
    DivModUnique(y * c, q, r * c, m * c);
  }

  lemma FoldExtractOk(from: nat, length: nat, w: nat, x: int, x': int)
    requires Cong(x, x', Modulus(w)) && length >= 1 && from + length <= w && from + length <= 64
    ensures FoldExtract(from, length, x).Value?
    ensures Cong(FoldExtract(from, length, x).v, Field(x', from, length), Modulus(length))
  {
    UnsignedShiftsSelect(x, 64 - (from + length), 64 - length);
    FieldCong(x, x', from, length, if w <= 64 then w else 64);
    WrapCong(UnsignedShifts(x, 64 - (from + length), 64 - length), length);
  }

  lemma SignedShiftsExtend(x: int, w: nat)
    requires 1 <= w <= 64
    ensures SignedShifts(x, 64 - w, 64 - w) == Signed(x, w)
  {
    var s, r := 64 - w, x % Pow2(w);
    LowTimes(x, s, 64);
    Pow2Add(w, s);
    Pow2Add(w - 1, s);
    ScaledSigned(r, Pow2(w - 1), Pow2(w), Pow2(s));
    DivModUnique((if r < Pow2(w - 1) then r else r - Pow2(w)) * Pow2(s), Signed(x, w), 0, Pow2(s));
  }

  /** Scaling keeps a value on its side of half the range, and scales what is subtracted above it. */
  lemma ScaledSigned(r: int, half: int, whole: int, m: int)
    requires m > 0
    ensures r < half <==> r * m < half * m
    ensures (r - whole) * m == r * m - whole * m
  {
    MulSub(r, half, m);
    MulSub(half, r, m);
    MulSub(r, whole, m);
    if r > half { MulPositive(r - half, m); } else if r < half { MulPositive(half - r, m); }
  }

  lemma SignedOfCong(x: int, x': int, w: nat)
    requires w >= 1 && Cong(x, x', Pow2(w))
    ensures Signed(x, w) == Signed(x', w)
  {
  }

  lemma FoldCastOk(op: CastOp, w: nat, sw: nat, x: int, x': int)
    requires sw >= 1 && Cong(x, x', Modulus(sw)) && 0 <= x' < Pow2(sw) && FoldCast(op, sw, x).Value?
    requires (op == Bitcast ==> w == sw) && (op == Trunc ==> w <= sw)
    ensures Cong(FoldCast(op, sw, x).v, if op == Sx then Signed(x', sw) % Pow2(w) else x' % Pow2(w), Modulus(w))
  {
    if op == Bitcast {
      ModulusCong(x', w);
    } else if op == Sx {
      SignedShiftsExtend(x, sw);
      SignedOfCong(x, x', sw);
      ModulusCong(Signed(x', sw), w);
    } else {
      UnsignedShiftsSelect(x, 64 - sw, 64 - sw);
      FieldCong(x, x', 0, sw, sw);
      DivModUnique(x', 0, x', Pow2(sw));
      WrapCong(x', w);
      ModulusCong(x', w);
    }
  }

  lemma FoldLslOk(w: nat, x: int, x': int, a: nat)
    requires a <= 63 && Cong(x, x', Modulus(w)) && w >= 1
    ensures Cong(FoldShift(Lsl, x, a).v, ShiftMeaning(Lsl, w, x', a), Modulus(w))
  {
    CongMul(x, x', Pow2(a), Pow2(a), Modulus(w));
    WrapCong(x * Pow2(a), w);
    ModulusCong(x' * Pow2(a), w);
  }

  // ---------------------------------------------------------------------------------------------
  // Right shifts, exactly
  // ---------------------------------------------------------------------------------------------

  function Max(a: nat, b: nat): nat { if a < b then b else a }

  function Min(a: nat, b: nat): nat { if a < b then a else b }

  /** y + q * m is y modulo m * n exactly when n divides q. */
  lemma CongScale(y: int, q: int, m: int, n: int)
    requires m > 0 && n > 0 && m * n > 0
    ensures Cong(y + q * m, y, m * n) <==> Cong(q, 0, n)
  {
    if Cong(q, 0, n) {
      var k := CongWitness(q, 0, n);
      assert q * m == k * (m * n) by { MulAssoc(k, n, m); MulComm(m, n); }
      CongBy(y + q * m, y, k, m * n);
    }
    if Cong(y + q * m, y, m * n) {
      var k := CongWitness(y + q * m, y, m * n);
      assert q * m == (k * n) * m by { MulAssoc(k, n, m); MulComm(m, n); }
      CancelRight(q, k * n, m);
      CongBy(q, 0, k, n);
    }
  }

  lemma CancelRight(a: int, b: int, m: int)
    requires m > 0 && a * m == b * m
    ensures a == b
  {
    MulSub(a, b, m);
    if a > b { MulPositive(a - b, m); } else if a < b { MulSub(b, a, m); MulPositive(b - a, m); }
  }

  /** x and s agree in their low w bits, and s has copies of its sign above them. Shifted right by a they agree in
      their low w bits exactly when the bits of x that are shifted in are copies of the sign too. */
  lemma ShiftRightExact(x: int, s: int, sign: int, w: nat, a: nat)
    requires s == x % Pow2(w) - sign * Pow2(w) && (sign == 0 || sign == 1)
    ensures Cong(x / Pow2(a), s / Pow2(a), Pow2(w)) <==> Cong(x / Pow2(Max(w, a)), -sign, Pow2(Min(w, a)))
  {
    if a <= w { ShortShiftExact(x, s, sign, w, a); } else { LongShiftIs(x, s, sign, w, a); }
  }

  lemma ShortShiftExact(x: int, s: int, sign: int, w: nat, a: nat)
    requires s == x % Pow2(w) - sign * Pow2(w) && a <= w
    ensures Cong(x / Pow2(a), s / Pow2(a), Pow2(w)) <==> Cong(x / Pow2(w), -sign, Pow2(a))
  {
    var q := x / Pow2(w) + sign;
    Pow2Add(w - a, a);
    assert x / Pow2(a) == s / Pow2(a) + q * Pow2(w - a) by { ShiftedApart(x, s, sign, Pow2(w), Pow2(a), Pow2(w - a)); }
    CongScale(s / Pow2(a), q, Pow2(w - a), Pow2(a));
    ShiftCong(x / Pow2(w), sign, Pow2(a));
  }

  lemma ShiftedApart(x: int, s: int, sign: int, whole: int, m: int, rest: int)
    requires m > 0 && rest > 0 && whole == rest * m && s == x % whole - sign * whole
    ensures x / m == s / m + (x / whole + sign) * rest
  {
    var q := x / whole + sign;
    assert x == s + q * whole by {
      assert x == (x / whole) * whole + x % whole;
      MulAddRight(x / whole, sign, whole);
    }
    MulAssoc(q, rest, m);
    DivAddMultiple(s, q * rest, m);
  }

  /** A longer shift leaves only copies of the sign. */
  lemma LongShiftIs(x: int, s: int, sign: int, w: nat, a: nat)
    requires s == x % Pow2(w) - sign * Pow2(w) && (sign == 0 || sign == 1) && a > w
    ensures s / Pow2(a) == -sign
  {
    Pow2Monotone(w, a);
    if sign == 1 { DivModUnique(s, -1, s + Pow2(a), Pow2(a)); } else { DivModUnique(s, 0, s, Pow2(a)); }
  }

  lemma ShiftCong(q: int, sign: int, m: int)
    requires m > 0
    ensures Cong(q + sign, 0, m) <==> Cong(q, -sign, m)
  {
    if Cong(q + sign, 0, m) { CongAdd(q + sign, 0, sign, sign, m); }
    if Cong(q, -sign, m) { CongAdd(q, -sign, sign, sign, m); }
  }

  function SignBit(x: int, w: nat): nat
    requires w >= 1
  {
    if x % Pow2(w) < Pow2(w - 1) then 0 else 1
  }

  /** The bits of the folded operand that a right shift brings into the low w bits are what the shift of a w-bit
      value would bring in: zeros for lsr, copies of bit w - 1 for asr. */
  predicate ShiftsInRightBits(op: ShiftOp, w: nat, x: int, a: nat)
    requires w >= 1
  {
    match op
    case Lsl => true
    case Lsr => Cong((x % Pow2(64)) / Pow2(Max(w, a)), 0, Pow2(Min(w, a)))
    case Asr => Cong(x / Pow2(Max(w, a)), 0 - SignBit(x, w), Pow2(Min(w, a)))
  }

  /** A folded right shift is right exactly when it brings in the right bits. */
  lemma FoldRightShiftExact(op: ShiftOp, w: nat, x: int, x': int, a: nat)
    requires op != Lsl && 1 <= w <= 64 && a <= 63 && Cong(x, x', Pow2(w))
    ensures Cong(FoldShift(op, x, a).v, ShiftMeaning(op, w, x', a), Pow2(w)) <==> ShiftsInRightBits(op, w, x, a)
  {
    if op == Lsr {
      var u := x % Pow2(64);
      CongMod(x, Pow2(64));
      CongNarrow(u, x, w, 64);
      ShiftRightExact(u, x' % Pow2(w), 0, w, a);
      WrapCong(u / Pow2(a), w);
    } else {
      ShiftRightExact(x, Signed(x, w), SignBit(x, w), w, a);
      SignedOfCong(x, x', w);
      CongMod(Signed(x', w) / Pow2(a), Pow2(w));
    }
  }

  /** At full width it always does. */
  lemma FullWidthShiftsInRightBits(op: ShiftOp, x: int, a: nat)
    requires a <= 63 && IsInt64(x)
    ensures ShiftsInRightBits(op, 64, x, a)
  {
    if op == Lsr {
      DivModUnique(x % Pow2(64), 0, x % Pow2(64), Pow2(64));
    } else if op == Asr {
      if x >= 0 {
        DivModUnique(x, 0, x, Pow2(64));
      } else {
        DivModUnique(x, -1, x + Pow2(64), Pow2(64));
      }
    }
  }

  /** A narrower one need not: eight-bit 200 + 100 is 44, and 44 >> 1 is 22, but the folder has 300 and gets 150. */
  lemma NarrowShiftFoldsWrong(pc: nat, env: map<nat, int>)
    ensures var n := Shift(Lsr, Binary(Add, false, Constant(8, 200), Constant(8, 100)), Constant(8, 1));
            && WellFormed(n) && Meaning(n, pc, env) == 22
            && GetAsInt(n, pc) == Value(150) && !Cong(150, 22, Pow2(8))
  {
    var sum := Binary(Add, false, Constant(8, 200), Constant(8, 100));
    PowOf8();
    SmallConstant(200, pc, env);
    SmallConstant(100, pc, env);
    SmallConstant(1, pc, env);
    assert Meaning(sum, pc, env) == 44 by { DivModUnique(200 + 100, 1, 44, Pow2(8)); }
    assert GetAsInt(sum, pc) == Value(300) by { WrapSmall(300); }
    assert FoldShift(Lsr, 300, 1) == Value(150) by {
      Pow2Big();
      WrapSmall(150);
      DivModUnique(300, 0, 300, Pow2(64));
    }
    assert ShiftMeaning(Lsr, 8, 44, 1) == 22 by { DivModUnique(44, 0, 44, Pow2(8)); }
    DivModUnique(150, 0, 150, Pow2(8));
    DivModUnique(22, 0, 22, Pow2(8));
  }

  lemma PowOf8()
    ensures Pow2(8) == 256 && Pow2(1) == 2
  {
  }

  /** An eight-bit constant means, and folds to, its value. */
  lemma SmallConstant(v: nat, pc: nat, env: map<nat, int>)
    requires v < 256
    ensures Meaning(Constant(8, v), pc, env) == v && GetAsInt(Constant(8, v), pc) == Value(v)
  {
    PowOf8();
    DivModUnique(v, 0, v, Pow2(8));
    WrapSmall(v);
  }

  lemma WrapSmall(x: int)
    requires 0 <= x < 1000
    ensures Wrap(x) == x
  {
    Pow2Big();
    DivModUnique(x, 0, x, Pow2(64));
  }

  predicate IsInt64(x: int) {
    0 - Pow2(63) <= x < Pow2(63)
  }

  // ---------------------------------------------------------------------------------------------
  // Whole trees
  // ---------------------------------------------------------------------------------------------

  /** Every right shift that is folded brings in the right bits. */
  predicate RightShiftsOk(n: Node, pc: nat) {
    match n
    case Binary(_, _, l, r) => RightShiftsOk(l, pc) && RightShiftsOk(r, pc)
    case Divide(_, _, _, l, r) => RightShiftsOk(l, pc) && RightShiftsOk(r, pc)
    case Cast(_, _, s) => RightShiftsOk(s, pc)
    case Extract(_, _, s) => RightShiftsOk(s, pc)
    case Shift(op, i, a) =>
      && RightShiftsOk(i, pc) && RightShiftsOk(a, pc)
      && (var x, y := GetAsInt(i, pc), GetAsInt(a, pc);
          x.Value? && y.Value? && 0 <= y.v <= 63 && Width(i) >= 1 ==> ShiftsInRightBits(op, Width(i), x.v, y.v))
    case _ => true
  }

  /** A folded shift amount is the amount itself. */
  predicate AmountsOk(n: Node, pc: nat) {
    match n
    case Binary(_, _, l, r) => AmountsOk(l, pc) && AmountsOk(r, pc)
    case Divide(_, _, _, l, r) => AmountsOk(l, pc) && AmountsOk(r, pc)
    case Cast(_, _, s) => AmountsOk(s, pc)
    case Extract(_, _, s) => AmountsOk(s, pc)
    case Shift(op, i, a) =>
      && AmountsOk(i, pc) && AmountsOk(a, pc)
      && (var y := GetAsInt(a, pc); y.Value? && 0 <= y.v <= 63 ==> y.v < Modulus(Width(a)))
    case _ => true
  }

  /** A folded operand of a division is the w-bit operand itself, not merely congruent to it. */
  predicate ExactOperand(signed: bool, w: nat, x: int) {
    1 <= w <= 64 && x == AsOperand(signed, x, w)
  }

  predicate DivisionsOk(n: Node, pc: nat) {
    match n
    case Binary(_, _, l, r) => DivisionsOk(l, pc) && DivisionsOk(r, pc)
    case Divide(sg, _, _, l, r) =>
      && DivisionsOk(l, pc) && DivisionsOk(r, pc)
      && (var x, y := GetAsInt(l, pc), GetAsInt(r, pc);
          x.Value? && y.Value? ==> ExactOperand(sg, Width(l), x.v) && ExactOperand(sg, Width(l), y.v))
    case Cast(_, _, s) => DivisionsOk(s, pc)
    case Extract(_, _, s) => DivisionsOk(s, pc)
    case Shift(_, i, a) => DivisionsOk(i, pc) && DivisionsOk(a, pc)
    case _ => true
  }

  /** Folding a division of exact operands gives the w-bit result. */
  lemma FoldDivideOk(signed: bool, remainder: bool, w: nat, x: int, x': int, y: int, y': int)
    requires ExactOperand(signed, w, x) && ExactOperand(signed, w, y) && Cong(x, x', Pow2(w)) && Cong(y, y', Pow2(w))
    requires FoldDivide(remainder, x, y).Value?
    ensures Cong(FoldDivide(remainder, x, y).v, DivideMeaning(signed, remainder, w, x', y'), Pow2(w))
  {
    SignedOfCong(x, x', w);
    SignedOfCong(y, y', w);
    CongMod(Quotient(remainder, x, y), Pow2(w));
  }

  lemma {:induction false} MeaningBelow(n: Node, pc: nat, env: map<nat, int>)
    requires WellFormed(n)
    ensures Meaning(n, pc, env) < Pow2(Width(n))
  {
    match n
    case Shift(op, i, a) =>
      if op == Lsr { DivAtMost(Meaning(i, pc, env) % Pow2(Width(i)), Pow2(Meaning(a, pc, env))); }
    case _ =>
  }

  lemma DivAtMost(x: int, m: int)
    requires x >= 0 && m > 0
    ensures x / m <= x
  {
    DivNonNegative(x, m);
    if x / m > 0 && m > 1 { MulPositive(x / m, m - 1); MulSub(m, 1, x / m); }
    MulComm(m, x / m);
  }

  lemma DivInRange(x: int, m: int, bound: nat)
    requires m > 0 && 0 - bound <= x < bound
    ensures 0 - bound <= x / m < bound
  {
    if x >= 0 {
      DivNonNegative(x, m);
      DivAtMost(x, m);
    } else {
      var y := -x - 1;
      DivNonNegative(y, m);
      DivAtMost(y, m);
      assert x == (-(y / m) - 1) * m + (m - 1 - y % m) by {
        assert y == (y / m) * m + y % m;
        MulSub(-(y / m), 1, m);
        MulSub(0, y / m, m);
      }
      DivModUnique(x, -(y / m) - 1, m - 1 - y % m, m);
    }
  }

  lemma {:induction false} FoldIsInt64(n: Node, pc: nat)
    requires GetAsInt(n, pc).Value?
    ensures IsInt64(GetAsInt(n, pc).v)
  {
    match n
    case Constant(_, v) => SignedCong(v, 64);
    case ReadPc => SignedCong(pc, 64);
    case Binary(op, _, l, r) => FoldArithIsInt64(op, GetAsInt(l, pc).v, GetAsInt(r, pc).v);
    case Divide(_, rem, _, l, r) =>
      FoldIsInt64(l, pc);
      FoldIsInt64(r, pc);
      FoldDivideIsInt64(rem, GetAsInt(l, pc).v, GetAsInt(r, pc).v);
    case Cast(op, _, s) => FoldIsInt64(s, pc); FoldCastIsInt64(op, Width(s), GetAsInt(s, pc).v);
    case Extract(from, length, s) => FoldExtractIsInt64(from, length, GetAsInt(s, pc).v);
    case Shift(op, i, a) => FoldIsInt64(i, pc); FoldShiftIsInt64(op, GetAsInt(i, pc).v, GetAsInt(a, pc).v);
    case RunTime(_, _) =>
  }

  lemma WrapIsInt64(x: int)
    ensures IsInt64(Wrap(x))
  {
    SignedCong(x, 64);
  }

  lemma FoldArithIsInt64(op: ArithOp, x: int, y: int)
    ensures IsInt64(FoldArith(op, x, y))
  {
    match op
    case Add => WrapIsInt64(x + y);
    case Sub => WrapIsInt64(x - y);
    case Mul => WrapIsInt64(x * y);
    case _ => WrapIsInt64(BitOp(op, 64, x, y));
  }

  lemma FoldDivideIsInt64(remainder: bool, x: int, y: int)
    requires IsInt64(x) && IsInt64(y) && FoldDivide(remainder, x, y).Value?
    ensures IsInt64(FoldDivide(remainder, x, y).v)
  {
    var a, b := Abs(x), Abs(y);
    DivNonNegative(a, b);
    DivAtMost(a, b);
    if b >= 2 && a > 0 { DivBelow(a, b); }
    RemAtMost(a, b);
  }

  lemma DivBelow(x: int, m: int)
    requires x > 0 && m >= 2
    ensures x / m < x
  {
    var q := x / m;
    assert x == q * m + x % m;
    DivNonNegative(x, m);
    if q > 0 {
      MulAtLeast(m - 1, q);
      MulSub(m, 1, q);
      MulComm(m, q);
    }
  }

  lemma RemAtMost(x: int, m: int)
    requires x >= 0 && m > 0
    ensures x % m <= x
  {
    DivNonNegative(x, m);
    assert x == (x / m) * m + x % m;
    if x / m > 0 { MulPositive(x / m, m); }
  }

  lemma FoldCastIsInt64(op: CastOp, sw: nat, x: int)
    requires IsInt64(x) && FoldCast(op, sw, x).Value?
    ensures IsInt64(FoldCast(op, sw, x).v)
  {
    if op == Sx {
      SignedCong(x * Pow2(64 - sw), 64);
      DivInRange(Wrap(x * Pow2(64 - sw)), Pow2(64 - sw), Pow2(63));
    } else if op != Bitcast {
      SignedCong(UnsignedShifts(x, 64 - sw, 64 - sw), 64);
    }
  }

  lemma FoldExtractIsInt64(from: nat, length: nat, x: int)
    requires FoldExtract(from, length, x).Value?
    ensures IsInt64(FoldExtract(from, length, x).v)
  {
    SignedCong(UnsignedShifts(x, 64 - (from + length), 64 - length), 64);
  }

  lemma FoldShiftIsInt64(op: ShiftOp, x: int, a: int)
    requires IsInt64(x) && FoldShift(op, x, a).Value?
    ensures IsInt64(FoldShift(op, x, a).v)
  {
    match op
    case Lsl => SignedCong(x * Pow2(a), 64);
    case Lsr => SignedCong((x % Pow2(64)) / Pow2(a), 64);
    case Asr => DivInRange(x, Pow2(a), Pow2(63));
  }

  lemma AmountExact(y: int, amount: nat, w: nat)
    requires w <= 64 && 0 <= y < Pow2(w) && amount < Pow2(w) && Cong(y, amount, Pow2(w))
    ensures y == amount
  {
    DivModUnique(y, 0, y, Pow2(w));
    DivModUnique(amount, 0, amount, Pow2(w));
  }

  lemma FoldShiftOk(op: ShiftOp, w: nat, x: int, x': int, a: nat)
    requires w >= 1 && a <= 63 && Cong(x, x', Modulus(w)) && (op == Lsl || w <= 64) && ShiftsInRightBits(op, w, x, a)
    ensures Cong(FoldShift(op, x, a).v, ShiftMeaning(op, w, x', a), Modulus(w))
  {
    if op == Lsl { FoldLslOk(w, x, x', a); } else { FoldRightShiftExact(op, w, x, x', a); }
  }

  /** Folding is sound: whatever the run-time values, a folded tree has the folded value modulo 2 to its width (and
      modulo 2^64 when it is wider than that). */
  lemma {:induction false} FoldSound(n: Node, pc: nat, env: map<nat, int>)
    requires WellFormed(n) && GetAsInt(n, pc).Value? && RightShiftsOk(n, pc) && AmountsOk(n, pc) && DivisionsOk(n, pc)
    ensures Cong(GetAsInt(n, pc).v, Meaning(n, pc, env), Modulus(Width(n)))
  {
    match n
    case Constant(w, v) => WrapCong(v, w); ModulusCong(v, w);
    case ReadPc => WrapCong(pc, 64); ModulusCong(pc, 64);
    case Binary(op, _, l, r) =>
      FoldSound(l, pc, env);
      FoldSound(r, pc, env);
      FoldArithOk(op, Width(l), GetAsInt(l, pc).v, Meaning(l, pc, env), GetAsInt(r, pc).v, Meaning(r, pc, env));
    case Divide(sg, rem, _, l, r) =>
      FoldSound(l, pc, env);
      FoldSound(r, pc, env);
      FoldDivideOk(sg, rem, Width(l), GetAsInt(l, pc).v, Meaning(l, pc, env), GetAsInt(r, pc).v, Meaning(r, pc, env));
    case Cast(op, w, s) =>
      FoldSound(s, pc, env);
      MeaningBelow(s, pc, env);
      FoldCastOk(op, w, Width(s), GetAsInt(s, pc).v, Meaning(s, pc, env));
    case Extract(from, length, s) =>
      FoldSound(s, pc, env);
      FoldExtractOk(from, length, Width(s), GetAsInt(s, pc).v, Meaning(s, pc, env));
    case Shift(op, i, a) =>
      FoldSound(i, pc, env);
      FoldSound(a, pc, env);
      MeaningBelow(a, pc, env);
      AmountExact(GetAsInt(a, pc).v, Meaning(a, pc, env), Width(a));
      FoldShiftOk(op, Width(i), GetAsInt(i, pc).v, Meaning(i, pc, env), GetAsInt(a, pc).v);
    case RunTime(_, _) =>
  }

  /** Right shifts of full width need no condition. */
  predicate RightShiftsFullWidth(n: Node) {
    match n
    case Binary(_, _, l, r) => RightShiftsFullWidth(l) && RightShiftsFullWidth(r)
    case Divide(_, _, _, l, r) => RightShiftsFullWidth(l) && RightShiftsFullWidth(r)
    case Cast(_, _, s) => RightShiftsFullWidth(s)
    case Extract(_, _, s) => RightShiftsFullWidth(s)
    case Shift(op, i, a) => RightShiftsFullWidth(i) && RightShiftsFullWidth(a) && (op == Lsl || Width(i) == 64)
    case _ => true
  }

  lemma {:induction false} FullWidthOk(n: Node, pc: nat)
    requires RightShiftsFullWidth(n)
    ensures RightShiftsOk(n, pc)
  {
    match n
    case Binary(_, _, l, r) => FullWidthOk(l, pc); FullWidthOk(r, pc);
    case Divide(_, _, _, l, r) => FullWidthOk(l, pc); FullWidthOk(r, pc);
    case Cast(_, _, s) => FullWidthOk(s, pc);
    case Extract(_, _, s) => FullWidthOk(s, pc);
    case Shift(op, i, a) =>
      FullWidthOk(i, pc);
      FullWidthOk(a, pc);
      var x, y := GetAsInt(i, pc), GetAsInt(a, pc);
      if op != Lsl && x.Value? && y.Value? && 0 <= y.v <= 63 {
        FoldIsInt64(i, pc);
        FullWidthShiftsInRightBits(op, x.v, y.v);
      }
    case _ =>
  }

  /** The address a folded jump target stands for is exactly the address the jump would have stored at run time. */
  lemma DirectTargetIsExact(n: Node, pc: nat, env: map<nat, int>)
    requires WellFormed(n) && Width(n) == 64 && GetAsInt(n, pc).Value?
    requires RightShiftsOk(n, pc) && AmountsOk(n, pc) && DivisionsOk(n, pc)
    ensures GetAsInt(n, pc).v % Pow2(64) == Meaning(n, pc, env)
  {
    FoldSound(n, pc, env);
    MeaningBelow(n, pc, env);
    DivModUnique(Meaning(n, pc, env), 0, Meaning(n, pc, env), Pow2(64));
  }

  /** The target of a direct jump, as it is lifted: the address of the instruction plus a constant. */
  lemma RelativeTarget(pc: nat, displacement: nat)
    requires displacement < Pow2(64)
    ensures var n := Binary(Add, false, ReadPc, Constant(64, displacement));
            && WellFormed(n) && GetAsInt(n, pc).Value?
            && GetAsInt(n, pc).v % Pow2(64) == (pc + displacement) % Pow2(64)
  {
    var n := Binary(Add, false, ReadPc, Constant(64, displacement));
    DirectTargetIsExact(n, pc, map[]);
    CongMod(pc, Pow2(64));
    CongMod(displacement, Pow2(64));
    CongAdd(pc % Pow2(64), pc, displacement % Pow2(64), displacement, Pow2(64));
  }

  /** No run-time leaf, and no arithmetic node any of whose flags is used. */
  predicate Static(n: Node) {
    match n
    case Binary(_, flagsUsed, l, r) => !flagsUsed && Static(l) && Static(r)
    case Divide(_, _, flagsUsed, l, r) => !flagsUsed && Static(l) && Static(r)
    case Cast(_, _, s) => Static(s)
    case Extract(_, _, s) => Static(s)
    case Shift(_, i, a) => Static(i) && Static(a)
    case RunTime(_, _) => false
    case _ => true
  }

  /** No constant of an unsupported width, no undefined shift or division. */
  predicate Defined(n: Node, pc: nat) {
    match n
    case Constant(w, _) => w == 1 || w == 8 || w == 16 || w == 32 || w == 64
    case Binary(_, _, l, r) => Defined(l, pc) && Defined(r, pc)
    case Divide(_, _, _, l, r) =>
      && Defined(l, pc) && Defined(r, pc)
      && (var x, y := GetAsInt(l, pc), GetAsInt(r, pc);
          x.Value? && y.Value? ==> y.v != 0 && !(x.v == -0x8000_0000_0000_0000 && y.v == -1))
    case Cast(op, _, s) => Defined(s, pc) && (op == Bitcast || Width(s) <= 64)
    case Extract(from, length, s) => Defined(s, pc) && from + length <= 64
    case Shift(_, i, a) => Defined(i, pc) && Defined(a, pc) && (GetAsInt(a, pc).Value? ==> 0 <= GetAsInt(a, pc).v <= 63)
    case _ => true
  }

  /** A defined tree folds exactly when nothing in it depends on run-time values and no flag of it is used, so a
      node whose flags are needed is always left to be computed. */
  lemma {:induction false} FoldsExactly(n: Node, pc: nat)
    requires WellFormed(n) && Defined(n, pc)
    ensures GetAsInt(n, pc) == Unknown || GetAsInt(n, pc).Value?
    ensures GetAsInt(n, pc).Value? <==> Static(n)
  {
    match n
    case Binary(_, flagsUsed, l, r) => FoldsExactly(l, pc); FoldsExactly(r, pc);
    case Divide(_, _, flagsUsed, l, r) => FoldsExactly(l, pc); FoldsExactly(r, pc); Pow2Big();
    case Cast(_, _, s) => FoldsExactly(s, pc);
    case Extract(_, _, s) => FoldsExactly(s, pc);
    case Shift(_, i, a) => FoldsExactly(i, pc); FoldsExactly(a, pc);
    case _ =>
  }

  /** In a tree that does not depend on run-time values nothing is left open: it folds when it is defined, and otherwise
      folding throws or is undefined. */
  lemma {:induction false} StaticOutcome(n: Node, pc: nat)
    requires WellFormed(n) && Static(n)
    ensures GetAsInt(n, pc) != Unknown
    ensures GetAsInt(n, pc).Value? <==> Defined(n, pc)
  {
    match n
    case Binary(_, _, l, r) => StaticOutcome(l, pc); StaticOutcome(r, pc);
    case Divide(_, _, _, l, r) => StaticOutcome(l, pc); StaticOutcome(r, pc); Pow2Big();
    case Cast(_, _, s) => StaticOutcome(s, pc);
    case Extract(_, _, s) => StaticOutcome(s, pc);
    case Shift(_, i, a) => StaticOutcome(i, pc); StaticOutcome(a, pc);
    case _ =>
  }
}
