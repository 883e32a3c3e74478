/** Condition codes after a comparison.

    The flags of the IR subtraction are written to the flag registers, and the conditions are computed from them.
    What a condition says is the comparison of the two operands it was named for, at any width. */
module CondCodes {
  import opened Bits

  datatype Flags = Flags(zf: bool, cf: bool, of: bool, sf: bool, pf: bool)

  datatype Cond = BE | NBE | B | NB | Z | NZ | L | NL | LE | NLE | O | NO | P | NP | S | NS

  /** The signed reading of a w-bit pattern. */
  function Signed(x: nat, w: nat): int
    requires w >= 1 && x < Pow2(w)
  {
    if x < Pow2(w - 1) then x else x - Pow2(w)
  }

  function Difference(w: nat, a: nat, b: nat): (r: nat)
    requires a < Pow2(w) && b < Pow2(w)
    ensures r < Pow2(w)
  {
    if a >= b then a - b else a - b + Pow2(w)
  }

  /** The flag ports of a subtraction: zero, borrow, signed overflow (operands of different sign, and a result of the
      subtrahend's sign) and sign. CMP writes all of them; the parity port is left open. */
  function Compare(w: nat, a: nat, b: nat, parity: bool): Flags
    requires w >= 1 && a < Pow2(w) && b < Pow2(w)
  {
    var r := Difference(w, a, b);
    var negA, negB, negR := a >= Pow2(w - 1), b >= Pow2(w - 1), r >= Pow2(w - 1);
    Flags(r == 0, a < b, negA != negB && negR != negA, negR, parity)
  }

  /** The condition trees: not, and, or, equality and inequality on one-bit values. */
  function ComputeCond(c: Cond, f: Flags): bool {
    match c
    case NBE => !f.cf && !f.zf
    case NB => !f.cf
    case B => f.cf
    case BE => f.cf || f.zf
    case Z => f.zf
    case NLE => !f.zf && (f.sf == f.of)
    case NL => f.sf == f.of
    case L => f.sf != f.of
    case LE => f.zf || (f.sf != f.of)
    case NZ => !f.zf
    case NO => !f.of
    case NP => !f.pf
    case NS => !f.sf
    case O => f.of
    case P => f.pf
    case S => f.sf
  }

  /** What each condition means for the two operands of the comparison. */
  predicate Means(c: Cond, w: nat, a: nat, b: nat, parity: bool)
    requires w >= 1 && a < Pow2(w) && b < Pow2(w)
  {
    var d := Signed(a, w) - Signed(b, w);
    match c
    case B => a < b
    case NB => a >= b
    case BE => a <= b
    case NBE => a > b
    case Z => a == b
    case NZ => a != b
    case L => Signed(a, w) < Signed(b, w)
    case NL => Signed(a, w) >= Signed(b, w)
    case LE => Signed(a, w) <= Signed(b, w)
    case NLE => Signed(a, w) > Signed(b, w)
    case O => !(0 - Pow2(w - 1) <= d < Pow2(w - 1))
    case NO => 0 - Pow2(w - 1) <= d < Pow2(w - 1)
    case S => Signed(Difference(w, a, b), w) < 0
    case NS => Signed(Difference(w, a, b), w) >= 0
    case P => parity
    case NP => !parity
  }

  /** For every width and all operands, each condition decides the comparison it names. */
  lemma CondDecides(c: Cond, w: nat, a: nat, b: nat, parity: bool)
    requires w >= 1 && a < Pow2(w) && b < Pow2(w)
    ensures ComputeCond(c, Compare(w, a, b, parity)) <==> Means(c, w, a, b, parity)
  {
    assert Pow2(w) == 2 * Pow2(w - 1);
  }

  function Negate(c: Cond): Cond {
    match c
    case BE => NBE case NBE => BE case B => NB case NB => B case Z => NZ case NZ => Z
    case L => NL case NL => L case LE => NLE case NLE => LE
    case O => NO case NO => O case P => NP case NP => P case S => NS case NS => S
  }

  /** Each n-form is the exact negation of its base form, whatever the flags hold. */
  lemma NegationIsExact(c: Cond, f: Flags)
    ensures ComputeCond(Negate(c), f) <==> !ComputeCond(c, f)
  {
  }
}
