/** The 80-bit form of an x87 register.

    The translator keeps each register as a 64-bit double, stores it in this form and loads it back. The form keeps
    the fraction and the biased exponent of the double, which is not what the extended format has. */
module X87Extended {
  /** FST and FSTP: fraction, low exponent bits, and the sign with the top exponent bit, each moved to its place. */
  function Store80(st0: bv64): bv80 {
    var frac := ((st0 & 0x000F_FFFF_FFFF_FFFF) << 11) as bv80;
    var exponent := ((st0 & 0x3FF0_0000_0000_0000) as bv80) << 12;
    var sign := ((st0 & 0xC000_0000_0000_0000) as bv80) << 16;
    sign | frac | exponent
  }

  /** bit_extract and bit_insert of constants. */
  function Extract(x: bv80, from: bv80, mask: bv80): bv80
    requires from <= 80
  {
    (x >> from) & mask
  }

  function Insert(x: bv64, field: bv64, at: bv64, mask: bv64): bv64
    requires at <= 64
  {
    (x & !(mask << at)) | ((field & mask) << at)
  }

  /** FLD; the integer bit is ignored. */
  function Load80(val: bv80): bv64 {
    var sign := Extract(val, 78, 3) as bv64;
    var exponent := Extract(val, 64, 0x3FF) as bv64;
    var frac := Extract(val, 11, 0x000F_FFFF_FFFF_FFFF) as bv64;
    Insert(Insert(Insert(0, sign, 62, 3), exponent, 52, 0x3FF), frac, 0, 0x000F_FFFF_FFFF_FFFF)
  }

  /** Storing and loading returns the same 64 bits, for every bit pattern: NaNs and infinities too. */
  lemma LoadOfStore(x: bv64)
    ensures Load80(Store80(x)) == x
  {
  }

  /** The bits the 64-bit form has no room for: the low 11 of the fraction, the integer bit, and four exponent bits. */
  const LOST: bv80 := 0x3C00_8000_0000_0000_07FF

  /** The other way round exactly those bits are cleared, so an 80-bit value survives exactly when it has none of
      them. */
  lemma StoreOfLoad(y: bv80)
    ensures Store80(Load80(y)) == y & !LOST
    ensures Store80(Load80(y)) == y <==> y & LOST == 0
  {
  }

  /** What is stored is not the extended-precision format: 1.0 there has exponent 0x3FFF and its integer bit set, and
      loading it gives 1.0 - but storing 1.0 gives neither. */
  lemma OneIsNotExtended()
    ensures Load80(0x3FFF_8000_0000_0000_0000) == 0x3FF0_0000_0000_0000
    ensures Store80(0x3FF0_0000_0000_0000) == 0x03FF_0000_0000_0000_0000
  {
  }
}
