/** Decoding of SHT_RELR relative relocations: even words are addresses, odd words are bitmaps over the 63 words that
    follow the last address covered. */
module Relr {
  import opened Bits

  const WORD := 0x1_0000_0000_0000_0000

  type word = x: int | 0 <= x < WORD

  /** Where a bitmap that follows address word x starts. */
  function After(x: word): nat {
    (x as int) + 8
  }

  /** The address of bit n of a bitmap. */
  function AddressAt(base: nat, n: nat): word {
    (base + 8 * n) % WORD
  }

  /** The addresses of the set bits of what is left of a bitmap, from bit j on. */
  function FromBitmap(entry: nat, base: nat, j: nat): seq<word>
    decreases entry
  {
    if entry == 0 then []
    else (if entry % 2 == 1 then [AddressAt(base, j)] else []) + FromBitmap(entry / 2, base, j + 1)
  }

  /** The addresses of a table whose next bitmap starts at base. */
  function Decode(words: seq<word>, base: nat): seq<word> {
    if words == [] then []
    else if words[0] % 2 == 0 then [words[0]] + Decode(words[1..], After(words[0]))
    else FromBitmap(words[0] / 2, base, 0) + Decode(words[1..], base + 63 * 8)
  }

  lemma Associate(a: seq<word>, b: seq<word>, c: seq<word>)
    ensures a + (b + c) == (a + b) + c
  {
  }

  lemma DecodeAt(words: seq<word>, i: nat, base: nat)
    requires i < |words|
    ensures Decode(words[i..], base)
         == if words[i] % 2 == 0 then [words[i]] + Decode(words[i + 1..], After(words[i]))
            else FromBitmap(words[i] / 2, base, 0) + Decode(words[i + 1..], base + 63 * 8)
  {
    assert words[i..][1..] == words[i + 1..];
  }

  /** The inner loop: one bitmap, whose lowest bit has been dropped. */
  method PushSetBits(relrs0: seq<word>, bits0: nat, base: nat) returns (relrs: seq<word>)
    ensures relrs == relrs0 + FromBitmap(bits0, base, 0)
  {
    relrs := relrs0;
    var bits, j: nat := bits0, 0;
    while bits != 0
      invariant relrs + FromBitmap(bits, base, j) == relrs0 + FromBitmap(bits0, base, 0)
      decreases bits
    {
      Associate(relrs, if bits % 2 == 1 then [AddressAt(base, j)] else [], FromBitmap(bits / 2, base, j + 1));
      if bits % 2 != 0 {
        relrs := relrs + [AddressAt(base, j)];
      }
      bits := bits / 2;
      j := j + 1;
    }
  }

  /** The decoder; garbage is the value of the position before any word has set it. */
  method ParseRelr(words: seq<word>, garbage: nat) returns (relrs: seq<word>)
    ensures relrs == Decode(words, garbage)
  {
    relrs := [];
    var base: nat := garbage;
    for i := 0 to |words|
      invariant relrs + Decode(words[i..], base) == Decode(words, garbage)
    {
      DecodeAt(words, i, base);
      var entry := words[i];
      if entry % 2 == 0 {
        Associate(relrs, [entry], Decode(words[i + 1..], After(entry)));
        relrs := relrs + [entry];
        base := After(entry);
      } else {
        Associate(relrs, FromBitmap(entry / 2, base, 0), Decode(words[i + 1..], base + 63 * 8));
        relrs := PushSetBits(relrs, entry / 2, base);
        base := base + 63 * 8;
      }
    }
  }

  // ---------------------------------------------------------------------------------------------
  // Exactly the addresses whose bits are set
  // ---------------------------------------------------------------------------------------------

  predicate Bit(e: nat, k: nat) {
    (e / Pow2(k)) % 2 == 1
  }

  lemma BitShift(e: nat, k: nat)
    requires k > 0
    ensures Bit(e, k) <==> Bit(e / 2, k - 1)
  {
    DivTwice(e, 2, Pow2(k - 1));
  }

  lemma DivTwice(e: nat, m: nat, n: nat)
    requires m > 0 && n > 0 && m * n > 0
    ensures e / (m * n) == (e / m) / n
  {
    var q, r := (e / m) / n, (e / m) % n;
    assert e / m == q * n + r && e == (e / m) * m + e % m;
    assert e == q * (m * n) + (r * m + e % m) by { MulAddRight(q * n, r, m); MulAssoc(q, n, m); MulComm(m, n); }
    MulSub(n, r + 1, m);
    if n > r + 1 { MulPositive(n - (r + 1), m); }
    MulAddRight(r, 1, m);
    if r > 0 { MulPositive(r, m); }
    MulComm(m, n);
    DivModUnique(e, q, r * m + e % m, m * n);
  }

  /** Bit k of e, counted from position j of a bitmap, stands for address x. */
  predicate BitGives(e: nat, base: nat, j: nat, k: nat, x: word) {
    Bit(e, k) && x == (base + 8 * (j + k)) % 0x1_0000_0000_0000_0000
  }

  ghost predicate SomeBitGives(e: nat, base: nat, j: nat, x: word) {
    exists k: nat :: BitGives(e, base, j, k, x)
  }

  lemma SomeBitStep(e: nat, base: nat, j: nat, x: word)
    ensures SomeBitGives(e, base, j, x) <==>
                (e % 2 == 1 && x == AddressAt(base, j)) || SomeBitGives(e / 2, base, j + 1, x)
  {
    assert Bit(e, 0) <==> e % 2 == 1;
    if k: nat :| BitGives(e, base, j, k, x) {
      if k > 0 {
        BitShift(e, k);
        assert BitGives(e / 2, base, j + 1, k - 1, x);
      }
    }
    if SomeBitGives(e / 2, base, j + 1, x) {
      var k: nat :| BitGives(e / 2, base, j + 1, k, x);
      BitShift(e, k + 1);
      assert BitGives(e, base, j, k + 1, x);
    }
    if e % 2 == 1 && x == AddressAt(base, j) { assert BitGives(e, base, j, 0, x); }
  }

  lemma NoBits(base: nat, j: nat, x: word)
    ensures !SomeBitGives(0, base, j, x)
  {
    forall k: nat ensures !BitGives(0, base, j, k, x) { DivModUnique(0, 0, 0, Pow2(k)); }
  }

  lemma {:induction false} FromBitmapExact(e: nat, base: nat, j: nat, x: word)
    ensures x in FromBitmap(e, base, j) <==> SomeBitGives(e, base, j, x)
    decreases e
  {
    if e == 0 {
      NoBits(base, j, x);
    } else {
      FromBitmapExact(e / 2, base, j + 1, x);
      SomeBitStep(e, base, j, x);
    }
  }

  /** Where the bitmap at position i starts: past the last address word and the bitmaps since. */
  function BaseAt(words: seq<word>, base: nat, i: nat): nat
    requires i <= |words|
  {
    if i == 0 then base
    else if words[i - 1] % 2 == 0 then (words[i - 1] as int) + 8
    else BaseAt(words, base, i - 1) + 63 * 8
  }

  /** Word i relocates address x: it is x, or one of its bits above the lowest stands for x. */
  ghost predicate Relocates(words: seq<word>, base: nat, i: nat, x: word)
    requires i < |words|
  {
    if words[i] % 2 == 0 then x == words[i]
    else SomeBitGives(words[i] / 2, BaseAt(words, base, i), 0, x)
  }

  lemma {:induction false} BaseAtTail(words: seq<word>, base: nat, i: nat)
    requires 0 < i <= |words|
    ensures BaseAt(words, base, i) == BaseAt(words[1..], Next(words[0], base), i - 1)
    decreases i
  {
    if i > 1 { BaseAtTail(words, base, i - 1); }
  }

  lemma RelocatesTail(words: seq<word>, base: nat, i: nat, x: word)
    requires 0 < i < |words|
    ensures Relocates(words, base, i, x) <==> Relocates(words[1..], Next(words[0], base), i - 1, x)
  {
    BaseAtTail(words, base, i);
  }

  function Next(w: word, base: nat): nat {
    if w % 2 == 0 then After(w) else base + 63 * 8
  }

  function FromWord(w: word, base: nat): seq<word> {
    if w % 2 == 0 then [w] else FromBitmap(w / 2, base, 0)
  }

  lemma FirstWordExact(words: seq<word>, base: nat, x: word)
    requires words != []
    ensures x in FromWord(words[0], base) <==> Relocates(words, base, 0, x)
  {
    if words[0] % 2 == 1 { FromBitmapExact(words[0] / 2, base, 0, x); }
  }

  /** The decoded list holds exactly the address words and the addresses whose bitmap bits are set. */
  lemma {:induction false} DecodeExact(words: seq<word>, base: nat, x: word)
    ensures x in Decode(words, base) <==> RelocatedBySome(words, base, x)
    decreases |words|
  {
    if words != [] {
      DecodeExact(words[1..], Next(words[0], base), x);
      FirstWordExact(words, base, x);
      assert Decode(words, base) == FromWord(words[0], base) + Decode(words[1..], Next(words[0], base));
      SomeTail(words, base, x);
    }
  }

  ghost predicate RelocatedBySome(words: seq<word>, base: nat, x: word) {
    exists i: nat :: i < |words| && Relocates(words, base, i, x)
  }

  lemma SomeTail(words: seq<word>, base: nat, x: word)
    requires words != []
    ensures RelocatedBySome(words, base, x)
       <==> Relocates(words, base, 0, x) || RelocatedBySome(words[1..], Next(words[0], base), x)
  {
    if i: nat :| i < |words| && Relocates(words, base, i, x) {
      if i > 0 {
        RelocatesTail(words, base, i, x);
        assert Relocates(words[1..], Next(words[0], base), i - 1, x);
      }
    }
    if i: nat :| i < |words[1..]| && Relocates(words[1..], Next(words[0], base), i, x) {
      RelocatesTail(words, base, i + 1, x);
      assert Relocates(words, base, i + 1, x);
    }
  }

  /** A table that starts with an address does not depend on the initial position. */
  lemma StartsWithAddress(words: seq<word>, a: nat, b: nat)
    requires words == [] || words[0] % 2 == 0
    ensures Decode(words, a) == Decode(words, b)
  {
  }

  /** One that starts with a bitmap does. */
  lemma StartsWithBitmap()
    ensures Decode([3], 0) == [0] && Decode([3], 8) == [8]
  {
    assert FromBitmap(1, 0, 0) == [0] + FromBitmap(0, 0, 1);
    assert FromBitmap(1, 8, 0) == [8] + FromBitmap(0, 8, 1);
  }

  // ---------------------------------------------------------------------------------------------
  // Inverse of the standard encoding
  // ---------------------------------------------------------------------------------------------

  /** Address x has a bit in a bitmap that starts at base. */
  predicate Covered(x: word, base: nat) {
    base <= x < base + 63 * 8 && (x - base) % 8 == 0
  }

  /** How many addresses at the front of the list go into one bitmap. */
  function Leading(xs: seq<word>, base: nat): (n: nat)
    ensures n <= |xs|
    ensures forall i :: 0 <= i < n ==> Covered(xs[i], base)
  {
    if xs == [] || !Covered(xs[0], base) then 0 else 1 + Leading(xs[1..], base)
  }

  /** As many as it has bits for. */
  lemma {:induction false} LeadingIsMost(xs: seq<word>, base: nat)
    ensures var n := Leading(xs, base);
            n < |xs| && base <= xs[n] ==> xs[n] >= base + 504 || (xs[n] - base) % 8 != 0
    decreases |xs|
  {
    if xs != [] && Covered(xs[0], base) { LeadingIsMost(xs[1..], base); }
  }

  /** Their bits, counted from bit j of the bitmap. */
  function BitsOf(xs: seq<word>, base: nat, j: nat): nat
    requires forall i :: 0 <= i < |xs| ==> base + 8 * j <= xs[i]
  {
    if xs == [] then 0 else Pow2((xs[0] - base) / 8 - j) + BitsOf(xs[1..], base, j)
  }

  function BitmapOf(xs: seq<word>, base: nat): nat {
    var n := Leading(xs, base);
    2 * BitsOf(xs[..n], base, 0) + 1
  }

  function Encode(xs: seq<word>): seq<nat>
    decreases |xs|, 0
  {
    if xs == [] then [] else [xs[0]] + EncodeFrom(xs[1..], After(xs[0]))
  }

  function EncodeFrom(xs: seq<word>, base: nat): seq<nat>
    decreases |xs|, 1
  {
    var n := Leading(xs, base);
    if n == 0 then Encode(xs) else [BitmapOf(xs, base)] + EncodeFrom(xs[n..], base + 63 * 8)
  }

  predicate Increasing(xs: seq<word>) {
    forall i, j :: 0 <= i < j < |xs| ==> xs[i] < xs[j]
  }

  predicate AllCovered(xs: seq<word>, base: nat) {
    forall i :: 0 <= i < |xs| ==> Covered(xs[i], base)
  }

  predicate AllFrom(xs: seq<word>, low: nat) {
    forall i :: 0 <= i < |xs| ==> low <= xs[i]
  }

  lemma {:induction false} BitsOfDouble(xs: seq<word>, base: nat, j: nat)
    requires AllCovered(xs, base) && AllFrom(xs, base + 8 * (j + 1))
    ensures BitsOf(xs, base, j) == 2 * BitsOf(xs, base, j + 1)
    decreases |xs|
  {
    if xs != [] {
      BitsOfDouble(xs[1..], base, j);
    }
  }

  /** All but the first of an increasing list of covered addresses, or all of a list that starts later, lie beyond bit
      j. */
  lemma Beyond(xs: seq<word>, base: nat, j: nat)
    requires Increasing(xs) && AllCovered(xs, base) && AllFrom(xs, base + 8 * j) && xs != []
    ensures AllFrom(if xs[0] == base + 8 * j then xs[1..] else xs, base + 8 * (j + 1))
  {
    assert Covered(xs[0], base);
    var rest := if xs[0] == base + 8 * j then xs[1..] else xs;
    forall i | 0 <= i < |rest| ensures base + 8 * (j + 1) <= rest[i] {
      var k := if xs[0] == base + 8 * j then i + 1 else i;
      assert (k > 0 ==> xs[0] < xs[k]) && Covered(xs[k], base);
    }
  }

  /** What is left of the list once bit j has been dealt with. */
  function Rest(xs: seq<word>, base: nat, j: nat): seq<word> {
    if xs != [] && xs[0] == base + 8 * j then xs[1..] else xs
  }

  predicate FitsBitmap(xs: seq<word>, base: nat, j: nat) {
    Increasing(xs) && AllCovered(xs, base) && AllFrom(xs, base + 8 * j)
  }

  /** Bit j of the bitmap is set exactly when the list starts with its address, and the other bits are those of the
      rest. */
  lemma BitsOfStep(xs: seq<word>, base: nat, j: nat)
    requires FitsBitmap(xs, base, j) && xs != []
    ensures FitsBitmap(Rest(xs, base, j), base, j + 1) && j < 63
    ensures BitsOf(xs, base, j) == 2 * BitsOf(Rest(xs, base, j), base, j + 1) + if xs[0] == base + 8 * j then 1 else 0
    ensures BitsOf(xs, base, j) > 0 && (BitsOf(xs, base, j) % 2 == 1 <==> xs[0] == base + 8 * j)
  {
    assert Covered(xs[0], base);
    Beyond(xs, base, j);
    BitsOfDouble(Rest(xs, base, j), base, j);
    BitsOfPositive(xs, base, j);
  }

  /** A bitmap decodes to the addresses it was made from. */
  lemma {:induction false} FromBitmapOfBits(xs: seq<word>, base: nat, j: nat)
    requires FitsBitmap(xs, base, j)
    ensures FromBitmap(BitsOf(xs, base, j), base, j) == xs
    decreases 63 - j
  {
    if xs != [] {
      BitsOfStep(xs, base, j);
      FromBitmapOfBits(Rest(xs, base, j), base, j + 1);
      BitmapStep(BitsOf(xs, base, j), BitsOf(Rest(xs, base, j), base, j + 1), base, j);
      Rejoin(xs, base, j);
    }
  }

  lemma Rejoin(xs: seq<word>, base: nat, j: nat)
    requires xs != []
    ensures (if xs[0] == base + 8 * j then [AddressAt(base, j)] else []) + Rest(xs, base, j) == xs
  {
  }

  lemma BitmapStep(e: nat, half: nat, base: nat, j: nat)
    requires e > 0 && (e == 2 * half || e == 2 * half + 1)
    ensures FromBitmap(e, base, j) == (if e % 2 == 1 then [AddressAt(base, j)] else []) + FromBitmap(half, base, j + 1)
  {
  }

  lemma BitsOfPositive(xs: seq<word>, base: nat, j: nat)
    requires xs != [] && AllFrom(xs, base + 8 * j)
    ensures BitsOf(xs, base, j) > 0
  {
  }

  /** Each word of an encoding has 64 bits. */
  lemma {:induction false} BitsOfBelow(xs: seq<word>, base: nat, j: nat)
    requires FitsBitmap(xs, base, j) && j <= 63
    ensures BitsOf(xs, base, j) < Pow2(63 - j)
    decreases 63 - j
  {
    if xs != [] {
      BitsOfStep(xs, base, j);
      BitsOfBelow(Rest(xs, base, j), base, j + 1);
      assert Pow2(63 - j) == 2 * Pow2(63 - (j + 1));
    }
  }

  lemma BitmapOfIsWord(xs: seq<word>, base: nat)
    requires Increasing(xs)
    ensures BitmapOf(xs, base) < WORD
  {
    var n := Leading(xs, base);
    BitsOfBelow(xs[..n], base, 0);
    Pow2Big();
  }

  predicate AllEven(xs: seq<word>) {
    forall i :: 0 <= i < |xs| ==> xs[i] % 2 == 0
  }

  predicate IsTable(ws: seq<nat>) {
    forall i :: 0 <= i < |ws| ==> ws[i] < WORD
  }

  function AsTable(ws: seq<nat>): (r: seq<word>)
    requires IsTable(ws)
    ensures |r| == |ws| && forall i :: 0 <= i < |ws| ==> r[i] == ws[i]
  {
    seq(|ws|, i requires 0 <= i < |ws| => ws[i] as word)
  }

  /** Decoding a table one word at a time. */
  lemma DecodeCons(w: nat, tail: seq<nat>, base: nat)
    requires w < WORD && IsTable(tail)
    ensures IsTable([w] + tail)
    ensures Decode(AsTable([w] + tail), base)
         == if w % 2 == 0 then [w] + Decode(AsTable(tail), w + 8)
            else FromBitmap(w / 2, base, 0) + Decode(AsTable(tail), base + 63 * 8)
  {
    var ws := [w] + tail;
    assert forall i :: 1 <= i < |ws| ==> ws[i] == tail[i - 1];
    assert AsTable(ws)[1..] == AsTable(tail);
  }

  /** Decoding undoes the standard encoding on every strictly increasing list of even addresses (so of 8-aligned
      ones). */
  lemma {:induction false} DecodeEncode(xs: seq<word>, garbage: nat)
    requires Increasing(xs) && AllEven(xs)
    ensures IsTable(Encode(xs)) && Decode(AsTable(Encode(xs)), garbage) == xs
    decreases |xs|, 0
  {
    if xs != [] {
      DecodeEncodeFrom(xs[1..], After(xs[0]));
      DecodeCons(xs[0], EncodeFrom(xs[1..], After(xs[0])), garbage);
    }
  }

  lemma {:induction false} DecodeEncodeFrom(xs: seq<word>, base: nat)
    requires Increasing(xs) && AllEven(xs)
    ensures IsTable(EncodeFrom(xs, base)) && Decode(AsTable(EncodeFrom(xs, base)), base) == xs
    decreases |xs|, 1
  {
    if Leading(xs, base) == 0 {
      DecodeEncode(xs, base);
    } else {
      DecodeEncodeFrom(xs[Leading(xs, base)..], base + 63 * 8);
      BitmapThenRest(xs, base);
    }
  }

  lemma BitmapThenRest(xs: seq<word>, base: nat)
    requires Increasing(xs) && Leading(xs, base) > 0
    requires var tail := EncodeFrom(xs[Leading(xs, base)..], base + 63 * 8);
             IsTable(tail) && Decode(AsTable(tail), base + 63 * 8) == xs[Leading(xs, base)..]
    ensures IsTable(EncodeFrom(xs, base)) && Decode(AsTable(EncodeFrom(xs, base)), base) == xs
  {
    var n := Leading(xs, base);
    BitmapOfIsWord(xs, base);
    LeadingDecodes(xs, base);
    DecodeOdd(BitsOf(xs[..n], base, 0), EncodeFrom(xs[n..], base + 63 * 8), base);
    assert xs[..n] + xs[n..] == xs;
  }

  lemma DecodeOdd(half: nat, tail: seq<nat>, base: nat)
    requires 2 * half + 1 < WORD && IsTable(tail)
    ensures IsTable([2 * half + 1] + tail)
    ensures Decode(AsTable([2 * half + 1] + tail), base) ==
                FromBitmap(half, base, 0) + Decode(AsTable(tail), base + 63 * 8)
  {
    DecodeCons(2 * half + 1, tail, base);
  }

  lemma LeadingDecodes(xs: seq<word>, base: nat)
    requires Increasing(xs)
    ensures FromBitmap(BitsOf(xs[..Leading(xs, base)], base, 0), base, 0) == xs[..Leading(xs, base)]
  {
    FromBitmapOfBits(xs[..Leading(xs, base)], base, 0);
  }
}
