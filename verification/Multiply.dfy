/** The R2000 multiply: a 32-step shift-and-add on pairs of 32-bit words. */
module Multiply {
  import opened Bytes
  import opened Words

  /** -n in 32-bit two's complement: the most negative int is its own negation. */
  function Negate(n: int32): (m: int32)
    ensures n < 0 ==> Unsigned(m) + n == 0
  {
    if n == -0x8000_0000 then n else -n
  }

  /** A double word, as an unsigned and as a signed 64-bit number. */
  function Double(hi: uint32, lo: uint32): (v: nat)
    ensures v < Word * Word
  {
    hi * Word + lo
  }

  function SignedDouble(hi: int32, lo: int32): int {
    hi * Word + Unsigned(lo)
  }

  function UnsignedDouble(hi: int32, lo: int32): nat {
    Double(Unsigned(hi), Unsigned(lo))
  }

  // -------------------------------------------------------------- arithmetic of the steps

  /** Adding with the carry detected by comparison, while the sum fits. */
  lemma AddDouble(hi: uint32, lo: uint32, bHi: uint32, bLo: uint32)
    requires Double(hi, lo) + Double(bHi, bLo) < Word * Word
    ensures var lo' := Add(lo, bLo);
            var carried := if lo' < bLo then Add(hi, 1) else hi;
            Double(Add(carried, bHi), lo') == Double(hi, lo) + Double(bHi, bLo)
  {
  }

  /** Shifting left with the top bit of the low word carried over. */
  lemma ShiftDouble(bHi: uint32, bLo: uint32)
    requires 2 * Double(bHi, bLo) < Word * Word
    ensures var hi' := Add(bHi, bHi) + if Sign(bLo) then 1 else 0;
            hi' < Word && Double(hi', Add(bLo, bLo)) == 2 * Double(bHi, bLo)
  {
  }

  lemma NegateDouble(hi: uint32, lo: uint32)
    requires Double(hi, lo) > 0
    ensures var lo' := Add(Word - 1 - lo, 1);
            var hi' := if lo' == 0 then Add(Word - 1 - hi, 1) else Word - 1 - hi;
            Double(hi', lo') == Word * Word - Double(hi, lo)
  {
  }

  lemma SignedFromUnsigned(hi: uint32, lo: uint32, v: int)
    requires -0x8000_0000 * Word <= v < 0x8000_0000 * Word
    requires Double(hi, lo) == if v < 0 then v + Word * Word else v
    ensures SignedDouble(Signed(hi), Signed(lo)) == v
  {
  }

  /** One step of the sum: the last bit of r moves w into v. */
  lemma Halve(v: nat, r: nat, w: nat)
    ensures v + r * w == (if r % 2 == 1 then v + w else v) + r / 2 * (2 * w)
  {
    assert r == r / 2 * 2 + r % 2;
    Regroup(r / 2, r % 2, w);
  }

  lemma Regroup(q: nat, b: nat, w: nat)
    ensures (q * 2 + b) * w == q * (2 * w) + b * w
  {
  }

  lemma ProductBounds(a: int, b: int)
    requires -0x8000_0000 <= a < 0x8000_0000 && -0x8000_0000 <= b < 0x8000_0000
    ensures -0x8000_0000 * Word <= a * b < 0x8000_0000 * Word
  {
    if 0 <= a {
      MulBound(a, b);
    } else {
      MulBound(-a, b);
      assert (-a) * b == -(a * b);
    }
  }

  lemma MulBound(a: nat, b: int)
    requires a <= 0x8000_0000 && -0x8000_0000 <= b <= 0x8000_0000
    ensures -0x8000_0000 * 0x8000_0000 <= a * b <= 0x8000_0000 * 0x8000_0000
  {
    if 0 <= b {
      MulUpTo(a, b, 0x8000_0000, 0x8000_0000);
    } else {
      MulUpTo(a, -b, 0x8000_0000, 0x8000_0000);
      assert a * (-b) == -(a * b);
    }
  }

  lemma MulUpTo(a: nat, b: nat, m: nat, n: nat)
    requires a <= m && b <= n
    ensures 0 <= a * b <= m * n
  {
    assert a * b <= a * n <= m * n;
  }

  function Magnitude(n: int): (m: nat) {
    if n < 0 then -n else n
  }

  /** The magnitudes multiplied in the loop and the sign to put on the product. */
  lemma SignAndMagnitude(a: int32, b: int32)
    ensures var x: int, y: int := Magnitude(a), Magnitude(b);
            a * b == if (a < 0) != (b < 0) then -(x * y) else x * y
  {
  }

  /** What is left of the multiplier after i steps: the top bits r of its 32, to which the
      arithmetic right shifts have added copies of the sign bit. */
  ghost predicate Pending(a: int, i: nat, wrap: bool, r: nat) {
    i <= 32 && r < Pow2(32 - i) && a == r - if wrap then Pow2(32 - i) else 0
  }

  lemma PendingAtStart(a: int32)
    ensures Pending(a, 0, a < 0, Unsigned(a))
  {
    WordIsPow2();
  }

  lemma PendingStep(a: int, i: nat, wrap: bool, r: nat)
    requires i < 32 && Pending(a, i, wrap, r)
    ensures a % 2 == r % 2 && Pending(a / 2, i + 1, wrap, r / 2)
    ensures a == 1 ==> r == 1
  {
    assert Pow2(32 - i) == 2 * Pow2(31 - i);
  }

  /** The product is what has been summed plus what is left of the multiplier times the
      multiplicand shifted i places, which still fits in a double word. */
  ghost predicate Summed(v: nat, r: nat, w: nat, i: nat, b: nat, product: nat) {
    i <= 32 && v + r * w == product && w * Pow2(32 - i) == b * Word
  }

  lemma SummedAtStart(a: word, b: word)
    ensures Summed(Double(0, 0), a, Double(0, b), 0, b, a * b) && a * b < Word * Word
  {
    MulUpTo(a, b, Word - 1, Word - 1);
    WordIsPow2();
  }

  lemma SummedStep(v: nat, r: nat, w: nat, i: nat, b: nat, product: nat)
    requires i < 32 && Summed(v, r, w, i, b, product) && b < Word
    ensures 2 * w < Word * Word && (r % 2 == 1 ==> v + w <= product)
    ensures Summed(if r % 2 == 1 then v + w else v, r / 2, 2 * w, i + 1, b, product)
  {
    Halve(v, r, w);
    var p := Pow2(31 - i);
    assert Pow2(32 - i) == 2 * p && Pow2(32 - (i + 1)) == p;
    hide Pow2;
    Shifted(w, p);
    MulUpTo(2 * w, 1, 2 * w, p);
    MulUpTo(b, Word, Word - 1, Word);
    if r % 2 == 1 {
      MulUpTo(1, w, r, w);
    }
  }

  lemma Shifted(w: nat, p: nat)
    ensures w * (2 * p) == 2 * w * p
  {
  }

  /** What the loop's tests and shifts of bits amount to. */
  lemma BitsOfStep(a: word, b: word)
    ensures And(a, 1) != 0 <==> Signed(a) % 2 == 1
    ensures And(a, 1) != 0 ==> (And(a, 0xffff_fffe) == 0 <==> Signed(a) == 1)
    ensures ShiftLeft(b, 1) == Add(b, b) && Or(Add(b, b), 1) == Add(b, b) + 1
    ensures And(b, 0x8000_0000) != 0 <==> Sign(b)
    ensures Signed(ShiftRight(a, 1)) == Signed(a) / 2
  {
    Powers();
    hide Pow2, And, Or;
    AndLow(a, 1, 2);
    AndHigh(a, 1, 2);
    OrDisjoint(Add(b, b), 1, 1, 2);
    SignBit(b);
  }

  /** The words of the sum and of the multiplicand after a step. */
  function SumAfter(a: word, hi: word, lo: word, bHi: word, bLo: word): (word, word) {
    if And(a, 1) != 0 then
      var lo' := Add(lo, bLo);
      (Add(if lo' < bLo then Add(hi, 1) else hi, bHi), lo')
    else
      (hi, lo)
  }

  function HighAfter(bHi: word, bLo: word): word {
    if And(bLo, 0x8000_0000) != 0 then Or(ShiftLeft(bHi, 1), 1) else ShiftLeft(bHi, 1)
  }

  lemma SumStep(a: word, hi: word, lo: word, bHi: word, bLo: word)
    requires And(a, 1) != 0 ==> Double(hi, lo) + Double(bHi, bLo) < Word * Word
    ensures var (hi', lo') := SumAfter(a, hi, lo, bHi, bLo);
            Double(hi', lo') == Double(hi, lo) + if And(a, 1) != 0 then Double(bHi, bLo) else 0
  {
    hide And, Double, Add;
    if And(a, 1) != 0 {
      AddDouble(hi, lo, bHi, bLo);
    }
  }

  lemma HighStep(bHi: word, bLo: word)
    requires 2 * Double(bHi, bLo) < Word * Word
    ensures Double(HighAfter(bHi, bLo), ShiftLeft(bLo, 1)) == 2 * Double(bHi, bLo)
  {
    hide And, Or, Double, Add, ShiftLeft;
    ShiftDouble(bHi, bLo);
    BitsOfStep(0, bLo);
    BitsOfStep(0, bHi);
  }

  lemma LoopStep(a: word, r: nat, wrap: bool, hi: word, lo: word, bHi: word, bLo: word, i: nat, b: word, product: nat)
    requires i < 32 && product < Word * Word
    requires Pending(Signed(a), i, wrap, r) && Summed(Double(hi, lo), r, Double(bHi, bLo), i, b, product)
    ensures var (hi', lo') := SumAfter(a, hi, lo, bHi, bLo);
            && Pending(Signed(ShiftRight(a, 1)), i + 1, wrap, r / 2)
            && Summed(Double(hi', lo'), r / 2, Double(HighAfter(bHi, bLo), ShiftLeft(bLo, 1)), i + 1, b, product)
            && (And(a, 1) != 0 && And(a, 0xffff_fffe) == 0 ==> Double(hi', lo') == product)
  {
    hide Pow2, Double, Pending, Summed, Add, And, Or, ShiftLeft, ShiftRight, Signed, Unsigned, SumAfter, HighAfter;
    BitsOfStep(a, 0);
    PendingStep(Signed(a), i, wrap, r);
    SummedStep(Double(hi, lo), r, Double(bHi, bLo), i, b, product);
    SumStep(a, hi, lo, bHi, bLo);
    HighStep(bHi, bLo);
    if Signed(a) == 1 {
      SummedAtEnd(Double(hi, lo) + Double(bHi, bLo), 2 * Double(bHi, bLo), i + 1, b, product);
    }
  }

  /** The loop: the double-word product of two words. */
  method MultLoop(a0: word, b: word) returns (hi: word, lo: word)
    ensures Double(hi, lo) == a0 * b
  {
    var a: word, bHi: word, bLo: word := a0, 0, b;
    hi, lo := 0, 0;
    ghost var product: nat, r: nat, wrap := a * b, a, Signed(a) < 0;
    PendingAtStart(Signed(a));
    SummedAtStart(a, b);
    hide Pow2, Double, Pending, Summed, Add, And, Or, ShiftLeft, ShiftRight, Signed, Unsigned;
    var i := 0;
    while i < 32
      invariant 0 <= i <= 32 && Pending(Signed(a), i, wrap, r)
      invariant Summed(Double(hi, lo), r, Double(bHi, bLo), i, b, product)
    {
      LoopStep(a, r, wrap, hi, lo, bHi, bLo, i, b, product);
      if And(a, 1) != 0 {
        lo := Add(lo, bLo);
        if lo < bLo {
          hi := Add(hi, 1);
        }
        hi := Add(hi, bHi);
        if And(a, 0xffff_fffe) == 0 {
          return;
        }
      }
      bHi := ShiftLeft(bHi, 1);
      if And(bLo, 0x8000_0000) != 0 {
        bHi := Or(bHi, 1);
      }
      bLo := ShiftLeft(bLo, 1);
      a := ShiftRight(a, 1);
      r := r / 2;
      i := i + 1;
    }
    PendingAtEnd(Signed(a), wrap, r);
    SummedAtEnd(Double(hi, lo), Double(bHi, bLo), 32, b, product);
  }

  lemma PendingAtEnd(a: int, wrap: bool, r: nat)
    requires Pending(a, 32, wrap, r)
    ensures r == 0
  {
  }

  lemma SummedAtEnd(v: nat, w: nat, i: nat, b: nat, product: nat)
    requires Summed(v, 0, w, i, b, product)
    ensures v == product
  {
  }

  method Mult(a0: int32, b0: int32, signedArith: bool) returns (hiOut: int32, loOut: int32)
    ensures signedArith ==> SignedDouble(hiOut, loOut) == a0 * b0
    ensures !signedArith ==> UnsignedDouble(hiOut, loOut) == Unsigned(a0) * Unsigned(b0)
  {
    if a0 == 0 || b0 == 0 {
      return 0, 0;
    }
    var a, b, negative := a0, b0, false;
    if signedArith {
      if a < 0 {
        negative := !negative;
        a := Negate(a);
      }
      if b < 0 {
        negative := !negative;
        b := Negate(b);
      }
    }
    ghost var product := Unsigned(a) * Unsigned(b);
    Positive(Unsigned(a), Unsigned(b));
    hide Double, Add, Negate, Not;
    var hi, lo := MultLoop(Unsigned(a), Unsigned(b));
    if negative {
      NegateDouble(hi, lo);
      NotIs(hi);
      NotIs(lo);
      hi, lo := Not(hi), Not(lo);
      lo := Add(lo, 1);
      if lo == 0 {
        hi := Add(hi, 1);
      }
    }
    if signedArith {
      SignAndMagnitude(a0, b0);
      ProductBounds(a0, b0);
      SignedFromUnsigned(hi, lo, a0 * b0);
    }
    return Signed(hi), Signed(lo);
  }

  lemma Positive(a: nat, b: nat)
    requires a > 0 && b > 0
    ensures a * b > 0
  {
  }
}
