/** 32-bit words as numbers below 2^32, the operations of C on their bits, and what those
    amount to in arithmetic. */
module Words {
  import opened Bytes

  const Word: nat := 0x1_0000_0000

  type word = uint32

  /** The 32 bits of an int read as unsigned, and the reverse. */
  function Unsigned(n: int32): (u: word)
    ensures u == n || u == n + Word
  {
    if n < 0 then n + Word else n
  }

  function Signed(u: word): (n: int32)
    ensures Unsigned(n) == u
  {
    if u >= 0x8000_0000 then u - Word else u
  }

  predicate Sign(x: word) {
    x >= 0x8000_0000
  }

  function Add(x: word, y: word): word {
    (x + y) % Word
  }

  function Sub(x: word, y: word): word {
    (x - y) % Word
  }

  // -------------------------------------------------------------- powers of two

  function Pow2(k: nat): (p: nat)
    ensures p >= 1
  {
    if k == 0 then 1 else 2 * Pow2(k - 1)
  }

  /** c * 2^k, and the quotient and remainder by 2^k, one bit at a time. */
  function Scale(c: nat, k: nat): (r: nat)
    ensures r >= c
  {
    if k == 0 then c else 2 * Scale(c, k - 1)
  }

  function High(x: nat, k: nat): (q: nat)
    ensures q <= x
  {
    if k == 0 then x else High(x / 2, k - 1)
  }

  function Low(x: nat, k: nat): (r: nat)
    ensures r < Pow2(k) && r <= x
  {
    if k == 0 then 0 else x % 2 + 2 * Low(x / 2, k - 1)
  }

  lemma {:induction false} Parted(x: nat, k: nat)
    ensures x == Scale(High(x, k), k) + Low(x, k)
  {
    if k > 0 {
      Parted(x / 2, k - 1);
    }
  }

  /** The parts are determined by the sum. */
  lemma {:induction false} Parts(q: nat, r: nat, k: nat)
    requires r < Pow2(k)
    ensures High(Scale(q, k) + r, k) == q && Low(Scale(q, k) + r, k) == r
  {
    if k > 0 {
      Parts(q, r / 2, k - 1);
      assert (Scale(q, k) + r) / 2 == Scale(q, k - 1) + r / 2 && (Scale(q, k) + r) % 2 == r % 2;
    }
  }

  lemma {:induction false} ScaleIs(c: nat, k: nat)
    ensures Scale(c, k) == c * Pow2(k)
  {
    if k > 0 {
      ScaleIs(c, k - 1);
      Twice(c, Pow2(k - 1));
    }
  }

  lemma Twice(q: nat, p: nat)
    ensures q * (2 * p) == 2 * (q * p)
  {
  }

  /** High and Low are division by 2^k. */
  lemma Divided(x: nat, k: nat)
    ensures High(x, k) == x / Pow2(k) && Low(x, k) == x % Pow2(k)
  {
    Parted(x, k);
    ScaleIs(High(x, k), k);
    hide High, Low, Scale, Pow2;
    Unique(x, High(x, k), Low(x, k), Pow2(k));
  }

  lemma Unique(x: nat, q: nat, r: nat, s: nat)
    requires x == q * s + r && r < s
    ensures x / s == q && x % s == r
  {
    assert x == x / s * s + x % s;
    if x / s < q {
      Grows(x / s + 1, q, s);
    } else if x / s > q {
      Grows(q + 1, x / s, s);
    }
  }

  lemma Grows(a: nat, b: nat, s: nat)
    requires a <= b
    ensures a * s <= b * s
  {
  }

  lemma {:induction false} ScaleTwice(c: nat, j: nat, k: nat)
    ensures Scale(Scale(c, j), k) == Scale(c, j + k)
  {
    if k > 0 {
      ScaleTwice(c, j, k - 1);
    }
  }

  lemma {:induction false} ScaleOne(k: nat)
    ensures Scale(1, k) == Pow2(k)
  {
    if k > 0 {
      ScaleOne(k - 1);
    }
  }

  lemma {:induction false} ScaleSum(a: nat, b: nat, k: nat)
    ensures Scale(a + b, k) == Scale(a, k) + Scale(b, k)
  {
    if k > 0 {
      ScaleSum(a, b, k - 1);
    }
  }

  lemma WordIsPow2()
    ensures Pow2(32) == Word
  {
    assert Pow2(8) == 0x100 && Pow2(16) == 0x1_0000 && Pow2(24) == 0x100_0000;
  }

  /** The powers that occur in masks and shifts. */
  lemma Powers()
    ensures Pow2(0) == 1 && Pow2(1) == 2 && Pow2(2) == 4 && Pow2(5) == 32 && Pow2(6) == 64 && Pow2(7) == 0x80
    ensures Pow2(8) == 0x100 && Pow2(11) == 0x800 && Pow2(15) == 0x8000 && Pow2(16) == 0x1_0000 && Pow2(21) == 0x20_0000
    ensures Pow2(24) == 0x100_0000 && Pow2(26) == 0x400_0000 && Pow2(28) == 0x1000_0000 && Pow2(30) == 0x4000_0000
    ensures Pow2(31) == 0x8000_0000 && Pow2(32) == Word
  {
    WordIsPow2();
  }

  /** The parts of a word. */
  lemma WordParts(x: word, k: nat)
    requires k <= 32
    ensures High(x, k) < Pow2(32 - k) && Low(High(x, k), 32 - k) == High(x, k)
  {
    WordIsPow2();
    HighBelow(x, 32, k);
    hide High, Low, Pow2;
    Whole(High(x, k), 32 - k);
  }

  lemma {:induction false} HighBelow(x: nat, n: nat, k: nat)
    requires k <= n && x < Pow2(n)
    ensures High(x, k) < Pow2(n - k)
  {
    if k > 0 {
      HighBelow(x / 2, n - 1, k - 1);
    }
  }

  lemma Whole(x: nat, k: nat)
    requires x < Pow2(k)
    ensures High(x, k) == 0 && Low(x, k) == x
  {
    ZeroScaled(k);
    hide High, Low, Scale, Pow2;
    Parts(0, x, k);
  }

  lemma {:induction false} ZeroScaled(k: nat)
    ensures Scale(0, k) == 0 && High(0, k) == 0 && Low(0, k) == 0
  {
    if k > 0 {
      ZeroScaled(k - 1);
    }
  }

  // -------------------------------------------------------------- bit by bit

  datatype Gate = AndGate | OrGate | XorGate

  function Out(g: Gate, p: bool, q: bool): bool {
    match g
    case AndGate => p && q
    case OrGate => p || q
    case XorGate => p != q
  }

  /** The gate applied to each of the lowest n bits. */
  function Combine(g: Gate, x: nat, y: nat, n: nat): (r: nat)
    ensures r < Pow2(n)
  {
    if n == 0 then 0
    else (if Out(g, x % 2 == 1, y % 2 == 1) then 1 else 0) + 2 * Combine(g, x / 2, y / 2, n - 1)
  }

  function And(x: word, y: word): word {
    WordIsPow2();
    Combine(AndGate, x, y, 32)
  }

  function Or(x: word, y: word): word {
    WordIsPow2();
    Combine(OrGate, x, y, 32)
  }

  function Xor(x: word, y: word): word {
    WordIsPow2();
    Combine(XorGate, x, y, 32)
  }

  /** ~x. */
  function Not(x: word): word {
    Xor(x, Word - 1)
  }

  /** x << n, and x >> n for an unsigned x. */
  function ShiftLeft(x: word, n: nat): word {
    x * Pow2(n) % Word
  }

  function ShiftRightUnsigned(x: word, n: nat): (r: word)
    ensures r <= x
  {
    Divided(x, n);
    x / Pow2(n)
  }

  /** x >> n for an int x: the sign bit is shifted in. */
  function ShiftRight(x: word, n: nat): word {
    Signed(x) / Pow2(n) % Word
  }

  /** The low k bits and the rest can be combined apart. */
  lemma {:induction false} CombineSplit(g: Gate, x: nat, y: nat, n: nat, k: nat)
    requires k <= n
    ensures Combine(g, x, y, n) == Combine(g, x, y, k) + Scale(Combine(g, High(x, k), High(y, k), n - k), k)
  {
    if k > 0 {
      CombineSplit(g, x / 2, y / 2, n - 1, k - 1);
    }
  }

  /** Combining with no bits, with all bits, and with itself. */
  lemma {:induction false} CombineConstants(x: nat, n: nat)
    ensures Combine(AndGate, x, 0, n) == Combine(AndGate, 0, x, n) == 0
    ensures Combine(OrGate, x, 0, n) == Combine(OrGate, 0, x, n) == Combine(XorGate, x, 0, n) == Low(x, n)
    ensures Combine(XorGate, x, x, n) == 0
  {
    if n > 0 {
      CombineConstants(x / 2, n - 1);
    }
  }

  lemma {:induction false} CombineOnes(x: nat, n: nat)
    ensures Combine(AndGate, x, Pow2(n) - 1, n) == Low(x, n)
    ensures Combine(OrGate, x, Pow2(n) - 1, n) == Pow2(n) - 1
    ensures Combine(XorGate, x, Pow2(n) - 1, n) == Pow2(n) - 1 - Low(x, n)
  {
    if n > 0 {
      CombineOnes(x / 2, n - 1);
      assert (Pow2(n) - 1) / 2 == Pow2(n - 1) - 1 && (Pow2(n) - 1) % 2 == 1;
    }
  }

  /** Only the low n bits matter. */
  lemma {:induction false} CombineLow(g: Gate, x: nat, y: nat, z: nat, n: nat)
    requires Low(x, n) == Low(y, n)
    ensures Combine(g, x, z, n) == Combine(g, y, z, n) && Combine(g, z, x, n) == Combine(g, z, y, n)
  {
    if n > 0 {
      assert x % 2 == y % 2 && Low(x / 2, n - 1) == Low(y / 2, n - 1);
      CombineLow(g, x / 2, y / 2, z / 2, n - 1);
    }
  }

  // -------------------------------------------------------------- masks

  /** The mask of the k lowest bits of a word, and of the others. */
  lemma MaskParts(k: nat)
    requires k <= 32
    ensures 1 <= Pow2(k) <= Word && Word - Pow2(k) == Scale(Pow2(32 - k) - 1, k)
    ensures High(Word - Pow2(k), k) == Pow2(32 - k) - 1 && Low(Word - Pow2(k), k) == 0
    ensures High(Pow2(k) - 1, k) == 0
  {
    WordIsPow2();
    hide High, Low, Scale, Pow2;
    ScaleOne(32 - k);
    ScaleOne(k);
    ScaleOne(32);
    ScaleTwice(1, 32 - k, k);
    ScaleSum(Pow2(32 - k) - 1, 1, k);
    Parts(Pow2(32 - k) - 1, 0, k);
    Whole(Pow2(k) - 1, k);
  }

  lemma LowMask(x: nat, n: nat, k: nat)
    requires k <= n
    ensures Combine(AndGate, x, Pow2(k) - 1, n) == Low(x, k)
  {
    hide High, Low, Scale, Pow2, Combine;
    CombineSplit(AndGate, x, Pow2(k) - 1, n, k);
    CombineOnes(x, k);
    Whole(Pow2(k) - 1, k);
    CombineConstants(High(x, k), n - k);
    ZeroScaled(k);
  }

  /** x & (2^k - 1) is the remainder by 2^k. */
  lemma AndLow(x: word, k: nat, p: nat)
    requires k <= 32 && p == Pow2(k)
    ensures p <= Word && And(x, p - 1) == x % p
  {
    hide Low, Pow2, Combine;
    MaskParts(k);
    LowMask(x, 32, k);
    assert And(x, p - 1) == Low(x, k);
    hide And;
    Divided(x, k);
  }

  lemma HighMask(x: word, k: nat)
    requires k <= 32
    ensures Pow2(k) <= Word && And(x, Word - Pow2(k)) == x - Low(x, k)
  {
    hide High, Low, Scale, Pow2, Combine;
    MaskParts(k);
    CombineSplit(AndGate, x, Word - Pow2(k), 32, k);
    NothingBelow(x, Word - Pow2(k), k);
    CombineOnes(High(x, k), 32 - k);
    WordParts(x, k);
    Parted(x, k);
  }

  /** x & (2^32 - 2^k) takes the remainder away. */
  lemma AndHigh(x: word, k: nat, p: nat)
    requires k <= 32 && p == Pow2(k)
    ensures p <= Word && And(x, Word - p) == x - x % p
  {
    hide Low, Pow2, And;
    HighMask(x, k);
    Divided(x, k);
  }

  lemma BandMask(x: word, k: nat, j: nat)
    requires k + j <= 32
    ensures Scale(Pow2(j) - 1, k) < Word && And(x, Scale(Pow2(j) - 1, k)) == Scale(Low(High(x, k), j), k)
  {
    hide High, Low, Scale, Pow2, Combine;
    var mask := Scale(Pow2(j) - 1, k);
    BandFits(k, j);
    Parts(Pow2(j) - 1, 0, k);
    CombineSplit(AndGate, x, mask, 32, k);
    NothingBelow(x, mask, k);
    LowMask(High(x, k), 32 - k, j);
  }

  /** A mask of j bits from bit k up. */
  lemma AndBand(x: word, k: nat, j: nat, p: nat, q: nat)
    requires k + j <= 32 && p == Pow2(k) && q == Pow2(j)
    ensures (q - 1) * p < Word && And(x, (q - 1) * p) == x / p % q * p
  {
    hide High, Low, Scale, Pow2, And;
    BandMask(x, k, j);
    ScaleIs(q - 1, k);
    Divided(x, k);
    Divided(High(x, k), j);
    ScaleIs(Low(High(x, k), j), k);
  }

  lemma BandFits(k: nat, j: nat)
    requires k + j <= 32
    ensures Scale(Pow2(j) - 1, k) < Word
  {
    WordIsPow2();
    hide High, Low, Scale, Pow2, Combine;
    ScaleOne(j);
    ScaleOne(k + j);
    ScaleTwice(1, j, k);
    ScaleSum(Pow2(j) - 1, 1, k);
    ScaleTwice(1, k + j, 32 - (k + j));
    ScaleOne(32);
    assert Scale(Scale(1, k + j), 32 - (k + j)) >= Scale(1, k + j);
    assert Scale(1, k) >= 1;
  }

  /** Combining with a multiple of 2^k, on the k lowest bits. */
  lemma NothingBelow(x: nat, y: nat, k: nat)
    requires Low(y, k) == 0
    ensures Combine(AndGate, x, y, k) == 0
    ensures Combine(OrGate, x, y, k) == Combine(OrGate, y, x, k) == Combine(XorGate, x, y, k) == Low(x, k)
  {
    hide Low, Combine;
    ZeroScaled(k);
    CombineLow(AndGate, y, 0, x, k);
    CombineLow(OrGate, y, 0, x, k);
    CombineLow(XorGate, y, 0, x, k);
    CombineConstants(x, k);
  }

  lemma OrApart(x: word, y: word, k: nat)
    requires k <= 32 && Low(x, k) == 0 && y < Pow2(k)
    ensures Or(x, y) == Or(y, x) == x + y
  {
    hide High, Low, Scale, Pow2, Combine;
    WordParts(x, k);
    Parted(x, k);
    Whole(y, k);
    NothingBelow(y, x, k);
    CombineSplit(OrGate, x, y, 32, k);
    CombineSplit(OrGate, y, x, 32, k);
    CombineConstants(High(x, k), 32 - k);
  }

  /** x | y for a multiple x of 2^k and y below 2^k is their sum. */
  lemma OrDisjoint(x: word, y: word, k: nat, p: nat)
    requires k <= 32 && p == Pow2(k) && x % p == 0 && y < p
    ensures Or(x, y) == Or(y, x) == x + y
  {
    hide Low, Pow2, Or;
    Divided(x, k);
    OrApart(x, y, k);
  }

  lemma OrMask(x: word, k: nat)
    requires k <= 32
    ensures Pow2(k) <= Word && Or(x, Word - Pow2(k)) == Low(x, k) + (Word - Pow2(k))
  {
    hide High, Low, Scale, Pow2, Combine;
    MaskParts(k);
    CombineSplit(OrGate, x, Word - Pow2(k), 32, k);
    NothingBelow(x, Word - Pow2(k), k);
    CombineOnes(High(x, k), 32 - k);
  }

  /** x | (2^32 - 2^k) sets all bits from k up. */
  lemma OrHigh(x: word, k: nat, p: nat)
    requires k <= 32 && p == Pow2(k)
    ensures p <= Word && Or(x, Word - p) == x % p + (Word - p)
  {
    hide Low, Pow2, Or;
    OrMask(x, k);
    Divided(x, k);
  }

  lemma NotIs(x: word)
    ensures Not(x) == Word - 1 - x
  {
    WordIsPow2();
    hide Combine, Pow2, Low;
    CombineOnes(x, 32);
    Whole(x, 32);
  }

  /** x ^ y undoes itself. */
  lemma XorCancels(x: word, y: word)
    ensures Xor(x, x) == 0 && Xor(Xor(x, y), y) == x
  {
    WordIsPow2();
    hide Pow2, Low, Combine;
    CombineConstants(x, 32);
    CombineTwice(x, y, 32);
    Whole(x, 32);
  }

  lemma XorCommutes(x: word, y: word)
    ensures Xor(x, y) == Xor(y, x)
  {
    hide Combine;
    CombineCommutes(x, y, 32);
  }

  lemma {:induction false} CombineCommutes(x: nat, y: nat, n: nat)
    ensures Combine(XorGate, x, y, n) == Combine(XorGate, y, x, n)
  {
    if n > 0 {
      CombineCommutes(x / 2, y / 2, n - 1);
    }
  }

  lemma {:induction false} CombineTwice(x: nat, y: nat, n: nat)
    ensures Combine(XorGate, Combine(XorGate, x, y, n), y, n) == Low(x, n)
  {
    if n > 0 {
      CombineTwice(x / 2, y / 2, n - 1);
    }
  }

  // -------------------------------------------------------------- the sign bit

  /** x & SIGN_BIT. */
  lemma SignBit(x: word)
    ensures And(x, 0x8000_0000) == if Sign(x) then 0x8000_0000 else 0
  {
    Powers();
    hide Pow2, Combine;
    AndHigh(x, 31, 0x8000_0000);
  }

  /** (x ^ y) & SIGN_BIT. */
  lemma SignsDiffer(x: word, y: word)
    ensures And(Xor(x, y), 0x8000_0000) != 0 <==> Sign(x) != Sign(y)
  {
    Powers();
    SignBit(Xor(x, y));
    hide Pow2, Combine, High, Low, Scale;
    CombineSplit(XorGate, x, y, 32, 31);
    TopBit(x);
    TopBit(y);
    OneBit(High(x, 31), High(y, 31));
    ScaleIs(Combine(XorGate, High(x, 31), High(y, 31), 1), 31);
  }

  lemma TopBit(x: word)
    ensures High(x, 31) == if Sign(x) then 1 else 0
  {
    Powers();
    hide Pow2, High, Low;
    Divided(x, 31);
  }

  lemma OneBit(x: nat, y: nat)
    requires x <= 1 && y <= 1
    ensures Combine(XorGate, x, y, 1) == if x == y then 0 else 1
  {
    assert Combine(XorGate, x / 2, y / 2, 0) == 0;
  }

  // -------------------------------------------------------------- shifts

  /** x << n loses the n highest bits. */
  lemma ShiftedLeft(x: word, n: nat, p: nat, q: nat)
    requires n <= 32 && p == Pow2(n) && q == Pow2(32 - n)
    ensures ShiftLeft(x, n) == x % q * p
  {
    hide Pow2;
    PowerPair(n);
    Wraps(x, p, q);
  }

  lemma PowerPair(n: nat)
    requires n <= 32
    ensures Pow2(n) * Pow2(32 - n) == Word
  {
    WordIsPow2();
    hide Pow2, Scale;
    ScaleOne(n);
    ScaleOne(32 - n);
    ScaleOne(32);
    ScaleTwice(1, n, 32 - n);
    ScaleIs(Pow2(n), 32 - n);
  }

  lemma Wraps(x: nat, p: nat, q: nat)
    requires p >= 1 && q >= 1 && p * q == Word
    ensures x * p % Word == x % q * p
  {
    var d, r := x / q, x % q;
    assert x == d * q + r;
    Regroup(d, q, r, p);
    Grows(r + 1, q, p);
    Unique(x * p, d, r * p, Word);
  }

  lemma Regroup(d: int, q: int, r: int, p: int)
    ensures (d * q + r) * p == d * (p * q) + r * p && (r + 1) * p == r * p + p
  {
  }

  /** An arithmetic right shift keeps the bits above n and adds copies of the sign bit. */
  lemma ShiftedRight(x: word, n: nat, p: nat, q: nat)
    requires n <= 32 && p == Pow2(n) && q == Pow2(32 - n)
    ensures ShiftRight(x, n) == if Sign(x) then x / p + Word - q else x / p
    ensures x / p < q
  {
    hide Pow2;
    PowerPair(n);
    Shifts(x, p, q);
    IntShifts(x, p);
    InRange(x / p);
    InRange(x / p - q);
  }

  lemma IntShifts(x: word, p: nat)
    requires p > 0
    ensures Signed(x) / p == if Sign(x) then (x - Word) / p else x / p
  {
  }

  lemma InRange(d: int)
    ensures 0 <= d < Word ==> d % Word == d
    ensures 0 - Word <= d < 0 ==> d % Word == d + Word
  {
  }

  lemma Shifts(x: word, p: nat, q: nat)
    requires p >= 1 && q >= 1 && p * q == Word
    ensures x / p < q <= Word && (x - Word) / p == x / p - q
  {
    var d, r := x / p, x % p;
    assert x == d * p + r;
    if d >= q {
      Grows(q, d, p);
    }
    Grows(1, p, q);
    Moved(d, q, r, p);
  }

  lemma Moved(d: int, q: int, r: int, p: int)
    requires 0 <= r < p
    ensures ((d - q) * p + r) / p == d - q && (d - q) * p == d * p - p * q
  {
    var v := (d - q) * p + r;
    assert v == v / p * p + v % p;
    var k := v / p - (d - q);
    assert k * p == v / p * p - (d - q) * p;
    Apart(k, p);
  }

  lemma Apart(k: int, p: int)
    requires p > 0
    ensures k > 0 ==> k * p >= p
    ensures k < 0 ==> k * p <= -p
  {
  }

  /** A right shift of an int and one of an unsigned agree exactly when there is no sign bit to
      copy, or no place to copy it to. */
  lemma LogicalIffNoSign(x: word, n: nat)
    requires n <= 32
    ensures ShiftRight(x, n) == ShiftRightUnsigned(x, n) <==> !Sign(x) || n == 0
  {
    ShiftedRight(x, n, Pow2(n), Pow2(32 - n));
    FewerBits(n);
    hide Pow2, ShiftRight;
  }

  lemma FewerBits(n: nat)
    requires n <= 32
    ensures Pow2(32 - n) == Word <==> n == 0
    ensures Pow2(32 - n) <= Word
  {
    WordIsPow2();
    PowerPair(n);
    if n > 0 {
      var p, q := Pow2(n), Pow2(32 - n);
      assert p == 2 * Pow2(n - 1);
      hide Pow2;
      Grows(2, p, q);
    }
  }

  // -------------------------------------------------------------- words put together

  /** The low bits of one word under those of another shifted up. */
  lemma KeepLow(kept: word, value: word, k: nat, p: nat, q: nat)
    requires k <= 32 && p == Pow2(k) && q == Pow2(32 - k)
    ensures p <= Word && Or(And(kept, p - 1), ShiftLeft(value, k)) == kept % p + value % q * p
  {
    hide Pow2, And, Or, ShiftLeft;
    AndLow(kept, k, p);
    ShiftedLeft(value, k, p, q);
    MultipleOf(value % q, p);
    OrDisjoint(ShiftLeft(value, k), kept % p, k, p);
  }

  lemma MultipleOf(c: nat, p: nat)
    requires p > 0
    ensures c * p % p == 0
  {
    Unique(c * p, c, 0, p);
  }

  /** The high bits of one word over those of another shifted down. */
  lemma KeepHigh(kept: word, value: word, n: nat, p: nat, q: nat)
    requires n <= 32 && p == Pow2(n) && q == Pow2(32 - n)
    ensures q <= Word && Or(And(kept, Word - q), And(ShiftRight(value, n), q - 1)) == kept - kept % q + value / p
  {
    hide Pow2, And, Or, ShiftRight;
    AndHigh(kept, 32 - n, q);
    ShiftedRight(value, n, p, q);
    AndLow(ShiftRight(value, n), 32 - n, q);
    PowerPair(n);
    CopiesMasked(value / p, p, q);
    Cleared(kept, q);
    OrDisjoint(And(kept, Word - q), value / p, 32 - n, q);
  }

  lemma CopiesMasked(d: nat, p: nat, q: nat)
    requires d < q && p >= 1 && p * q == Word
    ensures d % q == d && (d + Word - q) % q == d
  {
    Unique(d, 0, d, q);
    assert (p - 1) * q == Word - q;
    Unique(d + Word - q, p - 1, d, q);
  }

  lemma Cleared(x: nat, q: nat)
    requires q >= 1
    ensures (x - x % q) % q == 0
  {
    assert x == x / q * q + x % q;
    MultipleOf(x / q, q);
  }

  /** A mask of one bit. */
  lemma SingleBit(x: word, k: nat, p: nat)
    requires k < 32 && p == Pow2(k)
    ensures p < Word && (And(x, p) != 0 <==> x / p % 2 == 1)
  {
    assert Pow2(1) == 2;
    hide Pow2, And;
    AndBand(x, k, 1, p, 2);
  }

  // -------------------------------------------------------------- single bits

  /** Bit k of a number. */
  predicate BitOf(x: nat, k: nat) {
    High(x, k) % 2 == 1
  }

  /** Which is what shifting and masking find. */
  lemma BitIs(x: nat, k: nat)
    ensures BitOf(x, k) <==> x / Pow2(k) % 2 == 1
  {
    Divided(x, k);
  }

  /** A word is determined by its bits. */
  lemma {:induction false} SameBits(x: nat, y: nat, n: nat)
    requires x < Pow2(n) && y < Pow2(n) && forall k | 0 <= k < n :: BitOf(x, k) <==> BitOf(y, k)
    ensures x == y
  {
    if n > 0 {
      assert BitOf(x, 0) <==> BitOf(y, 0);
      forall k | 0 <= k < n - 1 ensures BitOf(x / 2, k) <==> BitOf(y / 2, k) {
        assert BitOf(x, k + 1) <==> BitOf(y, k + 1);
      }
      SameBits(x / 2, y / 2, n - 1);
    }
  }

  lemma {:induction false} CombineBit(g: Gate, x: nat, y: nat, n: nat, k: nat)
    requires k < n
    ensures BitOf(Combine(g, x, y, n), k) <==> Out(g, BitOf(x, k), BitOf(y, k))
  {
    if k > 0 {
      CombineBit(g, x / 2, y / 2, n - 1, k - 1);
      assert Combine(g, x, y, n) / 2 == Combine(g, x / 2, y / 2, n - 1);
    }
  }

  /** The logical operations act on each bit. */
  lemma LogicBits(x: word, y: word, k: nat)
    requires k < 32
    ensures BitOf(And(x, y), k) <==> BitOf(x, k) && BitOf(y, k)
    ensures BitOf(Or(x, y), k) <==> BitOf(x, k) || BitOf(y, k)
    ensures BitOf(Xor(x, y), k) <==> BitOf(x, k) != BitOf(y, k)
    ensures BitOf(Not(x), k) <==> !BitOf(x, k)
  {
    hide Combine, BitOf;
    CombineBit(AndGate, x, y, 32, k);
    CombineBit(OrGate, x, y, 32, k);
    CombineBit(XorGate, x, y, 32, k);
    CombineBit(XorGate, x, Word - 1, 32, k);
    WordIsPow2();
    OnesBit(32, k);
  }

  lemma {:induction false} OnesBit(n: nat, k: nat)
    ensures BitOf(Pow2(n) - 1, k) <==> k < n
  {
    if n == 0 {
      ZeroScaled(k);
    } else {
      assert (Pow2(n) - 1) / 2 == Pow2(n - 1) - 1 && (Pow2(n) - 1) % 2 == 1;
      if k > 0 {
        OnesBit(n - 1, k - 1);
      }
    }
  }

  /** Bits of a number put together from two parts. */
  lemma {:induction false} PartBit(q: nat, r: nat, m: nat, k: nat)
    requires r < Pow2(m)
    ensures BitOf(Scale(q, m) + r, k) <==> if k < m then BitOf(r, k) else BitOf(q, k - m)
  {
    if m > 0 {
      assert (Scale(q, m) + r) / 2 == Scale(q, m - 1) + r / 2 && (Scale(q, m) + r) % 2 == r % 2;
      if k > 0 {
        PartBit(q, r / 2, m - 1, k - 1);
      }
    }
  }

  lemma {:induction false} LowBit(x: nat, m: nat, k: nat)
    ensures BitOf(Low(x, m), k) <==> k < m && BitOf(x, k)
  {
    if m == 0 {
      ZeroScaled(k);
    } else {
      assert Low(x, m) / 2 == Low(x / 2, m - 1) && Low(x, m) % 2 == x % 2;
      if k > 0 {
        LowBit(x / 2, m - 1, k - 1);
      }
    }
  }

  lemma {:induction false} HighBit(x: nat, n: nat, k: nat)
    ensures BitOf(High(x, n), k) <==> BitOf(x, n + k)
  {
    if n > 0 {
      HighBit(x / 2, n - 1, k);
    }
  }

  /** A left shift moves every bit up and brings in zeros; a right shift of an int moves every
      bit down and brings in copies of the top bit; that of an unsigned brings in zeros. */
  lemma ShiftBits(x: word, n: nat, k: nat)
    requires n < 32 && k < 32
    ensures BitOf(ShiftLeft(x, n), k) <==> k >= n && BitOf(x, k - n)
    ensures BitOf(ShiftRight(x, n), k) <==> BitOf(x, if k + n < 32 then k + n else 31)
    ensures BitOf(ShiftRightUnsigned(x, n), k) <==> k + n < 32 && BitOf(x, k + n)
  {
    hide BitOf, High, Low, Scale, Pow2, ShiftLeft, ShiftRight;
    LeftBits(x, n, k);
    RightBits(x, n, k);
  }

  lemma LeftBits(x: word, n: nat, k: nat)
    requires n < 32 && k < 32
    ensures BitOf(ShiftLeft(x, n), k) <==> k >= n && BitOf(x, k - n)
  {
    hide BitOf, High, Low, Scale, Pow2, ShiftLeft;
    var q := Low(x, 32 - n);
    ShiftedLeft(x, n, Pow2(n), Pow2(32 - n));
    Divided(x, 32 - n);
    ScaleIs(q, n);
    PartBit(q, 0, n, k);
    NoBits(k);
    if k >= n {
      LowBit(x, 32 - n, k - n);
    }
  }

  lemma NoBits(k: nat)
    ensures !BitOf(0, k)
  {
    ZeroScaled(k);
  }

  lemma RightBits(x: word, n: nat, k: nat)
    requires n < 32 && k < 32
    ensures BitOf(ShiftRight(x, n), k) <==> BitOf(x, if k + n < 32 then k + n else 31)
    ensures BitOf(ShiftRightUnsigned(x, n), k) <==> k + n < 32 && BitOf(x, k + n)
  {
    hide BitOf, High, Low, Scale, Pow2, ShiftRight;
    var h := High(x, n);
    ShiftedRight(x, n, Pow2(n), Pow2(32 - n));
    Divided(x, n);
    HighBit(x, n, k);
    SignIsTop(x);
    WordEnds(x, n + k);
    MaskParts(32 - n);
    PartBit(Pow2(n) - 1, h, 32 - n, k);
    if k >= 32 - n {
      OnesBit(n, k - (32 - n));
    }
  }

  lemma SignIsTop(x: word)
    ensures Sign(x) <==> BitOf(x, 31)
  {
    hide High;
    TopBit(x);
  }

  /** A word has no bits from 32 on. */
  lemma WordEnds(x: word, k: nat)
    ensures k >= 32 ==> !BitOf(x, k)
  {
    WordIsPow2();
    hide Pow2, Low;
    if k >= 32 {
      Whole(x, 32);
      LowBit(x, 32, k);
    }
  }
}
