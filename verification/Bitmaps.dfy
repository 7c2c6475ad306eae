/** Bitmaps: an array of 32-bit words used as an array of bits. */
module Bitmaps {
  import opened Layout
  import opened Bytes

  // -------------------------------------------------------------- bits of words

  function BitIndex(k: nat): bv5
    requires k < 32
  {
    k as bv5
  }

  function OneBit(i: bv5): bv32 {
    (1 as bv32) << i
  }

  function Mask(k: nat): bv32
    requires k < 32
  {
    OneBit(BitIndex(k))
  }

  predicate Has(w: bv32, m: bv32) {
    w & m != 0
  }

  function With(w: bv32, m: bv32): bv32 {
    w | m
  }

  function Without(w: bv32, m: bv32): bv32 {
    w & !m
  }

  predicate BitOf(w: bv32, k: nat)
    requires k < 32
  {
    Has(w, Mask(k))
  }

  function Bits(words: seq<bv32>, n: nat): (b: seq<bool>)
    requires n <= 32 * |words|
    ensures |b| == n
  {
    seq(n, i requires 0 <= i < n => BitOf(words[i / 32], i % 32))
  }

  lemma OneBitLaws(i: bv5, j: bv5)
    ensures OneBit(i) != 0 && (i != j ==> OneBit(i) & OneBit(j) == 0)
  {
  }

  lemma OrAnd(w: bv32, a: bv32)
    ensures With(w, a) & a == a && Without(w, a) & a == 0
  {
  }

  lemma OrOther(w: bv32, a: bv32, b: bv32)
    requires a & b == 0
    ensures With(w, a) & b == w & b
  {
  }

  lemma AndOther(w: bv32, a: bv32, b: bv32)
    requires a & b == 0
    ensures Without(w, a) & b == w & b
  {
  }

  lemma WordLaws(w: bv32, a: bv32, b: bv32)
    requires a != 0
    ensures Has(With(w, a), a) && !Has(Without(w, a), a)
    ensures a & b == 0 ==> Has(With(w, a), b) == Has(w, b) && Has(Without(w, a), b) == Has(w, b)
  {
    hide With, Without;
    OrAnd(w, a);
    if a & b == 0 {
      OrOther(w, a, b);
      AndOther(w, a, b);
    }
  }

  lemma IndexLaws(k: nat, j: nat)
    requires k < 32 && j < 32 && k != j
    ensures BitIndex(k) != BitIndex(j)
  {
    assert BitIndex(k) as int == k && BitIndex(j) as int == j;
  }

  lemma BitChange(w: bv32, k: nat, j: nat)
    requires k < 32 && j < 32
    ensures BitOf(With(w, Mask(k)), j) == (j == k || BitOf(w, j))
    ensures BitOf(Without(w, Mask(k)), j) == (j != k && BitOf(w, j))
  {
    hide BitIndex, OneBit, Has, With, Without;
    if k != j { IndexLaws(k, j); }
    OneBitLaws(BitIndex(k), BitIndex(j));
    WordLaws(w, Mask(k), Mask(j));
  }

  /** Storing a word with one bit changed changes one bit of the map. */
  lemma BitsUpdate(words: seq<bv32>, n: nat, which: nat, on: bool)
    requires n <= 32 * |words| && which < n
    ensures var w, m := words[which / 32], Mask(which % 32);
            Bits(words[which / 32 := if on then With(w, m) else Without(w, m)], n) == Bits(words, n)[which := on]
  {
    hide Mask, BitOf, With, Without;
    var w, m := words[which / 32], Mask(which % 32);
    var words' := words[which / 32 := if on then With(w, m) else Without(w, m)];
    forall i | 0 <= i < n ensures BitOf(words'[i / 32], i % 32) == if i == which then on else BitOf(words[i / 32], i % 32) {
      BitChange(w, which % 32, i % 32);
    }
  }

  // ------------------------------------------------------- searching and counting

  /** The least clear bit, or -1. */
  function FirstClear(b: seq<bool>): (r: int)
    ensures r == -1 ==> forall j | 0 <= j < |b| :: b[j]
    ensures r != -1 ==> 0 <= r < |b| && !b[r] && forall j | 0 <= j < r :: b[j]
  {
    if b == [] then -1
    else if !b[0] then 0
    else
      var rest := FirstClear(b[1..]);
      if rest == -1 then -1 else rest + 1
  }

  function CountClear(b: seq<bool>): nat {
    if b == [] then 0 else (if b[|b| - 1] then 0 else 1) + CountClear(b[..|b| - 1])
  }

  lemma {:induction false} CountSet(b: seq<bool>, i: nat)
    requires i < |b| && !b[i]
    ensures CountClear(b) == CountClear(b[i := true]) + 1
  {
    var n := |b| - 1;
    if i < n {
      CountSet(b[..n], i);
      assert b[i := true][..n] == b[..n][i := true];
    } else {
      assert b[i := true][..n] == b[..n];
    }
  }

  /** Setting clear bits lowers the count by their number. */
  lemma {:induction false} CountMarked(bits: seq<bool>, bits': seq<bool>, taken: seq<int>)
    requires |bits'| == |bits| && (forall i | 0 <= i < |taken| :: 0 <= taken[i] < |bits| && !bits[taken[i]])
    requires forall i, j | 0 <= i < j < |taken| :: taken[i] != taken[j]
    requires forall s | 0 <= s < |bits| :: bits'[s] <==> bits[s] || s in taken
    ensures CountClear(bits') + |taken| == CountClear(bits)
    decreases |taken|
  {
    hide CountClear;
    if taken == [] {
      assert bits' == bits;
    } else {
      var n := |taken| - 1;
      var x, mid := taken[n], bits'[taken[n] := false];
      assert taken == taken[..n] + [x];
      CountMarked(bits, mid, taken[..n]);
      CountSet(mid, x);
      assert mid[x := true] == bits';
    }
  }

  lemma {:induction false} AllSet(b: seq<bool>)
    requires forall j | 0 <= j < |b| :: b[j]
    ensures CountClear(b) == 0
  {
    if b != [] { AllSet(b[..|b| - 1]); }
  }

  lemma {:induction false} NoneClear(b: seq<bool>)
    ensures CountClear(b) == 0 <==> FirstClear(b) == -1
  {
    if FirstClear(b) != -1 {
      CountSet(b, FirstClear(b));
    } else {
      AllSet(b);
    }
  }

  /** n successive FindAndSet calls: the bits taken and the map left. */
  function Take(b: seq<bool>, n: nat): (seq<int>, seq<bool>) {
    if n == 0 then ([], b)
    else
      var (taken, left) := Take(b, n - 1);
      var f := FirstClear(left);
      (taken + [f], if f == -1 then left else left[f := true])
  }

  /** With enough clear bits, Take finds n distinct clear bits and sets exactly those. */
  lemma {:induction false} TakeFinds(b: seq<bool>, n: nat)
    requires n <= CountClear(b)
    ensures var (taken, left) := Take(b, n);
            && |taken| == n && |left| == |b|
            && (forall k | 0 <= k < n :: 0 <= taken[k] < |b| && !b[taken[k]])
            && (forall k, l | 0 <= k < l < n :: taken[k] != taken[l])
            && (forall s | 0 <= s < |b| :: left[s] <==> b[s] || s in taken)
            && CountClear(left) == CountClear(b) - n
  {
    hide CountClear, FirstClear;
    if n > 0 {
      TakeFinds(b, n - 1);
      var (taken, left) := Take(b, n - 1);
      NoneClear(left);
      CountSet(left, FirstClear(left));
    }
  }

  lemma TakeNone(b: seq<bool>)
    ensures Take(b, 0) == ([], b)
  {
  }

  /** With enough clear bits, the next FindAndSet succeeds. */
  lemma TakeNext(b: seq<bool>, n: nat)
    requires n < CountClear(b)
    ensures var (taken, left) := Take(b, n);
            var f := FirstClear(left);
            0 <= f < |b| == |left| && Take(b, n + 1) == (taken + [f], left[f := true])
  {
    TakeFinds(b, n);
    NoneClear(Take(b, n).1);
  }

  function ClearAll(b: seq<bool>, which: seq<int>): (r: seq<bool>)
    requires forall k | 0 <= k < |which| :: 0 <= which[k] < |b|
    ensures |r| == |b|
    ensures forall s | 0 <= s < |b| :: r[s] <==> b[s] && s !in which
  {
    if which == [] then b
    else
      assert which == which[..|which| - 1] + [which[|which| - 1]];
      ClearAll(b, which[..|which| - 1])[which[|which| - 1] := false]
  }

  lemma ClearNone(b: seq<bool>)
    ensures ClearAll(b, []) == b
  {
  }

  lemma ClearNext(b: seq<bool>, which: seq<int>, i: nat)
    requires i < |which| && forall k | 0 <= k < |which| :: 0 <= which[k] < |b|
    ensures ClearAll(b, which[..i + 1]) == ClearAll(b, which[..i])[which[i] := false]
  {
    assert which[..i + 1][..i] == which[..i];
  }

  /** FirstClear is the only index with its property. */
  lemma {:induction false} FirstClearIs(b: seq<bool>, i: nat)
    requires i <= |b| && (forall j | 0 <= j < i :: b[j]) && (i < |b| ==> !b[i])
    ensures FirstClear(b) == if i == |b| then -1 else i
  {
    if FirstClear(b) != -1 && i < |b| {
      assert !(FirstClear(b) < i) && !(i < FirstClear(b));
    }
  }

  lemma WithoutNothing(m: bv32)
    ensures Without(0, m) == 0
  {
  }

  class Bitmap {
    const numBits: nat
    const words: array<bv32>

    ghost predicate Valid() {
      words.Length == DivRoundUp(numBits, 32)
    }

    ghost function Contents(): seq<bool>
      requires Valid()
      reads words
    {
      Bits(words[..], numBits)
    }

    constructor (numItems: nat)
      requires numItems > 0
      ensures Valid() && fresh(words) && numBits == numItems
      ensures Contents() == seq(numItems, i => false) && words[..] == seq(words.Length, i => 0)
    {
      numBits := numItems;
      words := new bv32[DivRoundUp(numItems, 32)];
      new;
      var i := 0;
      while i < words.Length
        invariant 0 <= i <= words.Length && forall j | 0 <= j < i :: words[j] == 0
      {
        words[i] := 0;
        i := i + 1;
      }
      i := 0;
      while i < numBits
        invariant 0 <= i <= numBits && forall j | 0 <= j < words.Length :: words[j] == 0
        invariant forall j | 0 <= j < i :: !Contents()[j]
      {
        WithoutNothing(Mask(i % 32));
        Clear(i);
        i := i + 1;
      }
    }

    method Mark(which: nat)
      requires Valid() && which < numBits
      modifies words
      ensures Contents() == old(Contents())[which := true]
    {
      hide Mask, With, Without, BitOf;
      BitsUpdate(words[..], numBits, which, true);
      words[which / 32] := With(words[which / 32], Mask(which % 32));
      assert words[..] == old(words[..])[which / 32 := words[which / 32]];
    }

    method Clear(which: nat)
      requires Valid() && which < numBits
      modifies words
      ensures Contents() == old(Contents())[which := false]
      ensures words[..] == old(words[..])[which / 32 := Without(old(words[which / 32]), Mask(which % 32))]
    {
      hide Mask, With, Without, BitOf;
      BitsUpdate(words[..], numBits, which, false);
      words[which / 32] := Without(words[which / 32], Mask(which % 32));
      assert words[..] == old(words[..])[which / 32 := words[which / 32]];
    }

    function Test(which: nat): (set_: bool)
      requires Valid() && which < numBits
      reads words
      ensures set_ == Contents()[which]
    {
      Has(words[which / 32], Mask(which % 32))
    }

    method FindAndSet() returns (found: int)
      requires Valid()
      modifies words
      ensures found == FirstClear(old(Contents()))
      ensures Contents() == if found == -1 then old(Contents()) else old(Contents())[found := true]
    {
      hide Bits;
      var i := 0;
      while i < numBits
        invariant 0 <= i <= numBits && Contents() == old(Contents())
        invariant forall j | 0 <= j < i :: Contents()[j]
      {
        if !Test(i) {
          FirstClearIs(Contents(), i);
          Mark(i);
          return i;
        }
        i := i + 1;
      }
      FirstClearIs(Contents(), numBits);
      return -1;
    }

    method NumClear() returns (count: nat)
      requires Valid()
      ensures count == CountClear(Contents())
    {
      hide Bits;
      count := 0;
      var i := 0;
      while i < numBits
        invariant 0 <= i <= numBits
        invariant count == CountClear(Contents()[..i])
      {
        assert Contents()[..i + 1][..i] == Contents()[..i];
        if !Test(i) {
          count := count + 1;
        }
        i := i + 1;
      }
      assert Contents()[..numBits] == Contents();
    }
  }
}
