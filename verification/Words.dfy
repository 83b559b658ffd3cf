/**
 * 64-bit machine words. Shifts go one place at a time, so that facts about single bits follow by induction; the
 * operators stand behind named functions so that proofs can hide them.
 */
module Words {
  const TOP_BIT: bv64 := 0x8000_0000_0000_0000
  const ALL_ONES: bv64 := 0xFFFF_FFFF_FFFF_FFFF

  function Half(w: bv64): bv64 { w >> 1 }
  function Twice(w: bv64): bv64 { w << 1 }
  function Or(v: bv64, w: bv64): bv64 { v | w }
  function And(v: bv64, w: bv64): bv64 { v & w }
  function Dec(w: bv64): bv64 { w - 1 }
  function Not(w: bv64): bv64 { !w }
  predicate Odd(w: bv64) { w & 1 == 1 }
  predicate Negative(w: bv64) { w & TOP_BIT != 0 }

  function Shl(w: bv64, n: nat): bv64 {
    if n == 0 then w else Twice(Shl(w, n - 1))
  }

  function Shr(w: bv64, n: nat): bv64 {
    if n == 0 then w else Half(Shr(w, n - 1))
  }

  predicate Bit(w: bv64, i: nat) {
    Odd(Shr(w, i))
  }

  lemma HalfOr(v: bv64, w: bv64)
    ensures Half(Or(v, w)) == Or(Half(v), Half(w))
  {}

  lemma HalfAnd(v: bv64, w: bv64)
    ensures Half(And(v, w)) == And(Half(v), Half(w))
  {}

  lemma OddOr(v: bv64, w: bv64)
    ensures Odd(Or(v, w)) <==> Odd(v) || Odd(w)
  {}

  lemma OddAnd(v: bv64, w: bv64)
    ensures Odd(And(v, w)) <==> Odd(v) && Odd(w)
  {}

  lemma {:induction false} BitOr(v: bv64, w: bv64, i: nat)
    ensures Bit(Or(v, w), i) <==> Bit(v, i) || Bit(w, i)
  {
    hide Or, Shr, Odd;
    ShrOr(v, w, i);
    OddOr(Shr(v, i), Shr(w, i));
  }

  lemma {:induction false} ShrOr(v: bv64, w: bv64, i: nat)
    ensures Shr(Or(v, w), i) == Or(Shr(v, i), Shr(w, i))
  {
    hide Or, Half;
    if i != 0 {
      ShrOr(v, w, i - 1);
      HalfOr(Shr(v, i - 1), Shr(w, i - 1));
    }
  }

  lemma {:induction false} BitAnd(v: bv64, w: bv64, i: nat)
    ensures Bit(And(v, w), i) <==> Bit(v, i) && Bit(w, i)
  {
    hide And, Shr, Odd;
    ShrAnd(v, w, i);
    OddAnd(Shr(v, i), Shr(w, i));
  }

  lemma {:induction false} ShrAnd(v: bv64, w: bv64, i: nat)
    ensures Shr(And(v, w), i) == And(Shr(v, i), Shr(w, i))
  {
    hide And, Half;
    if i != 0 {
      ShrAnd(v, w, i - 1);
      HalfAnd(Shr(v, i - 1), Shr(w, i - 1));
    }
  }

  lemma {:induction false} ShrAdd(w: bv64, a: nat, b: nat)
    ensures Shr(w, a + b) == Shr(Shr(w, a), b)
  {
    if b != 0 { ShrAdd(w, a, b - 1); }
  }

  lemma ShrBy3(w: bv64)
    ensures Shr(w, 3) == Half(Half(Half(w)))
  {
    assert Shr(w, 1) == Half(w);
  }

  lemma ShrBy9(w: bv64)
    ensures Shr(w, 9) == Nine(w)
  {
    var a := Half(Half(Half(w)));
    var b := Half(Half(Half(a)));
    ShrBy3(w);
    ShrAdd(w, 3, 3);
    ShrBy3(a);
    ShrAdd(w, 6, 3);
    ShrBy3(b);
    NineHalves(w);
  }

  function Nine(w: bv64): bv64 { w >> 9 }

  lemma NineHalves(w: bv64)
    ensures Half(Half(Half(Half(Half(Half(Half(Half(Half(w))))))))) == Nine(w)
  {}

  lemma ShrBy63(w: bv64)
    ensures Shr(w, 63) == Nine(Nine(Nine(Nine(Nine(Nine(Nine(w)))))))
  {
    var a := Nine(w);
    var b := Nine(a);
    var c := Nine(b);
    ShrBy9(w);
    ShrAdd(w, 9, 9);
    ShrBy9(a);
    ShrAdd(w, 18, 9);
    ShrBy9(b);
    ShrAdd(w, 27, 9);
    ShrBy9(c);
    ShrAdd(w, 36, 9);
    ShrBy9(Nine(c));
    ShrAdd(w, 45, 9);
    ShrBy9(Nine(Nine(c)));
    ShrAdd(w, 54, 9);
    ShrBy9(Nine(Nine(Nine(c))));
  }

  lemma {:induction false} ShrZero(i: nat)
    ensures Shr(0, i) == 0
    ensures !Bit(0, i)
  {
    if i != 0 { ShrZero(i - 1); }
  }

  /** Nothing survives a shift by the whole width: bits at 64 and above are clear. */
  lemma NoHighBits(w: bv64, i: nat)
    requires i >= 64
    ensures Shr(w, i) == 0
    ensures !Bit(w, i)
  {
    ShrBy63(ALL_ONES);
    assert Shr(ALL_ONES, 64) == Half(Shr(ALL_ONES, 63));
    assert And(w, ALL_ONES) == w;
    ShrAnd(w, ALL_ONES, 64);
    ShrAdd(w, 64, i - 64);
    ShrZero(i - 64);
  }

  /** The sign test of a two's complement word is its bit 63. */
  lemma NegativeIsTopBit(w: bv64)
    ensures Negative(w) <==> Bit(w, 63)
  {
    BitAnd(w, TOP_BIT, 63);
    ShrBy63(TOP_BIT);
    if Negative(w) {
      assert And(w, TOP_BIT) == TOP_BIT;
    } else {
      assert And(w, TOP_BIT) == 0;
      ShrZero(63);
    }
  }

  predicate LowOnes(w: bv64) { w & (w + 1) == 0 }

  lemma HalfLowOnes(w: bv64)
    requires LowOnes(w)
    ensures LowOnes(Half(w))
    ensures w != 0 ==> Odd(w)
  {}

  lemma {:induction false} ShrLowOnes(i: nat)
    ensures LowOnes(Shr(ALL_ONES, i))
  {
    if i != 0 {
      ShrLowOnes(i - 1);
      HalfLowOnes(Shr(ALL_ONES, i - 1));
    }
  }

  lemma BitAllOnes(i: nat)
    ensures Bit(ALL_ONES, i) <==> i < 64
  {
    if i < 64 {
      ShrLowOnes(i);
      HalfLowOnes(Shr(ALL_ONES, i));
      ShrAdd(ALL_ONES, i, 63 - i);
      ShrZero(63 - i);
      ShrBy63(ALL_ONES);
    } else {
      NoHighBits(ALL_ONES, i);
    }
  }

  lemma BitNot(w: bv64, i: nat)
    requires i < 64
    ensures Bit(Not(w), i) <==> !Bit(w, i)
  {
    hide And, Or, Not, Shr;
    BitAnd(w, Not(w), i);
    BitOr(w, Not(w), i);
    NotSplits(w);
    BitAllOnes(i);
    ShrZero(i);
  }

  lemma NotSplits(w: bv64)
    ensures And(w, Not(w)) == 0
    ensures Or(w, Not(w)) == ALL_ONES
  {}

  lemma {:induction false} BitShr(w: bv64, n: nat, i: nat)
    ensures Bit(Shr(w, n), i) <==> Bit(w, n + i)
  {
    ShrAdd(w, n, i);
  }

  lemma BitTwice(w: bv64, i: nat)
    requires i < 64
    ensures Bit(Twice(w), i) <==> i > 0 && Bit(w, i - 1)
  {
    hide And, Twice, Half, Odd;
    TwiceIsEven(w);
    if i > 0 {
      ShrAdd(Twice(w), 1, i - 1);
      assert Shr(Twice(w), 1) == Half(Twice(w));
      BitAnd(w, Half(ALL_ONES), i - 1);
      assert Shr(ALL_ONES, 1) == Half(ALL_ONES);
      ShrAdd(ALL_ONES, 1, i - 1);
      BitAllOnes(i);
    }
  }

  lemma TwiceIsEven(w: bv64)
    ensures !Odd(Twice(w))
    ensures Half(Twice(w)) == And(w, Half(ALL_ONES))
  {}

  lemma {:induction false} BitShl(w: bv64, n: nat, i: nat)
    requires i < 64
    ensures Bit(Shl(w, n), i) <==> i >= n && Bit(w, i - n)
  {
    if n != 0 {
      BitTwice(Shl(w, n - 1), i);
      if i > 0 {
        BitShl(w, n - 1, i - 1);
      }
    }
  }

  lemma {:induction false} OnesAsShift(n: nat)
    requires n < 64
    ensures Dec(Shl(1, n)) == Shr(ALL_ONES, 64 - n)
  {
    if n == 0 {
      NoHighBits(ALL_ONES, 64);
    } else {
      var x, y := Shl(1, n - 1), Shr(ALL_ONES, 64 - n);
      assert Dec(x) == Half(y) by { OnesAsShift(n - 1); }
      assert Odd(y) by { BitAllOnes(64 - n); }
      GrowOnes(x, y);
    }
  }

  lemma GrowOnes(x: bv64, y: bv64)
    requires Odd(y) && Dec(x) == Half(y)
    ensures Dec(Twice(x)) == y
  {}

  /** `(1 << n) - 1` has exactly the n low bits set, for n = 63 as well. */
  lemma BitOnes(n: nat, i: nat)
    requires n < 64
    ensures Bit(Dec(Shl(1, n)), i) <==> i < n
  {
    OnesAsShift(n);
    BitShr(ALL_ONES, 64 - n, i);
    BitAllOnes(64 - n + i);
  }

  lemma TopBitOnly(i: nat)
    requires i < 63
    ensures !Bit(TOP_BIT, i)
  {
    BitNot(Half(ALL_ONES), i);
    assert Shr(ALL_ONES, 1) == Half(ALL_ONES);
    BitShr(ALL_ONES, 1, i);
    BitAllOnes(i + 1);
  }

  /** The machine word of n, reduced modulo 2^64. */
  function Word(n: nat): bv64 {
    if n == 0 then 0 else Or(Twice(Word(n / 2)), LowBit(n))
  }

  function LowBit(n: nat): (b: bv64)
    ensures b <= 1
  {
    if n % 2 == 1 then 1 else 0
  }
}
