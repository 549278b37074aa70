/** 32-bit unsigned words and the bits in them.  Every word operation the transforms use has a
    name here and a law that says what it does to the bit string of the word. */
module Words {
  import opened Bits

  type Coord = bv32

  function Half(x: Coord): Coord { x >> 1 }

  predicate Odd(x: Coord) { x & 1 == 1 }

  function Xor32(x: Coord, y: Coord): Coord { x ^ y }

  function And32(x: Coord, y: Coord): Coord { x & y }

  function Double(x: Coord): Coord { x << 1 }

  function Less1(x: Coord): Coord { x - 1 }

  predicate Meets(x: Coord, m: Coord) { x & m != 0 }

  predicate Under(x: Coord, m: Coord) { x < m }

  /** The word with only bit `q` set. */
  function OneAt(q: nat): Coord
    requires q <= 31
  {
    (1 as bv32) << q
  }

  /** The word with exactly the bits below `q` set. */
  function Below(q: nat): Coord
    requires q <= 31
  {
    Less1(OneAt(q))
  }

  predicate Has(x: Coord, q: nat)
    requires q <= 31
  {
    Meets(x, OneAt(q))
  }

  predicate Fits(x: Coord, b: nat)
    requires b <= 31
  {
    Under(x, OneAt(b))
  }

  /** The `b` low bits of a word. */
  function BitsOf(x: Coord, b: nat): (s: Word)
    ensures |s| == b
  {
    if b == 0 then [] else BitsOf(Half(x), b - 1) + [Odd(x)]
  }

  // ----- one bit at a time

  lemma HalfXor(x: Coord, y: Coord) ensures Half(Xor32(x, y)) == Xor32(Half(x), Half(y)) { }
  lemma OddXor(x: Coord, y: Coord) ensures Odd(Xor32(x, y)) == (Odd(x) != Odd(y)) { }
  lemma HalfAnd(x: Coord, y: Coord) ensures Half(And32(x, y)) == And32(Half(x), Half(y)) { }
  lemma OddAnd(x: Coord, y: Coord) ensures Odd(And32(x, y)) == (Odd(x) && Odd(y)) { }

  predicate Small(m: Coord) { 0 < m <= 0x4000_0000 }

  predicate Positive(m: Coord) { m > 0 }

  predicate Power(m: Coord) { m & (m - 1) == 0 }

  lemma OneAtSmall(q: nat) requires q <= 30 ensures Small(OneAt(q)) { }
  lemma OneAtPositive(q: nat) requires q <= 31 ensures Positive(OneAt(q)) { }
  lemma OneAtNext(q: nat) requires q <= 30 ensures OneAt(q + 1) == Double(OneAt(q)) { }

  lemma {:induction false} OneAtOrder(q: nat, b: nat)
    requires q < b <= 31
    ensures Under(OneAt(q), OneAt(b))
    decreases b
  {
    hide OneAt, Under, Double, Small;
    OneAtNext(b - 1);
    OneAtSmall(b - 1);
    UnderDouble(OneAt(b - 1));
    if q < b - 1 {
      OneAtOrder(q, b - 1);
      UnderTrans(OneAt(q), OneAt(b - 1), OneAt(b));
    }
  }

  lemma UnderDouble(m: Coord) requires Small(m) ensures Under(m, Double(m)) { }
  lemma OneAtPower(b: nat) requires b <= 31 ensures Power(OneAt(b)) { }

  lemma MaskHalf(m: Coord) requires Small(m) ensures Half(Less1(Double(m))) == Less1(m) { }
  lemma MaskOdd(m: Coord) requires Small(m) ensures Odd(Less1(Double(m))) { }
  lemma MeetsHalf(x: Coord, m: Coord)
    requires Small(m)
    ensures Meets(x, Double(m)) == Meets(Half(x), m)
  {
  }
  lemma UnderHalf(x: Coord, m: Coord)
    requires Small(m) && Under(x, Double(m))
    ensures Under(Half(x), m)
  {
  }
  lemma UnderXor(x: Coord, y: Coord, m: Coord)
    requires Power(m) && Under(x, m) && Under(y, m)
    ensures Under(Xor32(x, y), m)
  {
  }
  lemma UnderAnd(x: Coord, y: Coord, m: Coord)
    requires Under(y, m)
    ensures Under(And32(x, y), m)
  {
  }
  lemma UnderHalfSame(x: Coord, m: Coord) requires Under(x, m) ensures Under(Half(x), m) { }
  lemma UnderLess1(m: Coord) requires Positive(m) ensures Under(Less1(m), m) { }
  lemma UnderTrans(x: Coord, m: Coord, p: Coord)
    requires Under(x, m) && Under(m, p)
    ensures Under(x, p)
  {
  }

  lemma BelowNext(q: nat)
    requires q <= 30
    ensures Half(Below(q + 1)) == Below(q) && Odd(Below(q + 1))
  {
    hide OneAt, Half, Odd, Less1, Double, Small;
    OneAtSmall(q);
    OneAtNext(q);
    MaskHalf(OneAt(q));
    MaskOdd(OneAt(q));
  }

  lemma BelowZero() ensures Below(0) == 0 { }

  lemma HasNext(x: Coord, q: nat)
    requires q <= 30
    ensures Has(x, q + 1) == Has(Half(x), q)
  {
    hide OneAt, Half, Meets, Double, Small;
    OneAtSmall(q);
    OneAtNext(q);
    MeetsHalf(x, OneAt(q));
  }

  lemma HasZero(x: Coord) ensures Has(x, 0) == Odd(x) { }

  lemma FitsNext(x: Coord, b: nat)
    requires b <= 30 && Fits(x, b + 1)
    ensures Fits(Half(x), b)
  {
    hide OneAt, Half, Under, Double, Small;
    OneAtSmall(b);
    OneAtNext(b);
    UnderHalf(x, OneAt(b));
  }

  lemma FitsZero(x: Coord)
    requires Fits(x, 0)
    ensures !Odd(x) && Half(x) == x
  {
  }

  lemma FitsXor(x: Coord, y: Coord, b: nat)
    requires b <= 31 && Fits(x, b) && Fits(y, b)
    ensures Fits(Xor32(x, y), b)
  {
    hide OneAt, Xor32, Under, Power;
    OneAtPower(b);
    UnderXor(x, y, OneAt(b));
  }

  lemma FitsAnd(x: Coord, y: Coord, b: nat)
    requires b <= 31 && Fits(y, b)
    ensures Fits(And32(x, y), b)
  {
    hide OneAt, And32, Under;
    UnderAnd(x, y, OneAt(b));
  }

  lemma FitsHalf(x: Coord, b: nat)
    requires b <= 31 && Fits(x, b)
    ensures Fits(Half(x), b)
  {
    hide OneAt, Half, Under;
    UnderHalfSame(x, OneAt(b));
  }

  lemma FitsBelow(q: nat, b: nat)
    requires q <= b <= 31
    ensures Fits(Below(q), b)
  {
    hide OneAt, Under, Less1, Positive;
    OneAtPositive(q);
    UnderLess1(OneAt(q));
    if q < b {
      OneAtOrder(q, b);
      UnderTrans(Below(q), OneAt(q), OneAt(b));
    }
  }

  // ----- whole bit strings

  function And(s: Word, t: Word): (r: Word)
    requires |s| == |t|
    ensures |r| == |s| && forall i :: 0 <= i < |s| ==> r[i] == (s[i] && t[i])
  {
    seq(|s|, i requires 0 <= i < |s| => s[i] && t[i])
  }

  lemma {:induction false} BitsXor(x: Coord, y: Coord, b: nat)
    ensures BitsOf(Xor32(x, y), b) == Xor(BitsOf(x, b), BitsOf(y, b))
    decreases b
  {
    hide Half, Odd, Xor32;
    if b > 0 {
      HalfXor(x, y);
      OddXor(x, y);
      BitsXor(Half(x), Half(y), b - 1);
    }
  }

  lemma {:induction false} BitsAnd(x: Coord, y: Coord, b: nat)
    ensures BitsOf(And32(x, y), b) == And(BitsOf(x, b), BitsOf(y, b))
    decreases b
  {
    hide Half, Odd, And32;
    if b > 0 {
      HalfAnd(x, y);
      OddAnd(x, y);
      BitsAnd(Half(x), Half(y), b - 1);
    }
  }

  lemma {:induction false} BitsZero(b: nat)
    ensures BitsOf(0, b) == Const(false, b)
  {
    if b > 0 { BitsZero(b - 1); }
  }

  /** `Below(q)` has ones exactly below bit `q`. */
  lemma {:induction false} BitsBelow(q: nat, b: nat)
    requires q <= b <= 31
    ensures BitsOf(Below(q), b) == Const(false, b - q) + Const(true, q)
  {
    hide Half, Odd, Below;
    if q == 0 {
      BelowZero();
      BitsZero(b);
    } else {
      BelowNext(q - 1);
      BitsBelow(q - 1, b - 1);
      assert Const(true, q - 1) + [true] == Const(true, q);
    }
  }

  /** Testing against `OneAt(q)` reads bit `q`. */
  lemma {:induction false} BitTest(x: Coord, q: nat, b: nat)
    requires q < b <= 31
    ensures BitsOf(x, b)[b - 1 - q] == Has(x, q)
    decreases q
  {
    hide Half, Odd, Has;
    if q == 0 {
      HasZero(x);
    } else {
      HasNext(x, q - 1);
      BitTest(Half(x), q - 1, b - 1);
    }
  }

  lemma {:induction false} BitsTop(y: Coord, b: nat)
    requires b <= 30 && Fits(y, b)
    ensures BitsOf(y, b + 1) == [false] + BitsOf(y, b)
    decreases b
  {
    hide Half, Odd, Fits;
    if b == 0 {
      FitsZero(y);
    } else {
      FitsNext(y, b - 1);
      BitsTop(Half(y), b - 1);
    }
  }

  /** Shifting a word that fits moves a zero in. */
  lemma BitsHalf(x: Coord, b: nat)
    requires 1 <= b <= 31 && Fits(x, b)
    ensures BitsOf(Half(x), b) == ShiftIn(false, BitsOf(x, b))
  {
    hide Half, Odd, Fits;
    FitsNext(x, b - 1);
    BitsTop(Half(x), b - 1);
  }

  // ----- shifting by the doubling amounts

  function Shift(s: Word, i: nat): (r: Word)
    ensures |r| == |s|
    decreases i
  {
    if i == 0 then s else ShiftIn(false, Shift(s, i - 1))
  }

  lemma {:induction false} ShiftAdd(s: Word, i: nat, j: nat)
    ensures Shift(s, i + j) == Shift(Shift(s, i), j)
    decreases j
  {
    if j > 0 { ShiftAdd(s, i, j - 1); }
  }

  function ShiftLeft(x: Coord, i: nat): Coord
    requires i <= 31
  {
    x << i
  }

  function ShiftRight(x: Coord, i: nat): Coord
    requires i <= 31
  {
    x >> i
  }

  lemma ShiftRightOne(x: Coord) ensures ShiftRight(x, 1) == Half(x) { }

  lemma Shift2(x: Coord) ensures ShiftRight(x, 2) == ShiftRight(ShiftRight(x, 1), 1) { }
  lemma Shift4(x: Coord) ensures ShiftRight(x, 4) == ShiftRight(ShiftRight(x, 2), 2) { }
  lemma Shift8(x: Coord) ensures ShiftRight(x, 8) == ShiftRight(ShiftRight(x, 4), 4) { }
  lemma Shift16(x: Coord) ensures ShiftRight(x, 16) == ShiftRight(ShiftRight(x, 8), 8) { }

  lemma ShiftRightTwice(x: Coord, i: nat)
    requires i == 1 || i == 2 || i == 4 || i == 8
    ensures ShiftRight(x, 2 * i) == ShiftRight(ShiftRight(x, i), i)
  {
    hide ShiftRight;
    Shift2(x);
    Shift4(x);
    Shift8(x);
    Shift16(x);
  }

  predicate Doubling(i: nat) { i == 1 || i == 2 || i == 4 || i == 8 || i == 16 }

  lemma {:induction false} BitsShift(x: Coord, i: nat, b: nat)
    requires Doubling(i) && 1 <= b <= 31 && Fits(x, b)
    ensures BitsOf(ShiftRight(x, i), b) == Shift(BitsOf(x, b), i)
    ensures Fits(ShiftRight(x, i), b)
    decreases i
  {
    hide Half, Odd, Fits, ShiftRight, Shift;
    if i == 1 {
      ShiftRightOne(x);
      BitsHalf(x, b);
      FitsHalf(x, b);
      ShiftOne(BitsOf(x, b));
    } else {
      var j := i / 2;
      ShiftRightTwice(x, j);
      BitsShift(x, j, b);
      BitsShift(ShiftRight(x, j), j, b);
      ShiftAdd(BitsOf(x, b), j, j);
    }
  }

  lemma ShiftOne(s: Word) ensures Shift(s, 1) == ShiftIn(false, s) { }

  // ----- words that fit are their bits

  lemma HalfOdd(x: Coord, y: Coord)
    requires Half(x) == Half(y) && Odd(x) == Odd(y)
    ensures x == y
  {
  }

  lemma FitsNothing(x: Coord) requires Fits(x, 0) ensures x == 0 { }

  lemma {:induction false} BitsDetermine(x: Coord, y: Coord, b: nat)
    requires b <= 31 && Fits(x, b) && Fits(y, b) && BitsOf(x, b) == BitsOf(y, b)
    ensures x == y
    decreases b
  {
    hide Half, Odd, Fits;
    if b == 0 {
      FitsNothing(x);
      FitsNothing(y);
    } else {
      FitsNext(x, b - 1);
      FitsNext(y, b - 1);
      var s, t := BitsOf(x, b), BitsOf(y, b);
      assert s[..b - 1] == BitsOf(Half(x), b - 1) && t[..b - 1] == BitsOf(Half(y), b - 1);
      assert s[b - 1] == Odd(x) && t[b - 1] == Odd(y);
      BitsDetermine(Half(x), Half(y), b - 1);
      HalfOdd(x, y);
    }
  }
}
