/** Bit strings, most significant bit first, and the numbers they denote. */
module Bits {

  type Word = seq<bool>

  function Pow2(k: nat): (p: nat)
    ensures p >= 1
  {
    if k == 0 then 1 else 2 * Pow2(k - 1)
  }

  lemma Pow2One()
    ensures Pow2(1) == 2
  {
  }

  lemma {:induction false} Pow2Add(j: nat, k: nat)
    ensures Pow2(j + k) == Pow2(j) * Pow2(k)
  {
    if j > 0 {
      Pow2Add(j - 1, k);
      calc {
        Pow2(j + k);
        2 * (Pow2(j - 1) * Pow2(k));
        (2 * Pow2(j - 1)) * Pow2(k);
      }
    }
  }

  /** The value of one bit. */
  function Digit(d: bool): nat { if d then 1 else 0 }

  /** The number a bit string denotes. */
  function Num(s: Word): nat
  {
    if s == [] then 0 else 2 * Num(s[..|s| - 1]) + Digit(s[|s| - 1])
  }

  /** The `len` low bits of `h`. */
  function ToBits(len: nat, h: nat): (s: Word)
    ensures |s| == len
  {
    if len == 0 then [] else ToBits(len - 1, h / 2) + [h % 2 == 1]
  }

  lemma {:induction false} NumBound(s: Word)
    ensures Num(s) < Pow2(|s|)
  {
    if s != [] { NumBound(s[..|s| - 1]); }
  }

  lemma {:induction false} NumToBits(len: nat, h: nat)
    requires h < Pow2(len)
    ensures Num(ToBits(len, h)) == h
  {
    if len > 0 {
      NumToBits(len - 1, h / 2);
      assert ToBits(len, h)[..len - 1] == ToBits(len - 1, h / 2);
    }
  }

  lemma {:induction false} ToBitsNum(s: Word)
    ensures ToBits(|s|, Num(s)) == s
  {
    if s != [] {
      ToBitsNum(s[..|s| - 1]);
      assert Num(s) / 2 == Num(s[..|s| - 1]);
      assert s == s[..|s| - 1] + [s[|s| - 1]];
    }
  }

  lemma {:induction false} NumCons(t: bool, s: Word)
    ensures Num([t] + s) == Digit(t) * Pow2(|s|) + Num(s)
  {
    if s == [] {
      assert ([t] + s)[..0] == [];
    } else {
      var r := s[..|s| - 1];
      NumCons(t, r);
      assert ([t] + s)[..|s|] == [t] + r;
    }
  }

  function Quotient(x: nat, d: nat): nat
    requires d > 0
  {
    x / d
  }

  /** Keeping the first `k` bits divides by a power of two. */
  lemma {:induction false} NumTop(s: Word, k: nat)
    requires k <= |s|
    ensures Num(s[..k]) == Quotient(Num(s), Pow2(|s| - k))
    decreases |s|
  {
    if k == |s| {
      assert s[..k] == s;
    } else {
      var r, p := s[..|s| - 1], Pow2(|s| - 1 - k);
      NumTop(r, k);
      assert r[..k] == s[..k];
      assert Pow2(|s| - k) == 2 * p;
      HalfFirst(Num(s), p);
      assert Num(s) / 2 == Num(r);
    }
  }

  lemma HalfFirst(x: nat, p: nat)
    requires p > 0
    ensures x / (2 * p) == (x / 2) / p
  {
    var q, r := (x / 2) / p, (x / 2) % p;
    assert x / 2 == p * q + r;
    assert x == (2 * p) * q + (2 * r + x % 2);
    QuotientIs(x, 2 * p, q, 2 * r + x % 2);
  }

  lemma QuotientIs(x: int, d: nat, q: int, r: int)
    requires 0 <= r < d && x == d * q + r
    ensures x / d == q
  {
    var q', r' := x / d, x % d;
    assert d * (q - q') == r' - r;
    MulMagnitude(d, q - q');
  }

  lemma MulMagnitude(d: int, m: int)
    requires d > 0
    ensures m >= 1 ==> d * m >= d
    ensures m <= -1 ==> d * m <= -d
  {
  }

  // ----- operations on whole strings

  function Const(v: bool, len: nat): (s: Word)
    ensures |s| == len && forall i :: 0 <= i < len ==> s[i] == v
  {
    seq(len, _ => v)
  }

  function Not(s: Word): (r: Word)
    ensures |r| == |s| && forall i :: 0 <= i < |s| ==> r[i] == !s[i]
  {
    seq(|s|, i requires 0 <= i < |s| => !s[i])
  }

  function Xor(s: Word, t: Word): (r: Word)
    requires |s| == |t|
    ensures |r| == |s| && forall i :: 0 <= i < |s| ==> r[i] == (s[i] != t[i])
  {
    seq(|s|, i requires 0 <= i < |s| => s[i] != t[i])
  }

  /** The string moved one place towards the low end, with `c` moving in at the top. */
  function ShiftIn(c: bool, s: Word): (r: Word)
    ensures |r| == |s|
  {
    ([c] + s)[..|s|]
  }

  lemma {:induction false} NumNot(s: Word)
    ensures Num(Not(s)) == Pow2(|s|) - 1 - Num(s)
  {
    if s != [] {
      NumNot(s[..|s| - 1]);
      assert Not(s)[..|s| - 1] == Not(s[..|s| - 1]);
    }
  }

  lemma {:induction false} NumConst(v: bool, len: nat)
    ensures Num(Const(v, len)) == if v then Pow2(len) - 1 else 0
  {
    if len > 0 {
      NumConst(v, len - 1);
      assert Const(v, len)[..len - 1] == Const(v, len - 1);
    }
  }

  // ----- counting

  predicate AllOnes(s: Word) { forall i :: 0 <= i < |s| ==> s[i] }

  /** Add one, wrapping at the string's width. */
  function Succ(s: Word): (r: Word)
    ensures |r| == |s|
  {
    if s == [] then []
    else if !s[|s| - 1] then s[|s| - 1 := true]
    else Succ(s[..|s| - 1]) + [false]
  }

  lemma {:induction false} NumSucc(s: Word)
    requires !AllOnes(s)
    ensures Num(Succ(s)) == Num(s) + 1
  {
    var r := s[..|s| - 1];
    if !s[|s| - 1] {
      assert Succ(s)[..|s| - 1] == r;
    } else {
      NumSucc(r);
      assert Succ(s)[..|s| - 1] == Succ(r);
    }
  }

  /** A carry leaves the lower part exactly when that part is all ones. */
  lemma {:induction false} SuccAppend(w: Word, s: Word)
    ensures Succ(w + s) == if AllOnes(s) then Succ(w) + Const(false, |s|) else w + Succ(s)
    decreases |s|
  {
    if s == [] {
      assert w + s == w;
      assert Succ(w) + Const(false, 0) == Succ(w);
    } else {
      var r := s[..|s| - 1];
      assert (w + s)[..|w + s| - 1] == w + r;
      assert s == r + [s[|s| - 1]];
      if s[|s| - 1] {
        SuccAppend(w, r);
        assert AllOnes(s) <==> AllOnes(r);
        assert Const(false, |r|) + [false] == Const(false, |s|);
      }
    }
  }

  lemma {:induction false} AllOnesIsMax(s: Word)
    ensures AllOnes(s) <==> Num(s) == Pow2(|s|) - 1
  {
    if s != [] {
      var r := s[..|s| - 1];
      AllOnesIsMax(r);
      NumBound(r);
      assert s == r + [s[|s| - 1]];
    }
  }
}
