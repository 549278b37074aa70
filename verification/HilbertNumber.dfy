/** The Hilbert number of a point of the `n`-dimensional cube of side `2^b`, and the point with
    a given Hilbert number: the bit interleaving of the sample program around the transforms,
    and the promises made for nodes ordered by that number. */
module HilbertNumber {
  import opened Bits
  import opened HilbertCurve

  /** How many bits a Hilbert number has. */
  function Width(n: nat, b: nat): nat { n * b }

  lemma WidthPred(n: nat, b: nat)
    requires b >= 1
    ensures Width(n, b) == n + Width(n, b - 1)
  {
  }

  lemma WidthZero(n: nat)
    ensures Width(n, 0) == 0
  {
  }

  lemma WidthSplit(n: nat, b: nat, k: nat)
    requires k <= b
    ensures Width(n, b) == Width(n, k) + Width(n, b - k)
  {
    assert n * b == n * k + n * (b - k);
  }

  /** Levels from the top, axis 0 first within a level. */
  function Interleave(n: nat, b: nat, H: Columns): (s: Word)
    requires Rect(H, n, b)
    ensures |s| == Width(n, b)
    decreases b
  {
    if b == 0 then [] else
      WidthPred(n, b);
      Heads(H) + Interleave(n, b - 1, Tails(H))
  }

  function Deinterleave(n: nat, b: nat, s: Word): (H: Columns)
    requires |s| == Width(n, b)
    ensures Rect(H, n, b)
    decreases b
  {
    if b == 0 then Full(false, n, 0) else
      WidthPred(n, b);
      Stack(s[..n], Deinterleave(n, b - 1, s[n..]))
  }

  lemma {:induction false} DeinterleaveInterleave(n: nat, b: nat, H: Columns)
    requires Rect(H, n, b)
    ensures Deinterleave(n, b, Interleave(n, b, H)) == H
    decreases b
  {
    hide Heads, Tails, Stack;
    if b > 0 {
      WidthPred(n, b);
      PartsRect(H, n, b);
      DeinterleaveInterleave(n, b - 1, Tails(H));
      var s := Interleave(n, b, H);
      assert s[..n] == Heads(H) && s[n..] == Interleave(n, b - 1, Tails(H));
      StackHeadsTails(H);
    }
  }

  lemma {:induction false} InterleaveDeinterleave(n: nat, b: nat, s: Word)
    requires |s| == Width(n, b)
    ensures Interleave(n, b, Deinterleave(n, b, s)) == s
    decreases b
  {
    hide Heads, Tails, Stack;
    if b > 0 {
      WidthPred(n, b);
      InterleaveDeinterleave(n, b - 1, s[n..]);
      HeadsTailsStack(s[..n], Deinterleave(n, b - 1, s[n..]));
      assert s == s[..n] + s[n..];
    }
  }

  /** Where the packing puts a bit: bit `q` of axis `j` becomes bit `q * n + n - 1 - j` of the
      number. */
  lemma InterleavePlace(n: nat, b: nat, H: Columns, j: nat, q: nat)
    requires Rect(H, n, b) && j < n && q < b
    ensures var place := Width(n, q) + n - 1 - j;
            Quotient(Num(Interleave(n, b, H)), Pow2(place)) % 2 == Digit(H[j][b - 1 - q])
  {
    hide Interleave, Width, Quotient, Pow2;
    var s, place := Interleave(n, b, H), Width(n, q) + n - 1 - j;
    InterleaveAt(n, b, H, j, q);
    NumTop(s, |s| - place);
    assert s[..|s| - place][..|s| - place - 1] == s[..|s| - place - 1];
  }

  lemma {:induction false} InterleaveAt(n: nat, b: nat, H: Columns, j: nat, q: nat)
    requires Rect(H, n, b) && j < n && q < b
    ensures var s, place := Interleave(n, b, H), Width(n, q) + n - 1 - j;
            place < |s| && s[|s| - 1 - place] == H[j][b - 1 - q]
    decreases b
  {
    hide Width, Interleave, Heads, Tails;
    WidthPred(n, b);
    PartsRect(H, n, b);
    var w, low := Heads(H), Interleave(n, b - 1, Tails(H));
    InterleaveUnfold(n, b, H);
    PartsAt(H, n, b, j);
    if q == b - 1 {
      assert (w + low)[j] == w[j];
    } else {
      InterleaveAt(n, b - 1, Tails(H), j, q);
      var k := |low| - 1 - (Width(n, q) + n - 1 - j);
      assert (w + low)[n + k] == low[k];
    }
  }

  lemma InterleaveUnfold(n: nat, b: nat, H: Columns)
    requires b >= 1 && Rect(H, n, b)
    ensures Rect(Tails(H), n, b - 1)
    ensures Interleave(n, b, H) == Heads(H) + Interleave(n, b - 1, Tails(H))
  {
    PartsRect(H, n, b);
  }

  lemma PartsAt(H: Columns, n: nat, b: nat, j: nat)
    requires b >= 1 && Rect(H, n, b) && j < n
    ensures |Heads(H)| == n == |Tails(H)| && Heads(H)[j] == H[j][0] && Tails(H)[j] == H[j][1..]
  {
  }

  // ----- the Gray loops on the interleaved index

  lemma {:induction false} GrayWordAppend(c: bool, w: Word, s: Word)
    requires w != []
    ensures GrayWord(c, w + s) == GrayWord(c, w) + GrayWord(w[|w| - 1], s)
    decreases |w|
  {
    assert (w + s)[1..] == w[1..] + s;
    if |w| == 1 {
      assert w[1..] + s == s;
    } else {
      GrayWordAppend(w[0], w[1..], s);
    }
  }

  /** The transposed Gray loop is the Gray code of the interleaved bits. */
  lemma {:induction false} GrayInterleave(c: bool, n: nat, b: nat, H: Columns)
    requires n >= 1 && Rect(H, n, b)
    ensures Interleave(n, b, Gray(c, H)) == GrayWord(c, Interleave(n, b, H))
    decreases b
  {
    hide Heads, Tails, Stack, GrayWord, Gray, Interleave, Width;
    WidthZero(n);
    GrayRect(c, n, b, H);
    if b == 0 {
      InterleaveFlat(n, H);
      InterleaveFlat(n, Gray(c, H));
      GrayWordEmpty(c);
    } else {
      PartsRect(H, n, b);
      var w, low, e := Heads(H), Tails(H), H[n - 1][0];
      GrayUnfold(c, H);
      GrayRect(e, n, b - 1, low);
      GrayWordLength(c, w);
      InterleaveStack(n, b, GrayWord(c, w), Gray(e, low));
      GrayInterleave(e, n, b - 1, low);
      HeadsAt(H, n - 1);
      GrayWordAppend(c, w, Interleave(n, b - 1, low));
      StackHeadsTails(H);
      InterleaveStack(n, b, w, low);
    }
  }

  lemma InterleaveFlat(n: nat, H: Columns)
    requires Rect(H, n, 0)
    ensures Interleave(n, 0, H) == []
  {
  }

  lemma InterleaveStack(n: nat, b: nat, w: Word, Y: Columns)
    requires b >= 1 && |w| == n && Rect(Y, n, b - 1)
    ensures Rect(Stack(w, Y), n, b)
    ensures Interleave(n, b, Stack(w, Y)) == w + Interleave(n, b - 1, Y)
  {
    HeadsTailsStack(w, Y);
  }

  lemma GrayWordEmpty(c: bool)
    ensures GrayWord(c, []) == []
  {
  }

  lemma HeadsAt(H: Columns, i: nat)
    requires forall i :: 0 <= i < |H| ==> |H[i]| > 0
    requires i < |H|
    ensures |Heads(H)| == |H| && Heads(H)[i] == H[i][0]
  {
  }

  /** Bitwise exclusive or of numbers. */
  function NatXor(x: nat, y: nat): nat
    decreases x + y
  {
    if x == 0 && y == 0 then 0 else 2 * NatXor(x / 2, y / 2) + Digit(x % 2 != y % 2)
  }

  lemma {:induction false} NumXor(s: Word, t: Word)
    requires |s| == |t|
    ensures Num(Xor(s, t)) == NatXor(Num(s), Num(t))
  {
    if s == [] {
      assert Xor(s, t) == [];
    } else {
      var m := |s| - 1;
      NumXor(s[..m], t[..m]);
      assert Xor(s, t)[..m] == Xor(s[..m], t[..m]);
    }
  }

  lemma NumShift(s: Word)
    ensures Num(ShiftIn(false, s)) == Num(s) / 2
  {
    if s != [] {
      var r := s[..|s| - 1];
      assert ShiftIn(false, s) == [false] + r;
      NumCons(false, r);
    }
  }

  lemma GrayWordIsXor(c: bool, s: Word)
    ensures GrayWord(c, s) == Xor(s, ShiftIn(c, s))
  {
    forall k | 0 <= k < |s| ensures GrayWord(c, s)[k] == Xor(s, ShiftIn(c, s))[k] {
      GrayWordAt(c, s, k);
    }
  }

  /** The transposed Gray loop computes `h ^ (h >> 1)` on the interleaved number `h`. */
  lemma GrayOnNumbers(n: nat, b: nat, H: Columns)
    requires n >= 1 && Rect(H, n, b)
    ensures var h := Num(Interleave(n, b, H));
            Num(Interleave(n, b, Gray(false, H))) == NatXor(h, h / 2)
  {
    var s := Interleave(n, b, H);
    GrayInterleave(false, n, b, H);
    GrayWordIsXor(false, s);
    NumXor(s, ShiftIn(false, s));
    NumShift(s);
  }

  // ----- numbers and points

  predicate InCube(n: nat, b: nat, p: seq<nat>)
  {
    |p| == n && forall i :: 0 <= i < n ==> p[i] < Pow2(b)
  }

  function Values(X: Columns): (p: seq<nat>)
    ensures |p| == |X| && forall i :: 0 <= i < |X| ==> p[i] == Num(X[i])
  {
    seq(|X|, i requires 0 <= i < |X| => Num(X[i]))
  }

  function Encode(b: nat, p: seq<nat>): (X: Columns)
    ensures Rect(X, |p|, b) && forall i :: 0 <= i < |p| ==> X[i] == ToBits(b, p[i])
  {
    seq(|p|, i requires 0 <= i < |p| => ToBits(b, p[i]))
  }

  function Transposed(n: nat, b: nat, h: nat): (H: Columns)
    ensures Rect(H, n, b)
  {
    Deinterleave(n, b, ToBits(Width(n, b), h))
  }

  /** The point with Hilbert number `h`. */
  function Point(n: nat, b: nat, h: nat): (p: seq<nat>)
    requires n >= 1
    ensures |p| == n
  {
    Values(Curve(false, n, b, Transposed(n, b, h)))
  }

  /** The Hilbert number of point `p`. */
  function Index(n: nat, b: nat, p: seq<nat>): nat
    requires n >= 1 && |p| == n
  {
    Num(Interleave(n, b, UnCurve(n, b, Encode(b, p))))
  }

  lemma ValuesEncode(b: nat, p: seq<nat>)
    requires InCube(|p|, b, p)
    ensures Values(Encode(b, p)) == p
  {
    forall i | 0 <= i < |p| ensures Values(Encode(b, p))[i] == p[i] {
      NumToBits(b, p[i]);
    }
  }

  lemma EncodeValues(n: nat, b: nat, X: Columns)
    requires Rect(X, n, b)
    ensures Encode(b, Values(X)) == X && InCube(n, b, Values(X))
  {
    forall i | 0 <= i < n ensures Encode(b, Values(X))[i] == X[i] && Values(X)[i] < Pow2(b) {
      ToBitsNum(X[i]);
      NumBound(X[i]);
    }
  }

  /** Every number below `2^(n*b)` is the Hilbert number of its point, which is in the cube. */
  lemma IndexOfPoint(n: nat, b: nat, h: nat)
    requires n >= 1 && h < Pow2(Width(n, b))
    ensures InCube(n, b, Point(n, b, h))
    ensures Index(n, b, Point(n, b, h)) == h
  {
    var s := ToBits(Width(n, b), h);
    var H := Transposed(n, b, h);
    EncodeValues(n, b, Curve(false, n, b, H));
    CurveInverse(n, b, H);
    InterleaveDeinterleave(n, b, s);
    NumToBits(Width(n, b), h);
  }

  /** Every point of the cube is the point of its Hilbert number, which is below `2^(n*b)`. */
  lemma PointOfIndex(n: nat, b: nat, p: seq<nat>)
    requires n >= 1 && InCube(n, b, p)
    ensures Index(n, b, p) < Pow2(Width(n, b))
    ensures Point(n, b, Index(n, b, p)) == p
  {
    var X := Encode(b, p);
    var H := UnCurve(n, b, X);
    NumBound(Interleave(n, b, H));
    ToBitsNum(Interleave(n, b, H));
    DeinterleaveInterleave(n, b, H);
    CurveInverse(n, b, X);
    ValuesEncode(b, p);
  }

  // ----- end points

  /** The curve starts at the origin and ends at the far end of axis 0. */
  lemma PointEnds(n: nat, b: nat)
    requires n >= 1
    ensures Point(n, b, 0) == seq(n, _ => 0)
    ensures Point(n, b, Pow2(Width(n, b)) - 1) == seq(n, _ => 0)[0 := Pow2(b) - 1]
  {
    hide Width, Curve, Interleave, Deinterleave, ToBits, Point;
    PointEnd(n, b, false);
    PointEnd(n, b, true);
    CurveEnds(false, n, b);
    NumConst(false, b);
    NumConst(true, b);
    assert Values(Corner(false, n, b)) == seq(n, _ => 0);
    assert Values(Corner(true, n, b)) == seq(n, _ => 0)[0 := Pow2(b) - 1];
  }

  lemma PointEnd(n: nat, b: nat, v: bool)
    requires n >= 1
    ensures Point(n, b, if v then Pow2(Width(n, b)) - 1 else 0)
         == Values(Curve(false, n, b, Full(v, n, b)))
  {
    hide Width, Curve, Interleave, Deinterleave, ToBits;
    InterleaveFull(v, n, b);
    NumConst(v, Width(n, b));
    ToBitsNum(Const(v, Width(n, b)));
    DeinterleaveInterleave(n, b, Full(v, n, b));
  }

  lemma {:induction false} InterleaveFull(v: bool, n: nat, b: nat)
    ensures Interleave(n, b, Full(v, n, b)) == Const(v, Width(n, b))
    decreases b
  {
    if b > 0 {
      WidthPred(n, b);
      InterleaveFull(v, n, b - 1);
      FullTails(v, n, b);
      assert Heads(Full(v, n, b)) == Const(v, n);
    }
  }

  // ----- neighbours

  function Gap(x: nat, y: nat): nat { if x < y then y - x else x - y }

  /** Manhattan distance. */
  function Distance(p: seq<nat>, q: seq<nat>): nat
    requires |p| == |q|
  {
    if p == [] then 0 else Gap(p[0], q[0]) + Distance(p[1..], q[1..])
  }

  lemma {:induction false} DistanceAlongOneAxis(p: seq<nat>, q: seq<nat>, k: nat)
    requires k < |p| == |q|
    requires forall i :: 0 <= i < |p| && i != k ==> p[i] == q[i]
    ensures Distance(p, q) == Gap(p[k], q[k])
    decreases |p|
  {
    if k > 0 {
      DistanceAlongOneAxis(p[1..], q[1..], k - 1);
    } else if |p| > 1 {
      DistanceAlongOneAxis(p[1..], q[1..], 0);
    }
  }

  lemma {:induction false} InterleaveLast(n: nat, b: nat, H: Columns)
    requires n >= 1 && Rect(H, n, b)
    ensures IsLast(H) <==> AllOnes(Interleave(n, b, H))
    decreases b
  {
    if b > 0 {
      var w, s := Heads(H), Interleave(n, b - 1, Tails(H));
      InterleaveLast(n, b - 1, Tails(H));
      assert AllOnes(w + s) <==> AllOnes(w) && AllOnes(s) by { AllOnesAppend(w, s); }
      LastParts(H);
    }
  }

  lemma AllOnesAppend(w: Word, s: Word)
    ensures AllOnes(w + s) <==> AllOnes(w) && AllOnes(s)
  {
    if AllOnes(w + s) {
      forall i | 0 <= i < |w| ensures w[i] { assert (w + s)[i]; }
      forall i | 0 <= i < |s| ensures s[i] { assert (w + s)[|w| + i]; }
    }
  }

  lemma LastParts(H: Columns)
    requires forall i :: 0 <= i < |H| ==> |H[i]| > 0
    ensures IsLast(H) <==> AllOnes(Heads(H)) && IsLast(Tails(H))
  {
    if IsLast(H) {
      forall i | 0 <= i < |H| ensures Heads(H)[i] && AllOnes(Tails(H)[i]) {
        assert AllOnes(H[i]);
      }
    } else if IsLast(Tails(H)) {
      LastFromParts(H);
    }
  }

  /** Stepping the transposed index adds one to the interleaved number. */
  lemma {:induction false} InterleaveNext(n: nat, b: nat, H: Columns)
    requires n >= 1 && Rect(H, n, b)
    ensures Interleave(n, b, Next(n, b, H)) == Succ(Interleave(n, b, H))
    decreases b
  {
    hide Heads, Tails, Stack, Succ, Full, Interleave, Width;
    WidthZero(n);
    if b == 0 {
      InterleaveFlat(n, H);
      SuccEmpty();
    } else {
      PartsRect(H, n, b);
      var w, low := Heads(H), Tails(H);
      StackHeadsTails(H);
      InterleaveStack(n, b, w, low);
      InterleaveLength(n, b - 1, low);
      InterleaveLast(n, b - 1, low);
      SuccAppend(w, Interleave(n, b - 1, low));
      if IsLast(low) {
        SuccLength(w);
        FullRect(n, b - 1);
        InterleaveStack(n, b, Succ(w), Full(false, n, b - 1));
        InterleaveFull(false, n, b - 1);
      } else {
        InterleaveStack(n, b, w, Next(n, b - 1, low));
        InterleaveNext(n, b - 1, low);
      }
    }
  }

  lemma InterleaveLength(n: nat, b: nat, H: Columns)
    requires Rect(H, n, b)
    ensures |Interleave(n, b, H)| == Width(n, b)
  {
  }

  lemma SuccEmpty() ensures Succ([]) == [] { }
  lemma SuccLength(w: Word) ensures |Succ(w)| == |w| { }
  lemma FullRect(n: nat, b: nat) ensures Rect(Full(false, n, b), n, b) { }

  /** Consecutive Hilbert numbers belong to points one unit apart. */
  lemma Neighbours(n: nat, b: nat, h: nat) returns (k: nat)
    requires n >= 1 && h + 1 < Pow2(Width(n, b))
    ensures Distance(Point(n, b, h), Point(n, b, h + 1)) == 1
    ensures var p, q := Point(n, b, h), Point(n, b, h + 1);
            && k < n && (q[k] == p[k] + 1 || p[k] == q[k] + 1)
            && forall i :: 0 <= i < n && i != k ==> p[i] == q[i]
  {
    hide Width, Curve, Interleave, Deinterleave, Num, ToBits, Succ, AllOnes, Next;
    var s := ToBits(Width(n, b), h);
    var H := Transposed(n, b, h);
    NumToBits(Width(n, b), h);
    AllOnesIsMax(s);
    NumSucc(s);
    ToBitsNum(Succ(s));
    InterleaveDeinterleave(n, b, s);
    InterleaveLast(n, b, H);
    InterleaveNext(n, b, H);
    DeinterleaveInterleave(n, b, Next(n, b, H));
    k := NextIsAdjacent(false, n, b, H);
    DistanceAlongOneAxis(Point(n, b, h), Point(n, b, h + 1), k);
  }

  // ----- nesting and locality

  lemma {:induction false} InterleaveTop(n: nat, b: nat, k: nat, H: Columns)
    requires n >= 1 && k <= b && Rect(H, n, b)
    ensures Width(n, k) <= Width(n, b)
    ensures Interleave(n, k, Top(H, n, b, k)) == Interleave(n, b, H)[..Width(n, k)]
    decreases b
  {
    hide Width, Interleave, Heads, Tails, Stack;
    WidthZero(n);
    if k == 0 {
      InterleaveFlat(n, Top(H, n, b, 0));
    } else {
      WidthPred(n, b);
      WidthPred(n, k);
      PartsRect(H, n, b);
      var w, low := Heads(H), Tails(H);
      InterleaveTop(n, b - 1, k - 1, low);
      StackHeadsTails(H);
      InterleaveStack(n, b, w, low);
      StackTop(w, low, n, b - 1, k - 1);
      InterleaveStack(n, k, w, Top(low, n, b - 1, k - 1));
      InterleaveLength(n, b - 1, low);
    }
  }

  lemma TransposedTop(n: nat, b: nat, k: nat, h: nat)
    requires n >= 1 && k <= b && h < Pow2(Width(n, b))
    ensures Quotient(h, Pow2(Width(n, b - k))) < Pow2(Width(n, k))
    ensures Transposed(n, k, Quotient(h, Pow2(Width(n, b - k)))) == Top(Transposed(n, b, h), n, b, k)
  {
    hide Quotient, Width, Interleave, Deinterleave, Num, ToBits, Pow2;
    var s, H, m := ToBits(Width(n, b), h), Transposed(n, b, h), Width(n, k);
    ToBitsLength(Width(n, b), h);
    WidthSplit(n, b, k);
    InterleaveTop(n, b, k, H);
    InterleaveDeinterleave(n, b, s);
    NumToBits(Width(n, b), h);
    NumTop(s, m);
    NumBound(s[..m]);
    ToBitsNum(s[..m]);
    DeinterleaveInterleave(n, k, Top(H, n, b, k));
  }

  lemma ToBitsLength(len: nat, h: nat)
    ensures |ToBits(len, h)| == len
  {
  }

  /** Dropping the `b - k` low levels of the number drops the `b - k` low bits of every
      coordinate: the coarse picture of the curve is the curve with `k` levels. */
  lemma Nesting(n: nat, b: nat, k: nat, h: nat)
    requires n >= 1 && k <= b && h < Pow2(Width(n, b))
    ensures Quotient(h, Pow2(Width(n, b - k))) < Pow2(Width(n, k))
    ensures var p, q := Point(n, b, h), Point(n, k, Quotient(h, Pow2(Width(n, b - k))));
            forall i :: 0 <= i < n ==> Quotient(p[i], Pow2(b - k)) == q[i]
  {
    hide Quotient, Width, Pow2, Values, Curve, Transposed;
    TransposedTop(n, b, k, h);
    forall i | 0 <= i < n
      ensures Quotient(Point(n, b, h)[i], Pow2(b - k)) == Point(n, k, Quotient(h, Pow2(Width(n, b - k))))[i]
    {
      CoarsePoint(n, b, k, h, Quotient(h, Pow2(Width(n, b - k))), i);
    }
  }

  lemma CoarsePoint(n: nat, b: nat, k: nat, h: nat, c: nat, i: nat)
    requires n >= 1 && k <= b && i < n
    requires Transposed(n, k, c) == Top(Transposed(n, b, h), n, b, k)
    ensures Quotient(Point(n, b, h)[i], Pow2(b - k)) == Point(n, k, c)[i]
  {
    hide Quotient, Curve, Num, Pow2, Transposed;
    var H := Transposed(n, b, h);
    TransposedRect(n, b, h);
    CurveTop(false, n, b, k, H);
    CurveRect(n, b, H);
    NumTop(Curve(false, n, b, H)[i], k);
  }

  lemma TransposedRect(n: nat, b: nat, h: nat)
    ensures Rect(Transposed(n, b, h), n, b)
  {
  }

  lemma CurveRect(n: nat, b: nat, H: Columns)
    requires n >= 1 && Rect(H, n, b)
    ensures Rect(Curve(false, n, b, H), n, b)
  {
  }

  /** Two numbers lie in the same aligned block of `2^(n*(b-k))` exactly when their points lie
      in the same aligned subcube of side `2^(b-k)`. */
  lemma BlocksAreSubcubes(n: nat, b: nat, k: nat, h: nat, h': nat)
    requires n >= 1 && k <= b && h < Pow2(Width(n, b)) && h' < Pow2(Width(n, b))
    ensures Quotient(h, Pow2(Width(n, b - k))) == Quotient(h', Pow2(Width(n, b - k)))
       <==> (forall i :: 0 <= i < n ==>
               Quotient(Point(n, b, h)[i], Pow2(b - k)) == Quotient(Point(n, b, h')[i], Pow2(b - k)))
  {
    hide Quotient, Width, Point, Index, Pow2;
    Nesting(n, b, k, h);
    Nesting(n, b, k, h');
    var c, c' := Quotient(h, Pow2(Width(n, b - k))), Quotient(h', Pow2(Width(n, b - k)));
    var p, p' := Point(n, b, h), Point(n, b, h');
    if forall i :: 0 <= i < n ==> Quotient(p[i], Pow2(b - k)) == Quotient(p'[i], Pow2(b - k)) {
      assert Point(n, k, c) == Point(n, k, c');
      IndexOfPoint(n, k, c);
      IndexOfPoint(n, k, c');
    }
  }

  lemma NearQuotients(x: nat, y: nat, d: nat)
    requires d > 0 && x <= y <= x + d
    ensures Quotient(x, d) <= Quotient(y, d) <= Quotient(x, d) + 1
  {
    var q, r := x / d, x % d;
    if r + (y - x) < d {
      QuotientIs(y, d, q, r + (y - x));
    } else if r + (y - x) < 2 * d {
      QuotientIs(y, d, q + 1, r + (y - x) - d);
    }
  }

  /** Closeness: numbers at most `2^(n*j)` apart belong to points less than `2^(j+1)` apart
      on every axis. */
  lemma CloseNumbersAreClosePoints(n: nat, b: nat, j: nat, h: nat, h': nat, i: nat)
    requires n >= 1 && j <= b && i < n
    requires h <= h' <= h + Pow2(Width(n, j)) && h' < Pow2(Width(n, b))
    ensures 0 - (Pow2(j + 1) as int) < Point(n, b, h)[i] - Point(n, b, h')[i] < Pow2(j + 1)
  {
    hide Quotient, Width, Values, Curve, Transposed, Pow2, Distance;
    var k := b - j;
    var d := Pow2(Width(n, j));
    Pow2Add(1, j);
    assert Pow2(1) == 2 by { Pow2One(); }
    Nesting(n, b, k, h);
    Nesting(n, b, k, h');
    NearQuotients(h, h', d);
    CloseCells(n, k, Quotient(h, d), Quotient(h', d), i);
    GapFromQuotients(Point(n, b, h)[i], Point(n, b, h')[i], Pow2(j));
  }

  lemma CloseCells(n: nat, k: nat, c: nat, c': nat, i: nat)
    requires n >= 1 && i < n && c <= c' <= c + 1 && c' < Pow2(Width(n, k))
    ensures Gap(Point(n, k, c)[i], Point(n, k, c')[i]) <= 1
  {
    hide Width, Values, Curve, Transposed, Distance;
    if c' == c + 1 {
      var axis := Neighbours(n, k, c);
      GapBelowDistance(Point(n, k, c), Point(n, k, c'), i);
    }
  }

  lemma {:induction false} GapBelowDistance(p: seq<nat>, q: seq<nat>, i: nat)
    requires i < |p| == |q|
    ensures Gap(p[i], q[i]) <= Distance(p, q)
    decreases |p|
  {
    if i > 0 { GapBelowDistance(p[1..], q[1..], i - 1); }
  }

  lemma GapFromQuotients(x: nat, y: nat, d: nat)
    requires d > 0 && Gap(Quotient(x, d), Quotient(y, d)) <= 1
    ensures Gap(x, y) < 2 * d
  {
    var q, q' := x / d, y / d;
    assert x == d * q + x % d && y == d * q' + y % d;
    if q == q' {
    } else if q' == q + 1 {
      assert d * q' == d * q + d;
    } else {
      assert d * q == d * q' + d;
    }
  }
}
