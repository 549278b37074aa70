/** The in-place transforms of `contribs/skilling.c` on 32-bit words, proved against the
    column functions of `HilbertCurve`, and the sample program around them. */
module Skilling {
  import opened Bits
  import opened Words
  import opened HilbertCurve
  import opened HilbertNumber

  function Columns32(X: seq<Coord>, b: nat): (C: Columns)
    ensures Rect(C, |X|, b) && forall i :: 0 <= i < |X| ==> C[i] == BitsOf(X[i], b)
  {
    seq(|X|, i requires 0 <= i < |X| => BitsOf(X[i], b))
  }

  predicate Within(X: seq<Coord>, b: nat)
    requires b <= 31
  {
    forall i :: 0 <= i < |X| ==> Fits(X[i], b)
  }

  // ----- Gray decode

  /** Gray decode: `X` becomes its transposed Gray code. */
  method GrayDecode(X: array<Coord>, b: nat)
    requires X.Length >= 1 && 1 <= b <= 31 && Within(X[..], b)
    modifies X
    ensures Within(X[..], b)
    ensures Columns32(X[..], b) == Gray(false, Columns32(old(X[..]), b))
  {
    hide Fits, Half, Xor32, BitsOf, Gray;
    var n := X.Length;
    ghost var H := X[..];
    var t := Half(X[n - 1]);
    var i := n - 1;
    while i != 0
      invariant 0 <= i < n
      invariant forall j :: 0 <= j <= i ==> X[j] == H[j]
      invariant forall j {:trigger X[j]} :: i < j < n ==> X[j] == Xor32(H[j], H[j - 1])
    {
      X[i] := Xor32(X[i], X[i - 1]);
      i := i - 1;
    }
    X[0] := Xor32(X[0], t);
    GrayDecodeColumns(H, X[..], b);
  }

  lemma GrayDecodeColumns(H: seq<Coord>, G: seq<Coord>, b: nat)
    requires |G| == |H| >= 1 && 1 <= b <= 31 && Within(H, b)
    requires G[0] == Xor32(H[0], Half(H[|H| - 1]))
    requires forall j {:trigger G[j]} :: 1 <= j < |H| ==> G[j] == Xor32(H[j], H[j - 1])
    ensures Within(G, b)
    ensures Columns32(G, b) == Gray(false, Columns32(H, b))
  {
    hide Fits, Half, Xor32, BitsOf, Gray, Xor, ShiftIn;
    var C, D := Columns32(H, b), Columns32(G, b);
    var last := H[|H| - 1];
    FitsHalf(last, b);
    BitsHalf(last, b);
    forall j | 0 <= j < |H|
      ensures Fits(G[j], b) && |Gray(false, C)| == |C| && D[j] == Gray(false, C)[j]
    {
      GrayAt(false, C, j);
      var prev := if j == 0 then Half(last) else H[j - 1];
      FitsXor(H[j], prev, b);
      BitsXor(H[j], prev, b);
    }
  }

  // ----- the work at one level

  /** The columns' `q` low bits. */
  function Low(C: Columns, n: nat, b: nat, q: nat): (R: Columns)
    requires Rect(C, n, b) && q <= b
    ensures Rect(R, n, q) && forall i :: 0 <= i < n ==> R[i] == C[i][b - q..]
  {
    seq(n, i requires 0 <= i < n => C[i][b - q..])
  }

  /** The columns' bits at level `q`. */
  function Level(C: Columns, n: nat, b: nat, q: nat): (g: Word)
    requires Rect(C, n, b) && q < b
    ensures |g| == n && forall i :: 0 <= i < n ==> g[i] == C[i][b - 1 - q]
  {
    seq(n, i requires 0 <= i < n => C[i][b - 1 - q])
  }

  lemma LowStack(C: Columns, n: nat, b: nat, q: nat)
    requires Rect(C, n, b) && q < b
    ensures Low(C, n, b, q + 1) == Stack(Level(C, n, b, q), Low(C, n, b, q))
    ensures Heads(Low(C, n, b, q + 1)) == Level(C, n, b, q)
    ensures Tails(Low(C, n, b, q + 1)) == Low(C, n, b, q)
  {
    forall i | 0 <= i < n
      ensures Low(C, n, b, q + 1)[i] == [Level(C, n, b, q)[i]] + Low(C, n, b, q)[i]
    {
      assert C[i][b - q - 1..] == [C[i][b - 1 - q]] + C[i][b - q..];
    }
    assert Low(C, n, b, q + 1) == Stack(Level(C, n, b, q), Low(C, n, b, q));
    HeadsTailsStack(Level(C, n, b, q), Low(C, n, b, q));
  }

  lemma LowAll(C: Columns, n: nat, b: nat)
    requires Rect(C, n, b)
    ensures Low(C, n, b, b) == C
  {
  }

  /** Columns are their top and low bits together. */
  lemma SplitColumns(C: Columns, D: Columns, n: nat, b: nat, q: nat)
    requires Rect(C, n, b) && Rect(D, n, b) && q <= b
    requires Top(C, n, b, b - q) == Top(D, n, b, b - q) && Low(C, n, b, q) == Low(D, n, b, q)
    ensures C == D
  {
    forall i | 0 <= i < n ensures C[i] == D[i] {
      assert C[i] == Top(C, n, b, b - q)[i] + Low(C, n, b, q)[i];
      assert D[i] == Top(D, n, b, b - q)[i] + Low(D, n, b, q)[i];
    }
  }

  /** A longer top determines a shorter one and the levels in it. */
  lemma TopDown(C: Columns, D: Columns, n: nat, b: nat, q: nat)
    requires Rect(C, n, b) && Rect(D, n, b) && q < b
    ensures Top(C, n, b, b - q) == Top(D, n, b, b - q)
       <==> Top(C, n, b, b - q - 1) == Top(D, n, b, b - q - 1)
            && Level(C, n, b, q) == Level(D, n, b, q)
  {
    var k := b - q;
    var T, U, t, u := Top(C, n, b, k), Top(D, n, b, k), Top(C, n, b, k - 1), Top(D, n, b, k - 1);
    forall i | 0 <= i < n
      ensures T[i] == t[i] + [Level(C, n, b, q)[i]] && U[i] == u[i] + [Level(D, n, b, q)[i]]
      ensures t[i] == T[i][..k - 1] && u[i] == U[i][..k - 1]
      ensures Level(C, n, b, q)[i] == T[i][k - 1] && Level(D, n, b, q)[i] == U[i][k - 1]
    {
    }
    if t == u && Level(C, n, b, q) == Level(D, n, b, q) {
      assert T == U;
    }
    if T == U {
      assert t == u;
    }
  }

  lemma InvertBits(x: Coord, q: nat, b: nat)
    requires q <= b <= 31
    ensures var s, r := BitsOf(x, b), BitsOf(Xor32(x, Below(q)), b);
            r[..b - q] == s[..b - q] && r[b - q..] == Not(s[b - q..])
  {
    hide BitsOf, Xor32, Below;
    BitsLength(x, b);
    BitsXor(x, Below(q), b);
    BitsBelow(q, b);
  }

  lemma BitsLength(x: Coord, b: nat) ensures |BitsOf(x, b)| == b { }

  lemma ExchangeBits(x: Coord, y: Coord, q: nat, b: nat)
    requires q <= b <= 31
    ensures var t := And32(Xor32(x, y), Below(q));
            var s, r := BitsOf(y, b), BitsOf(Xor32(x, t), b);
            r[..b - q] == BitsOf(x, b)[..b - q] && r[b - q..] == s[b - q..]
  {
    hide BitsOf, Xor32, And32, Below;
    BitsLength(x, b);
    BitsLength(y, b);
    var t := And32(Xor32(x, y), Below(q));
    BitsXor(x, y, b);
    BitsAnd(Xor32(x, y), Below(q), b);
    BitsXor(x, t, b);
    BitsBelow(q, b);
  }

  /** One `if ... else ...` of the work loop, on axis `i` at bit `q`. */
  function WorkAt(X: seq<Coord>, i: nat, q: nat): (R: seq<Coord>)
    requires i < |X| && q <= 31
    ensures |R| == |X|
  {
    if Has(X[i], q) then X[0 := Xor32(X[0], Below(q))]
    else
      var t := And32(Xor32(X[0], X[i]), Below(q));
      X[0 := Xor32(X[0], t)][i := Xor32(X[i], t)]
  }

  lemma WorkFits(X: seq<Coord>, i: nat, q: nat, b: nat)
    requires i < |X| && q < b <= 31 && Within(X, b)
    ensures Within(WorkAt(X, i, q), b)
  {
    hide Fits, Xor32, And32, Below, Has;
    FitsBelow(q, b);
    FitsXor(X[0], Below(q), b);
    var t := And32(Xor32(X[0], X[i]), Below(q));
    FitsAnd(Xor32(X[0], X[i]), Below(q), b);
    FitsXor(X[0], t, b);
    FitsXor(X[i], t, b);
  }

  lemma Xor32Commutes(x: Coord, y: Coord) ensures Xor32(x, y) == Xor32(y, x) { }

  /** The word operations at bit `q` are a `Step` of the bits below `q`, and keep the others. */
  lemma WorkIsStep(X: seq<Coord>, i: nat, q: nat, b: nat)
    requires i < |X| && q < b <= 31
    ensures var n, C, D := |X|, Columns32(X, b), Columns32(WorkAt(X, i, q), b);
            && Top(D, n, b, b - q) == Top(C, n, b, b - q)
            && Low(D, n, b, q) == Step(Level(C, n, b, q), i, Low(C, n, b, q))
  {
    hide Fits, Xor32, And32, Below, Has, BitsOf, Not;
    var n, C, D := |X|, Columns32(X, b), Columns32(WorkAt(X, i, q), b);
    BitTest(X[i], q, b);
    InvertBits(X[0], q, b);
    ExchangeBits(X[0], X[i], q, b);
    Xor32Commutes(X[0], X[i]);
    ExchangeBits(X[i], X[0], q, b);
    var E := Step(Level(C, n, b, q), i, Low(C, n, b, q));
    forall j | 0 <= j < n
      ensures Top(D, n, b, b - q)[j] == Top(C, n, b, b - q)[j]
      ensures Low(D, n, b, q)[j] == E[j]
    {
    }
  }

  // ----- undo excess work

  lemma LevelDone(n: nat, b: nat, q: nat, G: Columns, C: Columns, D: Columns)
    requires n >= 1 && q < b && Rect(G, n, b) && Rect(C, n, b) && Rect(D, n, b)
    requires Top(C, n, b, b - q) == Top(G, n, b, b - q) == Top(D, n, b, b - q)
    requires Low(C, n, b, q) == Axes(n, q, Low(G, n, b, q))
    requires Low(D, n, b, q) == Turn(Level(C, n, b, q), n - 1, Low(C, n, b, q))
    ensures Top(D, n, b, b - q - 1) == Top(G, n, b, b - q - 1)
    ensures Low(D, n, b, q + 1) == Axes(n, q + 1, Low(G, n, b, q + 1))
  {
    hide Turn, Low, Level, Top, Stack, Heads, Tails;
    TopDown(C, G, n, b, q);
    TopDown(D, G, n, b, q);
    LowStack(G, n, b, q);
    LowStack(D, n, b, q);
    LowRect(G, n, b, q + 1);
  }

  lemma LowRect(C: Columns, n: nat, b: nat, q: nat)
    requires Rect(C, n, b) && q <= b
    ensures Rect(Low(C, n, b, q), n, q)
  {
  }

  lemma AxesOne(n: nat, G: Columns)
    requires n >= 1 && Rect(G, n, 1)
    ensures Axes(n, 1, G) == G && UnAxes(n, 1, G) == G
  {
    var g := Heads(G);
    TurnRect(g, n - 1, Tails(G), 0);
    assert Turn(g, n - 1, Tails(G)) == Tails(G) == UnTurn(g, n - 1, Tails(G));
    StackHeadsTails(G);
  }

  lemma ShiftedTwo(b: nat)
    requires 1 <= b <= 30
    ensures ShiftLeft(2, b - 1) == OneAt(b)
  {
    hide OneAt, Double, ShiftLeft;
    ShiftTwo(b - 1);
    ShiftedOne(b - 1);
    OneAtNext(b - 1);
  }

  lemma ShiftTwo(k: nat) requires k <= 30 ensures ShiftLeft(2, k) == Double(ShiftLeft(1, k)) { }

  lemma OneAtTwo() ensures OneAt(1) == 2 { }

  lemma OneAtDistinct(q: nat, b: nat)
    requires q <= b <= 31
    ensures OneAt(q) == OneAt(b) ==> q == b
  {
    if q < b { OneAtOrder(q, b); }
  }

  /** The work of one level, axis `n - 1` down to axis 0. */
  method UndoLevel(X: array<Coord>, Q: Coord, ghost q: nat, ghost b: nat)
    requires X.Length >= 1 && 1 <= q < b <= 31 && Q == OneAt(q) && Within(X[..], b)
    modifies X
    ensures Within(X[..], b)
    ensures var n, C, D := X.Length, Columns32(old(X[..]), b), Columns32(X[..], b);
            && Top(D, n, b, b - q) == Top(C, n, b, b - q)
            && Low(D, n, b, q) == Turn(Level(C, n, b, q), n - 1, Low(C, n, b, q))
  {
    hide Fits, Xor32, And32, Less1, OneAt, Meets, BitsOf, Step, Top, Low, Level;
    var n := X.Length;
    ghost var C := Columns32(X[..], b);
    ghost var g := Level(C, n, b, q);
    LevelLength(C, n, b, q);
    var P := Less1(Q);
    var i := n - 1;
    while i != 0
      invariant 0 <= i < n && Within(X[..], b)
      invariant var D := Columns32(X[..], b);
                && Top(D, n, b, b - q) == Top(C, n, b, b - q)
                && |Low(D, n, b, q)| == n
                && Turn(g, n - 1, Low(C, n, b, q)) == Turn(g, i, Low(D, n, b, q))
    {
      ghost var before := X[..];
      if Meets(X[i], Q) {
        X[0] := Xor32(X[0], P);
      } else {
        var t := And32(Xor32(X[0], X[i]), P);
        X[0] := Xor32(X[0], t);
        X[i] := Xor32(X[i], t);
      }
      assert X[..] == WorkAt(before, i, q);
      WorkFits(before, i, q, b);
      WorkIsStep(before, i, q, b);
      TopDown(C, Columns32(before, b), n, b, q);
      i := i - 1;
    }
    ghost var before := X[..];
    if Meets(X[0], Q) {
      X[0] := Xor32(X[0], P);
    }
    WorkZero(before, q);
    assert X[..] == WorkAt(before, 0, q);
    WorkFits(before, 0, q, b);
    WorkIsStep(before, 0, q, b);
    TopDown(C, Columns32(before, b), n, b, q);
  }

  lemma LevelLength(C: Columns, n: nat, b: nat, q: nat)
    requires Rect(C, n, b) && q < b
    ensures |Level(C, n, b, q)| == n
  {
  }

  lemma WorkZero(X: seq<Coord>, q: nat)
    requires |X| >= 1 && q <= 31
    ensures WorkAt(X, 0, q) == if Has(X[0], q) then X[0 := Xor32(X[0], Below(q))] else X
  {
    hide Has, Below;
    XorSelf(X[0], Below(q));
  }

  lemma XorSelf(x: Coord, m: Coord)
    ensures Xor32(x, And32(Xor32(x, x), m)) == x
  {
  }

  /** Undo excess work: from Gray-decoded columns to axes. */
  method UndoExcessWork(X: array<Coord>, b: nat)
    requires X.Length >= 1 && 1 <= b <= 30 && Within(X[..], b)
    modifies X
    ensures Within(X[..], b)
    ensures Columns32(X[..], b) == Axes(X.Length, b, Columns32(old(X[..]), b))
  {
    hide Fits, OneAt, Double, ShiftLeft, BitsOf, Top, Low, Level, Turn, Axes;
    ghost var n, G, q := X.Length, Columns32(X[..], b), 1;
    var M := ShiftLeft(2, b - 1);
    ShiftedTwo(b);
    var Q := 2;
    OneAtTwo();
    LowRect(G, n, b, 1);
    AxesOne(n, Low(G, n, b, 1));
    while Q != M
      invariant 1 <= q <= b && Q == OneAt(q) && M == OneAt(b) && Within(X[..], b)
      invariant Rect(Low(G, n, b, q), n, q)
      invariant var C := Columns32(X[..], b);
                && Top(C, n, b, b - q) == Top(G, n, b, b - q)
                && Low(C, n, b, q) == Axes(n, q, Low(G, n, b, q))
      decreases b - q
    {
      ghost var C := Columns32(X[..], b);
      UndoLevel(X, Q, q, b);
      LevelDone(n, b, q, G, C, Columns32(X[..], b));
      LowRect(G, n, b, q + 1);
      OneAtNext(q);
      Q, q := Double(Q), q + 1;
    }
    OneAtDistinct(q, b);
    LowAll(G, n, b);
    LowAll(Columns32(X[..], b), n, b);
  }

  /** From the transposed index to the axis coordinates. */
  method TransposeToAxes(X: array<Coord>, b: nat)
    requires X.Length >= 1 && 1 <= b <= 30 && Within(X[..], b)
    modifies X
    ensures Within(X[..], b)
    ensures Columns32(X[..], b) == Curve(false, X.Length, b, Columns32(old(X[..]), b))
    ensures Axes32(X[..], b) == Point(X.Length, b, Number32(old(X[..]), b))
  {
    ghost var H := Columns32(X[..], b);
    GrayDecode(X, b);
    UndoExcessWork(X, b);
    PointOfColumns(X.Length, b, H);
  }

  /** The coordinates in the words. */
  function Axes32(X: seq<Coord>, b: nat): (p: seq<nat>)
    ensures |p| == |X|
  {
    Values(Columns32(X, b))
  }

  /** The Hilbert number whose transpose is in the words. */
  function Number32(X: seq<Coord>, b: nat): nat
  {
    Num(Interleave(|X|, b, Columns32(X, b)))
  }

  lemma PointOfColumns(n: nat, b: nat, H: Columns)
    requires n >= 1 && Rect(H, n, b)
    ensures Point(n, b, Num(Interleave(n, b, H))) == Values(Curve(false, n, b, H))
  {
    hide Interleave, Deinterleave, Curve, Num, ToBits, Width;
    ToBitsNum(Interleave(n, b, H));
    DeinterleaveInterleave(n, b, H);
  }

  /** Two arrays with consecutive numbers become coordinates one unit apart. */
  method ConsecutiveNumbers(X: array<Coord>, Y: array<Coord>, b: nat)
    requires X != Y && X.Length == Y.Length >= 1 && 1 <= b <= 30 && Within(X[..], b) && Within(Y[..], b)
    requires Number32(Y[..], b) == Number32(X[..], b) + 1
    modifies X, Y
    ensures Distance(Axes32(X[..], b), Axes32(Y[..], b)) == 1
  {
    hide Columns32, Curve, Number32, Axes32, Fits, Within;
    ghost var n, h, Y0 := X.Length, Number32(X[..], b), Y[..];
    NumberBound(Y0, b);
    TransposeToAxes(X, b);
    assert Y[..] == Y0;
    ghost var X1 := X[..];
    TransposeToAxes(Y, b);
    assert X[..] == X1;
    ghost var k := Neighbours(n, b, h);
  }

  lemma NumberBound(X: seq<Coord>, b: nat)
    ensures Number32(X, b) < Pow2(Width(|X|, b))
  {
    NumBound(Interleave(|X|, b, Columns32(X, b)));
  }

  // ----- inverse undo

  /** The work of one level undone, axis 0 up to axis `n - 1`. */
  method RedoLevel(X: array<Coord>, Q: Coord, ghost q: nat, ghost b: nat)
    requires X.Length >= 1 && 1 <= q < b <= 31 && Q == OneAt(q) && Within(X[..], b)
    modifies X
    ensures Within(X[..], b)
    ensures var n, C, D := X.Length, Columns32(old(X[..]), b), Columns32(X[..], b);
            && Top(D, n, b, b - q) == Top(C, n, b, b - q)
            && Low(D, n, b, q) == UnTurn(Level(C, n, b, q), n - 1, Low(C, n, b, q))
  {
    hide Fits, Xor32, And32, Less1, OneAt, Meets, BitsOf, Step, Top, Low, Level;
    var n := X.Length;
    ghost var start := X[..];
    ghost var C := Columns32(X[..], b);
    ghost var g := Level(C, n, b, q);
    LevelLength(C, n, b, q);
    LowRect(C, n, b, q);
    var P := Less1(Q);
    if Meets(X[0], Q) {
      X[0] := Xor32(X[0], P);
    }
    WorkZero(start, q);
    assert X[..] == WorkAt(start, 0, q);
    WorkFits(start, 0, q, b);
    WorkIsStep(start, 0, q, b);
    var i := 1;
    while i < n
      invariant 1 <= i <= n && Within(X[..], b)
      invariant var D := Columns32(X[..], b);
                && Top(D, n, b, b - q) == Top(C, n, b, b - q)
                && Low(D, n, b, q) == UnTurn(g, i - 1, Low(C, n, b, q))
    {
      ghost var before := X[..];
      if Meets(X[i], Q) {
        X[0] := Xor32(X[0], P);
      } else {
        var t := And32(Xor32(X[0], X[i]), P);
        X[0] := Xor32(X[0], t);
        X[i] := Xor32(X[i], t);
      }
      assert X[..] == WorkAt(before, i, q);
      WorkFits(before, i, q, b);
      WorkIsStep(before, i, q, b);
      TopDown(C, Columns32(before, b), n, b, q);
      i := i + 1;
    }
  }

  lemma LevelUndone(n: nat, b: nat, q: nat, U: Columns, C: Columns, D: Columns)
    requires n >= 1 && q < b && Rect(U, n, b) && Rect(C, n, b) && Rect(D, n, b)
    requires Top(C, n, b, b - q - 1) == Top(U, n, b, b - q - 1)
    requires UnAxes(n, q + 1, Low(C, n, b, q + 1)) == Low(U, n, b, q + 1)
    requires Top(D, n, b, b - q) == Top(C, n, b, b - q)
    requires Low(D, n, b, q) == UnTurn(Level(C, n, b, q), n - 1, Low(C, n, b, q))
    ensures Top(D, n, b, b - q) == Top(U, n, b, b - q)
    ensures UnAxes(n, q, Low(D, n, b, q)) == Low(U, n, b, q)
  {
    hide UnTurn, Low, Level, Top, Stack, Heads, Tails;
    TopDown(C, U, n, b, q);
    LowStack(U, n, b, q);
    LowStack(C, n, b, q);
    LowRect(C, n, b, q + 1);
    LowRect(D, n, b, q);
    HeadsTailsStack(Level(C, n, b, q), UnAxes(n, q, Low(D, n, b, q)));
  }

  /** Inverse undo: from axes to Gray-decoded columns. */
  method RedoExcessWork(X: array<Coord>, b: nat)
    requires X.Length >= 1 && 1 <= b <= 31 && Within(X[..], b)
    modifies X
    ensures Within(X[..], b)
    ensures Columns32(X[..], b) == UnAxes(X.Length, b, Columns32(old(X[..]), b))
  {
    hide Fits, OneAt, Half, AboveOne, ShiftLeft, BitsOf, Top, Low, Level, UnTurn, UnAxes;
    ghost var n, Y, q := X.Length, Columns32(X[..], b), b - 1;
    ghost var U := UnAxes(n, b, Y);
    UnAxesRect(n, b, Y);
    var Q := ShiftLeft(1, b - 1);
    ShiftedOne(b - 1);
    LowAll(Y, n, b);
    LowAll(U, n, b);
    TopNone(Y, U, n, b);
    LowRect(Y, n, b, b);
    while AboveOne(Q)
      invariant 0 <= q < b && Q == OneAt(q) && Within(X[..], b)
      invariant var C := Columns32(X[..], b);
                && Rect(Low(C, n, b, q + 1), n, q + 1)
                && Top(C, n, b, b - q - 1) == Top(U, n, b, b - q - 1)
                && UnAxes(n, q + 1, Low(C, n, b, q + 1)) == Low(U, n, b, q + 1)
      decreases q
    {
      AboveOneAt(q);
      ghost var C := Columns32(X[..], b);
      RedoLevel(X, Q, q, b);
      LevelUndone(n, b, q, U, C, Columns32(X[..], b));
      LowRect(Columns32(X[..], b), n, b, q);
      HalfOneAt(q - 1);
      Q, q := Half(Q), q - 1;
    }
    AboveOneAt(q);
    ghost var C := Columns32(X[..], b);
    AxesOne(n, Low(C, n, b, 1));
    SplitColumns(C, U, n, b, 1);
  }

  lemma UnAxesRect(n: nat, b: nat, Y: Columns)
    requires n >= 1 && Rect(Y, n, b)
    ensures Rect(UnAxes(n, b, Y), n, b)
  {
  }

  lemma TopNone(C: Columns, D: Columns, n: nat, b: nat)
    requires Rect(C, n, b) && Rect(D, n, b)
    ensures Top(C, n, b, 0) == Top(D, n, b, 0)
  {
  }

  lemma ShiftedOne(q: nat) requires q <= 31 ensures ShiftLeft(1, q) == OneAt(q) { }

  predicate AboveOne(Q: Coord) { Q > 1 }

  lemma AboveOneAt(q: nat) requires q <= 31 ensures AboveOne(OneAt(q)) <==> q >= 1 { }

  lemma HalfOneAt(q: nat)
    requires q <= 29
    ensures Half(OneAt(q + 1)) == OneAt(q)
  {
    hide OneAt, Half, Double, Small;
    OneAtNext(q);
    OneAtSmall(q);
    HalfDouble(OneAt(q));
  }

  lemma HalfDouble(m: Coord) requires Small(m) ensures Half(Double(m)) == m { }

  // ----- Gray encode

  /** `s ^ (s >> 1) ^ ... ^ (s >> (i - 1))`. */
  function Fold(s: Word, i: nat): (r: Word)
    requires i >= 1
    ensures |r| == |s|
    decreases i
  {
    if i == 1 then s else Xor(Fold(s, i - 1), Shift(s, i - 1))
  }

  lemma {:induction false} ShiftXor(s: Word, t: Word, i: nat)
    requires |s| == |t|
    ensures Shift(Xor(s, t), i) == Xor(Shift(s, i), Shift(t, i))
    decreases i
  {
    if i > 0 {
      ShiftXor(s, t, i - 1);
      assert ShiftIn(false, Xor(Shift(s, i - 1), Shift(t, i - 1)))
          == Xor(ShiftIn(false, Shift(s, i - 1)), ShiftIn(false, Shift(t, i - 1)));
    }
  }

  lemma {:induction false} FoldAdd(s: Word, i: nat, j: nat)
    requires i >= 1 && j >= 1
    ensures Fold(s, i + j) == Xor(Fold(s, i), Shift(Fold(s, j), i))
    decreases j
  {
    if j > 1 {
      FoldAdd(s, i, j - 1);
      ShiftAdd(s, j - 1, i);
      ShiftXor(Fold(s, j - 1), Shift(s, j - 1), i);
    }
  }

  lemma {:induction false} ShiftOut(s: Word, i: nat, k: nat)
    requires k < |s|
    ensures Shift(s, i)[k] == (k >= i && s[k - i])
    decreases i
  {
    if i > 0 && k > 0 { ShiftOut(s, i - 1, k - 1); }
  }

  /** Once the doubling has passed the width, the fold is the bit-by-bit running xor. */
  lemma FoldIsRunningXor(s: Word, i: nat)
    requires i >= 1 && i >= |s|
    ensures Xor(Fold(s, i), ShiftIn(false, Fold(s, i))) == s
    ensures Fold(s, i) == UnGrayWord(false, s)
  {
    var S := Fold(s, i);
    FoldAdd(s, 1, i);
    ShiftOne(S);
    assert Fold(s, i + 1) == Xor(S, Shift(s, i));
    assert Xor(S, Shift(s, i)) == S by {
      forall k | 0 <= k < |s| ensures !Shift(s, i)[k] { ShiftOut(s, i, k); }
    }
    assert S == Xor(s, ShiftIn(false, S));
    assert Xor(S, ShiftIn(false, S)) == s;
    GrayWordIsXor(false, S);
    GrayWordInverse(false, S);
  }

  /** The shift-doubling loop: every bit becomes the xor of the bits at and above it. */
  method SpreadDown(x: Coord, b: nat) returns (y: Coord)
    requires 1 <= b <= 31 && Fits(x, b)
    ensures Fits(y, b)
    ensures BitsOf(y, b) == UnGrayWord(false, BitsOf(x, b))
  {
    hide Fits, Xor32, ShiftRight, BitsOf, Fold;
    ghost var s := BitsOf(x, b);
    BitsLength(x, b);
    y := x;
    FoldOne(s);
    var i := 1;
    while i < b
      invariant Doubling(i) || i == 32
      invariant Fits(y, b) && BitsOf(y, b) == Fold(s, i)
      decreases 32 - i
    {
      BitsShift(y, i, b);
      BitsXor(y, ShiftRight(y, i), b);
      FitsXor(y, ShiftRight(y, i), b);
      FoldAdd(s, i, i);
      y := Xor32(y, ShiftRight(y, i));
      i := 2 * i;
    }
    FoldIsRunningXor(s, i);
  }

  lemma FoldOne(s: Word) ensures Fold(s, 1) == s { }

  function Running(G: seq<Coord>, j: nat): Coord
    requires j < |G|
  {
    if j == 0 then G[0] else Xor32(G[j], Running(G, j - 1))
  }

  lemma RunningNext(G: seq<Coord>, j: nat)
    requires j + 1 < |G|
    ensures Running(G, j + 1) == Xor32(G[j + 1], Running(G, j))
  {
  }

  lemma RunningFirst(G: seq<Coord>) requires |G| >= 1 ensures Running(G, 0) == G[0] { }

  /** The first loop of Gray encode. */
  method RunningXor(X: array<Coord>)
    requires X.Length >= 1
    modifies X
    ensures forall j :: 0 <= j < X.Length ==> X[j] == Running(old(X[..]), j)
  {
    hide Xor32;
    ghost var G := X[..];
    var i := 1;
    while i < X.Length
      invariant 1 <= i <= X.Length
      invariant forall j :: i <= j < X.Length ==> X[j] == G[j]
      invariant forall j :: 0 <= j < i ==> X[j] == Running(G, j)
    {
      X[i] := Xor32(X[i], X[i - 1]);
      i := i + 1;
    }
  }

  /** Gray encode: the columns whose transposed Gray code `X` was. */
  method GrayEncode(X: array<Coord>, b: nat)
    requires X.Length >= 1 && 1 <= b <= 31 && Within(X[..], b)
    modifies X
    ensures Within(X[..], b)
    ensures Columns32(X[..], b) == UnGray(false, X.Length, b, Columns32(old(X[..]), b))
  {
    hide Fits, Xor32, BitsOf, UnGray, UnGrayWord, Columns32, Running;
    var n := X.Length;
    ghost var G := X[..];
    RunningXor(X);
    ghost var Y := X[..];
    RunningFits(G, Y, b);
    var t := X[n - 1];
    X[n - 1] := SpreadDown(X[n - 1], b);
    t := Xor32(t, X[n - 1]);
    ghost var Z := X[..];
    var i := n - 2;
    while i >= 0
      invariant -1 <= i <= n - 2
      invariant X[n - 1] == Z[n - 1]
      invariant forall j :: 0 <= j <= i ==> X[j] == Z[j]
      invariant forall j :: i < j < n - 1 ==> X[j] == Xor32(Z[j], t)
    {
      X[i] := Xor32(X[i], t);
      i := i - 1;
    }
    GrayEncodeColumns(G, Y, X[..], t, b);
  }

  lemma {:induction false} RunningFits(G: seq<Coord>, Y: seq<Coord>, b: nat)
    requires |G| == |Y| >= 1 && b <= 31 && Within(G, b)
    requires forall j :: 0 <= j < |G| ==> Y[j] == Running(G, j)
    ensures Within(Y, b)
  {
    hide Fits, Xor32, Running;
    RunningFirst(G);
    var k := 0;
    while k + 1 < |Y|
      invariant 0 <= k < |Y|
      invariant forall j :: 0 <= j <= k ==> Fits(Y[j], b)
    {
      RunningNext(G, k);
      FitsXor(G[k + 1], Y[k], b);
      k := k + 1;
    }
  }

  lemma XorTwice(x: Coord, y: Coord, t: Coord)
    ensures Xor32(Xor32(Xor32(x, y), t), Xor32(y, t)) == x
  {
  }

  lemma XorBack(y: Coord, z: Coord) ensures Xor32(y, Xor32(y, z)) == z { }

  lemma GrayEncodeColumns(G: seq<Coord>, Y: seq<Coord>, H: seq<Coord>, t: Coord, b: nat)
    requires |G| == |Y| == |H| >= 1 && 1 <= b <= 31 && Within(G, b) && Within(Y, b)
    requires forall j :: 0 <= j < |G| ==> Y[j] == Running(G, j)
    requires forall j :: 0 <= j < |G| - 1 ==> H[j] == Xor32(Y[j], t)
    requires Fits(H[|G| - 1], b) && t == Xor32(Y[|G| - 1], H[|G| - 1])
    requires BitsOf(H[|G| - 1], b) == UnGrayWord(false, BitsOf(Y[|G| - 1], b))
    ensures Within(H, b)
    ensures Columns32(H, b) == UnGray(false, |G|, b, Columns32(G, b))
  {
    hide Fits, Xor32, BitsOf, UnGray, UnGrayWord, Gray, Running, Xor, ShiftIn;
    var n := |G|;
    RunningFirst(G);
    FitsXor(Y[n - 1], H[n - 1], b);
    XorBack(Y[n - 1], H[n - 1]);
    forall j | 0 <= j < n ensures Fits(H[j], b) && H[j] == Xor32(Y[j], t) {
      FitsXor(Y[j], t, b);
    }
    var C, D := Columns32(H, b), Columns32(G, b);
    forall j | 0 <= j < n ensures |Gray(false, C)| == n && Gray(false, C)[j] == D[j] {
      if j > 0 { RunningNext(G, j - 1); }
      EncodedColumn(G, Y, H, t, b, j);
    }
    assert Gray(false, C) == D;
    UnGrayGray(false, n, b, C);
  }

  lemma EncodedColumn(G: seq<Coord>, Y: seq<Coord>, H: seq<Coord>, t: Coord, b: nat, j: nat)
    requires j < |G| == |Y| == |H|
    requires Y[0] == G[0] && (j > 0 ==> Y[j] == Xor32(G[j], Y[j - 1]))
    requires forall i :: 0 <= i < |G| ==> H[i] == Xor32(Y[i], t)
    requires t == Xor32(Y[|G| - 1], H[|G| - 1])
    requires BitsOf(H[|G| - 1], b) == UnGrayWord(false, BitsOf(Y[|G| - 1], b))
    ensures |Gray(false, Columns32(H, b))| == |H|
    ensures Gray(false, Columns32(H, b))[j] == BitsOf(G[j], b)
  {
    hide Xor32, BitsOf, UnGrayWord, Gray, Xor, ShiftIn;
    GrayAt(false, Columns32(H, b), j);
    if j > 0 {
      LowerColumn(G[j], Y[j - 1], t, b);
    } else {
      TopColumn(Y[|G| - 1], H[|G| - 1], t, b);
      FirstColumn(G[0], t, b);
    }
  }

  lemma LowerColumn(g: Coord, y: Coord, t: Coord, b: nat)
    ensures |BitsOf(Xor32(Xor32(g, y), t), b)| == |BitsOf(Xor32(y, t), b)|
    ensures Xor(BitsOf(Xor32(Xor32(g, y), t), b), BitsOf(Xor32(y, t), b)) == BitsOf(g, b)
  {
    hide Xor32, Xor;
    XorTwice(g, y, t);
    BitsXor(Xor32(Xor32(g, y), t), Xor32(y, t), b);
  }

  lemma FirstColumn(g: Coord, t: Coord, b: nat)
    ensures |BitsOf(Xor32(g, t), b)| == |BitsOf(t, b)|
    ensures Xor(BitsOf(Xor32(g, t), b), BitsOf(t, b)) == BitsOf(g, b)
  {
    hide Xor32;
    BitsXor(g, t, b);
    XorXor(BitsOf(g, b), BitsOf(t, b));
  }

  lemma XorXor(s: Word, t: Word)
    requires |s| == |t|
    ensures Xor(Xor(s, t), t) == s
  {
  }

  lemma TopColumn(y: Coord, h: Coord, t: Coord, b: nat)
    requires t == Xor32(y, h) && BitsOf(h, b) == UnGrayWord(false, BitsOf(y, b))
    ensures BitsOf(t, b) == ShiftIn(false, BitsOf(h, b))
  {
    hide Xor32, BitsOf, UnGrayWord, GrayWord;
    var s, S := BitsOf(y, b), BitsOf(h, b);
    BitsLength(y, b);
    BitsLength(h, b);
    BitsXor(y, h, b);
    GrayWordInverse(false, s);
    GrayWordIsXor(false, S);
    assert Xor(s, S) == ShiftIn(false, S);
  }

  /** From the axis coordinates to the transposed index. */
  method AxesToTranspose(X: array<Coord>, b: nat)
    requires X.Length >= 1 && 1 <= b <= 31 && Within(X[..], b)
    modifies X
    ensures Within(X[..], b)
    ensures Columns32(X[..], b) == UnCurve(X.Length, b, Columns32(old(X[..]), b))
    ensures Number32(X[..], b) == Index(X.Length, b, Axes32(old(X[..]), b))
  {
    ghost var Y := Columns32(X[..], b);
    RedoExcessWork(X, b);
    GrayEncode(X, b);
    EncodeValues(X.Length, b, Y);
  }

  /** The validation of the sample program: transforming there and back restores every word. */
  method ThereAndBack(X: array<Coord>, b: nat)
    requires X.Length >= 1 && 1 <= b <= 30 && Within(X[..], b)
    modifies X
    ensures X[..] == old(X[..])
  {
    hide Curve, UnCurve;
    ghost var Y := X[..];
    AxesToTranspose(X, b);
    TransposeToAxes(X, b);
    CurveInverse(X.Length, b, Columns32(Y, b));
    SameWords(Y, X[..], b);
  }

  lemma SameWords(X: seq<Coord>, Y: seq<Coord>, b: nat)
    requires |X| == |Y| && b <= 31 && Within(X, b) && Within(Y, b)
    requires Columns32(X, b) == Columns32(Y, b)
    ensures X == Y
  {
    hide Fits, BitsOf;
    forall i | 0 <= i < |X| ensures X[i] == Y[i] {
      assert Columns32(X, b)[i] == Columns32(Y, b)[i];
      BitsDetermine(X[i], Y[i], b);
    }
  }

  // ----- the sample program: three dimensions, five bits

  /** `(x >> q & 1) << place`. */
  function Placed(x: Coord, q: nat, place: nat): nat
    requires q <= 31
  {
    if Odd(ShiftRight(x, q)) then Pow2(place) else 0
  }

  /** The sample program: coordinates in, Hilbert integer out. */
  method SampleProgram(X: array<Coord>) returns (H: nat)
    requires X.Length == 3 && Within(X[..], 5)
    modifies X
    ensures H == Index(3, 5, Values(Columns32(old(X[..]), 5)))
  {
    hide Columns32, Placed, Interleave, UnCurve, Encode, Num;
    ghost var Y := Columns32(X[..], 5);
    Columns32Rect(X[..], 5);
    AxesToTranspose(X, 5);
    H := Placed(X[2], 0,  0) + Placed(X[1], 0,  1) + Placed(X[0], 0,  2) +
         Placed(X[2], 1,  3) + Placed(X[1], 1,  4) + Placed(X[0], 1,  5) +
         Placed(X[2], 2,  6) + Placed(X[1], 2,  7) + Placed(X[0], 2,  8) +
         Placed(X[2], 3,  9) + Placed(X[1], 3, 10) + Placed(X[0], 3, 11) +
         Placed(X[2], 4, 12) + Placed(X[1], 4, 13) + Placed(X[0], 4, 14);
    PackingIsInterleaving(X[..]);
    EncodeValues(3, 5, Y);
  }

  lemma Columns32Rect(X: seq<Coord>, b: nat) ensures Rect(Columns32(X, b), |X|, b) { }

  lemma {:induction false} NumAppend(s: Word, t: Word)
    ensures Num(s + t) == Num(s) * Pow2(|t|) + Num(t)
    decreases |t|
  {
    if t == [] {
      assert s + t == s;
    } else {
      var r := t[..|t| - 1];
      NumAppend(s, r);
      assert (s + t)[..|s + t| - 1] == s + r;
      assert Num(s) * (2 * Pow2(|r|)) == 2 * (Num(s) * Pow2(|r|));
    }
  }

  lemma ShiftRightZero(x: Coord) ensures ShiftRight(x, 0) == x { }
  lemma ShiftRight2(x: Coord) ensures ShiftRight(x, 2) == Half(Half(x)) { }
  lemma ShiftRight3(x: Coord) ensures ShiftRight(x, 3) == Half(Half(Half(x))) { }
  lemma ShiftRight4(x: Coord) ensures ShiftRight(x, 4) == Half(Half(Half(Half(x)))) { }

  lemma FiveBits(x: Coord)
    ensures BitsOf(x, 5) == [Odd(ShiftRight(x, 4)), Odd(ShiftRight(x, 3)), Odd(ShiftRight(x, 2)),
                             Odd(ShiftRight(x, 1)), Odd(ShiftRight(x, 0))]
  {
    hide Half, Odd, ShiftRight;
    ShiftRightZero(x);
    ShiftRightOne(x);
    ShiftRight2(x);
    ShiftRight3(x);
    ShiftRight4(x);
    var x1 := Half(x);
    var x2 := Half(x1);
    var x3 := Half(x2);
    var x4 := Half(x3);
    assert BitsOf(x4, 1) == [Odd(x4)];
    assert BitsOf(x3, 2) == [Odd(x4), Odd(x3)];
    assert BitsOf(x2, 3) == [Odd(x4), Odd(x3), Odd(x2)];
    assert BitsOf(x1, 4) == [Odd(x4), Odd(x3), Odd(x2), Odd(x1)];
  }

  lemma FiveBitsAt(x: Coord, q: nat)
    requires q <= 4
    ensures |BitsOf(x, 5)| == 5 && BitsOf(x, 5)[4 - q] == Odd(ShiftRight(x, q))
  {
    hide Odd, ShiftRight, BitsOf;
    FiveBits(x);
  }

  function Triple(d0: bool, d1: bool, d2: bool): nat { 4 * Digit(d0) + 2 * Digit(d1) + Digit(d2) }

  lemma NumThree(w: Word)
    requires |w| == 3
    ensures Num(w) == Triple(w[0], w[1], w[2])
  {
    assert w[..2][..1] == w[..1];
    assert w[..1][..0] == [];
    assert Num(w[..1]) == Digit(w[0]);
    assert Num(w[..2]) == 2 * Digit(w[0]) + Digit(w[1]);
  }

  /** The number of three columns, one level split off. */
  lemma NumLevel(b: nat, H: Columns)
    requires b >= 1 && Rect(H, 3, b)
    ensures Num(Interleave(3, b, H))
         == Triple(H[0][0], H[1][0], H[2][0]) * Pow2(Width(3, b - 1)) + Num(Interleave(3, b - 1, Tails(H)))
  {
    hide Num, Pow2, Tails;
    PartsRect(H, 3, b);
    NumAppend(Heads(H), Interleave(3, b - 1, Tails(H)));
    NumThree(Heads(H));
  }

  /** The weighted sum of the sample program is the number of the interleaved bits. */
  lemma PackingIsInterleaving(X: seq<Coord>)
    requires |X| == 3
    ensures Num(Interleave(3, 5, Columns32(X, 5)))
         == Placed(X[2], 0,  0) + Placed(X[1], 0,  1) + Placed(X[0], 0,  2) +
            Placed(X[2], 1,  3) + Placed(X[1], 1,  4) + Placed(X[0], 1,  5) +
            Placed(X[2], 2,  6) + Placed(X[1], 2,  7) + Placed(X[0], 2,  8) +
            Placed(X[2], 3,  9) + Placed(X[1], 3, 10) + Placed(X[0], 3, 11) +
            Placed(X[2], 4, 12) + Placed(X[1], 4, 13) + Placed(X[0], 4, 14)
  {
    hide Placed, Columns32, Num, Pow2, Interleave, Width, Tails;
    var C5 := Columns32(X, 5);
    Columns32Rect(X, 5);
    WidthsOfThree();
    PackedLevel(X, 4, C5);
    PackedLevel(X, 3, Tails(C5));
    PackedLevel(X, 2, Tails(Tails(C5)));
    PackedLevel(X, 1, Tails(Tails(Tails(C5))));
    PackedLevel(X, 0, Tails(Tails(Tails(Tails(C5)))));
    NumFlat(Tails(Tails(Tails(Tails(Tails(C5))))));
  }

  /** One level's share of the sum; `C` holds the bits at and below it. */
  lemma PackedLevel(X: seq<Coord>, q: nat, C: Columns)
    requires |X| == 3 && q <= 4 && Rect(C, 3, q + 1)
    requires forall j :: 0 <= j < 3 ==> C[j] == BitsOf(X[j], 5)[4 - q..]
    ensures Num(Interleave(3, q + 1, C))
         == Placed(X[0], q, Width(3, q) + 2) + Placed(X[1], q, Width(3, q) + 1)
            + Placed(X[2], q, Width(3, q)) + Num(Interleave(3, q, Tails(C)))
    ensures Rect(Tails(C), 3, q)
    ensures q > 0 ==> forall j :: 0 <= j < 3 ==> Tails(C)[j] == BitsOf(X[j], 5)[4 - (q - 1)..]
  {
    hide Odd, ShiftRight, BitsOf, Num, Interleave, Width, Triple, Placed, Pow2;
    NumLevel(q + 1, C);
    forall j | 0 <= j < 3 ensures C[j][0] == Odd(ShiftRight(X[j], q)) {
      FiveBitsAt(X[j], q);
    }
    PlacedThree(X, q, Width(3, q));
  }

  lemma PlacedThree(X: seq<Coord>, q: nat, p: nat)
    requires |X| == 3 && q <= 4
    ensures Triple(Odd(ShiftRight(X[0], q)), Odd(ShiftRight(X[1], q)), Odd(ShiftRight(X[2], q)))
            * Pow2(p)
         == Placed(X[0], q, p + 2) + Placed(X[1], q, p + 1) + Placed(X[2], q, p)
  {
    hide Odd, ShiftRight;
    assert Pow2(p + 2) == 4 * Pow2(p) && Pow2(p + 1) == 2 * Pow2(p);
  }

  lemma WidthsOfThree()
    ensures Width(3, 4) == 12 && Width(3, 3) == 9 && Width(3, 2) == 6
    ensures Width(3, 1) == 3 && Width(3, 0) == 0
  {
  }

  lemma NumFlat(H: Columns)
    requires Rect(H, 3, 0)
    ensures Num(Interleave(3, 0, H)) == 0
  {
  }
}
