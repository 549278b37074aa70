/** Skilling's transforms on `n` columns of `b` bits each: the Gray step, the excess work at
    every level, their inverses, and the laws that make the result a Hilbert curve.  A column
    is one word `X[i]` of the source, most significant bit first; row `p` of the columns is
    one level of the curve. */
module HilbertCurve {
  import opened Bits

  type Columns = seq<Word>

  predicate Rect(X: Columns, n: nat, b: nat)
  {
    |X| == n && forall i :: 0 <= i < n ==> |X[i]| == b
  }

  // ----- top level and the rest

  function Heads(X: Columns): (w: Word)
    requires forall i :: 0 <= i < |X| ==> |X[i]| > 0
    ensures |w| == |X| && forall i :: 0 <= i < |X| ==> w[i] == X[i][0]
  {
    seq(|X|, i requires 0 <= i < |X| => X[i][0])
  }

  function Tails(X: Columns): (Y: Columns)
    requires forall i :: 0 <= i < |X| ==> |X[i]| > 0
    ensures |Y| == |X| && forall i :: 0 <= i < |X| ==> Y[i] == X[i][1..]
  {
    seq(|X|, i requires 0 <= i < |X| => X[i][1..])
  }

  function Stack(w: Word, Y: Columns): (X: Columns)
    requires |w| == |Y|
    ensures |X| == |Y| && forall i :: 0 <= i < |X| ==> X[i] == [w[i]] + Y[i]
  {
    seq(|Y|, i requires 0 <= i < |Y| => [w[i]] + Y[i])
  }

  lemma StackHeadsTails(X: Columns)
    requires forall i :: 0 <= i < |X| ==> |X[i]| > 0
    ensures Stack(Heads(X), Tails(X)) == X
  {
    forall i | 0 <= i < |X| ensures Stack(Heads(X), Tails(X))[i] == X[i] {
      assert X[i] == [X[i][0]] + X[i][1..];
    }
  }

  lemma HeadsTailsStack(w: Word, Y: Columns)
    requires |w| == |Y|
    ensures Heads(Stack(w, Y)) == w && Tails(Stack(w, Y)) == Y
  {
  }

  // ----- the excess work at one level

  /** The work at level word `g` on axis `i`: reflect axis 0, or exchange axes 0 and `i`.
      For `i == 0` the exchange does nothing. */
  function Step(g: Word, i: nat, Y: Columns): (Z: Columns)
    requires i < |Y| == |g|
    ensures |Z| == |Y|
  {
    if g[i] then Y[0 := Not(Y[0])] else Y[0 := Y[i]][i := Y[0]]
  }

  /** Steps `i, i - 1, ..., 0`: the order of `TransposetoAxes`. */
  function Turn(g: Word, i: nat, Y: Columns): (Z: Columns)
    requires i < |Y| == |g|
    ensures |Z| == |Y|
    decreases i
  {
    var Z := Step(g, i, Y);
    if i == 0 then Z else Turn(g, i - 1, Z)
  }

  /** Steps `0, 1, ..., i`: the order of `AxestoTranspose`. */
  function UnTurn(g: Word, i: nat, Y: Columns): (Z: Columns)
    requires i < |Y| == |g|
    ensures |Z| == |Y|
    decreases i
  {
    Step(g, i, if i == 0 then Y else UnTurn(g, i - 1, Y))
  }

  lemma StepInvolution(g: Word, i: nat, Y: Columns)
    requires i < |Y| == |g|
    ensures Step(g, i, Step(g, i, Y)) == Y
  {
    assert Not(Not(Y[0])) == Y[0];
  }

  lemma StepRect(g: Word, i: nat, Y: Columns, b: nat)
    requires i < |Y| == |g| && Rect(Y, |Y|, b)
    ensures Rect(Step(g, i, Y), |Y|, b)
  {
  }

  lemma {:induction false} TurnInverse(g: Word, i: nat, Y: Columns)
    requires i < |Y| == |g|
    ensures UnTurn(g, i, Turn(g, i, Y)) == Y
    ensures Turn(g, i, UnTurn(g, i, Y)) == Y
    decreases i
  {
    if i == 0 {
      StepInvolution(g, 0, Y);
    } else {
      TurnInverse(g, i - 1, Step(g, i, Y));
      StepInvolution(g, i, Y);
      StepInvolution(g, i, UnTurn(g, i - 1, Y));
      TurnInverse(g, i - 1, Y);
    }
  }

  lemma {:induction false} TurnRect(g: Word, i: nat, Y: Columns, b: nat)
    requires i < |Y| == |g| && Rect(Y, |Y|, b)
    ensures Rect(Turn(g, i, Y), |Y|, b) && Rect(UnTurn(g, i, Y), |Y|, b)
    decreases i
  {
    StepRect(g, i, Y, b);
    if i > 0 {
      TurnRect(g, i - 1, Step(g, i, Y), b);
      TurnRect(g, i - 1, Y, b);
      StepRect(g, i, UnTurn(g, i - 1, Y), b);
    }
  }

  // ----- all levels

  /** From Gray-decoded columns to axis coordinates: the top level stays, and it turns the
      coordinates the lower levels give. */
  function Axes(n: nat, b: nat, G: Columns): (Y: Columns)
    requires n >= 1 && Rect(G, n, b)
    ensures Rect(Y, n, b)
    decreases b
  {
    if b == 0 then G else
      var g := Heads(G);
      var low := Axes(n, b - 1, Tails(G));
      TurnRect(g, n - 1, low, b - 1);
      Stack(g, Turn(g, n - 1, low))
  }

  function UnAxes(n: nat, b: nat, Y: Columns): (G: Columns)
    requires n >= 1 && Rect(Y, n, b)
    ensures Rect(G, n, b)
    decreases b
  {
    if b == 0 then Y else
      var g := Heads(Y);
      TurnRect(g, n - 1, Tails(Y), b - 1);
      Stack(g, UnAxes(n, b - 1, UnTurn(g, n - 1, Tails(Y))))
  }

  lemma {:induction false} UnAxesAxes(n: nat, b: nat, X: Columns)
    requires n >= 1 && Rect(X, n, b)
    ensures UnAxes(n, b, Axes(n, b, X)) == X
    decreases b
  {
    hide Heads, Tails, Stack, Turn, UnTurn;
    if b > 0 {
      var g := Heads(X);
      var low := Axes(n, b - 1, Tails(X));
      TurnRect(g, n - 1, low, b - 1);
      HeadsTailsStack(g, Turn(g, n - 1, low));
      TurnInverse(g, n - 1, low);
      UnAxesAxes(n, b - 1, Tails(X));
      StackHeadsTails(X);
    }
  }

  lemma {:induction false} AxesUnAxes(n: nat, b: nat, X: Columns)
    requires n >= 1 && Rect(X, n, b)
    ensures Axes(n, b, UnAxes(n, b, X)) == X
    decreases b
  {
    hide Heads, Tails, Stack, Turn, UnTurn;
    if b > 0 {
      var g := Heads(X);
      TurnRect(g, n - 1, Tails(X), b - 1);
      var back := UnTurn(g, n - 1, Tails(X));
      HeadsTailsStack(g, UnAxes(n, b - 1, back));
      AxesUnAxes(n, b - 1, back);
      TurnInverse(g, n - 1, Tails(X));
      StackHeadsTails(X);
    }
  }

  // ----- Gray code

  function GrayWord(c: bool, w: Word): (g: Word)
    ensures |g| == |w|
    decreases |w|
  {
    if w == [] then [] else [w[0] != c] + GrayWord(w[0], w[1..])
  }

  lemma {:induction false} GrayWordAt(c: bool, w: Word, k: nat)
    requires k < |w|
    ensures GrayWord(c, w)[k] == (w[k] != if k == 0 then c else w[k - 1])
    decreases k
  {
    if k > 0 { GrayWordAt(w[0], w[1..], k - 1); }
  }

  /** What the loop of `TransposetoAxes` leaves in column `i`; `c` is the bit moving in above
      the top level. */
  function GrayColumn(c: bool, H: Columns, i: nat): (w: Word)
    requires i < |H| && Rect(H, |H|, |H[0]|)
    ensures |w| == |H[0]|
  {
    Xor(H[i], if i == 0 then ShiftIn(c, H[|H| - 1]) else H[i - 1])
  }

  function Gray(c: bool, H: Columns): (G: Columns)
    requires |H| >= 1 && Rect(H, |H|, |H[0]|)
    ensures Rect(G, |H|, |H[0]|)
    ensures forall i :: 0 <= i < |H| ==> G[i] == GrayColumn(c, H, i)
  {
    seq(|H|, i requires 0 <= i < |H| => GrayColumn(c, H, i))
  }

  function UnGrayWord(c: bool, g: Word): (w: Word)
    ensures |w| == |g|
    decreases |g|
  {
    if g == [] then [] else [g[0] != c] + UnGrayWord(g[0] != c, g[1..])
  }

  function UnGray(c: bool, n: nat, b: nat, G: Columns): (H: Columns)
    requires n >= 1 && Rect(G, n, b)
    ensures Rect(H, n, b)
    decreases b
  {
    if b == 0 then G else
      var w := UnGrayWord(c, Heads(G));
      Stack(w, UnGray(w[n - 1], n, b - 1, Tails(G)))
  }

  lemma XorCons(s: Word, t: Word)
    requires |s| == |t| > 0
    ensures Xor(s, t) == [s[0] != t[0]] + Xor(s[1..], t[1..])
  {
  }

  lemma ShiftInCons(c: bool, s: Word)
    requires |s| > 0
    ensures ShiftIn(c, s) == [c] + ShiftIn(s[0], s[1..])
  {
    assert [s[0]] + s[1..] == s;
  }

  lemma GrayUnfold(c: bool, H: Columns)
    requires |H| >= 1 && Rect(H, |H|, |H[0]|) && |H[0]| > 0
    ensures Gray(c, H) == Stack(GrayWord(c, Heads(H)), Gray(H[|H| - 1][0], Tails(H)))
  {
    hide Xor, ShiftIn, Gray, GrayWord, Stack;
    forall i | 0 <= i < |H|
      ensures Gray(c, H)[i] == Stack(GrayWord(c, Heads(H)), Gray(H[|H| - 1][0], Tails(H)))[i]
    {
      GrayUnfoldAt(c, H, i);
    }
  }

  lemma GrayUnfoldAt(c: bool, H: Columns, i: nat)
    requires |H| >= 1 && Rect(H, |H|, |H[0]|) && |H[0]| > 0 && i < |H|
    ensures Gray(c, H)[i] == [GrayWord(c, Heads(H))[i]] + Gray(H[|H| - 1][0], Tails(H))[i]
  {
    hide Xor, ShiftIn, Gray, GrayWord;
    var last, low := H[|H| - 1], Tails(H);
    GrayWordAt(c, Heads(H), i);
    GrayAt(c, H, i);
    GrayAt(last[0], low, i);
    if i == 0 {
      ShiftInCons(c, last);
      XorCons(H[0], ShiftIn(c, last));
    } else {
      XorCons(H[i], H[i - 1]);
    }
  }

  lemma GrayAt(c: bool, H: Columns, i: nat)
    requires |H| >= 1 && Rect(H, |H|, |H[0]|) && i < |H|
    ensures |Gray(c, H)| == |H|
    ensures i == 0 ==> |ShiftIn(c, H[|H| - 1])| == |H[0]|
                       && Gray(c, H)[i] == Xor(H[0], ShiftIn(c, H[|H| - 1]))
    ensures i > 0 ==> Gray(c, H)[i] == Xor(H[i], H[i - 1])
  {
  }

  lemma {:induction false} GrayWordPrefix(c: bool, w: Word, m: nat)
    requires m <= |w|
    ensures GrayWord(c, w)[..m] == GrayWord(c, w[..m])
    decreases m
  {
    if m > 0 {
      GrayWordPrefix(w[0], w[1..], m - 1);
      assert w[..m][1..] == w[1..][..m - 1];
    }
  }

  lemma {:induction false} GrayWordInverse(c: bool, w: Word)
    ensures UnGrayWord(c, GrayWord(c, w)) == w
    ensures GrayWord(c, UnGrayWord(c, w)) == w
    decreases |w|
  {
    if w != [] {
      GrayWordInverse(w[0], w[1..]);
      GrayWordInverse(w[0] != c, w[1..]);
      assert w == [w[0]] + w[1..];
    }
  }

  lemma {:induction false} UnGrayGray(c: bool, n: nat, b: nat, X: Columns)
    requires n >= 1 && Rect(X, n, b)
    ensures UnGray(c, n, b, Gray(c, X)) == X
    decreases b
  {
    hide Heads, Tails, Stack, Gray, GrayWord, UnGrayWord;
    if b > 0 {
      var w := Heads(X);
      GrayUnfold(c, X);
      HeadsTailsStack(GrayWord(c, w), Gray(w[n - 1], Tails(X)));
      GrayWordInverse(c, w);
      UnGrayGray(w[n - 1], n, b - 1, Tails(X));
      StackHeadsTails(X);
    }
  }

  lemma {:induction false} GrayUnGray(c: bool, n: nat, b: nat, X: Columns)
    requires n >= 1 && Rect(X, n, b)
    ensures Gray(c, UnGray(c, n, b, X)) == X
    decreases b
  {
    hide Gray, UnGrayWord, UnGray, GrayWord, Stack;
    if b == 0 {
      GrayFlat(c, X);
      UnGrayFlat(c, n, X);
    } else {
      UnGrayWordLength(c, Heads(X));
      GrayUnGray(UnGrayWord(c, Heads(X))[n - 1], n, b - 1, Tails(X));
      GrayUnGrayStep(c, n, b, X);
    }
  }

  lemma GrayUnGrayStep(c: bool, n: nat, b: nat, X: Columns)
    requires n >= 1 && b >= 1 && Rect(X, n, b)
    requires var e := UnGrayWord(c, Heads(X))[n - 1];
             Gray(e, UnGray(e, n, b - 1, Tails(X))) == Tails(X)
    ensures Gray(c, UnGray(c, n, b, X)) == X
  {
    hide Heads, Tails, Stack, Gray, GrayWord, UnGrayWord, UnGray;
    var w := UnGrayWord(c, Heads(X));
    PartsRect(X, n, b);
    UnGrayWordLength(c, Heads(X));
    UnGrayUnfold(c, n, b, X);
    GrayStack(c, w, UnGray(w[n - 1], n, b - 1, Tails(X)), b - 1);
    GrayWordInverse(c, Heads(X));
    StackHeadsTails(X);
  }

  lemma UnGrayFlat(c: bool, n: nat, X: Columns)
    requires n >= 1 && Rect(X, n, 0)
    ensures UnGray(c, n, 0, X) == X
  {
  }

  lemma UnGrayUnfold(c: bool, n: nat, b: nat, X: Columns)
    requires n >= 1 && b >= 1 && Rect(X, n, b)
    ensures var w := UnGrayWord(c, Heads(X));
            && Rect(UnGray(w[n - 1], n, b - 1, Tails(X)), n, b - 1)
            && UnGray(c, n, b, X) == Stack(w, UnGray(w[n - 1], n, b - 1, Tails(X)))
  {
  }

  lemma GrayStack(c: bool, w: Word, Y: Columns, b: nat)
    requires |w| == |Y| >= 1 && Rect(Y, |Y|, b)
    ensures Rect(Stack(w, Y), |Y|, b + 1)
    ensures Gray(c, Stack(w, Y)) == Stack(GrayWord(c, w), Gray(w[|Y| - 1], Y))
  {
    hide Gray, GrayWord;
    HeadsTailsStack(w, Y);
    StackRect(w, Y, |Y|, b);
    GrayUnfold(c, Stack(w, Y));
  }

  lemma GrayFlat(c: bool, X: Columns)
    requires |X| >= 1 && Rect(X, |X|, 0)
    ensures Gray(c, X) == X
  {
  }

  lemma UnGrayWordLength(c: bool, g: Word)
    ensures |UnGrayWord(c, g)| == |g|
  {
  }

  lemma PartsRect(H: Columns, n: nat, b: nat)
    requires Rect(H, n, b) && b >= 1
    ensures |Heads(H)| == n && Rect(Tails(H), n, b - 1)
  {
  }

  lemma StackRect(w: Word, Y: Columns, n: nat, b: nat)
    requires |w| == n && Rect(Y, n, b)
    ensures Rect(Stack(w, Y), n, b + 1)
    ensures forall i :: 0 <= i < n ==> Stack(w, Y)[i][0] == w[i]
  {
  }

  // ----- the transposed index and the axes

  /** What `TransposetoAxes` computes, with `c` the bit above the top level. */
  function Curve(c: bool, n: nat, b: nat, H: Columns): (Y: Columns)
    requires n >= 1 && Rect(H, n, b)
    ensures Rect(Y, n, b)
  {
    Axes(n, b, Gray(c, H))
  }

  /** What `AxestoTranspose` computes. */
  function UnCurve(n: nat, b: nat, Y: Columns): (H: Columns)
    requires n >= 1 && Rect(Y, n, b)
    ensures Rect(H, n, b)
  {
    UnGray(false, n, b, UnAxes(n, b, Y))
  }

  /** The two transforms undo each other, both ways round. */
  lemma CurveInverse(n: nat, b: nat, X: Columns)
    requires n >= 1 && Rect(X, n, b)
    ensures UnCurve(n, b, Curve(false, n, b, X)) == X
    ensures Curve(false, n, b, UnCurve(n, b, X)) == X
  {
    UnAxesAxes(n, b, Gray(false, X));
    UnGrayGray(false, n, b, X);
    GrayUnGray(false, n, b, UnAxes(n, b, X));
    AxesUnAxes(n, b, X);
  }

  lemma CurveUnfold(c: bool, n: nat, b: nat, H: Columns)
    requires n >= 1 && b >= 1 && Rect(H, n, b)
    ensures var g := GrayWord(c, Heads(H));
            Curve(c, n, b, H) == Stack(g, Turn(g, n - 1, Curve(H[n - 1][0], n, b - 1, Tails(H))))
  {
    hide Heads, Tails, Stack, Turn, Gray, GrayWord, Axes;
    GrayUnfold(c, H);
    PartsRect(H, n, b);
    GrayWordLength(c, Heads(H));
    CurveOfStack(c, n, b, H, GrayWord(c, Heads(H)), Tails(H));
  }

  lemma CurveOfStack(c: bool, n: nat, b: nat, H: Columns, g: Word, low: Columns)
    requires n >= 1 && b >= 1 && Rect(H, n, b) && Rect(low, n, b - 1)
    requires |g| == n && Gray(c, H) == Stack(g, Gray(H[n - 1][0], low))
    ensures Curve(c, n, b, H) == Stack(g, Turn(g, n - 1, Curve(H[n - 1][0], n, b - 1, low)))
  {
    hide Turn, Gray, Axes;
    GrayRect(H[n - 1][0], n, b - 1, low);
    AxesStack(n, b, g, Gray(H[n - 1][0], low));
  }

  lemma GrayRect(c: bool, n: nat, b: nat, H: Columns)
    requires n >= 1 && Rect(H, n, b)
    ensures Rect(Gray(c, H), n, b)
  {
  }

  lemma AxesStack(n: nat, b: nat, g: Word, Y: Columns)
    requires n >= 1 && b >= 1 && |g| == n && Rect(Y, n, b - 1)
    ensures Rect(Stack(g, Y), n, b)
    ensures Axes(n, b, Stack(g, Y)) == Stack(g, Turn(g, n - 1, Axes(n, b - 1, Y)))
  {
    HeadsTailsStack(g, Y);
  }

  // ----- end points

  /** The corner on axis 0 (`e`) or the origin (`!e`). */
  function Corner(e: bool, n: nat, b: nat): (Y: Columns)
    ensures Rect(Y, n, b)
    ensures forall i :: 0 <= i < n ==> Y[i] == Const(e && i == 0, b)
  {
    if n == 0 then [] else Full(false, n, b)[0 := Const(e, b)]
  }

  function Full(v: bool, n: nat, b: nat): (H: Columns)
    ensures Rect(H, n, b)
    ensures forall i :: 0 <= i < n ==> H[i] == Const(v, b)
  {
    var column := Const(v, b);
    seq(n, _ => column)
  }

  lemma {:induction false} TurnOrigin(g: Word, i: nat, n: nat, b: nat)
    requires i < n == |g|
    requires forall k :: 1 <= k < n ==> !g[k]
    ensures Turn(g, i, Corner(false, n, b)) == Corner(g[0], n, b)
    decreases i
  {
    var Y := Corner(false, n, b);
    if i == 0 {
      assert Not(Const(false, b)) == Const(true, b);
      assert Step(g, 0, Y) == Corner(g[0], n, b);
    } else {
      assert Step(g, i, Y) == Y;
      TurnOrigin(g, i - 1, n, b);
    }
  }

  /** The curve starts at one end of axis 0 and stops at the other. */
  lemma {:induction false} CurveEnds(c: bool, n: nat, b: nat)
    requires n >= 1
    ensures Curve(c, n, b, Full(false, n, b)) == Corner(c, n, b)
    ensures Curve(c, n, b, Full(true, n, b)) == Corner(!c, n, b)
    decreases b
  {
    if b > 0 {
      CurveEnd(c, false, n, b);
      CurveEnd(c, true, n, b);
    }
  }

  lemma {:induction false} CurveEnd(c: bool, v: bool, n: nat, b: nat)
    requires n >= 1 && b >= 1
    ensures Curve(c, n, b, Full(v, n, b)) == Corner(c != v, n, b)
    decreases b, 0
  {
    hide Tails, Stack, Turn, Curve, Const;
    var H := Full(v, n, b);
    FullTails(v, n, b);
    var g := GrayWord(c, Heads(H));
    forall k | 0 <= k < n ensures g[k] == (k == 0 && v != c) {
      GrayWordAt(c, Heads(H), k);
    }
    CurveUnfold(c, n, b, H);
    if b > 1 {
      CurveEnd(v, v, n, b - 1);
    } else {
      CurveFlat(v, n, Tails(H));
    }
    TurnOrigin(g, n - 1, n, b - 1);
    CornerStack(g, n, b - 1);
  }

  lemma CurveFlat(c: bool, n: nat, H: Columns)
    requires n >= 1 && Rect(H, n, 0)
    ensures Curve(c, n, 0, H) == Corner(false, n, 0)
  {
  }

  lemma FullTails(v: bool, n: nat, b: nat)
    requires b >= 1
    ensures Tails(Full(v, n, b)) == Full(v, n, b - 1)
  {
    assert Const(v, b)[1..] == Const(v, b - 1);
  }

  lemma CornerStack(g: Word, n: nat, b: nat)
    requires n >= 1 && |g| == n && forall k :: 1 <= k < n ==> !g[k]
    ensures Stack(g, Corner(g[0], n, b)) == Corner(g[0], n, b + 1)
  {
    assert forall v :: [v] + Const(v, b) == Const(v, b + 1);
  }

  // ----- adjacency

  /** `Y` and `Z` differ in coordinate `k` only, and there by one. */
  predicate AdjacentAt(Y: Columns, Z: Columns, k: nat)
  {
    && k < |Y| == |Z|
    && (forall i :: 0 <= i < |Y| && i != k ==> Y[i] == Z[i])
    && |Y[k]| == |Z[k]|
    && (Num(Y[k]) == Num(Z[k]) + 1 || Num(Z[k]) == Num(Y[k]) + 1)
  }

  lemma StepKeepsAdjacent(g: Word, i: nat, Y: Columns, Z: Columns, k: nat) returns (k': nat)
    requires i < |Y| == |g| && AdjacentAt(Y, Z, k)
    ensures AdjacentAt(Step(g, i, Y), Step(g, i, Z), k')
  {
    if g[i] {
      k' := k;
      NumNot(Y[0]);
      NumNot(Z[0]);
    } else {
      k' := if k == 0 then i else if k == i then 0 else k;
    }
  }

  lemma {:induction false} TurnKeepsAdjacent(g: Word, i: nat, Y: Columns, Z: Columns, k: nat)
    returns (k': nat)
    requires i < |Y| == |g| && AdjacentAt(Y, Z, k)
    ensures AdjacentAt(Turn(g, i, Y), Turn(g, i, Z), k')
    decreases i
  {
    k' := StepKeepsAdjacent(g, i, Y, Z, k);
    if i > 0 {
      k' := TurnKeepsAdjacent(g, i - 1, Step(g, i, Y), Step(g, i, Z), k');
    }
  }

  /** Turning by words that agree up to `i` treats columns up to `i` alike and keeps the rest. */
  lemma {:induction false} TurnFrame(g: Word, h: Word, i: nat, Y: Columns, Z: Columns)
    requires i < |Y| == |Z| == |g| == |h|
    requires forall j :: 0 <= j <= i ==> g[j] == h[j] && Y[j] == Z[j]
    ensures forall j :: 0 <= j <= i ==> Turn(g, i, Y)[j] == Turn(h, i, Z)[j]
    ensures forall j :: i < j < |Y| ==> Turn(g, i, Y)[j] == Y[j]
    decreases i
  {
    if i > 0 {
      TurnFrame(g, h, i - 1, Step(g, i, Y), Step(h, i, Z));
      TurnFrame(h, g, i - 1, Step(h, i, Z), Step(g, i, Y));
    }
  }

  /** Where two neighbouring cells of one level touch: the leaving corner of the first turns
      into a point facing the entering corner of the second across axis `k`. */
  lemma {:induction false} Cross(c: bool, u: Word, i: nat, g: Word, h: Word, Y: Columns, b: nat)
    returns (k: nat)
    requires i < |Y| == |g| == |h| && |u| == i + 1 && !AllOnes(u)
    requires g[..i + 1] == GrayWord(c, u) && h[..i + 1] == GrayWord(c, Succ(u))
    requires Y[0] == Const(!u[i], b)
    requires forall j :: 1 <= j <= i ==> Y[j] == Const(false, b)
    ensures k <= i && h[k] == !g[k]
    ensures forall j :: 0 <= j <= i && j != k ==> g[j] == h[j]
    ensures forall j :: 0 <= j < |Y| && j != k ==> Turn(g, i, Y)[j] == Turn(h, i, Y)[j]
    ensures Turn(g, i, Y)[k] == Const(!g[k], b) && Turn(h, i, Y)[k] == Const(!h[k], b)
    decreases i
  {
    hide Turn, GrayWord, Succ, Const;
    if !u[i] {
      k := i;
      CrossWords(c, u, i, g, h);
      assert forall j :: 0 <= j < i ==> g[j] == g[..i][j] && h[j] == h[..i][j];
      CrossHere(i, g, h, Y, b);
    } else {
      var v := u[..i];
      CrossCarry(c, u, i, g, h, Y, b);
      k := Cross(c, v, i - 1, g, h, Step(g, i, Y), b);
      TurnUnfold(g, i, Y);
      TurnUnfold(h, i, Y);
    }
  }

  lemma TurnUnfold(g: Word, i: nat, Y: Columns)
    requires 0 < i < |Y| == |g|
    ensures Turn(g, i, Y) == Turn(g, i - 1, Step(g, i, Y))
  {
  }

  /** The last bit of `u` is clear: it is the bit that changes. */
  lemma CrossWords(c: bool, u: Word, i: nat, g: Word, h: Word)
    requires i < |g| == |h| && |u| == i + 1 && !u[i]
    requires g[..i + 1] == GrayWord(c, u) && h[..i + 1] == GrayWord(c, Succ(u))
    ensures h[i] == !g[i] && g[..i] == h[..i]
  {
    assert Succ(u) == u[i := true];
    GrayWordPrefix(c, u, i);
    GrayWordPrefix(c, Succ(u), i);
    assert u[..i] == Succ(u)[..i];
    GrayWordAt(c, u, i);
    GrayWordAt(c, Succ(u), i);
    assert g[..i] == g[..i + 1][..i] == h[..i + 1][..i] == h[..i];
    assert g[i] == g[..i + 1][i] && h[i] == h[..i + 1][i];
  }

  lemma CrossHere(i: nat, g: Word, h: Word, Y: Columns, b: nat)
    requires i < |Y| == |g| == |h|
    requires h[i] == !g[i] && forall j :: 0 <= j < i ==> g[j] == h[j]
    requires Y[0] == Const(true, b)
    requires forall j :: 1 <= j <= i ==> Y[j] == Const(false, b)
    ensures forall j :: 0 <= j < |Y| && j != i ==> Turn(g, i, Y)[j] == Turn(h, i, Y)[j]
    ensures Turn(g, i, Y)[i] == Const(!g[i], b) && Turn(h, i, Y)[i] == Const(!h[i], b)
  {
    if i == 0 {
      assert Not(Const(true, b)) == Const(false, b);
    } else {
      hide Turn, Const, Step, Not;
      assert Y[i] == Const(false, b);
      TurnUnfold(g, i, Y);
      TurnUnfold(h, i, Y);
      CrossStep(g, i, Y, b);
      CrossStep(h, i, Y, b);
      TurnApart(i, g, h, Y[0 := Const(false, b)], Const(!g[i], b), Const(!h[i], b));
    }
  }

  /** Columns past the steps taken may differ; the rest is turned alike. */
  lemma TurnApart(i: nat, g: Word, h: Word, Y: Columns, u: Word, v: Word)
    requires 0 < i < |Y| == |g| == |h| && forall j :: 0 <= j < i ==> g[j] == h[j]
    ensures var G, H := Turn(g, i - 1, Y[i := u]), Turn(h, i - 1, Y[i := v]);
            && (forall j :: 0 <= j < |Y| && j != i ==> G[j] == H[j])
            && G[i] == u && H[i] == v
  {
    hide Turn;
    TurnFrame(g, h, i - 1, Y[i := u], Y[i := v]);
    TurnFrame(h, g, i - 1, Y[i := v], Y[i := u]);
    TurnLength(g, i - 1, Y[i := u]);
    TurnLength(h, i - 1, Y[i := v]);
  }

  lemma TurnLength(g: Word, i: nat, Y: Columns)
    requires i < |Y| == |g|
    ensures |Turn(g, i, Y)| == |Y|
  {
  }

  /** On a corner of axis 0 the work moves the corner to axis `i` or clears it. */
  lemma CrossStep(g: Word, i: nat, Y: Columns, b: nat)
    requires 0 < i < |Y| == |g|
    requires Y[0] == Const(true, b) && Y[i] == Const(false, b)
    ensures Step(g, i, Y) == Y[0 := Const(false, b)][i := Const(!g[i], b)]
  {
    assert Not(Const(true, b)) == Const(false, b);
  }

  /** The last bit of `u` is set: both words work alike on axis `i`, and pass the carry on. */
  lemma CrossCarry(c: bool, u: Word, i: nat, g: Word, h: Word, Y: Columns, b: nat)
    requires 0 < i < |Y| == |g| == |h| && |u| == i + 1 && u[i]
    requires g[..i + 1] == GrayWord(c, u) && h[..i + 1] == GrayWord(c, Succ(u))
    requires Y[0] == Y[i] == Const(false, b)
    ensures g[i] == h[i]
    ensures g[..i] == GrayWord(c, u[..i]) && h[..i] == GrayWord(c, Succ(u[..i]))
    ensures Step(g, i, Y) == Step(h, i, Y) == Y[0 := Const(!u[i - 1], b)]
  {
    var v := u[..i];
    assert Succ(u) == Succ(v) + [false];
    assert Succ(u)[..i] == Succ(v);
    assert g[i] == g[..i + 1][i] && h[i] == h[..i + 1][i];
    assert g[i] == h[i] == !v[i - 1] by {
      SuccLast(v);
      GrayWordAt(c, u, i);
      GrayWordAt(c, Succ(u), i);
    }
    GrayWordPrefix(c, u, i);
    GrayWordPrefix(c, Succ(u), i);
    assert g[..i] == g[..i + 1][..i] && h[..i] == h[..i + 1][..i];
    assert Not(Const(false, b)) == Const(true, b);
  }

  lemma SuccLast(v: Word)
    requires v != []
    ensures Succ(v)[|v| - 1] == !v[|v| - 1]
  {
  }

  predicate IsLast(H: Columns)
  {
    forall i :: 0 <= i < |H| ==> AllOnes(H[i])
  }

  /** The next transposed index. */
  function Next(n: nat, b: nat, H: Columns): (R: Columns)
    requires n >= 1 && Rect(H, n, b)
    ensures Rect(R, n, b)
    decreases b
  {
    if b == 0 then H
    else if IsLast(Tails(H)) then Stack(Succ(Heads(H)), Full(false, n, b - 1))
    else Stack(Heads(H), Next(n, b - 1, Tails(H)))
  }

  lemma LastIsFull(H: Columns, n: nat, b: nat)
    requires Rect(H, n, b) && IsLast(H)
    ensures H == Full(true, n, b)
  {
    forall i | 0 <= i < n ensures H[i] == Full(true, n, b)[i] {
      assert AllOnes(H[i]);
    }
  }

  lemma LastFromParts(H: Columns)
    requires forall i :: 0 <= i < |H| ==> |H[i]| > 0
    requires IsLast(Tails(H))
    ensures AllOnes(Heads(H)) ==> IsLast(H)
  {
    forall i | 0 <= i < |H| && Heads(H)[i] ensures AllOnes(H[i]) {
      assert AllOnes(Tails(H)[i]);
      assert H[i] == [H[i][0]] + H[i][1..];
    }
  }

  /** One step along the transposed index moves one unit along one axis. */
  lemma {:induction false} NextIsAdjacent(c: bool, n: nat, b: nat, H: Columns) returns (k: nat)
    requires n >= 1 && Rect(H, n, b) && !IsLast(H)
    ensures AdjacentAt(Curve(c, n, b, H), Curve(c, n, b, Next(n, b, H)), k)
    decreases b
  {
    hide Heads, Tails, Stack, Turn, UnTurn, Curve, GrayWord, Num, Succ;
    PartsRect(H, n, b);
    var low, e := Tails(H), H[n - 1][0];
    if IsLast(low) {
      k := NextAcross(c, n, b, H);
    } else {
      k := NextIsAdjacent(e, n, b - 1, low);
      k := NextWithin(c, n, b, H, k);
    }
  }

  /** A step inside the cell of one level is carried over by the turn of that cell. */
  lemma NextWithin(c: bool, n: nat, b: nat, H: Columns, k: nat) returns (k': nat)
    requires n >= 1 && b >= 1 && Rect(H, n, b) && !IsLast(Tails(H))
    requires var low, e := Tails(H), H[n - 1][0];
             AdjacentAt(Curve(e, n, b - 1, low), Curve(e, n, b - 1, Next(n, b - 1, low)), k)
    ensures AdjacentAt(Curve(c, n, b, H), Curve(c, n, b, Next(n, b, H)), k')
  {
    hide Turn, UnTurn, Curve, GrayWord, Num, Succ, AdjacentAt;
    var w, low, e := Heads(H), Tails(H), H[n - 1][0];
    var g := GrayWord(c, w);
    GrayWordLength(c, w);
    var next := Next(n, b - 1, low);
    HeadsTailsStack(w, next);
    CurveUnfold(c, n, b, H);
    CurveUnfold(c, n, b, Next(n, b, H));
    var Y, Z := Curve(e, n, b - 1, low), Curve(e, n, b - 1, next);
    CurveLength(e, n, b - 1, low);
    k' := TurnKeepsAdjacent(g, n - 1, Y, Z, k);
    StackKeepsAdjacent(g, Turn(g, n - 1, Y), Turn(g, n - 1, Z), k');
  }

  lemma GrayWordLength(c: bool, w: Word)
    ensures |GrayWord(c, w)| == |w|
  {
  }

  lemma CurveLength(c: bool, n: nat, b: nat, H: Columns)
    requires n >= 1 && Rect(H, n, b)
    ensures |Curve(c, n, b, H)| == n
  {
  }

  lemma StackKeepsAdjacent(g: Word, Y: Columns, Z: Columns, k: nat)
    requires |g| == |Y| && AdjacentAt(Y, Z, k)
    ensures AdjacentAt(Stack(g, Y), Stack(g, Z), k)
  {
    NumCons(g[k], Y[k]);
    NumCons(g[k], Z[k]);
  }

  lemma NextAcross(c: bool, n: nat, b: nat, H: Columns) returns (k: nat)
    requires n >= 1 && b >= 1 && Rect(H, n, b) && !IsLast(H) && IsLast(Tails(H))
    ensures AdjacentAt(Curve(c, n, b, H), Curve(c, n, b, Next(n, b, H)), k)
  {
    hide Heads, Tails, Stack, Turn, UnTurn, Curve, GrayWord, Num, Succ, Const;
    var w := Heads(H);
    var u := Succ(w);
    LastFromParts(H);
    SuccLast(w);
    LastIsFull(Tails(H), n, b - 1);
    HeadsTailsStack(u, Full(false, n, b - 1));
    CurveUnfold(c, n, b, H);
    CurveUnfold(c, n, b, Next(n, b, H));
    CurveEnds(w[n - 1], n, b - 1);
    CurveEnds(u[n - 1], n, b - 1);
    var Y := Corner(!w[n - 1], n, b - 1);
    var g, h := GrayWord(c, w), GrayWord(c, u);
    assert g[..n] == g && h[..n] == h;
    k := Cross(c, w, n - 1, g, h, Y, b - 1);
    NumCons(g[k], Const(!g[k], b - 1));
    NumCons(h[k], Const(!h[k], b - 1));
    NumConst(!g[k], b - 1);
    NumConst(!h[k], b - 1);
  }

  // ----- nesting

  /** The top `k` levels. */
  function Top(X: Columns, n: nat, b: nat, k: nat): (R: Columns)
    requires Rect(X, n, b) && k <= b
    ensures Rect(R, n, k)
    ensures forall i :: 0 <= i < n ==> R[i] == X[i][..k]
  {
    seq(n, i requires 0 <= i < n => X[i][..k])
  }

  lemma {:induction false} TurnTop(g: Word, i: nat, Y: Columns, b: nat, k: nat)
    requires i < |Y| == |g| && Rect(Y, |Y|, b) && k <= b
    requires Rect(Turn(g, i, Y), |Y|, b)
    ensures Turn(g, i, Top(Y, |Y|, b, k)) == Top(Turn(g, i, Y), |Y|, b, k)
    decreases i
  {
    var n := |Y|;
    StepRect(g, i, Y, b);
    assert Not(Y[0])[..k] == Not(Y[0][..k]);
    assert Step(g, i, Top(Y, n, b, k)) == Top(Step(g, i, Y), n, b, k);
    if i > 0 {
      TurnTop(g, i - 1, Step(g, i, Y), b, k);
    }
  }

  /** The top `k` levels of the point depend on the top `k` levels of the index only, and are
      themselves the curve with `k` levels. */
  lemma {:induction false} CurveTop(c: bool, n: nat, b: nat, k: nat, H: Columns)
    requires n >= 1 && k <= b && Rect(H, n, b)
    ensures Top(Curve(c, n, b, H), n, b, k) == Curve(c, n, k, Top(H, n, b, k))
    decreases b
  {
    hide Stack, Turn, UnTurn, Curve, GrayWord;
    var T := Top(H, n, b, k);
    if k == 0 {
      CurveFlat(c, n, T);
    } else {
      var low := Tails(H);
      CurveUnfold(c, n, b, H);
      CurveUnfold(c, n, k, T);
      assert Heads(T) == Heads(H);
      forall i | 0 <= i < n ensures Tails(T)[i] == Top(low, n, b - 1, k - 1)[i] {
        assert H[i][..k][1..] == H[i][1..][..k - 1];
      }
      assert Tails(T) == Top(low, n, b - 1, k - 1);
      var g, e := GrayWord(c, Heads(H)), H[n - 1][0];
      CurveTop(e, n, b - 1, k - 1, low);
      var Y := Curve(e, n, b - 1, low);
      TurnRect(g, n - 1, Y, b - 1);
      TurnTop(g, n - 1, Y, b - 1, k - 1);
      StackTop(g, Turn(g, n - 1, Y), n, b - 1, k - 1);
    }
  }

  lemma StackTop(g: Word, Y: Columns, n: nat, b: nat, k: nat)
    requires Rect(Y, n, b) && |g| == n && k <= b
    ensures Top(Stack(g, Y), n, b + 1, k + 1) == Stack(g, Top(Y, n, b, k))
  {
    forall i | 0 <= i < n
      ensures Top(Stack(g, Y), n, b + 1, k + 1)[i] == Stack(g, Top(Y, n, b, k))[i]
    {
      assert ([g[i]] + Y[i])[..k + 1] == [g[i]] + Y[i][..k];
    }
  }
}
