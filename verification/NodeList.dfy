/** `_node_names_2_nid_list`: node names such as `nid000[0012-0015,0020]` set bits in a bitmap. */
module NodeList {
  import opened Options
  import opened Decimal
  import opened Runs

  function ZeroRun(s: string): (k: nat)
    ensures k <= |s| && (k < |s| ==> s[k] != '0') && (forall i :: 0 <= i < k ==> s[i] == '0')
  {
    if s == [] || s[0] != '0' then 0 else 1 + ZeroRun(s[1..])
  }

  /** What is left of a number once its leading zeros, and a bracket after them, are skipped. */
  function Trimmed(s: string): (t: string)
    ensures |t| <= |s|
  {
    var t := s[ZeroRun(s)..];
    if t != [] && t[0] == '[' then t[1..] else t
  }

  function Range(lo: nat, hi: nat): (r: set<nat>)
    ensures forall x :: x in r <==> lo <= x <= hi
    decreases if lo <= hi then hi - lo + 1 else 0
  {
    if lo > hi then {} else {lo} + Range(lo + 1, hi)
  }

  function Marked(dash: bool, last: nat, v: nat): set<nat>
  {
    if dash && v >= last then Range(last, v) else {v}
  }

  /** The bits the text sets; `dash` says that `last` and a `-` have just been read. */
  function Marks(s: string, dash: bool, last: nat): set<nat>
    decreases |s|
  {
    if s == [] then {}
    else if !IsDigit(s[0]) then Marks(s[1..], dash, last)
    else
      var t := Trimmed(s);
      var n := DigitRun(t);
      var v, rest := Value(t[..n]), t[n..];
      Marked(dash, last, v)
      + if rest == [] then {} else Marks(rest[1..], rest[0] == '-', if rest[0] == '-' then v else last)
  }

  // ----- the parser

  function At(s: string, i: nat): char
  {
    if i < |s| then s[i] else '\0'
  }

  /** `bit_nset`: set the bits from `lo` to `hi`. */
  method SetBits(bitmap: array<bool>, lo: nat, hi: nat)
    requires lo <= hi < bitmap.Length
    modifies bitmap
    ensures forall b :: 0 <= b < bitmap.Length ==> bitmap[b] == (old(bitmap[b]) || lo <= b <= hi)
  {
    var i := lo;
    while i <= hi
      invariant lo <= i <= hi + 1
      invariant forall b :: 0 <= b < bitmap.Length ==> bitmap[b] == (old(bitmap[b]) || lo <= b < i)
    {
      bitmap[i] := true;
      i := i + 1;
    }
  }

  /** Skip leading zeros, and a bracket after them. */
  method SkipZeros(s: string, i0: nat) returns (i: nat)
    requires i0 <= |s|
    ensures i0 <= i <= |s| && s[i..] == Trimmed(s[i0..])
  {
    i := i0;
    ghost var u := s[i0..];
    while At(s, i) == '0'
      invariant i0 <= i <= |s|
      invariant ZeroRun(u) == (i - i0) + ZeroRun(s[i..])
      decreases |s| - i
    {
      assert s[i..][1..] == s[i + 1..];
      i := i + 1;
    }
    assert u[ZeroRun(u)..] == s[i..];
    if At(s, i) == '[' {
      assert s[i..][1..] == s[i + 1..];
      i := i + 1;
    }
  }

  /** Accumulate digits. */
  method ReadDigits(s: string, from: nat) returns (i: nat, v: nat)
    requires from <= |s|
    ensures from <= i <= |s| && i - from == DigitRun(s[from..])
    ensures AllDigits(s[from..i]) && v == Value(s[from..i])
  {
    hide Value, DigitRun;
    i, v := from, 0;
    ValueEmpty();
    while IsDigit(At(s, i))
      invariant from <= i <= |s| && AllDigits(s[from..i]) && v == Value(s[from..i])
      invariant DigitRun(s[from..]) == (i - from) + DigitRun(s[i..])
      decreases |s| - i
    {
      DigitRunAt(s, i);
      ValueSnoc(s[from..i], s[i]);
      assert s[from..i + 1] == s[from..i] + [s[i]];
      v := v * 10 + DigitValue(s[i]);
      i := i + 1;
    }
    DigitRunAt(s, i);
  }

  lemma ValueEmpty() ensures Value([]) == 0 { }

  lemma ValueSnoc(d: string, c: char)
    requires AllDigits(d) && IsDigit(c)
    ensures AllDigits(d + [c]) && Value(d + [c]) == 10 * Value(d) + DigitValue(c)
  {
    assert (d + [c])[..|d|] == d;
  }

  lemma DigitRunAt(s: string, i: nat)
    requires i <= |s|
    ensures DigitRun(s[i..]) == if IsDigit(At(s, i)) then 1 + DigitRun(s[i + 1..]) else 0
  {
    if i < |s| { assert s[i..][1..] == s[i + 1..]; }
  }

  /** Read one number at `i`: skip zeros and a bracket, then accumulate digits. */
  method ReadNumber(s: string, i0: nat) returns (i: nat, v: nat)
    requires i0 < |s|
    ensures var t := Trimmed(s[i0..]);
            var n := DigitRun(t);
            i <= |s| && v == Value(t[..n]) && s[i..] == t[n..]
  {
    hide Trimmed, Value;
    var from := SkipZeros(s, i0);
    i, v := ReadDigits(s, from);
    assert s[from..][..i - from] == s[from..i];
    assert s[from..][i - from..] == s[i..];
  }

  /** The parser loop: it sets exactly the marked bits and no others; where a marked bit lies past
      the bitmap, and only there, the bitmap's own assertion stops the program (`ok` is false). */
  method NodeNamesToBitmap(s: string, bitmap: array<bool>) returns (ok: bool)
    requires '\0' !in s
    modifies bitmap
    ensures ok <==> forall x :: x in Marks(s, false, 0) ==> x < bitmap.Length
    ensures ok ==> forall b :: 0 <= b < bitmap.Length ==>
              bitmap[b] == (old(bitmap[b]) || b in Marks(s, false, 0))
  {
    hide Trimmed, DigitRun, Value;
    var i, last, dash := 0, 0, false;
    ghost var done := {};
    assert s[0..] == s;
    while i < |s|
      invariant 0 <= i <= |s|
      invariant Marks(s, false, 0) == done + Marks(s[i..], dash, last)
      invariant forall x :: x in done ==> x < bitmap.Length
      invariant forall b :: 0 <= b < bitmap.Length ==> bitmap[b] == (old(bitmap[b]) || b in done)
      decreases |s| - i
    {
      ghost var here := s[i..];
      assert here[1..] == s[i + 1..];
      if IsDigit(s[i]) {
        var v;
        i, v := ReadNumber(s, i);
        ghost var rest := s[i..];
        ghost var marked := Marked(dash, last, v);
        MarksNumber(here, dash, last, v, rest);
        assert marked <= Marks(s, false, 0) && v in marked;
        if v >= bitmap.Length { return false; }
        if dash && v >= last {
          SetBits(bitmap, last, v);
        } else {
          bitmap[v] := true;
        }
        done := done + marked;
        if i == |s| {
          assert rest == [];
          break;
        }
        assert rest[1..] == s[i + 1..];
        dash := s[i] == '-';
        if dash { last := v; }
      }
      i := i + 1;
    }
    ok := true;
  }

  lemma MarksNumber(s: string, dash: bool, last: nat, v: nat, rest: string)
    requires s != [] && IsDigit(s[0])
    requires var t := Trimmed(s); var n := DigitRun(t); v == Value(t[..n]) && rest == t[n..]
    ensures |rest| <= |s|
    ensures Marks(s, dash, last) == Marked(dash, last, v)
              + if rest == [] then {}
                else Marks(rest[1..], rest[0] == '-', if rest[0] == '-' then v else last)
  {
  }

  // ----- what a printed list means

  /** A number with leading zeros. */
  datatype Padded = Padded(zeros: nat, n: nat)

  datatype Item = One(x: Padded) | Span(lo: Padded, hi: Padded)

  function NumberText(p: Padded): (s: string)
    ensures |s| >= 1 && AllDigits(s)
  {
    Repeat('0', p.zeros) + Print(p.n)
  }

  function ItemText(it: Item): string
  {
    match it
    case One(x) => NumberText(x)
    case Span(lo, hi) => NumberText(lo) + "-" + NumberText(hi)
  }

  function ListText(items: seq<Item>): string
  {
    if items == [] then []
    else ItemText(items[0]) + if |items| == 1 then [] else "," + ListText(items[1..])
  }

  /** A range is its numbers from end to end; one written backwards is its two ends. */
  function ItemBits(it: Item): set<nat>
  {
    match it
    case One(x) => {x.n}
    case Span(lo, hi) => if lo.n <= hi.n then Range(lo.n, hi.n) else {lo.n, hi.n}
  }

  function ListBits(items: seq<Item>): set<nat>
  {
    if items == [] then {} else ItemBits(items[0]) + ListBits(items[1..])
  }

  predicate NoDigits(s: string) { forall i :: 0 <= i < |s| ==> !IsDigit(s[i]) }

  /** What may follow a number: nothing, or text that starts with no digit and no bracket. */
  predicate Ends(rest: string) { rest == [] || (!IsDigit(rest[0]) && rest[0] != '[') }

  lemma {:induction false} ValueTrim(d: string)
    requires AllDigits(d)
    ensures Value(d[ZeroRun(d)..]) == Value(d)
    decreases |d|
  {
    var k := ZeroRun(d);
    if k == |d| {
      AllZeroValue(d);
      assert d[k..] == [];
    } else {
      var m := |d| - 1;
      ZeroRunPrefix(d);
      if k < m {
        ValueTrim(d[..m]);
        assert d[k..][..m - k] == d[..m][k..];
      } else {
        AllZeroValue(d[..m]);
        assert d[k..] == [d[m]] && d[k..][..0] == [];
      }
    }
  }

  lemma {:induction false} AllZeroValue(d: string)
    requires forall i :: 0 <= i < |d| ==> d[i] == '0'
    ensures AllDigits(d) && Value(d) == 0
  {
    if d != [] { AllZeroValue(d[..|d| - 1]); }
  }

  lemma {:induction false} ZeroRunPrefix(d: string)
    requires d != [] && ZeroRun(d) < |d|
    ensures ZeroRun(d) < |d| - 1 ==> ZeroRun(d[..|d| - 1]) == ZeroRun(d)
  {
    if ZeroRun(d) < |d| - 1 && d[0] == '0' {
      ZeroRunPrefix(d[1..]);
      assert d[..|d| - 1][1..] == d[1..][..|d| - 2];
    }
  }

  lemma {:induction false} ZeroRunAppend(d: string, rest: string)
    requires rest == [] || rest[0] != '0'
    ensures ZeroRun(d + rest) == ZeroRun(d)
  {
    if d == [] {
      assert d + rest == rest;
    } else if d[0] == '0' {
      ZeroRunAppend(d[1..], rest);
      assert (d + rest)[1..] == d[1..] + rest;
    }
  }

  /** A digit string is read as the number it denotes, and nothing after it is consumed. */
  lemma ReadsNumber(d: string, rest: string)
    requires d != [] && AllDigits(d) && Ends(rest)
    ensures var t := Trimmed(d + rest);
            var n := DigitRun(t);
            Value(t[..n]) == Value(d) && t[n..] == rest
  {
    hide Value, DigitRun, ZeroRun, Trimmed;
    var e := TrimmedNumber(d, rest);
    DigitRunOf(e, rest);
    assert (e + rest)[..|e|] == e && (e + rest)[|e|..] == rest;
  }

  lemma TrimmedNumber(d: string, rest: string) returns (e: string)
    requires d != [] && AllDigits(d) && Ends(rest)
    ensures AllDigits(e) && Value(e) == Value(d) && Trimmed(d + rest) == e + rest
  {
    hide Value;
    ZeroRunAppend(d, rest);
    e := d[ZeroRun(d)..];
    assert (d + rest)[ZeroRun(d)..] == e + rest;
    ValueTrim(d);
  }

  lemma {:induction false} ValueZeros(k: nat, d: string)
    requires AllDigits(d)
    ensures AllDigits(Repeat('0', k) + d) && Value(Repeat('0', k) + d) == Value(d)
    decreases |d|
  {
    var s := Repeat('0', k) + d;
    if d == [] {
      assert s == Repeat('0', k);
      AllZeroValue(s);
    } else {
      ValueZeros(k, d[..|d| - 1]);
      assert s[..|s| - 1] == Repeat('0', k) + d[..|d| - 1];
    }
  }

  lemma ValueOfNumber(p: Padded)
    ensures Value(NumberText(p)) == p.n
  {
    ValueZeros(p.zeros, Print(p.n));
    ValueOfPrint(p.n);
  }

  /** The marks of a number and of what follows it. */
  lemma MarksAfter(p: Padded, rest: string, dash: bool, last: nat)
    requires Ends(rest)
    ensures Marks(NumberText(p) + rest, dash, last) == Marked(dash, last, p.n)
              + if rest == [] then {}
                else Marks(rest[1..], rest[0] == '-', if rest[0] == '-' then p.n else last)
  {
    ReadsNumber(NumberText(p), rest);
    ValueOfNumber(p);
    MarksNumber(NumberText(p) + rest, dash, last, p.n, rest);
  }

  /** After an item comes a comma, or text without digits to the end. */
  predicate Follows(rest: string) { Ends(rest) && (rest != [] ==> rest[0] != '-') }

  lemma MarksItem(it: Item, rest: string, last: nat)
    requires Follows(rest)
    ensures Marks(ItemText(it) + rest, false, last)
         == ItemBits(it) + if rest == [] then {} else Marks(rest[1..], false, LastOf(it, last))
  {
    match it
    case One(x) =>
      MarksAfter(x, rest, false, last);
    case Span(lo, hi) =>
      var tail := NumberText(hi) + rest;
      assert ItemText(it) + rest == NumberText(lo) + ("-" + tail);
      assert ("-" + tail)[1..] == tail;
      MarksAfter(lo, "-" + tail, false, last);
      MarksAfter(hi, rest, true, lo.n);
  }

  function LastOf(it: Item, last: nat): nat { if it.One? then last else it.lo.n }

  lemma {:induction false} MarksNothing(s: string, dash: bool, last: nat)
    requires NoDigits(s)
    ensures Marks(s, dash, last) == {}
  {
    if s != [] { MarksNothing(s[1..], dash, last); }
  }

  lemma {:induction false} MarksList(items: seq<Item>, tail: string, last: nat)
    requires items != [] && NoDigits(tail) && Follows(tail)
    ensures Marks(ListText(items) + tail, false, last) == ListBits(items)
    decreases |items|
  {
    hide Marks, ListText, ItemText, ItemBits;
    var it, more := items[0], items[1..];
    ListHead(items, tail);
    if more == [] {
      assert [] + tail == tail;
      MarksItem(it, tail, last);
      if tail != [] { MarksNothing(tail[1..], false, LastOf(it, last)); }
    } else {
      var rest := "," + ListText(more) + tail;
      assert rest[1..] == ListText(more) + tail;
      MarksItem(it, rest, last);
      MarksList(more, tail, LastOf(it, last));
    }
  }

  lemma {:induction false} MarksSkip(head: string, s: string, dash: bool, last: nat)
    requires NoDigits(head)
    ensures Marks(head + s, dash, last) == Marks(s, dash, last)
    decreases |head|
  {
    if head == [] {
      assert head + s == s;
    } else {
      MarksSkip(head[1..], s, dash, last);
      assert (head + s)[1..] == head[1..] + s;
    }
  }

  /** Zeros and a bracket in front of a list change nothing. */
  lemma MarksBracket(k: nat, s: string, last: nat)
    requires s != [] && IsDigit(s[0]) && (DigitRun(s) == |s| || s[DigitRun(s)] != '[')
    ensures Marks(Repeat('0', k) + "[" + s, false, last) == Marks(s, false, last)
  {
    var u := Repeat('0', k) + "[" + s;
    if k == 0 {
      assert u == "[" + s;
      MarksSkip("[", s, false, last);
    } else {
      var d := DigitRun(s);
      assert s == s[..d] + s[d..];
      ZeroRunAppend(Repeat('0', k), "[" + s);
      ZeroRunAll(k);
      assert u == Repeat('0', k) + ("[" + s);
      assert u[k..] == "[" + s;
      assert Trimmed(u) == s;
      BracketNumber(u, s, last);
    }
  }

  lemma {:induction false} ZeroRunAll(k: nat)
    ensures ZeroRun(Repeat('0', k)) == k
  {
    if k > 0 {
      assert Repeat('0', k)[1..] == Repeat('0', k - 1);
      ZeroRunAll(k - 1);
    }
  }

  lemma BracketNumber(u: string, s: string, last: nat)
    requires u != [] && IsDigit(u[0]) && s != [] && IsDigit(s[0]) && Trimmed(u) == s
    requires DigitRun(s) == |s| || s[DigitRun(s)] != '['
    ensures Marks(u, false, last) == Marks(s, false, last)
  {
    var d := DigitRun(s);
    var number, rest := s[..d], s[d..];
    assert s == number + rest;
    ReadsNumber(number, rest);
    MarksNumber(s, false, last, Value(number), rest);
    MarksNumber(u, false, last, Value(number), rest);
  }

  lemma NumberFirst(p: Padded, after: string)
    requires Ends(after)
    ensures var s := NumberText(p) + after;
            s != [] && IsDigit(s[0]) && (DigitRun(s) == |s| || s[DigitRun(s)] != '[')
  {
    DigitRunOf(NumberText(p), after);
  }

  lemma FirstNumber(items: seq<Item>, tail: string)
    requires items != [] && Ends(tail)
    ensures var s := ListText(items) + tail;
            s != [] && IsDigit(s[0]) && (DigitRun(s) == |s| || s[DigitRun(s)] != '[')
  {
    hide NumberText, DigitRun, ListText;
    var it := items[0];
    var rest := (if |items| == 1 then [] else "," + ListText(items[1..])) + tail;
    ListHead(items, tail);
    match it
    case One(x) =>
      NumberFirst(x, rest);
    case Span(lo, hi) =>
      var after := "-" + NumberText(hi) + rest;
      assert ItemText(it) + rest == NumberText(lo) + after;
      NumberFirst(lo, after);
  }

  lemma ListHead(items: seq<Item>, tail: string)
    requires items != []
    ensures ListText(items) + tail
         == ItemText(items[0]) + ((if |items| == 1 then [] else "," + ListText(items[1..])) + tail)
  {
    hide ItemText;
  }

  /** For every list of numbers and ranges, zero-padded in any way, in or out of a bracket that
      zeros may precede, under any prefix and before any ending without digits: the bits set
      are the union of the numbers and ranges. */
  lemma NodeListMeaning(head: string, zeros: Option<nat>, items: seq<Item>, tail: string)
    requires NoDigits(head) && items != [] && NoDigits(tail) && Follows(tail)
    ensures var open := match zeros case None => "" case Some(k) => Repeat('0', k) + "[";
            Marks(head + (open + (ListText(items) + tail)), false, 0) == ListBits(items)
  {
    var s := ListText(items) + tail;
    var open := match zeros case None => "" case Some(k) => Repeat('0', k) + "[";
    MarksSkip(head, open + s, false, 0);
    MarksList(items, tail, 0);
    match zeros
    case None => assert open + s == s;
    case Some(k) =>
      FirstNumber(items, tail);
      MarksBracket(k, s, 0);
  }
}
