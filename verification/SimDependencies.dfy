/** `re_write_dependencies`: a dependency list `type:id,type:id,...` of the trace becomes the
    same list over the ids the controller gave. */
module SimDependencies {
  import opened Decimal
  import opened Runs
  import opened SimJobIds
  import opened Strtok

  const MAX_DEPNAME := 1024
  const BUFFER_SIZE := 10 * 1024

  // ----- rewriting

  /** The controller's id, or the trace id itself where none is known. */
  function Resolve(ids: seq<IdPair>, id: nat): nat
  {
    var r := OrNoVal(EarlySearch(ids, id));
    if r == NO_VAL then id else r
  }

  /** `Crash`: a type without an id, where the source hands a null pointer to `atoi`. */
  datatype Rewritten = Crash | Text(out: string)

  function Item(kind: string, id: nat, first: bool): string
  {
    (if first then "" else ",") + kind + ":" + PrintInt(id)
  }

  function Rewrite(s: string, ids: seq<IdPair>, out: string, first: bool): Rewritten
    decreases |s|
  {
    match StrTok(s, ':')
    case NoToken => Text(out)
    case Token(kind, s1) =>
      match StrTok(s1, ',')
      case NoToken => Crash
      case Token(number, s2) =>
        Rewrite(s2, ids, out + Item(kind, Resolve(ids, Atoi(number) % UINT32), first), false)
  }

  lemma PrintIntLength(x: nat)
    ensures |PrintInt(x)| <= 11
  {
    var y := x % UINT32;
    assert Pow10(10) == 10 * Pow10(9) && Pow10(9) == 1000000000 by { Powers(); }
    PrintLength(if y <= INT_MAX then y else UINT32 - y, 10);
  }

  lemma Powers()
    ensures Pow10(9) == 1000000000
  {
    assert Pow10(3) == 1000;
    assert Pow10(6) == 1000000;
  }

  /** Each type and id read makes room for what is written in their place. */
  lemma {:induction false} RewriteLength(s: string, ids: seq<IdPair>, out: string, first: bool)
    ensures var r := Rewrite(s, ids, out, first); r.Text? ==> |r.out| <= |out| + 5 * |s|
    decreases |s|
  {
    var a := StrTok(s, ':');
    if a.Token? {
      var b := StrTok(a.rest, ',');
      if b.Token? {
        var id := Resolve(ids, Atoi(b.text) % UINT32);
        PrintIntLength(id);
        RewriteLength(b.rest, ids, out + Item(a.text, id, first), false);
      }
    }
  }

  /** The rewriting loop, with the two buffers it swaps; neither ever overflows. */
  method ReWriteDependencies(dep: string, ids: JobIdList) returns (r: Rewritten)
    requires |dep| < 1024
    ensures r == Rewrite(dep, ids.pairs, "", true)
    ensures r.Text? ==> |r.out| < 10240
  {
    hide PrintInt, Atoi, StrTok, EarlySearch;
    var newDep, newDepCopy := "", "";
    var rest, first := dep, true;
    while true
      invariant |newDep| + 5 * |rest| <= 5 * |dep|
      invariant Rewrite(dep, ids.pairs, "", true) == Rewrite(rest, ids.pairs, newDep, first)
      decreases |rest|
    {
      StrTokFacts(rest, ':');
      var token := StrTok(rest, ':');
      if token == NoToken { break; }
      StrTokFacts(token.rest, ',');
      var number := StrTok(token.rest, ',');
      if number == NoToken { return Crash; }
      var traceId := Atoi(number.text) % UINT32;
      var actual := ids.Lookup(traceId);
      if actual == NO_VAL { actual := traceId; }
      PrintIntLength(actual);
      newDepCopy := newDep + Item(token.text, actual, first);
      assert |newDepCopy| < BUFFER_SIZE;
      newDep, newDepCopy := newDepCopy, newDep;
      rest, first := number.rest, false;
    }
    r := Text(newDep);
  }

  // ----- well-formed lists

  datatype Dep = Dep(kind: string, id: nat)

  predicate WellFormed(deps: seq<Dep>)
  {
    forall i :: 0 <= i < |deps| ==>
      deps[i].kind != [] && ':' !in deps[i].kind && deps[i].id < UINT32
  }

  function DepText(d: Dep): string { d.kind + ":" + PrintInt(d.id) }

  function PrintDeps(deps: seq<Dep>): string
  {
    if deps == [] then []
    else DepText(deps[0]) + if |deps| == 1 then [] else "," + PrintDeps(deps[1..])
  }

  function Mapped(deps: seq<Dep>, ids: seq<IdPair>): (r: seq<Dep>)
    ensures |r| == |deps|
    ensures forall i :: 0 <= i < |deps| ==> r[i] == Dep(deps[i].kind, Resolve(ids, deps[i].id))
  {
    seq(|deps|, i requires 0 <= i < |deps| => Dep(deps[i].kind, Resolve(ids, deps[i].id)))
  }

  lemma ReadId(id: nat)
    requires id < UINT32
    ensures Atoi(PrintInt(id)) % UINT32 == id
    ensures PrintInt(id) != [] && ',' !in PrintInt(id)
  {
    hide Atoi, PrintInt;
    AtoiOfPrintInt(id, []);
    assert PrintInt(id) + [] == PrintInt(id);
    PrintIntPlain(id);
  }

  lemma RewriteNothing(ids: seq<IdPair>, out: string, first: bool)
    ensures PrintDeps([]) == [] && Rewrite([], ids, out, first) == Text(out)
  {
  }

  lemma PrintHead(m: seq<Dep>, out: string, first: bool)
    requires m != []
    ensures out + Item(m[0].kind, m[0].id, first) + (if m[1..] == [] then "" else ",")
              + PrintDeps(m[1..])
         == out + (if first then "" else ",") + PrintDeps(m)
  {
    hide PrintInt;
    Regroup(out, if first then "" else ",", m[0].kind, PrintInt(m[0].id),
            if m[1..] == [] then "" else ",", PrintDeps(m[1..]));
  }

  lemma Regroup(out: string, sep: string, kind: string, number: string, sep2: string, rest: string)
    ensures out + (sep + kind + ":" + number) + sep2 + rest
         == out + sep + (kind + ":" + number + (sep2 + rest))
  {
    var item := kind + ":" + number;
    assert sep + kind + ":" + number == sep + item;
    assert out + (sep + item) + sep2 + rest == out + sep + (item + (sep2 + rest));
  }

  // ----- every text the source can rewrite

  /** A type and an id as the source finds them: delimiters may precede either, the type is any
      text without `:` and the id any text without `,`. */
  datatype Piece = Piece(colons: nat, kind: string, commas: nat, number: string)

  predicate GoodPiece(p: Piece)
  {
    p.kind != [] && ':' !in p.kind && p.number != [] && ',' !in p.number
  }

  function PieceText(p: Piece): string
  {
    Repeat(':', p.colons) + (p.kind + ":" + (Repeat(',', p.commas) + p.number))
  }

  datatype Layout = Colons(n: nat) | Last(p: Piece) | More(p: Piece, rest: Layout)

  predicate GoodLayout(l: Layout)
  {
    match l
    case Colons(_) => true
    case Last(p) => GoodPiece(p)
    case More(p, rest) => GoodPiece(p) && GoodLayout(rest)
  }

  function LayoutText(l: Layout): string
  {
    match l
    case Colons(n) => Repeat(':', n)
    case Last(p) => PieceText(p)
    case More(p, rest) => PieceText(p) + "," + LayoutText(rest)
  }

  /** The types of a layout, each with the id its number starts with. */
  function DepsOf(l: Layout): seq<Dep>
  {
    match l
    case Colons(_) => []
    case Last(p) => [DepOf(p)]
    case More(p, rest) => [DepOf(p)] + DepsOf(rest)
  }

  function DepOf(p: Piece): Dep { Dep(p.kind, Atoi(p.number) % UINT32) }

  /** One piece at the head of a text. */
  lemma RewritePiece(p: Piece, more: string, rest: string, ids: seq<IdPair>, out: string, first: bool)
    requires GoodPiece(p) && (more == "," + rest || (more == "" && rest == ""))
    ensures Rewrite(PieceText(p) + more, ids, out, first)
         == Rewrite(rest, ids, out + Item(p.kind, Resolve(ids, DepOf(p).id), first), false)
  {
    hide StrTok, PrintInt, Atoi, Resolve, Repeat;
    var tail := p.number + more;
    var s1 := Repeat(',', p.commas) + tail;
    assert PieceText(p) + more == Repeat(':', p.colons) + (p.kind + ":" + s1);
    StrTokSkips(p.colons, p.kind + ":" + s1, ':');
    StrTokAt(p.kind, ':', s1);
    StrTokSkips(p.commas, tail, ',');
    if more == "" {
      assert tail == p.number;
      StrTokAt(p.number, ',', []);
    } else {
      assert tail == p.number + "," + rest;
      StrTokAt(p.number, ',', rest);
    }
  }

  /** What comes out for every text of this form: the types in order, each with the id that
      the start of its number resolves to. */
  lemma {:induction false} RewriteLayout(l: Layout, ids: seq<IdPair>, out: string, first: bool)
    requires GoodLayout(l)
    ensures var m := Mapped(DepsOf(l), ids);
            Rewrite(LayoutText(l), ids, out, first)
              == Text(out + (if first || m == [] then "" else ",") + PrintDeps(m))
    decreases l
  {
    hide PrintInt, Atoi, Resolve, Rewrite, PrintDeps, Item, Repeat;
    var m := Mapped(DepsOf(l), ids);
    RewriteNothing(ids, out, first);
    match l
    case Colons(n) =>
      RewriteColons(n, ids, out, first);
      assert out + "" + PrintDeps(m) == out;
    case Last(p) =>
      var item := Item(p.kind, m[0].id, first);
      RewritePiece(p, "", "", ids, out, first);
      RewriteNothing(ids, out + item, false);
      assert PieceText(p) + "" == PieceText(p);
      PrintHead(m, out, first);
      assert m[1..] == [];
      assert out + item + "" + PrintDeps([]) == out + item;
    case More(p, rest) =>
      RewritePiece(p, "," + LayoutText(rest), LayoutText(rest), ids, out, first);
      assert PieceText(p) + "," + LayoutText(rest) == PieceText(p) + ("," + LayoutText(rest));
      RewriteLayout(rest, ids, out + Item(p.kind, m[0].id, first), false);
      assert m[1..] == Mapped(DepsOf(rest), ids);
      PrintHead(m, out, first);
  }

  lemma RewriteColons(n: nat, ids: seq<IdPair>, out: string, first: bool)
    ensures Rewrite(Repeat(':', n), ids, out, first) == Text(out)
  {
    StrTokSkips(n, [], ':');
    assert Repeat(':', n) + [] == Repeat(':', n);
  }

  /** The piece at the head of a text that starts with a type and an id. */
  lemma HeadPiece(s: string) returns (p: Piece, closed: bool)
    requires StrTok(s, ':').Token? && StrTok(StrTok(s, ':').rest, ',').Token?
    ensures var a := StrTok(s, ':');
            var b := StrTok(a.rest, ',');
            && GoodPiece(p) && p.kind == a.text && p.number == b.text
            && s == PieceText(p) + (if closed then "," + b.rest else "")
            && (!closed ==> b.rest == [])
  {
    hide StrTok, Repeat, PieceText;
    var a := StrTok(s, ':');
    var b := StrTok(a.rest, ',');
    var k, more := StrTokShape(s, ':');
    if !more { StrTokSkips(0, [], ','); }
    var j;
    j, closed := StrTokShape(a.rest, ',');
    p := Piece(k, a.text, j, b.text);
    PieceAt(s, a.rest, p, if closed then "," + b.rest else "");
  }

  /** A text that does not crash has this form. */
  lemma {:induction false} LayoutOf(s: string, ids: seq<IdPair>, out: string, first: bool)
    returns (l: Layout)
    requires Rewrite(s, ids, out, first) != Crash
    ensures GoodLayout(l) && LayoutText(l) == s
    decreases |s|
  {
    hide PrintInt, Atoi, Resolve, Repeat, StrTok, PieceText, GoodPiece;
    var a := StrTok(s, ':');
    if a == NoToken {
      var k, _ := StrTokShape(s, ':');
      l := Colons(k);
    } else {
      var b := StrTok(a.rest, ',');
      var p, closed := HeadPiece(s);
      StrTokFacts(s, ':');
      StrTokFacts(a.rest, ',');
      if closed {
        var item := Item(a.text, Resolve(ids, Atoi(b.text) % UINT32), first);
        var rest := LayoutOf(b.rest, ids, out + item, false);
        l := More(p, rest);
        assert PieceText(p) + "," + b.rest == PieceText(p) + ("," + b.rest);
      } else {
        l := Last(p);
        assert PieceText(p) + "" == PieceText(p);
      }
    }
  }

  lemma PieceAt(s: string, s1: string, p: Piece, more: string)
    requires s == Repeat(':', p.colons) + (p.kind + (":" + s1))
    requires s1 == Repeat(',', p.commas) + (p.number + more)
    ensures s == PieceText(p) + more
  {
    hide Repeat;
    var a, b := Repeat(':', p.colons), Repeat(',', p.commas);
    assert a + (p.kind + (":" + (b + (p.number + more))))
        == a + (p.kind + ":" + (b + p.number)) + more;
  }

  ghost predicate Rewritable(s: string)
  {
    exists l :: GoodLayout(l) && LayoutText(l) == s
  }

  /** The source rewrites a text, rather than crash on it, exactly when the text has this form,
      whatever the ids. */
  lemma RewritesExactly(s: string, ids: seq<IdPair>)
    ensures Rewrite(s, ids, "", true) != Crash <==> Rewritable(s)
  {
    if Rewrite(s, ids, "", true) != Crash {
      var l := LayoutOf(s, ids, "", true);
    }
    if l :| GoodLayout(l) && LayoutText(l) == s {
      RewriteLayout(l, ids, "", true);
    }
  }

  /** A type followed by several ids keeps only the first: the rest of them are lost. */
  lemma ExtraIdsAreLost(kind: string, id: nat, extra: string, ids: seq<IdPair>)
    requires kind != [] && ':' !in kind && id < UINT32 && ',' !in extra
    ensures Rewrite(kind + ":" + (PrintInt(id) + (":" + extra)), ids, "", true)
         == Text(PrintDeps([Dep(kind, Resolve(ids, id))]))
  {
    hide Atoi, Resolve, Rewrite, PrintDeps, PrintInt;
    ReadId(id);
    ReadIdBefore(id, extra);
    var p := Piece(0, kind, 0, PrintInt(id) + (":" + extra));
    RewriteLayout(Last(p), ids, "", true);
    assert PieceText(p) == kind + ":" + p.number;
    assert Mapped([DepOf(p)], ids) == [Dep(kind, Resolve(ids, id))];
    var text := PrintDeps([Dep(kind, Resolve(ids, id))]);
    assert "" + "" + text == text;
  }

  lemma ReadIdBefore(id: nat, extra: string)
    requires id < UINT32
    ensures Atoi(PrintInt(id) + (":" + extra)) % UINT32 == id
  {
    AtoiOfPrintInt(id, ":" + extra);
  }

  // ----- lists with several ids to a type

  /** `kind:id:id...`, as Slurm writes a type with all the jobs it applies to. */
  datatype Group = Group(kind: string, ids: seq<nat>)

  predicate GoodGroup(g: Group)
  {
    && g.kind != [] && ':' !in g.kind && g.ids != []
    && forall i :: 0 <= i < |g.ids| ==> g.ids[i] < UINT32
  }

  predicate GoodGroups(gs: seq<Group>) { forall i :: 0 <= i < |gs| ==> GoodGroup(gs[i]) }

  function IdsText(ids: seq<nat>): string
    requires ids != []
  {
    PrintInt(ids[0]) + if |ids| == 1 then "" else ":" + IdsText(ids[1..])
  }

  function GroupText(g: Group): string
    requires g.ids != []
  {
    g.kind + ":" + IdsText(g.ids)
  }

  predicate HaveIds(gs: seq<Group>) { forall i :: 0 <= i < |gs| ==> gs[i].ids != [] }

  function PrintGroups(gs: seq<Group>): string
    requires HaveIds(gs)
  {
    if gs == [] then []
    else GroupText(gs[0]) + if |gs| == 1 then [] else "," + PrintGroups(gs[1..])
  }

  /** The same groups over the ids the controller gave. */
  function MappedGroup(g: Group, ids: seq<IdPair>): (r: Group)
    ensures |r.ids| == |g.ids| && r.kind == g.kind
    ensures forall i :: 0 <= i < |g.ids| ==> r.ids[i] == Resolve(ids, g.ids[i])
  {
    Group(g.kind, seq(|g.ids|, i requires 0 <= i < |g.ids| => Resolve(ids, g.ids[i])))
  }

  function MappedGroups(gs: seq<Group>, ids: seq<IdPair>): (r: seq<Group>)
    ensures |r| == |gs| && forall i :: 0 <= i < |gs| ==> r[i] == MappedGroup(gs[i], ids)
  {
    seq(|gs|, i requires 0 <= i < |gs| => MappedGroup(gs[i], ids))
  }

  predicate SingleIds(gs: seq<Group>) { forall i :: 0 <= i < |gs| ==> |gs[i].ids| == 1 }

  function LayoutOfGroups(gs: seq<Group>): Layout
    requires HaveIds(gs)
  {
    if gs == [] then Colons(0)
    else
      var p := Piece(0, gs[0].kind, 0, IdsText(gs[0].ids));
      if |gs| == 1 then Last(p) else More(p, LayoutOfGroups(gs[1..]))
  }

  /** The first id of every group. */
  function Heads(gs: seq<Group>): (r: seq<Dep>)
    requires HaveIds(gs)
    ensures |r| == |gs| && forall i :: 0 <= i < |gs| ==> r[i] == Dep(gs[i].kind, gs[i].ids[0])
  {
    seq(|gs|, i requires 0 <= i < |gs| => Dep(gs[i].kind, gs[i].ids[0]))
  }

  lemma PrintIntPlain(x: nat)
    ensures PrintInt(x) != [] && ',' !in PrintInt(x) && ':' !in PrintInt(x)
  {
    var y := x % UINT32;
    var d := Print(if y <= INT_MAX then y else UINT32 - y);
    assert forall c :: c in d ==> IsDigit(c);
  }

  lemma {:induction false} IdsTextPlain(ids: seq<nat>)
    requires ids != []
    ensures IdsText(ids) != [] && ',' !in IdsText(ids)
  {
    hide PrintInt;
    PrintIntPlain(ids[0]);
    if |ids| > 1 { IdsTextPlain(ids[1..]); }
  }

  lemma ReadFirstId(ids: seq<nat>)
    requires ids != [] && ids[0] < UINT32
    ensures Atoi(IdsText(ids)) % UINT32 == ids[0]
  {
    hide PrintInt, Atoi;
    ReadId(ids[0]);
    if |ids| == 1 {
      assert IdsText(ids) == PrintInt(ids[0]);
    } else {
      ReadIdBefore(ids[0], IdsText(ids[1..]));
    }
  }

  lemma {:induction false} GroupsLayout(gs: seq<Group>)
    requires GoodGroups(gs) && HaveIds(gs)
    ensures var l := LayoutOfGroups(gs);
            GoodLayout(l) && LayoutText(l) == PrintGroups(gs) && DepsOf(l) == Heads(gs)
    decreases |gs|
  {
    hide Atoi, IdsText, PrintInt, Repeat;
    if gs != [] {
      var p := Piece(0, gs[0].kind, 0, IdsText(gs[0].ids));
      assert GoodGroup(gs[0]);
      IdsTextPlain(gs[0].ids);
      ReadFirstId(gs[0].ids);
      PieceOfGroup(p);
      if |gs| > 1 {
        GroupsLayout(gs[1..]);
        var t := PrintGroups(gs[1..]);
        assert PieceText(p) + "," + t == GroupText(gs[0]) + ("," + t);
      }
      assert Heads(gs) == [DepOf(p)] + if |gs| == 1 then [] else Heads(gs[1..]);
    }
  }

  lemma PieceOfGroup(p: Piece)
    requires p.colons == 0 == p.commas
    ensures PieceText(p) == p.kind + ":" + p.number
  {
  }

  // ----- counting colons

  function ColonCount(s: string): nat
  {
    if s == [] then 0 else (if s[0] == ':' then 1 else 0) + ColonCount(s[1..])
  }

  lemma {:induction false} ColonsAppend(s: string, t: string)
    ensures ColonCount(s + t) == ColonCount(s) + ColonCount(t)
  {
    if s == [] {
      assert s + t == t;
    } else {
      assert (s + t)[1..] == s[1..] + t;
      ColonsAppend(s[1..], t);
    }
  }

  lemma {:induction false} ColonsNone(s: string)
    requires ':' !in s
    ensures ColonCount(s) == 0
  {
    if s != [] { ColonsNone(s[1..]); }
  }

  lemma {:induction false} ColonsInIds(ids: seq<nat>)
    requires ids != []
    ensures ColonCount(IdsText(ids)) == |ids| - 1
  {
    hide PrintInt, ColonCount;
    PrintIntPlain(ids[0]);
    ColonsNone(PrintInt(ids[0]));
    if |ids| == 1 {
      assert IdsText(ids) == PrintInt(ids[0]);
    } else {
      ColonsInIds(ids[1..]);
      ColonsAppend(PrintInt(ids[0]), ":" + IdsText(ids[1..]));
      OneColon(":", IdsText(ids[1..]));
    }
  }

  lemma OneColon(c: string, t: string)
    requires c == ":" || c == ","
    ensures ColonCount(c + t) == (if c == ":" then 1 else 0) + ColonCount(t)
  {
    assert (c + t)[1..] == t;
  }

  function IdCount(gs: seq<Group>): nat
  {
    if gs == [] then 0 else |gs[0].ids| + IdCount(gs[1..])
  }

  lemma ColonsInGroup(g: Group)
    requires g.ids != [] && ':' !in g.kind
    ensures ColonCount(GroupText(g)) == |g.ids|
  {
    hide ColonCount, IdsText;
    assert GroupText(g) == g.kind + (":" + IdsText(g.ids));
    ColonsAppend(g.kind, ":" + IdsText(g.ids));
    ColonsNone(g.kind);
    OneColon(":", IdsText(g.ids));
    ColonsInIds(g.ids);
  }

  lemma {:induction false} ColonsInGroups(gs: seq<Group>)
    requires HaveIds(gs) && forall i :: 0 <= i < |gs| ==> ':' !in gs[i].kind
    ensures ColonCount(PrintGroups(gs)) == IdCount(gs)
  {
    hide ColonCount, GroupText;
    if gs == [] {
      ColonsNone([]);
    } else {
      ColonsInGroup(gs[0]);
      if |gs| == 1 {
        assert PrintGroups(gs) == GroupText(gs[0]);
      } else {
        ColonsInGroups(gs[1..]);
        ColonsAppend(GroupText(gs[0]), "," + PrintGroups(gs[1..]));
        OneColon(",", PrintGroups(gs[1..]));
      }
    }
  }

  lemma {:induction false} IdCountSingle(gs: seq<Group>)
    requires HaveIds(gs)
    ensures IdCount(gs) >= |gs| && (IdCount(gs) == |gs| <==> SingleIds(gs))
  {
    if gs != [] {
      IdCountSingle(gs[1..]);
      assert SingleIds(gs) <==> |gs[0].ids| == 1 && SingleIds(gs[1..]) by {
        assert forall i :: 0 <= i < |gs| - 1 ==> gs[1..][i] == gs[i + 1];
        assert forall i :: 1 <= i < |gs| ==> gs[i] == gs[1..][i - 1];
      }
    }
  }

  // ----- when the structure is kept

  /** Dependencies are groups of one id. */
  function Singles(deps: seq<Dep>): (r: seq<Group>)
    ensures |r| == |deps| && HaveIds(r)
    ensures forall i :: 0 <= i < |deps| ==> r[i] == Group(deps[i].kind, [deps[i].id])
  {
    seq(|deps|, i requires 0 <= i < |deps| => Group(deps[i].kind, [deps[i].id]))
  }

  lemma {:induction false} PrintSingles(deps: seq<Dep>)
    ensures PrintGroups(Singles(deps)) == PrintDeps(deps)
  {
    hide PrintInt;
    if deps != [] {
      PrintSingles(deps[1..]);
      assert Singles(deps)[1..] == Singles(deps[1..]);
      assert IdsText([deps[0].id]) == PrintInt(deps[0].id);
    }
  }

  /** On a list with one id to a type the output is the print of the same list with every id
      replaced. */
  lemma RewriteList(deps: seq<Dep>, ids: seq<IdPair>, out: string, first: bool)
    requires WellFormed(deps)
    ensures Rewrite(PrintDeps(deps), ids, out, first)
         == Text(out + (if first || deps == [] then "" else ",") + PrintDeps(Mapped(deps, ids)))
  {
    hide Rewrite, PrintGroups, PrintDeps, Resolve, LayoutOfGroups, LayoutText, GoodLayout;
    var gs := Singles(deps);
    PrintSingles(deps);
    GroupsLayout(gs);
    assert Heads(gs) == deps;
    RewriteLayout(LayoutOfGroups(gs), ids, out, first);
  }

  // ----- what an id becomes

  /** An id that the list does not have stays as it is. */
  lemma ResolveUnknown(ids: seq<IdPair>, id: nat)
    requires forall i :: 0 <= i < |ids| ==> ids[i].trace != id
    ensures Resolve(ids, id) == id
  {
    EarlySearchMisses(ids, id, |ids|);
  }

  /** An id whose first pair has only larger ones before it becomes the id the controller gave; one
      recorded without a controller's id stays as it is. */
  lemma ResolveKnown(ids: seq<IdPair>, id: nat, j: nat)
    requires j < |ids| && ids[j].trace == id && forall i :: 0 <= i < j ==> ids[i].trace > id
    ensures Resolve(ids, id) == if ids[j].actual == 0xffff_fffe then id else ids[j].actual
  {
    EarlySearchFinds(ids, id, j);
  }

  /** An id behind a smaller one in the list is not found, and stays as it is. */
  lemma ResolveHidden(ids: seq<IdPair>, id: nat, j: nat)
    requires j < |ids| && ids[j].trace < id && forall i :: 0 <= i < j ==> ids[i].trace != id
    ensures Resolve(ids, id) == id
  {
    EarlySearchMisses(ids, id, j);
  }

  lemma {:induction false} MappedUnknown(deps: seq<Dep>, ids: seq<IdPair>)
    requires forall i, j :: 0 <= i < |deps| && 0 <= j < |ids| ==> ids[j].trace != deps[i].id
    ensures Mapped(deps, ids) == deps
  {
    hide Resolve;
    forall i | 0 <= i < |deps| ensures Resolve(ids, deps[i].id) == deps[i].id {
      ResolveUnknown(ids, deps[i].id);
    }
    assert forall i :: 0 <= i < |deps| ==> Mapped(deps, ids)[i] == deps[i];
  }

  /** A list of ids none of which is known is rewritten to itself. */
  lemma UnknownIdsStay(deps: seq<Dep>, ids: seq<IdPair>)
    requires WellFormed(deps)
    requires forall i, j :: 0 <= i < |deps| && 0 <= j < |ids| ==> ids[j].trace != deps[i].id
    ensures Rewrite(PrintDeps(deps), ids, "", true) == Text(PrintDeps(deps))
  {
    hide Rewrite, PrintDeps, Resolve, WellFormed;
    RewriteList(deps, ids, "", true);
    MappedUnknown(deps, ids);
    assert "" + "" + PrintDeps(deps) == PrintDeps(deps);
  }

  /** Rewriting a list keeps its structure, with every id of every type mapped, exactly when
      every type has one id: all ids of a type after its first are lost. */
  lemma KeepsStructure(gs: seq<Group>, ids: seq<IdPair>)
    requires GoodGroups(gs) && HaveIds(gs)
    ensures HaveIds(MappedGroups(gs, ids))
    ensures Rewrite(PrintGroups(gs), ids, "", true) == Text(PrintGroups(MappedGroups(gs, ids)))
       <==> SingleIds(gs)
  {
    hide Rewrite, PrintGroups, PrintDeps, Resolve, LayoutOfGroups, LayoutText, GoodLayout;
    var m := Mapped(Heads(gs), ids);
    var out, all := Singles(m), MappedGroups(gs, ids);
    GroupsLayout(gs);
    RewriteLayout(LayoutOfGroups(gs), ids, "", true);
    assert "" + "" + PrintDeps(m) == PrintDeps(m);
    PrintSingles(m);
    if SingleIds(gs) {
      forall i | 0 <= i < |gs| ensures out[i] == all[i] {
        assert out[i].ids == all[i].ids;
      }
      assert out == all;
    } else {
      KindsPlain(gs, ids);
      ColonsInGroups(out);
      ColonsInGroups(all);
      IdCountSingle(out);
      IdCountSingle(all);
      ManyIds(gs, all);
    }
  }

  lemma KindsPlain(gs: seq<Group>, ids: seq<IdPair>)
    requires GoodGroups(gs) && HaveIds(gs)
    ensures forall i :: 0 <= i < |gs| ==> ':' !in Singles(Mapped(Heads(gs), ids))[i].kind
    ensures forall i :: 0 <= i < |gs| ==> ':' !in MappedGroups(gs, ids)[i].kind
  {
    forall i | 0 <= i < |gs| ensures ':' !in gs[i].kind { assert GoodGroup(gs[i]); }
  }

  lemma ManyIds(gs: seq<Group>, all: seq<Group>)
    requires |all| == |gs| && forall i :: 0 <= i < |gs| ==> |all[i].ids| == |gs[i].ids|
    ensures SingleIds(all) <==> SingleIds(gs)
  {
  }

  /** A text that is not empty and holds no `:` at all is one the source cannot rewrite. */
  lemma NoColonCrashes(s: string, ids: seq<IdPair>)
    requires s != [] && ':' !in s
    ensures Rewrite(s, ids, "", true) == Crash
  {
    UptoMissing(s, ':');
    assert s[0..] == s;
    assert StrTok(s, ':').rest == [];
    assert StrTok([], ',') == NoToken;
  }
}
