/** The writer of `pmi2_api.c`: a message is built in a buffer of fixed size behind a length
    field.  Keys and names are checked against the room left; values are not. */
module Pmi2Writer {
  import opened Decimal
  import opened Options
  import opened Pmi2Codec
  import opened Runs

  /** `Overrun`: the writer would store past the buffer; nothing is promised then. */
  datatype Outcome = Overrun | Refused | Built(body: string)

  function WriteFrom(pairs: seq<Pair>, body: string): Outcome
    decreases |pairs|
  {
    if pairs == [] then
      if |body| + COMMANDLEN_SIZE < MAX_COMMAND_LEN then Built(body) else Overrun
    else
      var p, room := pairs[0], MAX_COMMAND_LEN - COMMANDLEN_SIZE - |body|;
      if |p.key| > MAX_KEYLEN || |p.key| + 1 >= room || |p.value| > MAX_VALLEN then Refused
      else if |PairText(p)| > room then Overrun
      else WriteFrom(pairs[1..], body + PairText(p))
  }

  /** How a pointer prints: a few bytes, and no `;`. */
  predicate Pointer(t: string) { |t| <= 18 && ';' !in t }

  predicate Pointers(thrid: Option<string>) { thrid.Some? ==> Pointer(thrid.value) }

  /** The name and, in the threaded client, the `thrid` of the command. */
  function Preamble(cmd: string, thrid: Option<string>): string
  {
    "cmd=" + cmd + ";" + if thrid.Some? then "thrid=" + thrid.value + ";" else ""
  }

  function WriteOutcome(cmd: string, thrid: Option<string>, pairs: seq<Pair>): Outcome
  {
    if |cmd| > MAX_VALLEN then Refused else WriteFrom(pairs, Preamble(cmd, thrid))
  }

  /** The pairs of the message: the `thrid` comes first. */
  function AllPairs(thrid: Option<string>, pairs: seq<Pair>): seq<Pair>
  {
    (if thrid.Some? then [Pair("thrid", thrid.value)] else []) + pairs
  }

  /** A command as it begins on the wire. */
  lemma PreambleFormat()
    ensures Preamble("put", Some("0x1f")) == "cmd=put;thrid=0x1f;"
    ensures Preamble("put", None) == "cmd=put;"
  {
  }

  lemma PreambleBody(cmd: string, thrid: Option<string>, pairs: seq<Pair>)
    requires Pointers(thrid)
    ensures Preamble(cmd, thrid) + PairsText(pairs) == Body(cmd, AllPairs(thrid, pairs))
  {
    var all := AllPairs(thrid, pairs);
    if thrid.Some? {
      EscapePlain(thrid.value);
      assert all[0] == Pair("thrid", thrid.value) && all[1..] == pairs;
      assert PairText(all[0]) == "thrid=" + thrid.value + ";";
    } else {
      assert all == pairs;
    }
  }

  /** The lengths the writer's checks let through. */
  predicate AllSized(pairs: seq<Pair>) { forall i :: 0 <= i < |pairs| ==> Sized(pairs[i]) }

  lemma {:induction false} WriteFromAccepts(pairs: seq<Pair>, body: string)
    ensures WriteFrom(pairs, body).Built? ==> WriteFrom(pairs, body).body == body + PairsText(pairs)
    ensures WriteFrom(pairs, body).Built?
       <==> AllSized(pairs) && |body + PairsText(pairs)| + COMMANDLEN_SIZE < MAX_COMMAND_LEN
    decreases |pairs|
  {
    if pairs == [] {
      assert body + PairsText(pairs) == body;
    } else {
      var p, rest := pairs[0], pairs[1..];
      assert body + PairsText(pairs) == (body + PairText(p)) + PairsText(rest);
      WriteFromAccepts(rest, body + PairText(p));
      assert pairs == [p] + rest;
      AllSizedParts(pairs);
    }
  }

  lemma AllSizedParts(pairs: seq<Pair>)
    requires pairs != []
    ensures AllSized(pairs) <==> Sized(pairs[0]) && AllSized(pairs[1..])
  {
    assert forall i :: 1 <= i < |pairs| ==> pairs[i] == pairs[1..][i - 1];
    assert forall i :: 0 <= i < |pairs| - 1 ==> pairs[1..][i] == pairs[i + 1];
  }

  /** The writer builds the message exactly when every length is in bounds and the body, its
      length field and a closing NUL fit the buffer; it builds nothing else. */
  lemma WriterAccepts(cmd: string, thrid: Option<string>, pairs: seq<Pair>)
    requires Pointers(thrid)
    ensures WriteOutcome(cmd, thrid, pairs).Built?
       <==> && |cmd| <= 1024
            && (forall i :: 0 <= i < |pairs| ==> |pairs[i].key| <= 64 && |pairs[i].value| <= 1024)
            && |Body(cmd, AllPairs(thrid, pairs))| + 6 < 65536
    ensures WriteOutcome(cmd, thrid, pairs).Built? ==>
              WriteOutcome(cmd, thrid, pairs).body == Body(cmd, AllPairs(thrid, pairs))
  {
    hide Preamble, Body, AllPairs;
    WriteFromAccepts(pairs, Preamble(cmd, thrid));
    PreambleBody(cmd, thrid, pairs);
  }

  /** Whatever the writer builds from a clean name and clean keys, the reader's limits accept,
      and it reads as what was written. */
  lemma WrittenIsRead(cmd: string, thrid: Option<string>, pairs: seq<Pair>)
    requires Pointers(thrid) && WriteOutcome(cmd, thrid, pairs).Built?
    requires forall i :: 0 <= i < |pairs| ==> '\0' !in pairs[i].key
    requires ';' !in cmd && CleanKeys(pairs)
    ensures ReadBody(WriteOutcome(cmd, thrid, pairs).body) == Parsed(cmd, AllPairs(thrid, pairs))
  {
    hide WriteOutcome, ReadBody, Body;
    WriterAccepts(cmd, thrid, pairs);
    assert Writable(AllPairs(thrid, pairs)) && CleanKeys(AllPairs(thrid, pairs));
    RoundTrip(cmd, AllPairs(thrid, pairs));
  }

  // ----- when the writer leaves its buffer

  /** What the buffer holds behind the length field. */
  const ROOM := MAX_COMMAND_LEN - COMMANDLEN_SIZE

  /** All lengths up to pair `k` are in bounds, its key still fits, and its value or the `;`
      after it does not. */
  predicate OverrunsAt(start: string, pairs: seq<Pair>, k: nat)
  {
    && k < |pairs| && AllSized(pairs[..k + 1])
    && |start| + |PairsText(pairs[..k])| + |pairs[k].key| + 1 < 65530
    && |start| + |PairsText(pairs[..k + 1])| > 65530
  }

  /** Some pair overruns, or the body fills the buffer to the last byte and leaves none for the
      closing NUL. */
  predicate Overruns(start: string, pairs: seq<Pair>)
  {
    || (exists k :: 0 <= k < |pairs| && OverrunsAt(start, pairs, k))
    || (AllSized(pairs) && |start| + |PairsText(pairs)| == 65530)
  }

  lemma OverrunsFirst(start: string, pairs: seq<Pair>)
    requires pairs != []
    ensures OverrunsAt(start, pairs, 0)
       <==> && Sized(pairs[0]) && |start| + |pairs[0].key| + 1 < ROOM
            && |start| + |PairText(pairs[0])| > ROOM
  {
    hide Escape;
    assert pairs[..1] == [pairs[0]] && pairs[..0] == [];
    assert [pairs[0]][1..] == [];
    assert PairsText(pairs[..1]) == PairText(pairs[0]);
  }

  lemma OverrunsLater(start: string, pairs: seq<Pair>, k: nat)
    requires 1 <= k < |pairs|
    ensures OverrunsAt(start, pairs, k)
       <==> Sized(pairs[0]) && OverrunsAt(start + PairText(pairs[0]), pairs[1..], k - 1)
  {
    hide Escape, PairText;
    var rest := pairs[1..];
    PairsTextTake(pairs, k);
    PairsTextTake(pairs, k + 1);
    assert pairs[..k + 1][1..] == rest[..k];
    AllSizedParts(pairs[..k + 1]);
  }

  lemma PairsTextTake(pairs: seq<Pair>, k: nat)
    requires 1 <= k <= |pairs|
    ensures |PairsText(pairs[..k])| == |PairText(pairs[0])| + |PairsText(pairs[1..][..k - 1])|
  {
    assert pairs[..k][1..] == pairs[1..][..k - 1];
  }

  lemma PairTextLength(p: Pair)
    ensures |PairText(p)| >= |p.key| + 2
  {
  }

  /** One pair that is in bounds and fits, split off. */
  lemma OverrunsStep(pairs: seq<Pair>, body: string)
    requires pairs != [] && Sized(pairs[0]) && |body| + |PairText(pairs[0])| <= ROOM
    ensures Overruns(body, pairs) <==> Overruns(body + PairText(pairs[0]), pairs[1..])
  {
    hide OverrunsAt, PairText;
    var start, rest := body + PairText(pairs[0]), pairs[1..];
    OverrunsFirst(body, pairs);
    AllSizedParts(pairs);
    forall k | 1 <= k < |pairs|
      ensures OverrunsAt(body, pairs, k) <==> OverrunsAt(start, rest, k - 1)
    {
      OverrunsLater(body, pairs, k);
    }
    if k :| 0 <= k < |rest| && OverrunsAt(start, rest, k) {
      assert OverrunsAt(body, pairs, k + 1);
    }
  }

  /** A pair the checks refuse keeps the writer from reaching the end of the buffer. */
  lemma RefusedStops(pairs: seq<Pair>, body: string)
    requires pairs != []
    requires !Sized(pairs[0]) || |body| + |pairs[0].key| + 1 >= ROOM
    ensures !Overruns(body, pairs)
  {
    hide PairText;
    PairTextLength(pairs[0]);
    AllSizedParts(pairs);
    OverrunsFirst(body, pairs);
    forall k | 1 <= k < |pairs| ensures !OverrunsAt(body, pairs, k) {
      PairsTextTake(pairs, k);
      OverrunsLater(body, pairs, k);
    }
  }

  /** The exact condition for an overrun, in the lengths of the command and the pairs. */
  lemma {:induction false} OverrunExactly(pairs: seq<Pair>, body: string)
    requires |body| <= ROOM
    ensures WriteFrom(pairs, body) == Overrun <==> Overruns(body, pairs)
    decreases |pairs|
  {
    hide Overruns, PairText;
    if pairs == [] {
      OverrunsNone(body);
    } else {
      var p := pairs[0];
      if !Sized(p) || |body| + |p.key| + 1 >= ROOM {
        RefusedStops(pairs, body);
      } else if |body| + |PairText(p)| > ROOM {
        OverrunsHere(pairs, body);
      } else {
        OverrunsStep(pairs, body);
        OverrunExactly(pairs[1..], body + PairText(p));
      }
    }
  }

  lemma OverrunsNone(body: string) ensures Overruns(body, []) <==> |body| == ROOM { }

  lemma OverrunsHere(pairs: seq<Pair>, body: string)
    requires pairs != [] && Sized(pairs[0]) && |body| + |pairs[0].key| + 1 < ROOM
    requires |body| + |PairText(pairs[0])| > ROOM
    ensures Overruns(body, pairs)
  {
    hide PairText, PairsText;
    OverrunsFirst(body, pairs);
    assert OverrunsAt(body, pairs, 0);
  }

  lemma WriterOverruns(cmd: string, thrid: Option<string>, pairs: seq<Pair>)
    requires Pointers(thrid)
    ensures WriteOutcome(cmd, thrid, pairs) == Overrun
       <==> |cmd| <= MAX_VALLEN && Overruns(Preamble(cmd, thrid), pairs)
  {
    if |cmd| <= MAX_VALLEN { OverrunExactly(pairs, Preamble(cmd, thrid)); }
  }

  /** `m` pairs of one-byte keys and values of 1024 `;`. */
  function Semicolons(m: nat): (r: seq<Pair>)
    ensures |r| == m && forall i :: 0 <= i < m ==> r[i] == Pair("k", Repeat(';', MAX_VALLEN))
  {
    seq(m, _ => Pair("k", Repeat(';', MAX_VALLEN)))
  }

  lemma {:induction false} EscapedSemicolons(n: nat)
    ensures |Escape(Repeat(';', n))| == 2 * n
  {
    if n > 0 {
      EscapedSemicolons(n - 1);
      assert Repeat(';', n)[1..] == Repeat(';', n - 1);
    }
  }

  lemma {:induction false} SemicolonsText(m: nat)
    ensures |PairsText(Semicolons(m))| == 2051 * m
  {
    hide Escape;
    if m > 0 {
      SemicolonsText(m - 1);
      EscapedSemicolons(MAX_VALLEN);
      assert Semicolons(m)[1..] == Semicolons(m - 1);
    }
  }

  /** An input on which the writer leaves its buffer: 32 such pairs, under any name. */
  lemma ThirtyTwoPairsOverrun(cmd: string, thrid: Option<string>)
    requires |cmd| <= MAX_VALLEN && Pointers(thrid)
    ensures WriteOutcome(cmd, thrid, Semicolons(32)) == Overrun
  {
    hide PairsText, WriteFrom;
    var pairs, start := Semicolons(32), Preamble(cmd, thrid);
    SemicolonsText(31);
    SemicolonsText(32);
    assert pairs[..31] == Semicolons(31) && pairs[..32] == Semicolons(32);
    assert OverrunsAt(start, pairs, 31);
    WriterOverruns(cmd, thrid, pairs);
  }

  // ----- the length field

  /** The length in decimal, padded with spaces. */
  function Header(n: nat): (s: string)
    requires n < 100000
    ensures |s| == COMMANDLEN_SIZE
  {
    HeaderFits(n);
    Print(n) + Repeat(' ', COMMANDLEN_SIZE - |Print(n)|)
  }

  lemma HeaderFits(n: nat)
    requires n < 100000
    ensures |Print(n)| < COMMANDLEN_SIZE
  {
    assert Pow10(5) == 100000;
    PrintLength(n, 5);
  }

  function Frame(body: string): string
    requires |body| < 100000
  {
    Header(|body|) + body
  }

  // ----- building the message

  /** Copy `text` into the buffer at `c`. */
  method Put(buf: array<char>, c: nat, text: string) returns (c': nat)
    requires c + |text| <= buf.Length
    modifies buf
    ensures c' == c + |text|
    ensures buf[..c'] == old(buf[..c]) + text
  {
    var i := 0;
    while i < |text|
      invariant 0 <= i <= |text|
      invariant buf[..c + i] == old(buf[..c]) + text[..i]
    {
      buf[c + i] := text[i];
      i := i + 1;
      assert text[..i] == text[..i - 1] + [text[i - 1]];
    }
    assert text[..i] == text;
    c' := c + |text|;
  }

  /** Copy a value, doubling every `;`, and a `;` after it; `fits` is false where the source would
      store past the buffer. */
  method PutEscaped(buf: array<char>, c: nat, value: string) returns (fits: bool, c': nat)
    requires c <= buf.Length
    modifies buf
    ensures fits <==> c + |Escape(value)| + 1 <= buf.Length
    ensures fits ==> c' == c + |Escape(value)| + 1
                     && buf[..c'] == old(buf[..c]) + Escape(value) + ";"
  {
    hide Escape;
    c' := c;
    var i := 0;
    ghost var start, done := buf[..c], "";
    assert value[0..] == value;
    while i < |value|
      invariant 0 <= i <= |value|
      invariant Escape(value) == done + Escape(value[i..])
      invariant c' == c + |done| <= buf.Length
      invariant buf[..c'] == start + done
    {
      EscapeAt(value, i);
      if value[i] == ';' {
        if c' == buf.Length { return false, c'; }
        buf[c'] := ';';
        c', done := c' + 1, done + ";";
        assert buf[..c'] == start + done;
      }
      if c' == buf.Length { return false, c'; }
      buf[c'] := value[i];
      c', done := c' + 1, done + [value[i]];
      assert buf[..c'] == start + done;
      i := i + 1;
    }
    assert value[i..] == [];
    EscapeNothing();
    if c' == buf.Length { return false, c'; }
    buf[c'] := ';';
    c' := c' + 1;
    fits := true;
  }

  lemma EscapeAt(v: string, i: nat)
    requires i < |v|
    ensures Escape(v[i..]) == (if v[i] == ';' then ";" else "") + [v[i]] + Escape(v[i + 1..])
  {
    assert v[i..][1..] == v[i + 1..];
  }

  lemma EscapeNothing() ensures Escape("") == "" { }

  /** Append the pairs, checking keys against the room left and values against their limit. */
  method PutPairs(buf: array<char>, pairs: seq<Pair>, c0: nat, ghost body0: string)
    returns (r: Outcome, c: nat)
    requires buf.Length == MAX_COMMAND_LEN && COMMANDLEN_SIZE <= c0 <= MAX_COMMAND_LEN
    requires buf[..c0] == Repeat(' ', COMMANDLEN_SIZE) + body0
    modifies buf
    ensures r == WriteFrom(pairs, body0)
    ensures r.Built? ==> && c == COMMANDLEN_SIZE + |r.body| < MAX_COMMAND_LEN
                         && buf[..c] == Repeat(' ', COMMANDLEN_SIZE) + r.body
  {
    hide WriteFrom, Escape;
    c := c0;
    ghost var body := body0;
    var remaining := MAX_COMMAND_LEN - c;
    var index := 0;
    assert pairs[0..] == pairs;
    while index < |pairs|
      invariant 0 <= index <= |pairs| && COMMANDLEN_SIZE <= c <= MAX_COMMAND_LEN
      invariant remaining == MAX_COMMAND_LEN - c
      invariant buf[..c] == Repeat(' ', COMMANDLEN_SIZE) + body
      invariant WriteFrom(pairs, body0) == WriteFrom(pairs[index..], body)
    {
      WriteFromAt(pairs, index, body);
      assert |body| == c - COMMANDLEN_SIZE;
      var p := pairs[index];
      if |p.key| > MAX_KEYLEN || |p.key| + 1 >= remaining { return Refused, c; }
      c := Put(buf, c, p.key + "=");
      if |p.value| > MAX_VALLEN { return Refused, c; }
      var fits;
      fits, c := PutEscaped(buf, c, p.value);
      if !fits { return Overrun, c; }
      remaining := MAX_COMMAND_LEN - c;
      body := body + PairText(p);
      index := index + 1;
    }
    assert |body| == c - COMMANDLEN_SIZE;
    assert pairs[index..] == [];
    WriteFromNone(body);
    assert buf[COMMANDLEN_SIZE..c] == body;
    r := if c == MAX_COMMAND_LEN then Overrun else Built(buf[COMMANDLEN_SIZE..c]);
  }

  lemma WriteFromNone(body: string)
    ensures WriteFrom([], body)
         == if |body| + COMMANDLEN_SIZE < MAX_COMMAND_LEN then Built(body) else Overrun
  {
  }

  lemma WriteFromAt(pairs: seq<Pair>, k: nat, body: string)
    requires k < |pairs|
    ensures var p, room := pairs[k], MAX_COMMAND_LEN - COMMANDLEN_SIZE - |body|;
            WriteFrom(pairs[k..], body)
            == if |p.key| > MAX_KEYLEN || |p.key| + 1 >= room || |p.value| > MAX_VALLEN then Refused
               else if |PairText(p)| > room then Overrun
               else WriteFrom(pairs[k + 1..], body + PairText(p))
  {
    assert pairs[k..][1..] == pairs[k + 1..];
  }

  /** Build the whole message; `len` bytes of the buffer are the frame to send. */
  method BuildCommand(buf: array<char>, cmd: string, thrid: Option<string>, pairs: seq<Pair>)
    returns (r: Outcome, len: nat)
    requires buf.Length == MAX_COMMAND_LEN && Pointers(thrid)
    modifies buf
    ensures r == WriteOutcome(cmd, thrid, pairs)
    ensures r.Built? ==> && len == COMMANDLEN_SIZE + |r.body| < MAX_COMMAND_LEN
                         && buf[..len] == Frame(r.body)
                         && |Print(|r.body|)| <= 5 && buf[..|Print(|r.body|)|] == Print(|r.body|)
                         && (forall i :: |Print(|r.body|)| <= i < 6 ==> buf[i] == ' ')
                         && buf[6..len] == r.body
  {
    hide WriteFrom, Escape, Frame, Print;
    len := 0;
    var c := Put(buf, 0, Repeat(' ', COMMANDLEN_SIZE));
    assert buf[..0] == [];
    if |cmd| > MAX_VALLEN { return Refused, len; }
    c := Put(buf, c, "cmd=" + cmd + ";");
    if thrid.Some? { c := Put(buf, c, "thrid=" + thrid.value + ";"); }
    r, c := PutPairs(buf, pairs, c, Preamble(cmd, thrid));
    if r.Built? {
      var digits := Print(c - COMMANDLEN_SIZE);
      HeaderFits(c - COMMANDLEN_SIZE);
      ghost var was := buf[..c];
      FrameFromSpaces(digits, r.body);
      PutFront(buf, digits, was);
      buf[c] := '\0';
      len := c;
      FrameParts(r.body, buf[..len]);
    }
  }

  /** A frame: the length in decimal, spaces up to six bytes, and the body. */
  lemma FrameParts(body: string, frame: string)
    requires |body| < 100000 && frame == Frame(body)
    ensures var d := Print(|body|);
            && |d| <= 5 && |frame| == 6 + |body| && frame[..|d|] == d && frame[6..] == body
            && forall i :: |d| <= i < 6 ==> frame[i] == ' '
  {
    hide Print;
    HeaderFits(|body|);
  }

  /** Overwrite the start of the buffer with `text`. */
  method PutFront(buf: array<char>, text: string, ghost was: string)
    requires |text| <= |was| <= buf.Length && was == buf[..|was|]
    modifies buf
    ensures buf[..|was|] == text + was[|text|..]
  {
    var i := 0;
    while i < |text|
      invariant 0 <= i <= |text|
      invariant forall j :: 0 <= j < i ==> buf[j] == text[j]
      invariant forall j :: i <= j < |was| ==> buf[j] == was[j]
    {
      buf[i] := text[i];
      i := i + 1;
    }
  }

  lemma FrameFromSpaces(digits: string, body: string)
    requires |body| < 100000 && digits == Print(|body|) && |digits| < COMMANDLEN_SIZE
    ensures digits + (Repeat(' ', COMMANDLEN_SIZE) + body)[|digits|..] == Frame(body)
  {
    hide Print, Repeat, Header;
    PadAfter(digits, body);
    HeaderIs(|body|);
  }

  lemma HeaderIs(n: nat)
    requires n < 100000
    ensures |Print(n)| < COMMANDLEN_SIZE
    ensures Header(n) == Print(n) + Repeat(' ', COMMANDLEN_SIZE - |Print(n)|)
  {
    HeaderFits(n);
  }

  lemma PadAfter(digits: string, body: string)
    requires |digits| < COMMANDLEN_SIZE
    ensures digits + (Repeat(' ', COMMANDLEN_SIZE) + body)[|digits|..]
         == digits + Repeat(' ', COMMANDLEN_SIZE - |digits|) + body
  {
    SpacesDrop(COMMANDLEN_SIZE, |digits|);
  }

  lemma SpacesDrop(m: nat, k: nat)
    requires k <= m
    ensures |Repeat(' ', m)| == m && Repeat(' ', m)[k..] == Repeat(' ', m - k)
  {
  }
}
