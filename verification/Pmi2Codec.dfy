/** The body of a PMI2 message: `cmd=name;` followed by `key=value;` pairs, with `;` inside a
    value written twice.  A byte is a `char`; a value may hold any bytes at all. */
module Pmi2Codec {
  import opened Runs
  import opened Strtok

  const MAX_KEYLEN := 64
  const MAX_VALLEN := 1024
  const COMMANDLEN_SIZE := 6
  const MAX_COMMAND_LEN := 65536

  datatype Pair = Pair(key: string, value: string)

  // ----- the text of a message

  function Escape(v: string): string
  {
    if v == [] then [] else (if v[0] == ';' then ";;" else [v[0]]) + Escape(v[1..])
  }

  function PairText(p: Pair): string { p.key + "=" + Escape(p.value) + ";" }

  function PairsText(pairs: seq<Pair>): string
  {
    if pairs == [] then [] else PairText(pairs[0]) + PairsText(pairs[1..])
  }

  function Body(cmd: string, pairs: seq<Pair>): string
  {
    "cmd=" + cmd + ";" + PairsText(pairs)
  }

  // ----- reading

  /** A C string: the bytes before the first NUL. */
  function CString(s: string): string
  {
    if s == [] || s[0] == '\0' then [] else [s[0]] + CString(s[1..])
  }

  /** Where the key ends: the first `=`, or the end of the text. */
  function KeyEnd(s: string): (k: nat)
    ensures k <= |s| && '=' !in s[..k] && (k < |s| ==> s[k] == '=')
  {
    if s == [] || s[0] == '=' then 0
    else
      var m := KeyEnd(s[1..]);
      assert s[..m + 1] == [s[0]] + s[1..][..m];
      m + 1
  }

  /** A value and the bytes it takes up, its ending `;` included. */
  datatype Scan = NoEnd | Found(value: string, used: nat)

  function Prepend(c: char, k: nat, r: Scan): Scan
  {
    match r
    case NoEnd => NoEnd
    case Found(v, n) => Found([c] + v, k + n)
  }

  function ScanValue(t: string): (r: Scan)
    ensures r.Found? ==> |r.value| < r.used <= |t|
  {
    if t == [] then NoEnd
    else if t[0] != ';' then Prepend(t[0], 1, ScanValue(t[1..]))
    else if |t| > 1 && t[1] == ';' then Prepend(';', 2, ScanValue(t[2..]))
    else Found([], 1)
  }

  datatype Parse = Bad | Good(key: string, value: string, rest: string)

  function ParsePair(s: string): (r: Parse)
    ensures r.Good? ==> |r.rest| < |s|
  {
    var k := KeyEnd(s);
    if k == |s| || k > MAX_KEYLEN then Bad
    else match ScanValue(s[k + 1..])
      case NoEnd => Bad
      case Found(v, n) =>
        if |v| > MAX_VALLEN then Bad else Good(CString(s[..k]), v, s[k + 1 + n..])
  }

  /** The pairs stored before the text ends (`ok`) or a pair is malformed. */
  datatype Stored = Stored(pairs: seq<Pair>, ok: bool)

  function ReadPairs(s: string): Stored
    decreases |s|
  {
    if s == [] then Stored([], true)
    else match ParsePair(s)
      case Bad => Stored([], false)
      case Good(k, v, rest) =>
        var r := ReadPairs(rest);
        Stored([Pair(k, v)] + r.pairs, r.ok)
  }

  datatype Message = Rejected | Parsed(command: string, pairs: seq<Pair>)

  function ReadBody(s: string): Message
  {
    match ParsePair(s)
    case Bad => Rejected
    case Good(k, v, rest) =>
      if k != "cmd" then Rejected
      else
        var r := ReadPairs(rest);
        if r.ok then Parsed(v, r.pairs) else Rejected
  }

  // ----- the round trip

  /** What a scan accepts is the escaped value and a `;` that no other `;` follows. */
  lemma {:induction false} ScanSound(t: string)
    requires ScanValue(t).Found?
    ensures var r := ScanValue(t);
            t[..r.used] == Escape(r.value) + ";" && (r.used < |t| ==> t[r.used] != ';')
  {
    if t[0] != ';' || (|t| > 1 && t[1] == ';') {
      var k := if t[0] == ';' then 2 else 1;
      ScanSound(t[k..]);
      var r, q := ScanValue(t), ScanValue(t[k..]);
      assert r.value[1..] == q.value;
      assert t[..r.used] == t[..k] + t[k..][..q.used];
    }
  }

  lemma {:induction false} ScanEscaped(v: string, rest: string)
    requires rest == [] || rest[0] != ';'
    ensures ScanValue(Escape(v) + ";" + rest) == Found(v, |Escape(v)| + 1)
  {
    var t := Escape(v) + ";" + rest;
    if v == [] {
      assert t == ";" + rest;
    } else {
      ScanEscaped(v[1..], rest);
      EscapeHead(v, rest);
      assert v == [v[0]] + v[1..];
    }
  }

  lemma EscapeHead(v: string, rest: string)
    requires v != []
    ensures var t, k := Escape(v) + ";" + rest, if v[0] == ';' then 2 else 1;
            && |t| > k && t[0] == v[0] && (k == 2 ==> t[1] == ';')
            && t[k..] == Escape(v[1..]) + ";" + rest
            && |Escape(v)| == k + |Escape(v[1..])|
  {
    var e := Escape(v[1..]);
    var pre := if v[0] == ';' then ";;" else [v[0]];
    assert Escape(v) == pre + e;
    hide Escape;
    assert pre + e + ";" + rest == pre + (e + ";" + rest);
  }

  lemma {:induction false} EscapePlain(v: string)
    requires ';' !in v
    ensures Escape(v) == v
  {
    if v != [] { EscapePlain(v[1..]); }
  }

  lemma {:induction false} KeyEndAt(key: string, rest: string)
    requires '=' !in key
    ensures KeyEnd(key + "=" + rest) == |key|
  {
    var s := key + "=" + rest;
    if key != [] {
      KeyEndAt(key[1..], rest);
      assert s[1..] == key[1..] + "=" + rest;
    }
  }

  lemma {:induction false} CStringOf(key: string)
    requires '\0' !in key
    ensures CString(key) == key
  {
    if key != [] { CStringOf(key[1..]); }
  }

  /** A pair with lengths the writer accepts. */
  predicate Sized(p: Pair) { |p.key| <= MAX_KEYLEN && |p.value| <= MAX_VALLEN }

  predicate StartsWithSemi(s: string) { s != [] && s[0] == ';' }

  /** Reading the text of one pair, when the key holds no `=` and no `;` follows: it is accepted
      exactly when both lengths are in bounds, and the key is cut at a NUL. */
  lemma ParseText(p: Pair, rest: string)
    requires '=' !in p.key && !StartsWithSemi(rest)
    ensures ParsePair(PairText(p) + rest)
         == if |p.key| <= 64 && |p.value| <= 1024 then Good(CString(p.key), p.value, rest) else Bad
  {
    hide CString, Escape, ScanValue, KeyEnd;
    var s, tail := PairText(p) + rest, Escape(p.value) + ";" + rest;
    assert s == p.key + "=" + tail;
    KeyEndAt(p.key, tail);
    assert s[..|p.key|] == p.key && s[|p.key| + 1..] == tail;
    ScanEscaped(p.value, rest);
    assert s[|p.key| + 1 + |Escape(p.value)| + 1..] == rest;
  }

  /** Reading one written pair. */
  lemma ParseWritten(p: Pair, rest: string)
    requires Sized(p) && '=' !in p.key && '\0' !in p.key && !StartsWithSemi(rest)
    ensures ParsePair(PairText(p) + rest) == Good(p.key, p.value, rest)
  {
    ParseText(p, rest);
    CStringOf(p.key);
  }

  /** What a pair that parses looks like in the text. */
  lemma ParseShape(s: string) returns (p: Pair)
    requires ParsePair(s).Good?
    ensures var r := ParsePair(s);
            && s == PairText(p) + r.rest && !StartsWithSemi(r.rest) && '=' !in p.key && Sized(p)
            && r.key == CString(p.key) && r.value == p.value
  {
    hide CString, Escape, ScanValue, KeyEnd, PairText;
    KeyEndFacts(s);
    var k := KeyEnd(s);
    var t := s[k + 1..];
    ScanSound(t);
    var v, n := ScanValue(t).value, ScanValue(t).used;
    ScanUsed(t);
    p := Pair(s[..k], v);
    assert t[n..] == s[k + 1 + n..];
    ShapeOf(s, k, t, v, n);
  }

  lemma ShapeOf(s: string, k: nat, t: string, v: string, n: nat)
    requires k < |s| && s[k] == '=' && t == s[k + 1..] && n <= |t| && t[..n] == Escape(v) + ";"
    ensures s == PairText(Pair(s[..k], v)) + t[n..]
  {
    hide Escape;
    assert s == s[..k] + "=" + t && t == t[..n] + t[n..];
  }

  lemma KeyEndFacts(s: string)
    ensures var k := KeyEnd(s); k <= |s| && '=' !in s[..k] && (k < |s| ==> s[k] == '=')
  {
  }

  lemma ScanUsed(t: string)
    requires ScanValue(t).Found?
    ensures ScanValue(t).used <= |t|
  {
  }

  /** Reading back a written pair forces the conditions `ParseWritten` asks for. */
  lemma ParseForces(p: Pair, rest: string)
    requires ParsePair(PairText(p) + rest).Good?
    requires var r := ParsePair(PairText(p) + rest); r.key == p.key && r.value == p.value
    ensures '=' !in p.key && !StartsWithSemi(rest)
    ensures ParsePair(PairText(p) + rest).rest == rest
  {
    hide ScanValue, Escape, CString, KeyEnd;
    var s, tail := PairText(p) + rest, Escape(p.value) + ";" + rest;
    var k := KeyEnd(s);
    assert s == p.key + "=" + tail;
    CStringPrefix(s[..k]);
    KeyEndFacts(s);
    assert '=' !in p.key;
    KeyEndAt(p.key, tail);
    assert s[k + 1..] == tail;
    ScanForces(p.value, rest);
  }

  lemma ScanForces(v: string, rest: string)
    requires var r := ScanValue(Escape(v) + ";" + rest); r.Found? && r.value == v
    ensures !StartsWithSemi(rest) && ScanValue(Escape(v) + ";" + rest).used == |Escape(v)| + 1
    ensures (Escape(v) + ";" + rest)[|Escape(v)| + 1..] == rest
  {
    hide ScanValue, Escape;
    ScanSound(Escape(v) + ";" + rest);
  }

  lemma {:induction false} CStringPrefix(s: string)
    ensures CString(s) <= s
  {
    if s != [] && s[0] != '\0' {
      CStringPrefix(s[1..]);
      assert s == [s[0]] + s[1..];
    }
  }

  /** A key that separates cleanly from the text around it. */
  predicate CleanKey(key: string) { '=' !in key && !StartsWithSemi(key) }

  predicate CleanKeys(pairs: seq<Pair>) { forall i :: 0 <= i < |pairs| ==> CleanKey(pairs[i].key) }

  predicate Writable(pairs: seq<Pair>)
  {
    forall i :: 0 <= i < |pairs| ==> Sized(pairs[i]) && '\0' !in pairs[i].key
  }

  lemma PairsStart(pairs: seq<Pair>)
    requires CleanKeys(pairs)
    ensures !StartsWithSemi(PairsText(pairs))
  {
    if pairs != [] { assert CleanKey(pairs[0].key); }
  }

  lemma {:induction false} ReadWritten(pairs: seq<Pair>)
    requires Writable(pairs) && CleanKeys(pairs)
    ensures ReadPairs(PairsText(pairs)) == Stored(pairs, true)
  {
    if pairs != [] {
      PairsStart(pairs[1..]);
      ParseWritten(pairs[0], PairsText(pairs[1..]));
      ReadWritten(pairs[1..]);
      assert pairs == [pairs[0]] + pairs[1..];
    }
  }

  lemma {:induction false} ReadForces(pairs: seq<Pair>)
    requires Writable(pairs) && !StartsWithSemi(PairsText(pairs))
    requires ReadPairs(PairsText(pairs)) == Stored(pairs, true)
    ensures CleanKeys(pairs)
  {
    if pairs != [] {
      var rest := PairsText(pairs[1..]);
      ParseForces(pairs[0], rest);
      var r := ReadPairs(rest);
      assert [pairs[0]] + r.pairs == pairs;
      assert r.pairs == pairs[1..];
      ReadForces(pairs[1..]);
      assert StartsWithSemi(pairs[0].key) ==> StartsWithSemi(PairsText(pairs));
    }
  }

  // ----- everything the reader accepts

  /** The pair as the reader stores it: its key ends at a NUL. */
  function Cut(p: Pair): Pair { Pair(CString(p.key), p.value) }

  function CutAll(raw: seq<Pair>): (r: seq<Pair>)
    ensures |r| == |raw| && forall i :: 0 <= i < |raw| ==> r[i] == Cut(raw[i])
  {
    seq(|raw|, i requires 0 <= i < |raw| => Cut(raw[i]))
  }

  /** Pairs as they may stand in a text: lengths in bounds, no `=` in a key, and no key but the
      first starting with `;`. */
  predicate Raw(raw: seq<Pair>)
  {
    && (forall i :: 0 <= i < |raw| ==>
          |raw[i].key| <= 64 && |raw[i].value| <= 1024 && '=' !in raw[i].key)
    && (forall i :: 1 <= i < |raw| ==> !StartsWithSemi(raw[i].key))
  }

  lemma RawRest(raw: seq<Pair>)
    requires Raw(raw) && raw != []
    ensures Raw(raw[1..]) && !StartsWithSemi(PairsText(raw[1..]))
  {
    hide Escape;
    if |raw| > 1 { assert !StartsWithSemi(raw[1].key); }
  }

  lemma {:induction false} ReadRaw(raw: seq<Pair>)
    requires Raw(raw)
    ensures ReadPairs(PairsText(raw)) == Stored(CutAll(raw), true)
  {
    hide ParsePair, CString, PairText;
    if raw != [] {
      RawRest(raw);
      ParseText(raw[0], PairsText(raw[1..]));
      ReadRaw(raw[1..]);
      PairTextNotEmpty(raw[0]);
      assert CutAll(raw) == [Cut(raw[0])] + CutAll(raw[1..]);
    }
  }

  lemma PairTextNotEmpty(p: Pair) ensures |PairText(p)| >= 1 { }

  lemma {:induction false} ReadShape(s: string) returns (raw: seq<Pair>)
    requires ReadPairs(s).ok
    ensures Raw(raw) && PairsText(raw) == s && ReadPairs(s).pairs == CutAll(raw)
    decreases |s|
  {
    hide ParsePair, CString, PairText, Escape, Raw;
    raw := [];
    RawNone();
    if s != [] {
      var p := ParseShape(s);
      var r := ParsePair(s);
      ParseShrinks(s);
      var tail := ReadShape(r.rest);
      raw := [p] + tail;
      assert raw[1..] == tail;
      RawCons(p, tail);
      assert CutAll(raw) == [Cut(p)] + CutAll(tail);
    }
  }

  lemma RawNone() ensures Raw([]) { }

  lemma ParseShrinks(s: string)
    requires ParsePair(s).Good?
    ensures |ParsePair(s).rest| < |s|
  {
  }

  lemma RawCons(p: Pair, tail: seq<Pair>)
    requires Sized(p) && '=' !in p.key && Raw(tail) && !StartsWithSemi(PairsText(tail))
    ensures Raw([p] + tail)
  {
    hide Escape;
    assert tail != [] && StartsWithSemi(tail[0].key) ==> StartsWithSemi(PairsText(tail));
  }

  /** The message `raw` stands for. */
  predicate Denotes(raw: seq<Pair>, cmd: string, pairs: seq<Pair>)
  {
    raw != [] && Cut(raw[0]) == Pair("cmd", cmd) && CutAll(raw[1..]) == pairs
  }

  ghost predicate Accepts(s: string, cmd: string, pairs: seq<Pair>)
  {
    exists raw :: Raw(raw) && PairsText(raw) == s && Denotes(raw, cmd, pairs)
  }

  /** The reader accepts a text, and reads this message in it, exactly when the text is a list of
      such pairs, the first with the key `cmd`; it rejects every other text. */
  lemma ReadsExactly(s: string, cmd: string, pairs: seq<Pair>)
    ensures ReadBody(s) == Parsed(cmd, pairs) <==> Accepts(s, cmd, pairs)
  {
    hide ParsePair, CString, Escape, ReadPairs, PairsText;
    if ReadBody(s) == Parsed(cmd, pairs) {
      var p := ParseShape(s);
      var tail := ReadShape(ParsePair(s).rest);
      RawCons(p, tail);
      PairsTextCons(p, tail);
      var raw := [p] + tail;
      assert raw[1..] == tail;
      assert Denotes(raw, cmd, pairs);
    }
    if raw :| Raw(raw) && PairsText(raw) == s && Denotes(raw, cmd, pairs) {
      RawRest(raw);
      PairsTextCons(raw[0], raw[1..]);
      assert [raw[0]] + raw[1..] == raw;
      ParseText(raw[0], PairsText(raw[1..]));
      ReadRaw(raw[1..]);
    }
  }

  lemma PairsTextCons(p: Pair, tail: seq<Pair>)
    ensures PairsText([p] + tail) == PairText(p) + PairsText(tail)
  {
    assert ([p] + tail)[1..] == tail;
  }

  /** A message as it stands on the wire. */
  lemma WireFormat()
    ensures Body("put", [Pair("key", "a;b"), Pair("n", "")]) == "cmd=put;key=a;;b;n=;"
  {
    hide Escape;
    EscapeExample();
    var p, q := Pair("key", "a;b"), Pair("n", "");
    assert PairText(p) == "key=a;;b;" && PairText(q) == "n=;";
    hide PairText;
    assert [q] + [] == [q] && [p] + [q] == [p, q];
    PairsTextCons(q, []);
    PairsTextCons(p, [q]);
    assert PairsText([p, q]) == "key=a;;b;n=;";
  }

  lemma EscapeExample()
    ensures Escape("a;b") == "a;;b" && Escape("") == ""
  {
    assert "b"[1..] == "";
    assert Escape("b") == "b";
    assert ";b"[1..] == "b";
    assert Escape(";b") == ";;b";
    assert "a;b"[1..] == ";b";
  }

  // ----- the command name is not escaped

  lemma {:induction false} EscapeOverflow(m: nat, w: string, T: string)
    requires m >= 1 && Repeat(';', m) + Escape(w) + ";" <= w + ";" + T
    ensures |w| <= |Escape(w)| && Repeat(';', m + |Escape(w)| - |w|) <= T
    decreases |w|
  {
    var left, right := Repeat(';', m) + Escape(w) + ";", w + ";" + T;
    if w == [] {
      assert left == Repeat(';', m) + ";" && right == ";" + T;
      assert left[1..] <= right[1..];
      assert left[1..] == Repeat(';', m);
    } else {
      assert left[0] == right[0];
      assert left[1..] == Repeat(';', m + 1) + Escape(w[1..]) + ";";
      assert right[1..] == w[1..] + ";" + T;
      EscapeOverflow(m + 1, w[1..], T);
    }
  }

  /** A name holding `;` reads back as itself only by eating into the text after it. */
  lemma {:induction false} NameOverflow(v: string, T: string)
    requires ';' in v && Escape(v) + ";" <= v + ";" + T
    ensures |v| < |Escape(v)| && Repeat(';', |Escape(v)| - |v|) <= T
  {
    var left, right := Escape(v) + ";", v + ";" + T;
    assert right[1..] == v[1..] + ";" + T;
    if v[0] == ';' {
      assert left[1..] == Repeat(';', 1) + Escape(v[1..]) + ";";
      EscapeOverflow(1, v[1..], T);
    } else {
      assert left[1..] == Escape(v[1..]) + ";";
      NameOverflow(v[1..], T);
    }
  }

  lemma BodyStart(cmd: string, pairs: seq<Pair>)
    ensures var tail := cmd + ";" + PairsText(pairs);
            KeyEnd(Body(cmd, pairs)) == 3 && Body(cmd, pairs)[4..] == tail
            && CString(Body(cmd, pairs)[..3]) == "cmd"
  {
    var s, tail := Body(cmd, pairs), cmd + ";" + PairsText(pairs);
    assert s == "cmd" + "=" + tail;
    KeyEndAt("cmd", tail);
    assert s[..3] == "cmd";
    CStringOf("cmd");
  }

  lemma {:induction false} FirstKeyShrinks(p: Pair, rest: string, e: nat)
    requires 1 <= e && Repeat(';', e) <= PairText(p) + rest
    ensures var s := PairText(p) + rest;
            ParsePair(s[e..]).Good? ==> ParsePair(s[e..]).key != p.key
  {
    var s := PairText(p) + rest;
    assert s[|p.key|] == '=';
    assert forall i :: 0 <= i < e ==> s[i] == Repeat(';', e)[i];
    assert e <= |p.key|;
    var t := s[e..];
    assert t[|p.key| - e] == '=';
    var k := KeyEnd(t);
    assert k <= |p.key| - e;
    CStringPrefix(t[..k]);
  }

  /** A message reads back as what was written exactly when the name holds no `;` and every
      key holds no `=` and does not start with `;`. */
  lemma RoundTrip(cmd: string, pairs: seq<Pair>)
    requires |cmd| <= MAX_VALLEN && Writable(pairs)
    ensures ReadBody(Body(cmd, pairs)) == Parsed(cmd, pairs)
       <==> ';' !in cmd && CleanKeys(pairs)
  {
    var T := PairsText(pairs);
    var tail := cmd + ";" + T;
    BodyStart(cmd, pairs);
    if ';' !in cmd && CleanKeys(pairs) {
      EscapePlain(cmd);
      PairsStart(pairs);
      ScanEscaped(cmd, T);
      assert tail[|cmd| + 1..] == T;
      ReadWritten(pairs);
    }
    if ReadBody(Body(cmd, pairs)) == Parsed(cmd, pairs) {
      RoundTripForces(cmd, pairs);
    }
  }

  /** What reading the name back tells about the text. */
  lemma NameRead(cmd: string, pairs: seq<Pair>)
    requires ReadBody(Body(cmd, pairs)) == Parsed(cmd, pairs)
    ensures var T, n := PairsText(pairs), |Escape(cmd)| + 1;
            && Escape(cmd) + ";" <= cmd + ";" + T
            && (n < |cmd + ";" + T| ==> (cmd + ";" + T)[n] != ';')
            && ReadPairs((cmd + ";" + T)[n..]) == Stored(pairs, true)
  {
    hide KeyEnd, Escape, ScanValue, PairsText, ReadPairs, Body, CString;
    var tail := cmd + ";" + PairsText(pairs);
    BodyStart(cmd, pairs);
    ScanSound(tail);
    var n := ScanValue(tail).used;
    assert Body(cmd, pairs)[4 + n..] == tail[n..];
  }

  lemma DroppedSemis(pairs: seq<Pair>, e: nat)
    requires 1 <= e && Repeat(';', e) <= PairsText(pairs)
    ensures ReadPairs(PairsText(pairs)[e..]) != Stored(pairs, true)
  {
    FirstKeyShrinks(pairs[0], PairsText(pairs[1..]), e);
  }

  lemma RoundTripForces(cmd: string, pairs: seq<Pair>)
    requires Writable(pairs) && ReadBody(Body(cmd, pairs)) == Parsed(cmd, pairs)
    ensures ';' !in cmd && CleanKeys(pairs)
  {
    hide ReadBody, Body, Escape, ReadPairs, PairsText;
    var T := PairsText(pairs);
    NameRead(cmd, pairs);
    if ';' in cmd {
      NameOverflow(cmd, T);
      var e := |Escape(cmd)| - |cmd|;
      assert (cmd + ";" + T)[|cmd| + 1 + e..] == T[e..];
      DroppedSemis(pairs, e);
    } else {
      EscapePlain(cmd);
      assert (cmd + ";" + T)[|cmd| + 1..] == T;
      ReadForces(pairs);
    }
  }

  // ----- the two passes of the reader

  /** The counting pass; `mid` says that bytes other than `;` came since the last `;`. */
  function Count(s: string, mid: bool): nat
    decreases |s|
  {
    if s == [] then (if mid then 1 else 0)
    else if s[0] != ';' then Count(s[1..], true)
    else if |s| > 1 && s[1] == ';' then Count(s[2..], false)
    else 1 + Count(s[1..], false)
  }

  /** How much a key adds to the count: one for every `;` that no other `;` pairs off. */
  function Unpaired(k: string): nat
    decreases |k|
  {
    if k == [] then 0
    else if k[0] != ';' then Unpaired(k[1..])
    else if |k| > 1 && k[1] == ';' then Unpaired(k[2..])
    else 1 + Unpaired(k[1..])
  }

  lemma {:induction false} CountKey(k: string, t: string, mid: bool)
    ensures Count(k + "=" + t, mid) == Unpaired(k) + Count(t, true)
    decreases |k|
  {
    var s := k + "=" + t;
    if k == [] {
      assert s[1..] == t;
    } else if k[0] != ';' {
      assert s[1..] == k[1..] + "=" + t;
      CountKey(k[1..], t, true);
    } else if |k| > 1 && k[1] == ';' {
      assert s[2..] == k[2..] + "=" + t;
      CountKey(k[2..], t, false);
    } else {
      assert s[1..] == k[1..] + "=" + t;
      CountKey(k[1..], t, false);
    }
  }

  /** Every run of `;` in the key is of even length. */
  predicate EvenRuns(k: string)
    decreases |k|
  {
    if k == [] then true
    else if k[0] != ';' then EvenRuns(k[1..])
    else SkipRun(k, ';') % 2 == 0 && EvenRuns(k[SkipRun(k, ';')..])
  }

  lemma {:induction false} UnpairedRun(m: nat, rest: string)
    requires rest == [] || rest[0] != ';'
    ensures Unpaired(Repeat(';', m) + rest) == m % 2 + Unpaired(rest)
    decreases m
  {
    var s := Repeat(';', m) + rest;
    if m == 0 {
      assert s == rest;
    } else if m == 1 {
      assert s[1..] == rest;
    } else {
      assert s[2..] == Repeat(';', m - 2) + rest;
      UnpairedRun(m - 2, rest);
    }
  }

  lemma {:induction false} UnpairedIsOdd(k: string)
    ensures Unpaired(k) == 0 <==> EvenRuns(k)
    decreases |k|
  {
    if k != [] {
      if k[0] != ';' {
        UnpairedIsOdd(k[1..]);
      } else {
        var m := SkipRun(k, ';');
        SkipRunRepeats(k, ';');
        UnpairedRun(m, k[m..]);
        UnpairedIsOdd(k[m..]);
      }
    }
  }

  lemma {:induction false} PlainIsEven(k: string)
    requires ';' !in k
    ensures EvenRuns(k)
  {
    if k != [] { PlainIsEven(k[1..]); }
  }

  lemma {:induction false} CountValue(t: string, mid: bool)
    requires ScanValue(t).Found?
    ensures Count(t, mid) == 1 + Count(t[ScanValue(t).used..], false)
    decreases |t|
  {
    if t[0] != ';' {
      CountValue(t[1..], true);
      assert t[1..][ScanValue(t[1..]).used..] == t[ScanValue(t).used..];
    } else if |t| > 1 && t[1] == ';' {
      CountValue(t[2..], false);
      assert t[2..][ScanValue(t[2..]).used..] == t[ScanValue(t).used..];
    }
  }

  /** Each pair parsed uses up at least one of the count; exactly one if the runs of `;` in its
      key are all even, and only then. */
  lemma CountPair(s: string)
    requires ParsePair(s).Good?
    ensures Count(s, false) >= 1 + Count(ParsePair(s).rest, false)
    ensures Count(s, false) == 1 + Count(ParsePair(s).rest, false) <==> EvenRuns(s[..KeyEnd(s)])
  {
    var k := KeyEnd(s);
    var t := s[k + 1..];
    assert s == s[..k] + "=" + t;
    CountKey(s[..k], t, false);
    UnpairedIsOdd(s[..k]);
    CountValue(t, true);
    assert t[ScanValue(t).used..] == ParsePair(s).rest;
  }

  /** In no key of the text, as it stands there, is a run of `;` odd. */
  predicate EvenKeys(s: string)
    decreases |s|
  {
    ParsePair(s).Good? ==> EvenRuns(s[..KeyEnd(s)]) && EvenKeys(ParsePair(s).rest)
  }

  /** On any bytes the pairs stored never outnumber the count.  For a text that parses the two are
      the same exactly when no key has an odd run of `;`; otherwise the reader has entries that
      are never set. */
  lemma {:induction false} StoredWithinCount(s: string)
    ensures |ReadPairs(s).pairs| <= Count(s, false)
    ensures ReadPairs(s).ok ==> (|ReadPairs(s).pairs| == Count(s, false) <==> EvenKeys(s))
    decreases |s|
  {
    if s != [] && ParsePair(s).Good? {
      CountPair(s);
      StoredWithinCount(ParsePair(s).rest);
    }
  }
}
