/** The reader of `pmi2_api.c`: counting, and parsing in place over the receive buffer. */
module Pmi2Reader {
  import opened Pmi2Codec

  /** The buffer holds the text from `c` on, with the NUL the reader put after it. */
  ghost predicate Holds(buf: array<char>, c: nat, len: nat)
    reads buf
  {
    c + len + 1 == buf.Length && buf[c + len] == '\0'
  }

  /** The counting pass over the text. */
  method CountPairs(buf: array<char>) returns (num: nat)
    requires buf.Length >= 1 && Holds(buf, 0, buf.Length - 1)
    ensures num == Count(buf[..buf.Length - 1], false)
  {
    ghost var end := buf.Length - 1;
    ghost var s := buf[..end];
    var c, remaining: int := 0, buf.Length - 1;
    num := 0;
    while remaining > 0
      invariant (0 <= c <= end && remaining == end - c && num + Count(s[c..], false) == Count(s, false))
             || (remaining < 0 && num == Count(s, false))
      decreases remaining
    {
      ghost var start := c;
      while remaining != 0 && buf[c] != ';'
        invariant start <= c <= end && remaining == end - c
        invariant num + Count(s[c..], c > start) == Count(s, false)
        decreases remaining
      {
        assert s[c..][1..] == s[c + 1..];
        remaining, c := remaining - 1, c + 1;
      }
      if buf[c] == ';' && buf[c + 1] == ';' {
        assert s[c..][2..] == s[c + 2..];
        remaining, c := remaining - 2, c + 2;
      } else {
        if c < end { assert s[c..][1..] == s[c + 1..]; }
        num, remaining, c := num + 1, remaining - 1, c + 1;
      }
    }
  }

  function Extend(out: string, n: nat, r: Scan): Scan
  {
    match r
    case NoEnd => NoEnd
    case Found(v, m) => Found(out + v, n + m)
  }

  /** One more byte, or one more escape, of the scan from `k` on; `out` is what came before. */
  lemma ScanOn(t: string, k: nat, out: string)
    requires k < |t|
    ensures Extend(out, k, ScanValue(t[k..])) ==
              if t[k] != ';' then Extend(out + [t[k]], k + 1, ScanValue(t[k + 1..]))
              else if k + 1 < |t| && t[k + 1] == ';'
              then Extend(out + [t[k]], k + 2, ScanValue(t[k + 2..]))
              else Found(out, k + 1)
  {
    hide ScanValue;
    ScanUnfold(t, k);
    var r := ScanValue(t[k + 1..]);
    ExtendPrepend(out, k, t[k], 1, r);
    if k + 1 < |t| { ExtendPrepend(out, k, t[k], 2, ScanValue(t[k + 2..])); }
  }

  lemma ScanUnfold(t: string, k: nat)
    requires k < |t|
    ensures ScanValue(t[k..]) ==
              if t[k] != ';' then Prepend(t[k], 1, ScanValue(t[k + 1..]))
              else if k + 1 < |t| && t[k + 1] == ';' then Prepend(t[k], 2, ScanValue(t[k + 2..]))
              else Found([], 1)
  {
    assert t[k..][1..] == t[k + 1..];
    if k + 1 < |t| { assert t[k..][2..] == t[k + 2..]; }
  }

  lemma ExtendPrepend(out: string, n: nat, c: char, k: nat, r: Scan)
    ensures Extend(out, n, Prepend(c, k, r)) == Extend(out + [c], n + k, r)
  {
    if r.Found? { assert out + ([c] + r.value) == (out + [c]) + r.value; }
  }

  lemma ScanEnds(t: string, out: string)
    ensures Extend(out, |t|, ScanValue(t[|t|..])) == NoEnd
    ensures Extend("", 0, ScanValue(t[0..])) == ScanValue(t)
  {
    assert t[0..] == t;
  }

  /** Scan a value, moving its bytes down over the escapes; the unread text stays as it was. */
  method ScanInPlace(buf: array<char>, v: nat, len0: nat, ghost t: string)
    returns (c: nat, len: nat, d: nat)
    requires Holds(buf, v, len0) && t == buf[v..v + len0]
    modifies buf
    ensures v <= d <= c && c + len == v + len0
    ensures forall j :: 0 <= j < v || c <= j < buf.Length ==> buf[j] == old(buf[j])
    ensures if len == 0 then ScanValue(t).NoEnd?
            else ScanValue(t) == Found(buf[v..d], c + 1 - v)
  {
    hide ScanValue, Extend;
    ghost var out := "";
    c, len, d := v, len0, v;
    ScanEnds(t, "");
    while len != 0
      invariant v <= d <= c && c + len == v + len0
      invariant forall j :: 0 <= j < v ==> buf[j] == old(buf[j])
      invariant forall j :: c <= j < buf.Length ==> buf[j] == old(buf[j])
      invariant buf[v..d] == out
      invariant ScanValue(t) == Extend(out, c - v, ScanValue(t[c - v..]))
      decreases len
    {
      ghost var k, byte := c - v, buf[c];
      assert byte == t[k];
      ScanOn(t, k, out);
      if buf[c] == ';' {
        if buf[c + 1] != ';' {
          break;
        } else {
          len, c := len - 1, c + 1;
        }
      }
      assert buf[c] == byte;
      len := len - 1;
      buf[d] := buf[c];
      d, c := d + 1, c + 1;
      out := out + [byte];
      assert buf[v..d] == out;
    }
    ScanEnds(t, out);
  }

  lemma {:induction false} CStringStops(k: string, rest: string)
    ensures CString(k + "\0" + rest) == CString(k)
  {
    var s := k + "\0" + rest;
    if k != [] && k[0] != '\0' {
      CStringStops(k[1..], rest);
      assert s[1..] == k[1..] + "\0" + rest;
    }
  }

  /** The C string at `at`. */
  method StringAt(buf: array<char>, at: nat) returns (s: string)
    requires at < buf.Length
    ensures s == CString(buf[at..])
  {
    s := [];
    var i := at;
    while i < buf.Length && buf[i] != '\0'
      invariant at <= i <= buf.Length
      invariant CString(buf[at..]) == s + CString(buf[i..])
    {
      assert buf[i..][1..] == buf[i + 1..];
      s := s + [buf[i]];
      i := i + 1;
    }
  }

  /** Find the `=` that ends the key. */
  method FindKeyEnd(buf: array<char>, c0: nat, len0: nat) returns (c: nat, len: nat)
    requires Holds(buf, c0, len0)
    ensures c == c0 + KeyEnd(buf[c0..c0 + len0]) && c + len == c0 + len0
  {
    ghost var s := buf[c0..c0 + len0];
    c, len := c0, len0;
    while len != 0 && buf[c] != '='
      invariant c0 <= c && c + len == c0 + len0
      invariant KeyEnd(s) == c - c0 + KeyEnd(s[c - c0..])
      decreases len
    {
      assert s[c - c0..][1..] == s[c + 1 - c0..];
      len, c := len - 1, c + 1;
    }
  }

  /** Scan a value and end it with a NUL. */
  method ParseValue(buf: array<char>, val: nat, len0: nat, ghost t: string)
    returns (ok: bool, c: nat, len: nat, vallen: nat)
    requires Holds(buf, val, len0) && t == buf[val..val + len0]
    modifies buf
    ensures var r := ScanValue(t);
            && ok == (r.Found? && |r.value| <= MAX_VALLEN)
            && (ok ==> && c + len == val + len0 && val + vallen < c
                       && r == Found(buf[val..val + vallen], c - val))
    ensures ok ==> forall j :: 0 <= j < val || c <= j < buf.Length ==> buf[j] == old(buf[j])
  {
    hide ScanValue;
    var d;
    c, len, d := ScanInPlace(buf, val, len0, t);
    ok, vallen := false, 0;
    if len != 0 && d - val <= MAX_VALLEN {
      ghost var value := buf[val..d];
      buf[c] := '\0';
      assert buf[val..d] == value;
      ok, vallen, c, len := true, d - val, c + 1, len - 1;
    }
  }

  /** Parse one pair in place: a NUL after the key, escapes removed from the value. */
  method ParseKeyval(buf: array<char>, c0: nat, len0: nat, ghost s: string)
    returns (ok: bool, c: nat, len: nat, key: nat, val: nat, vallen: nat)
    requires Holds(buf, c0, len0) && s == buf[c0..c0 + len0]
    modifies buf
    ensures ok == ParsePair(s).Good?
    ensures ok ==> Holds(buf, c, len) && c0 < c && val + vallen < c && key < buf.Length
    ensures ok ==> forall j :: 0 <= j < c0 || c <= j < buf.Length ==> buf[j] == old(buf[j])
    ensures ok ==> var p := ParsePair(s);
                   && CString(buf[key..]) == p.key
                   && buf[val..val + vallen] == p.value
                   && buf[c..c + len] == p.rest
  {
    hide ScanValue, KeyEnd, CString, ParsePair;
    ghost var O := buf[..];
    c, len := FindKeyEnd(buf, c0, len0);
    ghost var k := KeyEnd(s);
    ParsePairIs(s);
    ok, key, val, vallen := false, c0, c, 0;
    if len != 0 && c - key <= MAX_KEYLEN {
      buf[c] := '\0';
      len, c := len - 1, c + 1;
      val := c;
      assert buf[val..val + len] == s[k + 1..];
      ok, c, len, vallen := ParseValue(buf, val, len, s[k + 1..]);
      if ok {
        assert s == O[c0..c0 + len0];
        ParsedInPlace(O, buf[..], c0, len0, k, c);
      }
    }
  }

  lemma ParsedInPlace(O: string, F: string, c0: nat, len0: nat, k: nat, c: nat)
    requires |O| == |F| == c0 + len0 + 1 && c0 + k < c <= c0 + len0
    requires forall j :: c0 <= j < c0 + k || c <= j < |O| ==> F[j] == O[j]
    requires F[c0 + k] == '\0'
    ensures CString(F[c0..]) == CString(O[c0..c0 + len0][..k])
    ensures F[c..c0 + len0] == O[c0..c0 + len0][c - c0..]
  {
    assert F[c0..] == O[c0..c0 + len0][..k] + "\0" + F[c0 + k + 1..];
    CStringStops(O[c0..c0 + len0][..k], F[c0 + k + 1..]);
  }

  /** What `ParsePair` is, with the end of the key and the scan of the value in hand. */
  lemma ParsePairIs(s: string)
    ensures var k := KeyEnd(s);
            && k <= |s|
            && (k == |s| || k > MAX_KEYLEN ==> ParsePair(s) == Bad)
            && (k < |s| && k <= MAX_KEYLEN ==>
                  var r := ScanValue(s[k + 1..]);
                  if r.Found? && |r.value| <= MAX_VALLEN
                  then r.used <= |s| - k - 1
                       && ParsePair(s) == Good(CString(s[..k]), r.value, s[k + 1 + r.used..])
                  else ParsePair(s) == Bad)
  {
  }

  /** Parse and store the pairs; the store is never written past its end. */
  method StorePairs(buf: array<char>, c0: nat, len0: nat, stored: array<Pair>)
    returns (ok: bool, index: nat)
    requires Holds(buf, c0, len0)
    requires |ReadPairs(buf[c0..c0 + len0]).pairs| <= stored.Length
    modifies buf, stored
    ensures ok == ReadPairs(old(buf[c0..c0 + len0])).ok
    ensures index <= stored.Length
    ensures ok ==> stored[..index] == ReadPairs(old(buf[c0..c0 + len0])).pairs
  {
    hide ParsePair, CString, KeyEnd;
    ghost var text := buf[c0..c0 + len0];
    var c, len := c0, len0;
    ok, index := true, 0;
    while len > 0
      invariant Holds(buf, c, len) && index <= stored.Length
      invariant var r := ReadPairs(buf[c..c + len]);
                ReadPairs(text) == Stored(stored[..index] + r.pairs, r.ok)
      decreases len
    {
      ghost var before, done := buf[c..c + len], stored[..index];
      var key, val, vallen;
      ok, c, len, key, val, vallen := ParseKeyval(buf, c, len, buf[c..c + len]);
      if !ok { return; }
      var name := StringAt(buf, key);
      ghost var pair, r := Pair(name, buf[val..val + vallen]), ReadPairs(buf[c..c + len]);
      assert ReadPairs(before).pairs == [pair] + r.pairs;
      assert ReadPairs(text).pairs == (done + [pair]) + r.pairs;
      stored[index] := Pair(name, buf[val..val + vallen]);
      index := index + 1;
      assert stored[..index] == done + [pair];
    }
  }

  /** Both passes over one received message. */
  method ParseBody(buf: array<char>) returns (m: Message, nPairs: int, pairs: array<Pair>)
    requires buf.Length >= 1 && Holds(buf, 0, buf.Length - 1)
    modifies buf
    ensures m == ReadBody(old(buf[..buf.Length - 1]))
    ensures m.Parsed? ==> nPairs == pairs.Length == Count(old(buf[..buf.Length - 1]), false) - 1
    ensures m.Parsed? ==> |m.pairs| <= nPairs && pairs[..|m.pairs|] == m.pairs
    ensures m.Parsed? ==> (nPairs == |m.pairs| <==> EvenKeys(old(buf[..buf.Length - 1])))
  {
    hide ParsePair, Count, CString, KeyEnd, ReadPairs, EvenRuns;
    ghost var s := buf[..buf.Length - 1];
    assert s == buf[0..0 + (buf.Length - 1)];
    m, nPairs, pairs := Rejected, 0, new Pair[0];
    var num := CountPairs(buf);
    var ok, c, len, key, val, vallen := ParseKeyval(buf, 0, buf.Length - 1, s);
    if !ok { return; }
    var name := StringAt(buf, key);
    if name != "cmd" { return; }
    var command := buf[val..val + vallen];
    ghost var text := buf[c..c + len];
    CountPair(s);
    StoredWithinCount(text);
    buf[val + vallen] := '\0';
    assert buf[c..c + len] == text;
    pairs := new Pair[num - 1];
    var index;
    ok, index := StorePairs(buf, c, len, pairs);
    if !ok { return; }
    m, nPairs := Parsed(command, pairs[..index]), num - 1;
  }
}
