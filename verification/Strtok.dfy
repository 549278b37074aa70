/** `strtok` and `strtok_r` with a single delimiter. */
module Strtok {
  import opened Runs

  datatype Tok = NoToken | Token(text: string, rest: string)

  function SkipRun(s: string, d: char): (k: nat)
    ensures k <= |s| && (k < |s| ==> s[k] != d)
  {
    if s == [] || s[0] != d then 0 else 1 + SkipRun(s[1..], d)
  }

  function Upto(s: string, d: char): (m: nat)
    ensures m <= |s| && (m < |s| ==> s[m] == d) && (s != [] && s[0] != d ==> m > 0)
  {
    if s == [] || s[0] == d then 0 else 1 + Upto(s[1..], d)
  }

  function StrTok(s: string, d: char): (r: Tok)
    ensures r.Token? ==> r.text != [] && |r.text| + |r.rest| <= |s|
    ensures r.Token? && r.rest != [] ==> |r.text| + 1 + |r.rest| <= |s|
  {
    var t := s[SkipRun(s, d)..];
    if t == [] then NoToken
    else
      var m := Upto(t, d);
      Token(t[..m], if m < |t| then t[m + 1..] else [])
  }

  lemma StrTokFacts(s: string, d: char)
    ensures var r := StrTok(s, d);
            r.Token? ==> && r.text != [] && |r.text| + |r.rest| <= |s|
                         && (r.rest != [] ==> |r.text| + 1 + |r.rest| <= |s|)
  {
  }

  lemma {:induction false} UptoAt(t: string, d: char, rest: string)
    requires d !in t
    ensures Upto(t + [d] + rest, d) == |t| && Upto(t, d) == |t|
  {
    if t != [] {
      assert (t + [d] + rest)[1..] == t[1..] + [d] + rest;
      UptoAt(t[1..], d, rest);
    }
  }

  lemma StrTokAt(t: string, d: char, rest: string)
    requires t != [] && d !in t
    ensures StrTok(t + [d] + rest, d) == Token(t, rest)
    ensures StrTok(t, d) == Token(t, [])
  {
    var s := t + [d] + rest;
    UptoAt(t, d, rest);
    assert s[0..] == s && t[0..] == t;
    assert SkipRun(s, d) == 0 && SkipRun(t, d) == 0;
    assert s[..|t|] == t && s[|t| + 1..] == rest && t[..|t|] == t;
  }

  lemma {:induction false} UptoMissing(s: string, d: char)
    requires d !in s
    ensures Upto(s, d) == |s|
  {
    if s != [] { UptoMissing(s[1..], d); }
  }

  lemma {:induction false} SkipRunAt(d: char, k: nat, t: string)
    requires t == [] || t[0] != d
    ensures SkipRun(Repeat(d, k) + t, d) == k
    decreases k
  {
    var s := Repeat(d, k) + t;
    if k == 0 {
      assert s == t;
    } else {
      assert s[1..] == Repeat(d, k - 1) + t;
      SkipRunAt(d, k - 1, t);
    }
  }

  lemma {:induction false} SkipRunRepeats(s: string, d: char)
    ensures s == Repeat(d, SkipRun(s, d)) + s[SkipRun(s, d)..]
  {
    if s != [] && s[0] == d {
      SkipRunRepeats(s[1..], d);
      var k := SkipRun(s[1..], d);
      assert s == [d] + s[1..];
      assert Repeat(d, k + 1) == [d] + Repeat(d, k);
      assert s[k + 1..] == s[1..][k..];
    }
  }

  lemma {:induction false} UptoClean(s: string, d: char)
    ensures d !in s[..Upto(s, d)]
  {
    if s != [] && s[0] != d {
      UptoClean(s[1..], d);
      assert s[..Upto(s, d)] == [s[0]] + s[1..][..Upto(s[1..], d)];
    }
  }

  /** Delimiters in front of a token do not matter, and nothing else is skipped. */
  lemma StrTokSkips(k: nat, t: string, d: char)
    requires t == [] || t[0] != d
    ensures StrTok(Repeat(d, k) + t, d) == StrTok(t, d)
    ensures t == [] ==> StrTok(t, d) == NoToken
  {
    SkipRunAt(d, k, t);
    assert (Repeat(d, k) + t)[k..] == t;
    assert SkipRun(t, d) == 0 && t[0..] == t;
  }

  /** What a text looks like from the token found in it: `k` delimiters, the token, and either
      nothing or (`closed`) a delimiter and the rest. */
  lemma StrTokShape(s: string, d: char) returns (k: nat, closed: bool)
    ensures match StrTok(s, d)
            case NoToken => s == Repeat(d, k)
            case Token(t, rest) =>
              && t != [] && d !in t
              && s == Repeat(d, k) + (t + if closed then [d] + rest else [])
              && (!closed ==> rest == [])
  {
    k := SkipRun(s, d);
    SkipRunRepeats(s, d);
    var t := s[k..];
    var m := Upto(t, d);
    closed := m < |t|;
    UptoClean(t, d);
    assert t == t[..m] + t[m..];
    if closed { assert t[m..] == [d] + t[m + 1..]; }
    if t == [] { assert s == Repeat(d, k); }
  }
}
