/** A command from the writer's arguments to the reader's result. */
module Pmi2EndToEnd {
  import opened Options
  import opened Pmi2Codec
  import opened Pmi2Writer
  import opened Pmi2Wire
  import opened Pmi2Reader
  import T = Pmi2Threads

  /** A key free of the bytes that carry structure. */
  predicate PlainKey(key: string) { '=' !in key && ';' !in key && '\0' !in key }

  predicate Legal(cmd: string, pairs: seq<Pair>)
  {
    ';' !in cmd && forall i :: 0 <= i < |pairs| ==> PlainKey(pairs[i].key)
  }

  lemma {:induction false} PlainPairs(pairs: seq<Pair>)
    requires AllSized(pairs) && forall i :: 0 <= i < |pairs| ==> PlainKey(pairs[i].key)
    ensures EvenKeys(PairsText(pairs))
  {
    if pairs == [] {
      assert ParsePair([]) == Bad;
    } else {
      hide ParsePair, Escape, KeyEnd, EvenRuns;
      var p, rest := pairs[0], PairsText(pairs[1..]);
      PairsStart(pairs[1..]);
      assert Sized(p) && PlainKey(p.key);
      ParseWritten(p, rest);
      KeyOfText(p, rest);
      PlainIsEven(p.key);
      PlainPairs(pairs[1..]);
    }
  }

  lemma KeyOfText(p: Pair, rest: string)
    requires '=' !in p.key
    ensures KeyEnd(PairText(p) + rest) == |p.key| && (PairText(p) + rest)[..|p.key|] == p.key
  {
    assert PairText(p) + rest == p.key + "=" + (Escape(p.value) + ";" + rest);
    KeyEndAt(p.key, Escape(p.value) + ";" + rest);
  }

  lemma PlainBody(cmd: string, pairs: seq<Pair>)
    requires |cmd| <= MAX_VALLEN && AllSized(pairs) && Legal(cmd, pairs)
    ensures EvenKeys(Body(cmd, pairs))
  {
    hide ParsePair, Escape, KeyEnd, EvenRuns;
    var s, T := Body(cmd, pairs), PairsText(pairs);
    PairsStart(pairs);
    EscapePlain(cmd);
    assert s == PairText(Pair("cmd", cmd)) + T;
    ParseWritten(Pair("cmd", cmd), T);
    BodyStart(cmd, pairs);
    assert s[..3] == "cmd";
    PlainIsEven("cmd");
    PlainPairs(pairs);
  }

  /** `strncmp(a, b, n) == 0`. */
  predicate SameUpTo(a: string, b: string, n: nat)
  {
    if n == 0 then true
    else if a == [] || b == [] then a == b
    else a[0] == b[0] && SameUpTo(a[1..], b[1..], n - 1)
  }

  /** Two keys match if they are the same, or both have at least `n` bytes and agree on the first
      `n`. */
  lemma {:induction false} SameUpToIs(a: string, b: string, n: nat)
    ensures SameUpTo(a, b, n) <==> a == b || (|a| >= n && |b| >= n && a[..n] == b[..n])
    decreases n
  {
    if n > 0 && a != [] && b != [] {
      SameUpToIs(a[1..], b[1..], n - 1);
      assert a == [a[0]] + a[1..] && b == [b[0]] + b[1..];
      if |a| >= n && |b| >= n {
        assert a[..n] == [a[0]] + a[1..][..n - 1] && b[..n] == [b[0]] + b[1..][..n - 1];
      }
    }
  }

  /** `getval`: the value of the first pair with the key. */
  method GetVal(pairs: array<Pair>, npairs: nat, key: string) returns (value: Option<string>)
    requires npairs <= pairs.Length
    ensures value == None <==>
              forall i :: 0 <= i < npairs ==>
                && pairs[i].key != key
                && !(|pairs[i].key| >= 64 && |key| >= 64 && pairs[i].key[..64] == key[..64])
    ensures value.Some? ==>
              exists i :: && 0 <= i < npairs && pairs[i].value == value.value
                          && (|| pairs[i].key == key
                              || (|pairs[i].key| >= 64 && |key| >= 64 && pairs[i].key[..64] == key[..64]))
                          && forall j :: 0 <= j < i ==>
                               && pairs[j].key != key
                               && !(|pairs[j].key| >= 64 && |key| >= 64 && pairs[j].key[..64] == key[..64])
    ensures (forall i :: 0 <= i < npairs ==> |pairs[i].key| <= 64) && |key| <= 64 ==>
              if value == None then forall i :: 0 <= i < npairs ==> pairs[i].key != key
              else exists i :: && 0 <= i < npairs && pairs[i] == Pair(key, value.value)
                               && forall j :: 0 <= j < i ==> pairs[j].key != key
  {
    var i := 0;
    while i < npairs
      invariant 0 <= i <= npairs
      invariant forall j :: 0 <= j < i ==>
                  && pairs[j].key != key
                  && !(|pairs[j].key| >= 64 && |key| >= 64 && pairs[j].key[..64] == key[..64])
    {
      SameUpToIs(key, pairs[i].key, MAX_KEYLEN);
      if SameUpTo(key, pairs[i].key, MAX_KEYLEN) {
        value := Some(pairs[i].value);
        if |pairs[i].key| == 64 == |key| {
          assert pairs[i].key[..64] == pairs[i].key && key[..64] == key;
        }
        return;
      }
      i := i + 1;
    }
    value := None;
  }

  /** For every legal command that fits, with or without a `thrid`, and however the stream is cut
      up: the reader ends with the same name and the same pairs in the same order, its pair count
      is theirs, and it finds the `thrid` that was written.  Without failures it always gets there. */
  method Deliver(w: Wire, cmd: string, thrid: Option<string>, pairs: seq<Pair>)
    returns (ok: bool, m: Message, nPairs: int, stored: array<Pair>, found: Option<string>)
    requires Pointers(thrid) && Legal(cmd, pairs) && WriteOutcome(cmd, thrid, pairs).Built?
    requires w.bytes == []
    modifies w
    ensures ok ==> && m == Parsed(cmd, AllPairs(thrid, pairs)) && w.bytes == []
                   && nPairs == |AllPairs(thrid, pairs)| && stored[..] == AllPairs(thrid, pairs)
                   && (thrid.Some? ==> found == thrid)
    ensures w.reliable ==> ok
  {
    hide ReadBody, Body, WriteOutcome, EvenKeys, Count, Frame;
    WriterAccepts(cmd, thrid, pairs);
    WrittenIsRead(cmd, thrid, pairs);
    ghost var all := AllPairs(thrid, pairs);
    LegalAll(cmd, thrid, pairs);
    PlainBody(cmd, all);
    ghost var body := Body(cmd, all);
    BodyIsLong(cmd, all);
    m, nPairs, stored, found := Rejected, 0, new Pair[0], None;
    var out := new char[MAX_COMMAND_LEN](_ => ' ');
    var r, len := BuildCommand(out, cmd, thrid, pairs);
    FrameOfOne(body);
    ghost var sent;
    ok, sent := SendAll(w, out[..len]);
    if !ok { return; }
    var text;
    ok, text := ReceiveFrame(w, [body]);
    if !ok { return; }
    var buf := new char[|text| + 1](i => if 0 <= i < |text| then text[i] else '\0');
    assert buf[..buf.Length - 1] == body;
    m, nPairs, stored := ParseBody(buf);
    assert stored[..] == all;
    found := FindThrid(stored, thrid, pairs);
  }

  /** The reader's search for the `thrid` of the command. */
  method FindThrid(stored: array<Pair>, ghost thrid: Option<string>, ghost pairs: seq<Pair>)
    returns (found: Option<string>)
    requires stored[..] == AllPairs(thrid, pairs)
    ensures thrid.Some? ==> found == thrid
  {
    found := GetVal(stored, stored.Length, "thrid");
    if thrid.Some? { assert stored[..][0] == Pair("thrid", thrid.value); }
  }

  lemma LegalAll(cmd: string, thrid: Option<string>, pairs: seq<Pair>)
    requires Pointers(thrid) && Legal(cmd, pairs) && AllSized(pairs)
    ensures Legal(cmd, AllPairs(thrid, pairs)) && AllSized(AllPairs(thrid, pairs))
  {
  }

  lemma BodyIsLong(cmd: string, pairs: seq<Pair>) ensures |Body(cmd, pairs)| >= 1 { }

  lemma FrameOfOne(body: string)
    requires 1 <= |body| < 100000
    ensures Frames([body]) == Frame(body) && Frames([]) == [] && Frame(body) != []
  {
    assert [body][1..] == [];
    assert Frames([body]) == Frame(body) + [];
  }

  // ----- the threaded client's wire, as the server frames it

  /** The bodies of the commands in the order their writers took the flag. */
  function Bodies(bodies: map<T.Tid, string>, log: seq<T.Tid>): (r: seq<string>)
    requires forall i :: 0 <= i < |log| ==> log[i] in bodies
    ensures |r| == |log| && forall i :: 0 <= i < |log| ==> r[i] == bodies[log[i]]
  {
    seq(|log|, i requires 0 <= i < |log| => bodies[log[i]])
  }

  /** Every thread writes the frame of its body. */
  predicate FramesOf(f: T.Frames, bodies: map<T.Tid, string>)
  {
    f.Keys == bodies.Keys
    && forall t :: t in f ==> 1 <= |bodies[t]| < 100000 && f[t] == Frame(bodies[t])
  }

  lemma {:induction false} BytesAreFrames(f: T.Frames, bodies: map<T.Tid, string>, log: seq<T.Tid>)
    requires FramesOf(f, bodies) && forall i :: 0 <= i < |log| ==> log[i] in f
    ensures Sendable(Bodies(bodies, log))
    ensures T.Bytes(f, log) == Frames(Bodies(bodies, log))
    decreases |log|
  {
    hide Frame;
    if log != [] {
      var m := |log| - 1;
      BytesAreFrames(f, bodies, log[..m]);
      var q := Bodies(bodies, log[..m]);
      assert Bodies(bodies, log) == q + [bodies[log[m]]];
      FramesSnoc(q, bodies[log[m]]);
    }
  }

  /** In every reachable state of the threaded client, a server cutting the wire into frames
      finds the bodies of different commands, in lock order and nothing else: all of them if no
      write is in progress, and otherwise all but the last, followed by a part of its frame. */
  lemma ServerSeesWholeCommands(f: T.Frames, bodies: map<T.Tid, string>, s: T.State)
    requires FramesOf(f, bodies) && T.Reachable(f, s)
    ensures forall i :: 0 <= i < |s.log| ==> s.log[i] in bodies
    ensures forall i, j :: 0 <= i < j < |s.log| ==> s.log[i] != s.log[j]
    ensures var q, n := Bodies(bodies, s.log), |s.log|;
            && Sendable(q) && Sendable(Bodies(bodies, s.log[..if n == 0 then 0 else n - 1]))
            && s.out <= Frames(q)
            && (n > 0 ==> Frames(Bodies(bodies, s.log[..n - 1])) <= s.out)
            && ((forall t :: t in s.pc ==> !T.Partial(s.pc[t])) ==> s.out == Frames(q))
  {
    hide Frame, Frames, T.Bytes;
    T.FramesNeverInterleave(f, s);
    T.ReachableInv(f, s);
    var n := |s.log|;
    BytesAreFrames(f, bodies, s.log);
    BytesAreFrames(f, bodies, s.log[..if n == 0 then 0 else n - 1]);
  }
}
