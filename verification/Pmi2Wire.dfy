/** Frames over a byte stream whose `read` and `write` may move any number of bytes at a time. */
module Pmi2Wire {
  import opened Decimal
  import opened Runs
  import opened Pmi2Codec
  import opened Pmi2Writer

  /** A byte stream: what has been written and not yet read.  On a stream that is not reliable
      any read or write may fail; a failed one moves nothing. */
  class Wire {
    const reliable: bool
    var bytes: string

    constructor (reliable: bool)
      ensures bytes == [] && this.reliable == reliable
    {
      this.reliable := reliable;
      bytes := [];
    }

    /** `write`: some non-empty part of the data goes out, or 0 for an error. */
    method Write(data: string) returns (n: nat)
      requires data != []
      modifies this
      ensures n <= |data| && bytes == old(bytes) + data[..n]
      ensures reliable ==> n > 0
    {
      n :| n <= |data| && (reliable ==> n > 0);
      bytes := bytes + data[..n];
    }

    /** `read`: some bytes come in; none at the end of the stream, if none are asked for, or for
        an error. */
    method Read(max: nat) returns (got: string)
      modifies this
      ensures |got| <= max && old(bytes) == got + bytes
      ensures reliable && got == [] ==> max == 0 || old(bytes) == []
    {
      var n: nat := 0;
      if max > 0 && bytes != [] {
        n :| n <= max && n <= |bytes| && (reliable ==> n > 0);
      }
      got := bytes[..n];
      bytes := bytes[n..];
    }
  }

  /** The write loop: all of the data goes out, whatever parts `write` takes, unless a write fails;
      then a proper part of it has gone out. */
  method SendAll(w: Wire, data: string) returns (ok: bool, ghost sent: nat)
    requires data != []
    modifies w
    ensures sent <= |data| && w.bytes == old(w.bytes) + data[..sent]
    ensures ok <==> sent == |data|
    ensures ok ==> w.bytes == old(w.bytes) + data
    ensures w.reliable ==> ok
  {
    var offset := 0;
    while offset < |data|
      invariant 0 <= offset <= |data|
      invariant w.bytes == old(w.bytes) + data[..offset]
    {
      var n := w.Write(data[offset..]);
      if n == 0 { return false, offset; }
      assert data[..offset] + data[offset..][..n] == data[..offset + n];
      offset := offset + n;
    }
    assert data[..offset] == data;
    return true, |data|;
  }

  /** The read loop: exactly `n` bytes, or failure if the stream ends first or a read fails; asking
      for none fails too.  No byte is lost either way. */
  method ReadExactly(w: Wire, n: nat) returns (ok: bool, text: string)
    modifies w
    ensures |text| <= n && old(w.bytes) == text + w.bytes
    ensures ok <==> 1 <= n == |text|
    ensures w.reliable && 1 <= n <= |old(w.bytes)| ==> ok
  {
    text := [];
    var got := w.Read(n);
    if got == [] { return false, text; }
    text := got;
    while |text| < n
      invariant 1 <= |text| <= n && old(w.bytes) == text + w.bytes
      decreases n - |text|
    {
      got := w.Read(n - |text|);
      if got == [] { return false, text; }
      text := text + got;
    }
    ok := true;
  }

  // ----- what a receiver makes of a stream

  datatype Received = Closed | Got(body: string, rest: string)

  function Receive(stream: string): Received
  {
    if |stream| < COMMANDLEN_SIZE then Closed
    else
      var n, tail := Atoi(stream[..COMMANDLEN_SIZE]), stream[COMMANDLEN_SIZE..];
      if n <= 0 || |tail| < n then Closed else Got(tail[..n], tail[n..])
  }

  /** A sent frame is received as its body, and nothing after it is touched. */
  lemma FrameIsReceived(body: string, rest: string)
    requires 1 <= |body| < 100000
    ensures Receive(Frame(body) + rest) == Got(body, rest)
  {
    var n, stream := |body|, Frame(body) + rest;
    HeaderFits(n);
    assert stream[..COMMANDLEN_SIZE] == Header(n);
    assert stream[COMMANDLEN_SIZE..] == body + rest;
    AtoiOfPrint(n, Repeat(' ', COMMANDLEN_SIZE - |Print(n)|));
  }

  predicate Sendable(bodies: seq<string>)
  {
    forall i :: 0 <= i < |bodies| ==> 1 <= |bodies[i]| < 100000
  }

  /** The bytes of a queue of frames. */
  function Frames(bodies: seq<string>): string
    requires Sendable(bodies)
  {
    if bodies == [] then [] else Frame(bodies[0]) + Frames(bodies[1..])
  }

  lemma {:induction false} FramesSnoc(q: seq<string>, body: string)
    requires Sendable(q + [body]) && Sendable(q) && 1 <= |body| < 100000
    ensures Frames(q + [body]) == Frames(q) + Frame(body)
  {
    if q == [] {
      assert q + [body] == [body] && [body][1..] == [];
    } else {
      assert (q + [body])[1..] == q[1..] + [body];
      FramesSnoc(q[1..], body);
    }
  }

  /** A stream carries one queue of frames only: no other cutting into frames is possible. */
  lemma {:induction false} FramesAreDistinct(p: seq<string>, q: seq<string>)
    requires Sendable(p) && Sendable(q) && Frames(p) == Frames(q)
    ensures p == q
    decreases |p|
  {
    if p != [] && q != [] {
      FrameIsReceived(p[0], Frames(p[1..]));
      FrameIsReceived(q[0], Frames(q[1..]));
      FramesAreDistinct(p[1..], q[1..]);
      assert p == [p[0]] + p[1..] && q == [q[0]] + q[1..];
    }
  }

  /** Sending a frame puts its body at the back of the queue in flight. */
  method SendFrame(w: Wire, body: string, ghost q: seq<string>) returns (ok: bool)
    requires 1 <= |body| < 100000 && Sendable(q) && w.bytes == Frames(q)
    modifies w
    ensures ok ==> Sendable(q + [body]) && w.bytes == Frames(q + [body])
    ensures w.reliable ==> ok
  {
    FramesSnoc(q, body);
    ghost var sent;
    ok, sent := SendAll(w, Frame(body));
  }

  /** Receiving takes the body at the front of the queue; an empty queue is a closed stream. */
  method ReceiveFrame(w: Wire, ghost q: seq<string>) returns (ok: bool, body: string)
    requires Sendable(q) && w.bytes == Frames(q)
    modifies w
    ensures ok ==> q != [] && body == q[0] && w.bytes == Frames(q[1..])
    ensures w.reliable && q != [] ==> ok
  {
    if q != [] { FrameIsReceived(q[0], Frames(q[1..])); }
    body := [];
    var text;
    ok, text := ReadExactly(w, COMMANDLEN_SIZE);
    if ok {
      ghost var stream := text + w.bytes;
      assert stream[..COMMANDLEN_SIZE] == text && stream[COMMANDLEN_SIZE..] == w.bytes;
      var n := Atoi(text);
      if n <= 0 { return false, body; }
      ok, body := ReadExactly(w, n);
    }
  }

  /** Any number of messages, sent and then received, arrive as they were sent. */
  method Exchange(w: Wire, bodies: seq<string>) returns (ok: bool, received: seq<string>)
    requires Sendable(bodies) && w.bytes == []
    modifies w
    ensures received <= bodies && (ok ==> received == bodies && w.bytes == [])
    ensures w.reliable ==> ok
  {
    var i := 0;
    received := [];
    assert bodies[..0] == [];
    while i < |bodies|
      invariant 0 <= i <= |bodies|
      invariant w.bytes == Frames(bodies[..i])
    {
      ok := SendFrame(w, bodies[i], bodies[..i]);
      if !ok { return; }
      assert bodies[..i] + [bodies[i]] == bodies[..i + 1];
      i := i + 1;
    }
    assert bodies[..i] == bodies == bodies[0..];
    while |received| < |bodies|
      invariant |received| <= |bodies| && received == bodies[..|received|]
      invariant w.bytes == Frames(bodies[|received|..])
      decreases |bodies| - |received|
    {
      ghost var q := bodies[|received|..];
      var body;
      ok, body := ReceiveFrame(w, q);
      if !ok { return; }
      assert q[1..] == bodies[|received| + 1..];
      received := received + [body];
    }
    ok := true;
  }
}
