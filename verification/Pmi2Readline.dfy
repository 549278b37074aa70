/** `PMI2U_readline`: lines through a static buffer that lives from call to call, against a
    reader that takes one byte at a time and keeps nothing. */
module Pmi2Readline {

  const MAX_READLINE := 1024

  /** What the descriptor gives to successive `read` calls. */
  datatype Event = Data(bytes: string) | Eof | Error | Interrupt

  predicate Proper(events: seq<Event>)
  {
    forall i :: 0 <= i < |events| && events[i].Data? ==> events[i].bytes != []
  }

  /** The same stream, one byte or one condition at a time. */
  datatype Item = Byte(c: char) | End | Fault

  function AsItems(s: string): (r: seq<Item>)
    ensures |r| == |s| && forall i :: 0 <= i < |s| ==> r[i] == Byte(s[i])
  {
    seq(|s|, i requires 0 <= i < |s| => Byte(s[i]))
  }

  function ItemsOf(e: Event): seq<Item>
  {
    match e
    case Data(bytes) => AsItems(bytes)
    case Eof => [End]
    case Error => [Fault]
    case Interrupt => []
  }

  function Items(events: seq<Event>): seq<Item>
  {
    if events == [] then [] else ItemsOf(events[0]) + Items(events[1..])
  }

  // ----- the reader without a buffer

  datatype Line = Line(text: string, fault: bool, rest: seq<Item>)

  /** At most `room` bytes, up to and including a newline; an end or an error stops it. */
  function TakeLine(items: seq<Item>, room: nat): Line
    decreases room
  {
    if room == 0 || items == [] then Line([], false, items)
    else match items[0]
      case End => Line([], false, items[1..])
      case Fault => Line([], true, items[1..])
      case Byte(c) =>
        if c == '\n' then Line([c], false, items[1..])
        else
          var r := TakeLine(items[1..], room - 1);
          Line([c] + r.text, r.fault, r.rest)
  }

  function Room(maxlen: int): nat { if maxlen <= 1 then 0 else maxlen - 1 }

  /** What the call returns: the bytes read, or -1 for an error before the first byte. */
  function Status(r: Line): int { if r.fault && r.text == [] then -1 else |r.text| }

  // ----- the reader with the buffer

  class LineReader {
    var events: seq<Event>
    const readbuf: array<char>
    var nextChar: nat
    var lastChar: nat

    ghost predicate Valid()
      reads this, readbuf
    {
      readbuf.Length == MAX_READLINE && nextChar <= lastChar < MAX_READLINE && Proper(events)
    }

    /** All that is still to come: the unread part of the buffer, then the descriptor. */
    ghost function Unread(): seq<Item>
      reads this, readbuf
      requires Valid()
    {
      AsItems(readbuf[nextChar..lastChar]) + Items(events)
    }

    constructor (source: seq<Event>)
      requires Proper(source)
      ensures Valid() && Unread() == Items(source) && fresh(readbuf)
    {
      events := source;
      readbuf := new char[MAX_READLINE](_ => '\0');
      nextChar, lastChar := 0, 0;
      new;
      assert readbuf[0..0] == [];
      assert AsItems([]) + Items(events) == Items(events);
    }

    /** The bytes of one `read` go to the start of the buffer. */
    method Load(bytes: string)
      requires readbuf.Length == MAX_READLINE && |bytes| < MAX_READLINE
      modifies readbuf
      ensures readbuf[0..|bytes|] == bytes
    {
      var i := 0;
      while i < |bytes|
        invariant 0 <= i <= |bytes|
        invariant readbuf[0..i] == bytes[..i]
      {
        readbuf[i] := bytes[i];
        i := i + 1;
        assert bytes[..i] == bytes[..i - 1] + [bytes[i - 1]];
      }
      assert bytes[..i] == bytes;
    }

    /** `read` into the empty buffer, again after an interrupt: bytes, 0 at the end, or -1. */
    method Fill() returns (n: int)
      requires Valid() && nextChar == lastChar
      modifies this, readbuf
      ensures Valid()
      ensures n > 0 ==> nextChar < lastChar && Unread() == old(Unread())
      ensures n == 0 ==> nextChar == lastChar
                         && (old(Unread()) == [] == Unread() || old(Unread()) == [End] + Unread())
      ensures n < 0 ==> nextChar == lastChar && old(Unread()) == [Fault] + Unread()
    {
      hide Items, AsItems;
      ghost var all := Items(events);
      assert Unread() == all by { NothingBuffered(readbuf[nextChar..lastChar], all); }
      var ev := events;
      while ev != [] && ev[0] == Interrupt
        invariant Proper(ev) && Items(ev) == all
        modifies {}
        decreases |ev|
      {
        ItemsHead(ev);
        ev := ev[1..];
      }
      if ev == [] {
        ItemsNone();
        n, events := 0, ev;
      } else {
        ItemsHead(ev);
        match ev[0]
        case Eof =>
          n, events := 0, ev[1..];
        case Error =>
          n, events := -1, ev[1..];
        case Data(bytes) =>
          n := if |bytes| < MAX_READLINE then |bytes| else MAX_READLINE - 1;
          Load(bytes[..n]);
          nextChar, lastChar := 0, n;
          SplitData(ev, n);
          events := if n < |bytes| then [Data(bytes[n..])] + ev[1..] else ev[1..];
      }
      if n <= 0 { NothingBuffered(readbuf[nextChar..lastChar], Items(events)); }
    }

    /** Take the next buffered byte. */
    method NextByte() returns (ch: char)
      requires Valid() && nextChar < lastChar
      modifies this`nextChar
      ensures Valid() && old(Unread()) == [Byte(ch)] + Unread()
    {
      ch := readbuf[nextChar];
      assert readbuf[nextChar..lastChar] == [ch] + readbuf[nextChar + 1..lastChar];
      AsItemsSplit(readbuf[nextChar..lastChar], 1);
      nextChar := nextChar + 1;
      assert AsItems([ch]) == [Byte(ch)];
    }

    /** The next byte, filling the buffer if it is empty; or 0 at the end and -1 for an error. */
    method TakeByte() returns (k: int, ch: char)
      requires Valid()
      modifies this, readbuf
      ensures Valid()
      ensures k > 0 ==> old(Unread()) == [Byte(ch)] + Unread()
      ensures k == 0 ==> old(Unread()) == [] == Unread() || old(Unread()) == [End] + Unread()
      ensures k < 0 ==> old(Unread()) == [Fault] + Unread()
    {
      k, ch := 1, '\0';
      if nextChar == lastChar {
        k := Fill();
        if k <= 0 { return; }
      }
      ch := NextByte();
    }

    /** The loop of `PMI2U_readline`: what it returns, leaves in `buf` and leaves unread is what the
        reader without a buffer gives. */
    method FillLine(buf: array<char>, maxlen: int) returns (n: int)
      requires Valid() && buf != readbuf && buf.Length >= 1 && maxlen <= buf.Length
      modifies this, readbuf, buf
      ensures Valid()
      ensures var r := TakeLine(old(Unread()), Room(maxlen));
              && n == Status(r) && |r.text| < buf.Length
              && buf[..|r.text|] == r.text && buf[|r.text|] == '\0'
              && Unread() == r.rest
    {
      hide TakeLine, Prefixed, Items, AsItems, Unread;
      ghost var all := Unread();
      ghost var room := Room(maxlen);
      ghost var text, goal := "", TakeLine(all, room);
      var p, curlen := 0, 1;
      PrefixedNone(goal);
      PrefixedFull(text, all);
      while curlen < maxlen
        invariant Valid() && 0 <= p < buf.Length && p == |text| && buf[..p] == text
        invariant curlen == p + 1 && p <= room
        invariant goal == Prefixed(text, TakeLine(Unread(), room - p))
        invariant curlen >= maxlen ==> goal == Line(text, false, Unread())
        decreases maxlen - curlen
      {
        ghost var items := Unread();
        var k, ch := TakeByte();
        PrefixedStops(text, items, Unread(), room - p);
        if k == 0 {
          break;
        } else if k < 0 {
          if curlen == 1 { curlen := 0; }
          break;
        }
        PrefixedOne(text, ch, Unread(), room - p);
        buf[p] := ch;
        p, curlen := p + 1, curlen + 1;
        text := text + [ch];
        if ch == '\n' {
          break;
        }
        PrefixedFull(text, Unread());
      }
      assert goal.text == text && goal.rest == Unread() && curlen - 1 == Status(goal);
      buf[p] := '\0';
      n := curlen - 1;
    }

    /** One call of `PMI2U_readline`. */
    method ReadLine(buf: array<char>, maxlen: int) returns (n: int)
      requires Valid() && buf != readbuf && buf.Length >= 1 && maxlen <= buf.Length
      modifies this, readbuf, buf
      ensures Valid()
      ensures var r := TakeLine(old(Unread()), Room(maxlen));
              && n == Status(r) && |r.text| < buf.Length
              && buf[..|r.text|] == r.text && buf[|r.text|] == '\0'
              && Unread() == r.rest
      // on a stream of bytes `s`: all of it up to the limit, its end or its first newline
      ensures forall s: string :: old(Unread()) == AsItems(s) ==>
                && 0 <= n <= |s| && n < buf.Length && buf[..n] == s[..n] && Unread() == AsItems(s[n..])
                && (if maxlen <= 1 then n == 0 else
                      && n <= maxlen - 1
                      && (forall i :: 0 <= i < n - 1 ==> s[i] != '\n')
                      && (n == maxlen - 1 || n == |s| || (n > 0 && s[n - 1] == '\n')))
      ensures n == -1 <==> maxlen > 1 && old(Unread()) != [] && old(Unread())[0] == Fault
      ensures n >= -1
    {
      hide TakeLine, Items, AsItems, Unread;
      ghost var all := Unread();
      n := FillLine(buf, maxlen);
      ghost var r := TakeLine(all, Room(maxlen));
      forall s: string | all == AsItems(s)
        ensures IsCut(s, Room(maxlen), |r.text|) && r.text == s[..|r.text|]
        ensures r.rest == AsItems(s[|r.text|..]) && !r.fault
      {
        LineOfBytes(s, Room(maxlen));
      }
      FaultFirst(all, Room(maxlen));
    }
  }

  /** A line of `k` bytes of `s`, where `room` bytes fit: nothing ends it before its last byte, and
      then a newline, the limit or the end of `s` does. */
  predicate IsCut(s: string, room: nat, k: nat)
  {
    && k <= |s| && k <= room
    && (forall i :: 0 <= i < k - 1 ==> s[i] != '\n')
    && (k == room || k == |s| || (k > 0 && s[k - 1] == '\n'))
  }

  /** What the reader without a buffer takes from bytes followed by an end, an error or nothing. */
  lemma {:induction false} LineIsCut(s: string, stop: seq<Item>, room: nat)
    requires stop == [] || !stop[0].Byte?
    ensures var r := TakeLine(AsItems(s) + stop, room);
            var k := |r.text|;
            && IsCut(s, room, k) && r.text == s[..k]
            && (if k == room || (k > 0 && s[k - 1] == '\n')
                then !r.fault && r.rest == AsItems(s[k..]) + stop
                else if stop == [] then !r.fault && r.rest == []
                else r.fault == (stop[0] == Fault) && r.rest == stop[1..])
    decreases room
  {
    hide AsItems, TakeLine;
    var items := AsItems(s) + stop;
    AsItemsHead(s);
    if room == 0 {
      TakeNothing(items, room);
      assert s[0..] == s;
    } else if s == [] {
      NothingBuffered(s, stop);
      TakeStops(stop, room);
    } else {
      assert items == [Byte(s[0])] + (AsItems(s[1..]) + stop);
      TakeOne(s[0], AsItems(s[1..]) + stop, room);
      LineIsCut(s[1..], stop, room - 1);
      var k := |TakeLine(AsItems(s[1..]) + stop, room - 1).text|;
      CutOneMore(s, room, k);
    }
  }

  lemma CutOneMore(s: string, room: nat, k: nat)
    requires s != [] && room >= 1 && IsCut(s[1..], room - 1, k)
    ensures s[0] == '\n' ==> IsCut(s, room, 1) && s[..1] == [s[0]]
    ensures s[0] != '\n' ==> IsCut(s, room, k + 1)
    ensures s[..k + 1] == [s[0]] + s[1..][..k] && s[k + 1..] == s[1..][k..]
  {
    assert forall i :: 1 <= i < |s| ==> s[i] == s[1..][i - 1];
  }

  lemma TakeStops(stop: seq<Item>, room: nat)
    requires room >= 1 && (stop == [] || !stop[0].Byte?)
    ensures TakeLine(stop, room)
         == if stop == [] then Line([], false, []) else Line([], stop[0] == Fault, stop[1..])
  {
  }

  lemma LineOfBytes(s: string, room: nat)
    ensures var r := TakeLine(AsItems(s), room);
            && IsCut(s, room, |r.text|) && r.text == s[..|r.text|] && !r.fault
            && r.rest == AsItems(s[|r.text|..])
  {
    hide AsItems, TakeLine;
    assert AsItems(s) + [] == AsItems(s);
    LineIsCut(s, [], room);
    var k := |TakeLine(AsItems(s), room).text|;
    assert AsItems(s[k..]) + [] == AsItems(s[k..]);
    AsItemsHead(s[k..]);
  }

  lemma FaultFirst(items: seq<Item>, room: nat)
    ensures Status(TakeLine(items, room)) >= -1
    ensures Status(TakeLine(items, room)) == -1 <==> room > 0 && items != [] && items[0] == Fault
  {
  }

  function Prefixed(text: string, r: Line): Line { Line(text + r.text, r.fault, r.rest) }

  lemma PrefixedNone(r: Line) ensures Prefixed("", r) == r { }

  lemma PrefixedFull(text: string, items: seq<Item>)
    ensures Prefixed(text, TakeLine(items, 0)) == Line(text, false, items)
  {
  }

  /** Where the stream ends or fails, so does the line. */
  lemma PrefixedStops(text: string, items: seq<Item>, rest: seq<Item>, room: nat)
    requires room >= 1
    ensures items == [] ==> Prefixed(text, TakeLine(items, room)) == Line(text, false, [])
    ensures items == [End] + rest ==> Prefixed(text, TakeLine(items, room)) == Line(text, false, rest)
    ensures items == [Fault] + rest ==> Prefixed(text, TakeLine(items, room)) == Line(text, true, rest)
  {
  }

  lemma PrefixedOne(text: string, ch: char, items: seq<Item>, room: nat)
    requires room >= 1
    ensures Prefixed(text, TakeLine([Byte(ch)] + items, room))
         == if ch == '\n' then Line(text + [ch], false, items)
            else Prefixed(text + [ch], TakeLine(items, room - 1))
  {
    assert ([Byte(ch)] + items)[1..] == items;
    var r := TakeLine(items, room - 1);
    assert text + ([ch] + r.text) == (text + [ch]) + r.text;
  }

  lemma ItemsNone() ensures Items([]) == [] { }

  lemma ItemsHead(ev: seq<Event>)
    requires ev != []
    ensures ev[0] == Interrupt ==> Items(ev) == Items(ev[1..])
    ensures ev[0] == Eof ==> Items(ev) == [End] + Items(ev[1..])
    ensures ev[0] == Error ==> Items(ev) == [Fault] + Items(ev[1..])
  {
  }

  lemma NothingBuffered(s: string, items: seq<Item>)
    requires s == []
    ensures AsItems(s) + items == items
  {
  }

  lemma SplitData(events: seq<Event>, n: nat)
    requires events != [] && events[0].Data? && n <= |events[0].bytes|
    ensures var bytes := events[0].bytes;
            var rest := if n < |bytes| then [Data(bytes[n..])] + events[1..] else events[1..];
            Items(events) == AsItems(bytes[..n]) + Items(rest)
  {
    var bytes, tail := events[0].bytes, Items(events[1..]);
    AsItemsSplit(bytes, n);
    assert AsItems(bytes[..n]) + (AsItems(bytes[n..]) + tail)
        == (AsItems(bytes[..n]) + AsItems(bytes[n..])) + tail;
    if n < |bytes| {
      var rest := [Data(bytes[n..])] + events[1..];
      assert rest[1..] == events[1..];
      assert Items(rest) == AsItems(bytes[n..]) + tail;
    } else {
      NothingBuffered(bytes[n..], tail);
    }
  }

  lemma AsItemsSplit(s: string, n: nat)
    requires n <= |s|
    ensures AsItems(s) == AsItems(s[..n]) + AsItems(s[n..])
  {
  }

  // ----- any sequence of calls, any chunking

  /** The results of successive calls with the given limits. */
  function TakeLines(items: seq<Item>, limits: seq<int>): seq<Line>
    decreases |limits|
  {
    if limits == [] then []
    else
      var r := TakeLine(items, Room(limits[0]));
      [r] + TakeLines(r.rest, limits[1..])
  }

  /** One call, and the line it left in the buffer. */
  method ReadOne(reader: LineReader, buf: array<char>, limit: int) returns (text: string, n: int)
    requires reader.Valid() && buf != reader.readbuf && buf.Length >= 1 && limit <= buf.Length
    modifies reader, reader.readbuf, buf
    ensures reader.Valid()
    ensures var r := TakeLine(old(reader.Unread()), Room(limit));
            text == r.text && n == Status(r) && reader.Unread() == r.rest
  {
    hide TakeLine, AsItems, Items;
    n := reader.ReadLine(buf, limit);
    text := buf[..if n < 0 then 0 else n];
  }

  /** Successive calls on one reader return, one by one, what the reader without a buffer
      returns. */
  method ReadLines(reader: LineReader, buf: array<char>, limits: seq<int>)
    returns (texts: seq<string>, codes: seq<int>)
    requires reader.Valid() && buf != reader.readbuf && buf.Length >= 1
    requires forall i :: 0 <= i < |limits| ==> limits[i] <= buf.Length
    modifies reader, reader.readbuf, buf
    ensures reader.Valid()
    ensures var lines := TakeLines(old(reader.Unread()), limits);
            && |texts| == |codes| == |lines| == |limits|
            && forall i :: 0 <= i < |lines| ==>
                 texts[i] == lines[i].text && codes[i] == Status(lines[i])
  {
    hide TakeLine;
    if limits == [] { return [], []; }
    var text, n := ReadOne(reader, buf, limits[0]);
    texts, codes := ReadLines(reader, buf, limits[1..]);
    texts, codes := [text] + texts, [n] + codes;
  }

  function Joined(chunks: seq<string>): string
  {
    if chunks == [] then [] else chunks[0] + Joined(chunks[1..])
  }

  function AsEvents(chunks: seq<string>): (r: seq<Event>)
    ensures |r| == |chunks| && forall i :: 0 <= i < |chunks| ==> r[i] == Data(chunks[i])
  {
    seq(|chunks|, i requires 0 <= i < |chunks| => Data(chunks[i]))
  }

  /** How a stream is cut into reads does not matter. */
  lemma {:induction false} ChunkingDoesNotMatter(chunks: seq<string>)
    ensures Items(AsEvents(chunks)) == AsItems(Joined(chunks))
  {
    if chunks != [] {
      ChunkingDoesNotMatter(chunks[1..]);
      assert AsEvents(chunks)[1..] == AsEvents(chunks[1..]);
      AsItemsSplit(Joined(chunks), |chunks[0]|);
      assert Joined(chunks)[..|chunks[0]|] == chunks[0];
      assert Joined(chunks)[|chunks[0]|..] == Joined(chunks[1..]);
    }
  }

  function Texts(lines: seq<Line>): string
  {
    if lines == [] then [] else lines[0].text + Texts(lines[1..])
  }

  lemma TakeNothing(items: seq<Item>, room: nat)
    requires room == 0 || items == []
    ensures TakeLine(items, room) == Line([], false, items)
  {
  }

  lemma TakeOne(c: char, items: seq<Item>, room: nat)
    requires room >= 1
    ensures var r := TakeLine(items, room - 1);
            TakeLine([Byte(c)] + items, room)
            == if c == '\n' then Line([c], false, items) else Line([c] + r.text, r.fault, r.rest)
  {
    assert ([Byte(c)] + items)[1..] == items;
  }

  lemma AsItemsHead(s: string)
    ensures s == [] ==> AsItems(s) == []
    ensures s != [] ==> AsItems(s) == [Byte(s[0])] + AsItems(s[1..])
    ensures s != [] ==> AsItems(s)[1..] == AsItems(s[1..])
  {
  }

  /** Over any sequence of calls the bytes delivered, in order, are a prefix of the stream: none
      is lost, repeated or moved. */
  lemma {:induction false} DeliveredIsPrefix(s: string, limits: seq<int>)
    ensures Texts(TakeLines(AsItems(s), limits)) <= s
    decreases |limits|
  {
    hide TakeLine, AsItems;
    if limits != [] {
      LineOfBytes(s, Room(limits[0]));
      var r := TakeLine(AsItems(s), Room(limits[0]));
      DeliveredIsPrefix(s[|r.text|..], limits[1..]);
      assert s == r.text + s[|r.text|..];
      assert TakeLines(AsItems(s), limits)[1..] == TakeLines(r.rest, limits[1..]);
    }
  }
}
