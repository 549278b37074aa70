/** The threaded PMI2 client against a server that need not echo the `thrid`: a reader takes a
    reply without one for its own command.  Replies with and without a `thrid` may be mixed. */
module Pmi2Untagged {
  import opened Pmi2Threads

  datatype Move =
    | Tagged(a: Action)   // any step of the client, or of a server that echoes the `thrid`
    | Untagged(t: Tid)    // `t` reads a reply that carries no `thrid`

  predicate CanMove(f: Frames, s: State, m: Move)
    requires Known(f, s)
  {
    match m
    case Tagged(a) => Enabled(f, s, a)
    case Untagged(t) => Enabled(f, s, ReadReply(t))
  }

  function After(f: Frames, s: State, m: Move): State
    requires Known(f, s) && CanMove(f, s, m)
  {
    match m
    case Tagged(a) => Next(f, s, a)
    case Untagged(t) =>
      s.(inbound := s.inbound[1..], results := s.results[t := s.inbound[0].payload])
  }

  predicate IsMove(f: Frames, r: State, m: Move, s: State)
  {
    Known(f, r) && CanMove(f, r, m) && After(f, r, m) == s
  }

  /** Begun and not returned. */
  predicate Outstanding(p: Pc) { p != Start && p != Done }

  /** No command but perhaps that of `t` is outstanding. */
  predicate Alone(s: State, t: Tid)
  {
    forall u :: u in s.pc && u != t ==> !Outstanding(s.pc[u])
  }

  /** Which moves a run may make: commands strictly one after another, or no new command at all. */
  datatype Discipline = OneAtATime | NoNewCommand

  predicate Permits(d: Discipline, s: State, m: Move)
  {
    m.Tagged? && m.a.LockWrite? ==> d == OneAtATime && Alone(s, m.a.t)
  }

  /** A run of `n` permitted moves leads from `r` to `s`. */
  ghost predicate Leads(f: Frames, d: Discipline, r: State, s: State, n: nat)
    decreases n
  {
    if n == 0 then r == s
    else exists q, m :: Leads(f, d, r, q, n - 1) && Permits(d, q, m) && IsMove(f, q, m, s)
  }

  /** Every complete command holds the server's reply to it. */
  predicate OwnResults(s: State)
  {
    forall t :: t in s.results ==> t in s.answered && s.results[t] == s.answered[t]
  }

  // ----- one command at a time is safe

  /** At most one command is outstanding, and a complete one is being read or has returned. */
  ghost predicate OneByOne(s: State)
  {
    && (forall t, u :: t in s.pc && u in s.pc && Outstanding(s.pc[t]) && Outstanding(s.pc[u]) ==> t == u)
    && (forall t :: t in s.pc && t in s.results ==> s.pc[t] == Reading || s.pc[t] == Done)
  }

  /** The reply at the head of the queue belongs to an outstanding command. */
  lemma HeadIsOutstanding(f: Frames, s: State)
    requires Inv(f, s) && s.inbound != []
    ensures var t := s.inbound[0].thrid; t in s.pc && Outstanding(s.pc[t]) && t !in s.results
  {
    hide WireInOrder, Bytes, Exclusive;
    var t := s.inbound[0].thrid;
    assert t in Thrids(s.inbound);
    assert t in Ids(s.log[..s.taken]);
  }

  /** With one command outstanding a reply without a `thrid` reaches the same command. */
  lemma UntaggedIsTagged(f: Frames, s: State, t: Tid)
    requires Inv(f, s) && OneByOne(s) && Enabled(f, s, ReadReply(t))
    ensures After(f, s, Untagged(t)) == Next(f, s, ReadReply(t)) && s.inbound[0].thrid == t
  {
    hide WireInOrder, Bytes, Exclusive, Conserved, OwnReplies, Logged;
    HeadIsOutstanding(f, s);
  }

  lemma NextOneByOne(f: Frames, s: State, a: Action)
    requires Inv(f, s) && OneByOne(s) && Enabled(f, s, a) && Permits(OneAtATime, s, Tagged(a))
    ensures OneByOne(Next(f, s, a))
  {
    hide WireInOrder, Bytes, Exclusive, Conserved, OwnReplies, Logged;
    if a.LockWrite? {
      StartHasNoResult(f, s, a.t);
    } else if a.ReadReply? {
      UntaggedIsTagged(f, s, a.t);
    } else if !a.ServerTake? && !a.ServerReply? {
      assert Outstanding(s.pc[a.t]);
    }
  }

  lemma StartHasNoResult(f: Frames, s: State, t: Tid)
    requires Inv(f, s) && t in s.pc && s.pc[t] == Start
    ensures t !in s.results && t !in s.answered
  {
    hide WireInOrder, Bytes, Exclusive, OwnReplies;
  }

  lemma MoveKeeps(f: Frames, s: State, m: Move)
    requires Inv(f, s) && OneByOne(s) && CanMove(f, s, m) && Permits(OneAtATime, s, m)
    ensures Inv(f, After(f, s, m)) && OneByOne(After(f, s, m))
  {
    hide Inv, Enabled, OneByOne, Next;
    InvKnown(f, s);
    if m.Untagged? { UntaggedIsTagged(f, s, m.t); }
    var a := if m.Tagged? then m.a else ReadReply(m.t);
    NextInv(f, s, a);
    NextOneByOne(f, s, a);
  }

  lemma {:induction false} LeadsKeeps(f: Frames, d: Discipline, r: State, s: State, n: nat)
    requires Inv(f, r) && OneByOne(r) && Leads(f, d, r, s, n)
    ensures Inv(f, s) && OneByOne(s)
    decreases n
  {
    hide Inv, IsMove, OneByOne, Permits;
    if n > 0 {
      var q, m :| Leads(f, d, r, q, n - 1) && Permits(d, q, m) && IsMove(f, q, m, s);
      LeadsKeeps(f, d, r, q, n - 1);
      IsMoveKeeps(f, d, q, m, s);
    }
  }

  lemma IsMoveKeeps(f: Frames, d: Discipline, q: State, m: Move, s: State)
    requires Inv(f, q) && OneByOne(q) && Permits(d, q, m) && IsMove(f, q, m, s)
    ensures Inv(f, s) && OneByOne(s)
  {
    hide Inv, CanMove, After, OneByOne;
    MoveKeeps(f, q, m);
  }

  /** Any number of commands sent strictly one after another: over every run, whichever replies
      carry a `thrid`, the invariant of the tagged protocol holds and every complete command has
      the reply to it. */
  lemma SequentialIsSafe(f: Frames, s: State, n: nat)
    requires Leads(f, OneAtATime, Init(f), s, n)
    ensures Inv(f, s) && OneByOne(s) && OwnResults(s)
  {
    hide Leads, Exclusive, WireInOrder, Logged, Conserved;
    InitInv(f);
    LeadsKeeps(f, OneAtATime, Init(f), s, n);
  }

  // ----- overlapping commands are not

  /** A run without new commands that keeps the tagged invariant, step by step. */
  lemma Onward(f: Frames, r: State, s: State, n: nat, a: Action) returns (s': State)
    requires Leads(f, NoNewCommand, r, s, n) && Inv(f, s) && Enabled(f, s, a) && !a.LockWrite?
    ensures s' == Next(f, s, a) && Inv(f, s') && Leads(f, NoNewCommand, r, s', n + 1)
  {
    hide Inv, Enabled, Next;
    InvKnown(f, s);
    NextInv(f, s, a);
    s' := Next(f, s, a);
    OneMore(f, r, s, n, Tagged(a), s');
  }

  lemma OneMore(f: Frames, r: State, s: State, n: nat, m: Move, s': State)
    requires Leads(f, NoNewCommand, r, s, n) && Permits(NoNewCommand, s, m) && IsMove(f, s, m, s')
    ensures Leads(f, NoNewCommand, r, s', n + 1)
  {
    hide IsMove, Permits;
  }

  /** The thread that holds the flag for writing writes its whole command. */
  lemma Written(f: Frames, r: State, s: State, n: nat, t: Tid) returns (s': State, n': nat)
    requires Leads(f, NoNewCommand, r, s, n) && Inv(f, s)
    requires t in f && f[t] != [] && s.pc[t] == Writing(0)
    ensures Leads(f, NoNewCommand, r, s', n') && Inv(f, s') && !s'.blocked
    ensures s'.pc == s.pc[t := Waiting] && s'.log == s.log && s'.inbound == s.inbound
    ensures s'.results == s.results && s'.answered == s.answered
  {
    hide Leads, Bytes, Inv;
    InvKnown(f, s);
    var a := Onward(f, r, s, n, WriteSome(t, |f[t]|));
    s' := Onward(f, r, a, n + 1, UnlockWrite(t));
    n' := n + 2;
    assert s'.pc == s.pc[t := Waiting];
  }

  /** With the flag free, the server can read all that was written. */
  lemma {:induction false} AllTaken(f: Frames, r: State, s: State, n: nat) returns (s': State, n': nat)
    requires Leads(f, NoNewCommand, r, s, n) && Inv(f, s) && !s.blocked
    ensures Leads(f, NoNewCommand, r, s', n') && Inv(f, s') && !s'.blocked
    ensures s'.pc == s.pc && s'.log == s.log && s'.inbound == s.inbound && s'.taken == |s.log|
    ensures s'.results == s.results && s'.answered == s.answered
    decreases |s.log| - s.taken
  {
    hide Leads, Inv;
    TakenBound(f, s);
    s', n' := s, n;
    if s.taken < |s.log| {
      CanTake(f, s);
      s' := Onward(f, r, s, n, ServerTake);
      s', n' := AllTaken(f, r, s', n + 1);
    }
  }

  lemma TakenBound(f: Frames, s: State) requires Inv(f, s) ensures s.taken <= |s.log| { }

  lemma CanTake(f: Frames, s: State)
    requires Inv(f, s) && !s.blocked && s.taken < |s.log|
    ensures Enabled(f, s, ServerTake)
  {
    hide Conserved, OwnReplies, Logged, Bytes;
    assert forall t :: t in s.pc && Partial(s.pc[t]) ==> Holds(s.pc[t]);
    BytesPrefix(f, s.log, s.taken + 1);
  }

  /** A reader takes a reply that is not its own. */
  lemma Taken(f: Frames, r: State, s: State, n: nat, t: Tid) returns (s': State, n': nat)
    requires Leads(f, NoNewCommand, r, s, n) && Inv(f, s) && !s.blocked
    requires t in s.pc && s.pc[t] == Waiting && t !in s.results && t !in s.answered && s.inbound != []
    ensures Leads(f, NoNewCommand, r, s', n') && !OwnResults(s')
  {
    hide Leads, Bytes, Inv;
    InvKnown(f, s);
    var a := Onward(f, r, s, n, LockRead(t));
    InvKnown(f, a);
    s' := After(f, a, Untagged(t));
    OneMore(f, r, a, n + 1, Untagged(t), s');
    n' := n + 2;
    assert t in s'.results && t !in s'.answered;
  }

  /** Two commands written and read by the server, the second not answered: if a reply is on its
      way, `u` takes it; otherwise the server answers `u` and `t` takes that. */
  lemma Misdelivered(f: Frames, r: State, s: State, n: nat, t: Tid, u: Tid) returns (s': State, n': nat)
    requires Leads(f, NoNewCommand, r, s, n) && Inv(f, s) && !s.blocked
    requires t in s.pc && u in s.pc && t != u && s.pc[t] == Waiting == s.pc[u] && s.taken == |s.log|
    requires t !in s.results && u !in s.results && u !in s.answered
    ensures Leads(f, NoNewCommand, r, s', n') && !OwnResults(s')
  {
    hide Leads, Bytes, Exclusive, WireInOrder;
    if s.inbound != [] {
      s', n' := Taken(f, r, s, n, u);
    } else {
      PendingNow(f, s, u);
      assert t !in s.answered;
      var a := Onward(f, r, s, n, ServerReply(u, ""));
      s', n' := Taken(f, r, a, n + 1, t);
    }
  }

  lemma PendingNow(f: Frames, s: State, u: Tid)
    requires Inv(f, s) && s.taken == |s.log| && u in s.pc && s.pc[u] != Start && u !in s.answered
    ensures u in s.pending
  {
    hide Bytes, Exclusive, WireInOrder, OwnReplies;
    assert s.log[..s.taken] == s.log;
    assert u in s.log;
    assert u in Ids(s.log);
  }

  lemma OverlapMisdelivers(f: Frames, q: State, t: Tid, u: Tid) returns (s: State, n: nat)
    requires (forall x :: x in f ==> f[x] != []) && Inv(f, q) && OneByOne(q)
    requires Enabled(f, q, LockWrite(u)) && t in f && t != u && Outstanding(q.pc[t])
    ensures Leads(f, NoNewCommand, Next(f, q, LockWrite(u)), s, n) && !OwnResults(s)
  {
    hide Inv, Bytes;
    InvKnown(f, q);
    StartHasNoResult(f, q, u);
    FreeMeansWaiting(f, q, t);
    NextInv(f, q, LockWrite(u));
    var r := Next(f, q, LockWrite(u));
    assert Leads(f, NoNewCommand, r, r, 0);
    hide Leads;
    s, n := Written(f, r, r, 0, u);
    s, n := AllTaken(f, r, s, n);
    s, n := Misdelivered(f, r, s, n, t, u);
  }

  lemma FreeMeansWaiting(f: Frames, q: State, t: Tid)
    requires Inv(f, q) && OneByOne(q) && !q.blocked && t in q.pc && Outstanding(q.pc[t])
    ensures q.pc[t] == Waiting && t !in q.results
  {
    hide Bytes, WireInOrder, Conserved, OwnReplies, Logged;
    assert !Holds(q.pc[t]);
  }

  ghost predicate CanMisdeliver(f: Frames, r: State)
  {
    exists s, n: nat :: Leads(f, NoNewCommand, r, s, n) && !OwnResults(s)
  }

  /** The exact condition.  Commands have been sent one after another so far, and `u` takes the
      flag for a new one: some run without a further command gives a thread the reply of another
      exactly when another command is outstanding at that moment. */
  lemma OverlapIsUnsafe(f: Frames, q: State, k: nat, u: Tid)
    requires forall x :: x in f ==> f[x] != []
    requires Leads(f, OneAtATime, Init(f), q, k) && Known(f, q) && Enabled(f, q, LockWrite(u))
    ensures CanMisdeliver(f, Next(f, q, LockWrite(u))) <==> !Alone(q, u)
  {
    hide Leads, Inv, OneByOne, Next;
    SequentialIsSafe(f, q, k);
    var r := Next(f, q, LockWrite(u));
    if Alone(q, u) {
      MoveKeeps(f, q, Tagged(LockWrite(u)));
      forall s, n: nat | Leads(f, NoNewCommand, r, s, n) ensures OwnResults(s) {
        LeadsKeeps(f, NoNewCommand, r, s, n);
        InvOwns(f, s);
      }
    } else {
      var t :| t in q.pc && t != u && Outstanding(q.pc[t]);
      var s, n := OverlapMisdelivers(f, q, t, u);
    }
  }

  lemma InvOwns(f: Frames, s: State) requires Inv(f, s) ensures OwnResults(s) { }
}
