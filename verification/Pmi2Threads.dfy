/** The threaded PMI2 client: any number of threads, each writing one command and then reading
    until that command is complete, share one stream through the `blocked` flag.  The flag is
    tested and set under a mutex, so each such section is one step here; writes go out in
    pieces; the server answers in any order, echoing the command's `thrid`. */
module Pmi2Threads {
  import opened Sets


  type Tid = nat

  datatype Pc =
    | Start                     // command not written yet
    | Writing(sent: nat)        // holds the flag, that many bytes written
    | Waiting                   // written, about to read
    | Reading                   // holds the flag, reading replies
    | Done                      // returned
    | FailedWrite(sent: nat)    // write error: returned without clearing the flag
    | FailedRead                // read error: returned without clearing the flag

  datatype Reply = Reply(thrid: Tid, payload: string)

  datatype State = State(
    blocked: bool,
    pc: map<Tid, Pc>,
    out: string,                // bytes written to the server
    log: seq<Tid>,              // commands in the order their writers took the flag
    taken: nat,                 // frames the server has read
    pending: set<Tid>,          // commands the server has read and not answered
    inbound: seq<Reply>,        // replies sent and not read yet
    answered: map<Tid, string>, // every reply sent
    results: map<Tid, string>)  // what each complete command holds

  /** The frame each command writes. */
  type Frames = map<Tid, string>

  function Bytes(f: Frames, log: seq<Tid>): string
    requires forall i :: 0 <= i < |log| ==> log[i] in f
  {
    if log == [] then [] else Bytes(f, log[..|log| - 1]) + f[log[|log| - 1]]
  }

  datatype Action =
    | LockWrite(t: Tid)
    | WriteSome(t: Tid, k: nat)
    | UnlockWrite(t: Tid)
    | FailWrite(t: Tid)
    | ServerTake
    | ServerReply(t: Tid, payload: string)
    | LockRead(t: Tid)
    | ReturnComplete(t: Tid)
    | ReadReply(t: Tid)
    | UnlockRead(t: Tid)
    | FailRead(t: Tid)

  predicate Known(f: Frames, s: State)
  {
    s.pc.Keys == f.Keys && forall i :: 0 <= i < |s.log| ==> s.log[i] in f
  }

  predicate Enabled(f: Frames, s: State, a: Action)
    requires Known(f, s)
  {
    match a
    case LockWrite(t) => t in f && s.pc[t] == Start && !s.blocked
    case WriteSome(t, k) => t in f && s.pc[t].Writing? && 1 <= k <= |f[t]| - s.pc[t].sent
    case UnlockWrite(t) => t in f && s.pc[t] == Writing(|f[t]|)
    case FailWrite(t) => t in f && s.pc[t].Writing? && s.pc[t].sent < |f[t]|
    case ServerTake => s.taken < |s.log| && |Bytes(f, s.log[..s.taken + 1])| <= |s.out|
    case ServerReply(t, _) => t in s.pending
    case LockRead(t) => t in f && s.pc[t] == Waiting && !s.blocked && t !in s.results
    case ReturnComplete(t) => t in f && s.pc[t] == Waiting && t in s.results
    case ReadReply(t) => t in f && s.pc[t] == Reading && t !in s.results && s.inbound != []
    case UnlockRead(t) => t in f && s.pc[t] == Reading && t in s.results
    case FailRead(t) => t in f && s.pc[t] == Reading && t !in s.results
  }

  function Next(f: Frames, s: State, a: Action): State
    requires Known(f, s) && Enabled(f, s, a)
  {
    match a
    case LockWrite(t) => s.(blocked := true, pc := s.pc[t := Writing(0)], log := s.log + [t])
    case WriteSome(t, k) =>
      var n := s.pc[t].sent;
      s.(out := s.out + f[t][n..n + k], pc := s.pc[t := Writing(n + k)])
    case UnlockWrite(t) => s.(blocked := false, pc := s.pc[t := Waiting])
    case FailWrite(t) => s.(pc := s.pc[t := FailedWrite(s.pc[t].sent)])
    case ServerTake => s.(taken := s.taken + 1, pending := s.pending + {s.log[s.taken]})
    case ServerReply(t, p) =>
      s.(pending := s.pending - {t}, inbound := s.inbound + [Reply(t, p)],
         answered := s.answered[t := p])
    case LockRead(t) => s.(blocked := true, pc := s.pc[t := Reading])
    case ReturnComplete(t) => s.(pc := s.pc[t := Done])
    case ReadReply(t) =>
      var r := s.inbound[0];
      s.(inbound := s.inbound[1..], results := s.results[r.thrid := r.payload])
    case UnlockRead(t) => s.(blocked := false, pc := s.pc[t := Done])
    case FailRead(t) => s.(pc := s.pc[t := FailedRead])
  }

  function Init(f: Frames): State
  {
    State(false, map t | t in f :: Start, [], [], 0, {}, [], map[], map[])
  }

  // ----- the invariant

  predicate Holds(p: Pc) { p.Writing? || p.Reading? || p.FailedWrite? || p.FailedRead? }

  /** Between setting and clearing the flag there is at most one thread, and the flag says so. */
  ghost predicate Exclusive(s: State)
  {
    && (forall t, u :: t in s.pc && u in s.pc && Holds(s.pc[t]) && Holds(s.pc[u]) ==> t == u)
    && (s.blocked <==> exists t :: t in s.pc && Holds(s.pc[t]))
  }

  predicate Partial(p: Pc) { p.Writing? || p.FailedWrite? }

  /** The wire carries whole frames in lock order, but for the frame of a writer in progress. */
  ghost predicate WireInOrder(f: Frames, s: State)
    requires Known(f, s)
  {
    var n := |s.log|;
    && (forall t :: t in s.pc && Partial(s.pc[t]) ==>
          n > 0 && s.log[n - 1] == t && s.pc[t].sent <= |f[t]|
          && s.out == Bytes(f, s.log[..n - 1]) + f[t][..s.pc[t].sent])
    && ((forall t :: t in s.pc ==> !Partial(s.pc[t])) ==> s.out == Bytes(f, s.log))
  }

  ghost predicate Logged(s: State)
  {
    && (forall i, j :: 0 <= i < j < |s.log| ==> s.log[i] != s.log[j])
    && (forall t :: t in s.pc ==> (t in s.log <==> s.pc[t] != Start))
  }

  function Ids(log: seq<Tid>): set<Tid> { set i | 0 <= i < |log| :: log[i] }

  function Thrids(inbound: seq<Reply>): set<Tid> { set i | 0 <= i < |inbound| :: inbound[i].thrid }

  /** Every command the server has read is pending, answered and in flight, or answered and
      delivered, and it is only one of these. */
  ghost predicate Conserved(s: State)
  {
    && s.taken <= |s.log|
    && Ids(s.log[..s.taken]) == s.pending + s.answered.Keys
    && s.pending !! s.answered.Keys
    && s.answered.Keys == Thrids(s.inbound) + s.results.Keys
    && Thrids(s.inbound) !! s.results.Keys
    && (forall i, j :: 0 <= i < j < |s.inbound| ==> s.inbound[i].thrid != s.inbound[j].thrid)
  }

  ghost predicate OwnReplies(s: State)
  {
    && (forall i :: 0 <= i < |s.inbound| ==>
          s.inbound[i].thrid in s.answered
          && s.inbound[i].payload == s.answered[s.inbound[i].thrid])
    && (forall t :: t in s.results ==> t in s.answered && s.results[t] == s.answered[t])
    && (forall t :: t in s.pc && s.pc[t] == Done ==> t in s.results)
  }

  ghost predicate Inv(f: Frames, s: State)
  {
    Known(f, s) && Exclusive(s) && WireInOrder(f, s) && Logged(s) && Conserved(s) && OwnReplies(s)
  }

  lemma InitInv(f: Frames)
    ensures Inv(f, Init(f))
  {
  }

  lemma NextKnown(f: Frames, s: State, a: Action)
    requires Known(f, s) && Enabled(f, s, a)
    ensures Known(f, Next(f, s, a))
  {
  }

  lemma NextExclusive(f: Frames, s: State, a: Action)
    requires Known(f, s) && Enabled(f, s, a) && Exclusive(s)
    ensures Exclusive(Next(f, s, a))
  {
    var s' := Next(f, s, a);
    if a.LockWrite? || a.LockRead? {
      assert Holds(s'.pc[a.t]);
    } else if a.WriteSome? || a.FailWrite? || a.FailRead? {
      assert Holds(s.pc[a.t]) && Holds(s'.pc[a.t]);
    } else if a.UnlockWrite? || a.UnlockRead? {
      assert Holds(s.pc[a.t]);
    } else {
      assert forall t :: t in s.pc ==> Holds(s'.pc[t]) == Holds(s.pc[t]);
    }
  }

  lemma NextLogged(f: Frames, s: State, a: Action)
    requires Known(f, s) && Enabled(f, s, a) && Logged(s)
    ensures Logged(Next(f, s, a))
  {
  }

  lemma {:induction false} BytesPrefix(f: Frames, log: seq<Tid>, k: nat)
    requires k <= |log| && forall i :: 0 <= i < |log| ==> log[i] in f
    ensures Bytes(f, log[..k]) <= Bytes(f, log)
    decreases |log|
  {
    if k < |log| {
      BytesPrefix(f, log[..|log| - 1], k);
      assert log[..|log| - 1][..k] == log[..k];
    } else {
      assert log[..k] == log;
    }
  }

  lemma WireLock(f: Frames, s: State, t: Tid)
    requires Inv(f, s) && Enabled(f, s, LockWrite(t))
    ensures WireInOrder(f, Next(f, s, LockWrite(t)))
  {
    hide Conserved, OwnReplies, Logged, Bytes;
    var s', n := Next(f, s, LockWrite(t)), |s.log|;
    assert s'.log[..n] == s.log;
    assert f[t][..0] == [];
    assert forall u :: u in s.pc ==> !Holds(s.pc[u]);
  }

  lemma WireWrite(f: Frames, s: State, t: Tid, k: nat)
    requires Inv(f, s) && Enabled(f, s, WriteSome(t, k))
    ensures WireInOrder(f, Next(f, s, WriteSome(t, k)))
  {
    hide Conserved, OwnReplies, Logged, Bytes;
    var m := s.pc[t].sent;
    assert Holds(s.pc[t]) && Partial(s.pc[t]);
    assert f[t][..m] + f[t][m..m + k] == f[t][..m + k];
  }

  lemma WireUnlock(f: Frames, s: State, t: Tid)
    requires Inv(f, s) && Enabled(f, s, UnlockWrite(t))
    ensures WireInOrder(f, Next(f, s, UnlockWrite(t)))
  {
    hide Conserved, OwnReplies, Logged;
    assert Holds(s.pc[t]) && Partial(s.pc[t]);
    assert f[t][..|f[t]|] == f[t];
    assert forall u :: u in s.pc && Holds(s.pc[u]) ==> u == t;
  }

  lemma WireOther(f: Frames, s: State, s': State)
    requires Known(f, s) && Known(f, s') && WireInOrder(f, s)
    requires s'.log == s.log && s'.out == s.out
    requires forall t :: t in s.pc && Partial(s.pc[t]) ==>
               Partial(s'.pc[t]) && s'.pc[t].sent == s.pc[t].sent
    requires forall t :: t in s.pc && Partial(s'.pc[t]) ==> Partial(s.pc[t])
    ensures WireInOrder(f, s')
  {
  }

  lemma NextWire(f: Frames, s: State, a: Action)
    requires Inv(f, s) && Enabled(f, s, a)
    ensures Known(f, Next(f, s, a)) && WireInOrder(f, Next(f, s, a))
  {
    hide WireInOrder, Conserved, OwnReplies, Logged, Exclusive, Bytes;
    NextKnown(f, s, a);
    match a
    case LockWrite(t) => WireLock(f, s, t);
    case WriteSome(t, k) => WireWrite(f, s, t, k);
    case UnlockWrite(t) => WireUnlock(f, s, t);
    case _ => WireOther(f, s, Next(f, s, a));
  }

  lemma IdsSnoc(log: seq<Tid>, t: Tid)
    ensures Ids(log + [t]) == Ids(log) + {t}
  {
    assert forall i :: 0 <= i < |log| ==> (log + [t])[i] == log[i];
    assert (log + [t])[|log|] == t;
  }

  lemma ThridsSnoc(q: seq<Reply>, r: Reply)
    ensures Thrids(q + [r]) == Thrids(q) + {r.thrid}
  {
    assert forall i :: 0 <= i < |q| ==> (q + [r])[i] == q[i];
    assert (q + [r])[|q|] == r;
  }

  lemma ThridsTail(q: seq<Reply>)
    requires q != []
    ensures Thrids(q) == Thrids(q[1..]) + {q[0].thrid}
  {
    assert q == [q[0]] + q[1..];
    assert forall i :: 0 <= i < |q| - 1 ==> q[1..][i] == q[i + 1];
    assert forall i :: 1 <= i < |q| ==> q[i] == q[1..][i - 1];
  }

  lemma ConservedTake(f: Frames, s: State)
    requires Inv(f, s) && Enabled(f, s, ServerTake)
    ensures Conserved(Next(f, s, ServerTake)) && OwnReplies(Next(f, s, ServerTake))
  {
    hide Bytes, WireInOrder, Exclusive, Thrids;
    var s', t := Next(f, s, ServerTake), s.log[s.taken];
    assert s'.log[..s'.taken] == s.log[..s.taken] + [t];
    IdsSnoc(s.log[..s.taken], t);
    assert t !in Ids(s.log[..s.taken]);
  }

  lemma ConservedReply(f: Frames, s: State, t: Tid, p: string)
    requires Inv(f, s) && Enabled(f, s, ServerReply(t, p))
    ensures Conserved(Next(f, s, ServerReply(t, p))) && OwnReplies(Next(f, s, ServerReply(t, p)))
  {
    hide Ids, Bytes, WireInOrder, Exclusive, Logged, Thrids;
    var s' := Next(f, s, ServerReply(t, p));
    ThridsSnoc(s.inbound, Reply(t, p));
    ThridsAt(s.inbound);
    assert s'.answered.Keys == s.answered.Keys + {t};
    assert t !in Thrids(s.inbound) && t !in s.results;
    assert forall i :: 0 <= i < |s'.inbound| ==>
             s'.inbound[i] == if i < |s.inbound| then s.inbound[i] else Reply(t, p);
  }

  lemma ThridsAt(q: seq<Reply>)
    ensures forall i :: 0 <= i < |q| ==> q[i].thrid in Thrids(q)
  {
  }

  lemma ConservedRead(f: Frames, s: State, t: Tid)
    requires Inv(f, s) && Enabled(f, s, ReadReply(t))
    ensures Conserved(Next(f, s, ReadReply(t))) && OwnReplies(Next(f, s, ReadReply(t)))
  {
    hide Ids, Bytes, WireInOrder, Exclusive, Logged;
    ThridsTail(s.inbound);
    assert s.inbound[0].thrid !in Thrids(s.inbound[1..]);
  }

  lemma ConservedOther(s: State, s': State)
    requires Conserved(s) && OwnReplies(s) && s.log <= s'.log && s'.taken == s.taken
    requires s'.pending == s.pending && s'.inbound == s.inbound
    requires s'.answered == s.answered && s'.results == s.results
    requires forall t :: t in s'.pc && s'.pc[t] == Done ==> t in s.results
    ensures Conserved(s') && OwnReplies(s')
  {
    assert s'.log[..s'.taken] == s.log[..s.taken];
  }

  lemma NextConserved(f: Frames, s: State, a: Action)
    requires Inv(f, s) && Enabled(f, s, a)
    ensures Conserved(Next(f, s, a)) && OwnReplies(Next(f, s, a))
  {
    hide Conserved, Logged, Exclusive, WireInOrder, Bytes;
    match a
    case ServerTake => ConservedTake(f, s);
    case ServerReply(t, p) => ConservedReply(f, s, t, p);
    case ReadReply(t) => ConservedRead(f, s, t);
    case _ => ConservedOther(s, Next(f, s, a));
  }

  lemma NextInv(f: Frames, s: State, a: Action)
    requires Inv(f, s) && Enabled(f, s, a)
    ensures Inv(f, Next(f, s, a))
  {
    hide Exclusive, WireInOrder, Logged, Conserved, OwnReplies, Bytes, Next;
    NextKnown(f, s, a);
    NextExclusive(f, s, a);
    NextWire(f, s, a);
    NextLogged(f, s, a);
    NextConserved(f, s, a);
  }

  // ----- every run

  datatype Outcome = Stuck | Reached(s: State)

  /** Where a schedule leads from `s`; `Stuck` if it asks for a step that is not enabled. */
  function Run(f: Frames, s: State, acts: seq<Action>): Outcome
    decreases |acts|
  {
    if acts == [] then Reached(s)
    else if Known(f, s) && Enabled(f, s, acts[0]) then Run(f, Next(f, s, acts[0]), acts[1..])
    else Stuck
  }

  ghost predicate Reachable(f: Frames, s: State)
  {
    exists acts :: Run(f, Init(f), acts) == Reached(s)
  }

  lemma {:induction false} RunInv(f: Frames, s: State, acts: seq<Action>)
    requires Inv(f, s) && Run(f, s, acts).Reached?
    ensures Inv(f, Run(f, s, acts).s)
    decreases |acts|
  {
    hide Inv, Enabled, Next;
    InvKnown(f, s);
    if acts != [] {
      NextInv(f, s, acts[0]);
      RunInv(f, Next(f, s, acts[0]), acts[1..]);
    }
  }

  lemma InvKnown(f: Frames, s: State) requires Inv(f, s) ensures Known(f, s) { }

  lemma ReachableInv(f: Frames, s: State)
    requires Reachable(f, s)
    ensures Inv(f, s)
  {
    hide Inv, Init, Run;
    var acts :| Run(f, Init(f), acts) == Reached(s);
    InitInv(f);
    RunInv(f, Init(f), acts);
  }

  /** In every reachable state at most one thread is between setting and clearing the flag. */
  lemma MutualExclusion(f: Frames, s: State, t: Tid, u: Tid)
    requires Reachable(f, s) && t in s.pc && u in s.pc
    requires Holds(s.pc[t]) && Holds(s.pc[u])
    ensures t == u && s.blocked
  {
    ReachableInv(f, s);
  }

  /** In every reachable state the wire is the frames of different commands one after another,
      whole except perhaps the last. */
  lemma FramesNeverInterleave(f: Frames, s: State)
    requires Reachable(f, s)
    ensures forall i, j :: 0 <= i < j < |s.log| ==> s.log[i] != s.log[j]
    ensures forall i :: 0 <= i < |s.log| ==> s.log[i] in f
    ensures s.out <= Bytes(f, s.log)
    ensures s.log != [] ==> Bytes(f, s.log[..|s.log| - 1]) <= s.out
  {
    hide Exclusive, Conserved, OwnReplies;
    ReachableInv(f, s);
    if t :| t in s.pc && Partial(s.pc[t]) {
      var n := s.pc[t].sent;
      assert f[t] == f[t][..n] + f[t][n..];
      assert Bytes(f, s.log) == s.out + f[t][n..];
    }
  }

  /** A thread returns only with its command complete, and a complete command holds the reply
      the server sent for it. */
  lemma OwnReply(f: Frames, s: State, t: Tid)
    requires Reachable(f, s) && t in s.pc
    ensures s.pc[t] == Done ==> t in s.results
    ensures t in s.results ==> t in s.answered && s.results[t] == s.answered[t]
  {
    ReachableInv(f, s);
  }

  // ----- a thread has no choice

  /** The thread that takes the step, if it is not the server. */
  function Actor(a: Action): set<Tid>
  {
    if a.ServerTake? || a.ServerReply? then {} else {a.t}
  }

  /** Failures apart, a thread has at most one step to take, but for how much one write moves: it
      returns at once with a complete command, and a reader stops at the reply to its own. */
  lemma OneStepEach(f: Frames, s: State, t: Tid, a: Action, b: Action)
    requires Known(f, s) && Enabled(f, s, a) && Enabled(f, s, b) && Actor(a) == Actor(b) == {t}
    requires !IsFailure(a) && !IsFailure(b)
    ensures a == b || (a.WriteSome? && b.WriteSome?)
  {
    hide Bytes;
    assert a.t == t == b.t;
  }

  // ----- no deadlock, no endless run

  predicate Failed(p: Pc) { p.FailedWrite? || p.FailedRead? }

  predicate IsFailure(a: Action) { a.FailWrite? || a.FailRead? }

  /** While some thread has not returned and none has failed, some step other than a failure
      can be taken. */
  lemma NoDeadlock(f: Frames, s: State, t: Tid) returns (a: Action)
    requires Reachable(f, s) && t in s.pc && s.pc[t] != Done
    requires forall u :: u in s.pc ==> !Failed(s.pc[u])
    ensures Known(f, s) && Enabled(f, s, a) && !IsFailure(a)
  {
    ReachableInv(f, s);
    if u :| u in s.pc && Holds(s.pc[u]) {
      if s.pc[u].Writing? {
        a := if s.pc[u].sent == |f[u]| then UnlockWrite(u) else WriteSome(u, 1);
      } else {
        a := ReaderMoves(f, s, u);
      }
    } else if s.pc[t] == Start {
      a := LockWrite(t);
    } else {
      a := if t in s.results then ReturnComplete(t) else LockRead(t);
    }
  }

  lemma ReaderMoves(f: Frames, s: State, u: Tid) returns (a: Action)
    requires Inv(f, s) && u in s.pc && s.pc[u] == Reading
    ensures Enabled(f, s, a) && !IsFailure(a)
  {
    if u in s.results {
      a := UnlockRead(u);
    } else if s.inbound != [] {
      a := ReadReply(u);
    } else if u in Ids(s.log[..s.taken]) {
      a := ServerReply(u, "");
    } else {
      a := ServerTake;
      assert s.log[..|s.log|] == s.log;
      assert s.taken < |s.log|;
      assert Holds(s.pc[u]);
      assert forall v :: v in s.pc ==> !Partial(s.pc[v]);
      BytesPrefix(f, s.log, s.taken + 1);
    }
  }

  /** How far a thread has come. */
  function Level(p: Pc): nat
  {
    match p
    case Start => 0
    case Writing(_) => 1
    case Waiting => 2
    case Reading => 3
    case _ => 4
  }

  function AtLeast(s: State, j: nat): set<Tid> { set t | t in s.pc && Level(s.pc[t]) >= j }

  /** Steps taken so far can be read off the state. */
  function Progress(s: State): nat
  {
    |AtLeast(s, 1)| + |AtLeast(s, 2)| + |AtLeast(s, 3)| + |AtLeast(s, 4)|
    + |s.pending + s.answered.Keys| + |s.answered.Keys| + |s.results.Keys| + |s.out|
  }

  lemma AtLeastGrows(s: State, s': State, j: nat)
    requires s.pc.Keys == s'.pc.Keys
    requires forall t :: t in s.pc ==> Level(s.pc[t]) <= Level(s'.pc[t])
    ensures |AtLeast(s, j)| <= |AtLeast(s', j)|
    ensures forall t :: t in s.pc && Level(s.pc[t]) < j <= Level(s'.pc[t]) ==>
              |AtLeast(s, j)| < |AtLeast(s', j)|
  {
    SubsetSize(AtLeast(s, j), AtLeast(s', j));
    forall t | t in s.pc && Level(s.pc[t]) < j <= Level(s'.pc[t])
      ensures |AtLeast(s, j)| < |AtLeast(s', j)|
    {
      assert t in AtLeast(s', j) && t !in AtLeast(s, j);
    }
  }

  /** Nothing shrinks. */
  ghost predicate Grows(s: State, s': State)
  {
    && s.pc.Keys == s'.pc.Keys
    && (forall t :: t in s.pc ==> Level(s.pc[t]) <= Level(s'.pc[t]))
    && s.pending + s.answered.Keys <= s'.pending + s'.answered.Keys
    && s.answered.Keys <= s'.answered.Keys && s.results.Keys <= s'.results.Keys
    && |s.out| <= |s'.out|
  }

  lemma GrowsProgress(s: State, s': State)
    requires Grows(s, s')
    ensures Progress(s) <= Progress(s')
    ensures forall t :: t in s.pc && Level(s.pc[t]) < Level(s'.pc[t]) ==> Progress(s) < Progress(s')
    ensures s.pending + s.answered.Keys != s'.pending + s'.answered.Keys ==> Progress(s) < Progress(s')
    ensures s.answered.Keys != s'.answered.Keys ==> Progress(s) < Progress(s')
    ensures s.results.Keys != s'.results.Keys ==> Progress(s) < Progress(s')
    ensures |s.out| < |s'.out| ==> Progress(s) < Progress(s')
  {
    hide AtLeast;
    AtLeastGrows(s, s', 1);
    AtLeastGrows(s, s', 2);
    AtLeastGrows(s, s', 3);
    AtLeastGrows(s, s', 4);
    SubsetSize(s.pending + s.answered.Keys, s'.pending + s'.answered.Keys);
    SubsetSize(s.answered.Keys, s'.answered.Keys);
    SubsetSize(s.results.Keys, s'.results.Keys);
  }

  lemma TakeProgress(f: Frames, s: State)
    requires Inv(f, s) && Enabled(f, s, ServerTake)
    ensures Progress(Next(f, s, ServerTake)) > Progress(s)
  {
    hide Progress, Bytes, WireInOrder, Exclusive, OwnReplies;
    var s' := Next(f, s, ServerTake);
    IdsNew(s.log, s.taken);
    assert s.log[s.taken] in s'.pending;
    GrowsProgress(s, s');
  }

  lemma ReplyProgress(f: Frames, s: State, t: Tid, p: string)
    requires Inv(f, s) && Enabled(f, s, ServerReply(t, p))
    ensures Progress(Next(f, s, ServerReply(t, p))) > Progress(s)
  {
    hide Progress, Bytes, WireInOrder, Exclusive, OwnReplies, Logged;
    var s' := Next(f, s, ServerReply(t, p));
    assert t in s'.answered.Keys && t !in s.answered.Keys;
    GrowsProgress(s, s');
  }

  lemma ReadProgress(f: Frames, s: State, t: Tid)
    requires Inv(f, s) && Enabled(f, s, ReadReply(t))
    ensures Progress(Next(f, s, ReadReply(t))) > Progress(s)
  {
    hide Progress, Bytes, WireInOrder, Exclusive, OwnReplies, Logged;
    var s', r := Next(f, s, ReadReply(t)), s.inbound[0];
    assert r.thrid in Thrids(s.inbound);
    assert r.thrid in s'.results.Keys && r.thrid !in s.results.Keys;
    GrowsProgress(s, s');
  }

  lemma NextProgress(f: Frames, s: State, a: Action)
    requires Inv(f, s) && Enabled(f, s, a)
    ensures Progress(Next(f, s, a)) > Progress(s)
  {
    hide Progress, Bytes, WireInOrder, Exclusive, Conserved, OwnReplies, Logged;
    match a
    case ServerTake => TakeProgress(f, s);
    case ServerReply(t, p) => ReplyProgress(f, s, t, p);
    case ReadReply(t) => ReadProgress(f, s, t);
    case WriteSome(t, k) => GrowsProgress(s, Next(f, s, a));
    case _ =>
      assert Level(s.pc[a.t]) < Level(Next(f, s, a).pc[a.t]);
      GrowsProgress(s, Next(f, s, a));
  }

  lemma IdsNew(log: seq<Tid>, k: nat)
    requires k < |log| && forall i, j :: 0 <= i < j < |log| ==> log[i] != log[j]
    ensures log[k] !in Ids(log[..k])
  {
  }

  lemma {:induction false} RunProgress(f: Frames, s: State, acts: seq<Action>)
    requires Inv(f, s) && Run(f, s, acts).Reached?
    ensures Progress(Run(f, s, acts).s) >= Progress(s) + |acts|
    decreases |acts|
  {
    hide Inv, Enabled, Next, Progress;
    InvKnown(f, s);
    if acts != [] {
      NextInv(f, s, acts[0]);
      NextProgress(f, s, acts[0]);
      RunProgress(f, Next(f, s, acts[0]), acts[1..]);
    }
  }

  /** The length of all frames together. */
  ghost function TotalLength(f: Frames): nat
    decreases |f|
  {
    if f == map[] then 0
    else
      var t :| t in f;
      |f[t]| + TotalLength(f - {t})
  }

  /** It does not matter which frame is counted first. */
  lemma {:induction false} TotalWithout(f: Frames, u: Tid)
    requires u in f
    ensures TotalLength(f) == |f[u]| + TotalLength(f - {u})
    decreases |f|
  {
    var t :| t in f && TotalLength(f) == |f[t]| + TotalLength(f - {t});
    if t != u {
      TotalWithout(f - {t}, u);
      TotalWithout(f - {u}, t);
      assert f - {t} - {u} == f - {u} - {t};
    }
  }

  lemma {:induction false} BytesWithin(f: Frames, log: seq<Tid>)
    requires forall i :: 0 <= i < |log| ==> log[i] in f
    requires forall i, j :: 0 <= i < j < |log| ==> log[i] != log[j]
    ensures |Bytes(f, log)| <= TotalLength(f)
    decreases |log|
  {
    if log != [] {
      var init, t := log[..|log| - 1], log[|log| - 1];
      TotalWithout(f, t);
      BytesWithin(f - {t}, init);
      BytesSame(f, f - {t}, init);
    }
  }

  lemma {:induction false} BytesSame(f: Frames, g: Frames, log: seq<Tid>)
    requires forall i :: 0 <= i < |log| ==> log[i] in f && log[i] in g && f[log[i]] == g[log[i]]
    ensures Bytes(f, log) == Bytes(g, log)
    decreases |log|
  {
    if log != [] { BytesSame(f, g, log[..|log| - 1]); }
  }

  /** No schedule goes on for ever: a run has at most seven steps for each command and one for
      each byte of the frames. */
  lemma RunsAreFinite(f: Frames, acts: seq<Action>)
    requires Run(f, Init(f), acts).Reached?
    ensures |acts| <= 7 * |f| + TotalLength(f)
  {
    hide Inv, Enabled, Next, Progress, Run, Init, Bytes;
    var s := Run(f, Init(f), acts).s;
    InitInv(f);
    RunInv(f, Init(f), acts);
    RunProgress(f, Init(f), acts);
    ProgressBound(f, s);
    assert Reachable(f, s);
    FramesNeverInterleave(f, s);
    BytesWithin(f, s.log);
  }

  /** Every run that no thread has failed in and that cannot be continued without a failure ends
      with every thread returned and holding the reply to its command. */
  lemma MaximalRunsFinish(f: Frames, acts: seq<Action>, t: Tid)
    requires Run(f, Init(f), acts).Reached? && t in f
    requires var s := Run(f, Init(f), acts).s;
             && (forall u :: u in s.pc ==> !Failed(s.pc[u]))
             && forall a :: Known(f, s) && Enabled(f, s, a) ==> IsFailure(a)
    ensures var s := Run(f, Init(f), acts).s;
            && t in s.pc && s.pc[t] == Done
            && t in s.results && t in s.answered && s.results[t] == s.answered[t]
  {
    hide Enabled, Next, Run, Init, Bytes, Exclusive, WireInOrder, Logged, Conserved, OwnReplies;
    var s := Run(f, Init(f), acts).s;
    assert Reachable(f, s);
    ReachableInv(f, s);
    if s.pc[t] != Done { var a := NoDeadlock(f, s, t); }
    OwnReply(f, s, t);
  }

  lemma ProgressBound(f: Frames, s: State)
    requires Inv(f, s)
    ensures Progress(s) <= 7 * |f| + |s.out|
  {
    hide WireInOrder, Bytes, Exclusive, OwnReplies, Logged;
    forall j: nat ensures |AtLeast(s, j)| <= |f| { SubsetSize(AtLeast(s, j), f.Keys); }
    assert Ids(s.log[..s.taken]) <= f.Keys;
    SubsetSize(s.pending + s.answered.Keys, f.Keys);
    SubsetSize(s.answered.Keys, f.Keys);
    SubsetSize(s.results.Keys, f.Keys);
  }

  // ----- after a failure

  lemma FailedStays(f: Frames, s: State, a: Action, t: Tid)
    requires Inv(f, s) && Enabled(f, s, a) && t in s.pc && Failed(s.pc[t])
    ensures var s' := Next(f, s, a);
            t in s'.pc && s'.pc[t] == s.pc[t] && s'.out == s.out && s'.log == s.log
  {
    hide WireInOrder, Bytes, Logged, Conserved, OwnReplies;
    assert Holds(s.pc[t]);
  }

  /** The error paths leave the flag set: once a thread has failed, every later state of every
      run has the flag set and not one more byte on the wire. */
  lemma {:induction false} FailureStopsTheWire(f: Frames, s: State, acts: seq<Action>, t: Tid)
    requires Inv(f, s) && t in s.pc && Failed(s.pc[t]) && Run(f, s, acts).Reached?
    ensures var s' := Run(f, s, acts).s; s'.blocked && s'.out == s.out && s'.log == s.log
    decreases |acts|
  {
    if acts == [] {
      assert Holds(s.pc[t]);
    } else {
      hide Inv, Next, Enabled;
      NextInv(f, s, acts[0]);
      FailedStays(f, s, acts[0], t);
      FailureStopsTheWire(f, Next(f, s, acts[0]), acts[1..], t);
    }
  }
}
