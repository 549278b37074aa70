/** The hand-over between the simulation manager and the daemons: two counting semaphores, both
    created empty.  The daemons are any processes that post `sim_sem` only against a token taken
    from `slurm_sem`. */
module SimLockStep {

  datatype Pc =
    | Submitting   // the manager's turn: jobs are submitted
    | AwaitingSim  // slurm_sem posted, waiting on sim_sem
    | Advancing    // woken, about to move the clock

  datatype State = State(
    pc: Pc,
    slurmSem: nat,
    simSem: nat,
    holding: nat,           // tokens the daemons have taken and not given back
    clock: int,
    posts: nat,             // completed posts of slurm_sem
    waits: nat,             // completed waits on sim_sem
    clockAtPost: seq<int>)  // the clock each time slurm_sem was posted

  datatype Action = Post | Wait | Advance | PeerTake | PeerPost

  predicate Enabled(s: State, a: Action)
  {
    match a
    case Post => s.pc == Submitting
    case Wait => s.pc == AwaitingSim && s.simSem > 0
    case Advance => s.pc == Advancing
    case PeerTake => s.slurmSem > 0
    case PeerPost => s.holding > 0
  }

  function Next(s: State, a: Action, incr: nat): State
    requires Enabled(s, a)
  {
    match a
    case Post => s.(pc := AwaitingSim, slurmSem := s.slurmSem + 1, posts := s.posts + 1,
                    clockAtPost := s.clockAtPost + [s.clock])
    case Wait => s.(pc := Advancing, simSem := s.simSem - 1, waits := s.waits + 1)
    case Advance => s.(pc := Submitting, clock := s.clock + incr)
    case PeerTake => s.(slurmSem := s.slurmSem - 1, holding := s.holding + 1)
    case PeerPost => s.(holding := s.holding - 1, simSem := s.simSem + 1)
  }

  function Init(start: int): State { State(Submitting, 0, 0, 0, start, 0, 0, []) }

  datatype Outcome = Stuck | Reached(s: State)

  function Run(s: State, acts: seq<Action>, incr: nat): Outcome
    decreases |acts|
  {
    if acts == [] then Reached(s)
    else if Enabled(s, acts[0]) then Run(Next(s, acts[0], incr), acts[1..], incr)
    else Stuck
  }

  /** One token exists exactly while the manager waits, and it is in one place. */
  predicate Inv(s: State, start: int, incr: nat)
  {
    && s.slurmSem + s.holding + s.simSem == (if s.pc == AwaitingSim then 1 else 0)
    && s.posts == s.waits + (if s.pc == AwaitingSim then 1 else 0)
    && s.clock == start + (s.waits - (if s.pc == Advancing then 1 else 0)) * incr
    && (s.pc == Advancing ==> s.waits > 0)
    && |s.clockAtPost| == s.posts
    && forall k :: 0 <= k < s.posts ==> s.clockAtPost[k] == start + k * incr
  }

  lemma Scaled(n: int, incr: nat)
    ensures (n + 1) * incr == n * incr + incr
  {
  }

  lemma NextInv(s: State, a: Action, start: int, incr: nat)
    requires Inv(s, start, incr) && Enabled(s, a)
    ensures Inv(Next(s, a, incr), start, incr)
  {
    Scaled(s.waits - 1, incr);
    var s' := Next(s, a, incr);
    assert a == Wait ==> s'.waits - 1 == s.waits;
    assert a == Advance ==> s'.waits == (s.waits - 1) + 1;
  }

  lemma {:induction false} RunInv(s: State, acts: seq<Action>, start: int, incr: nat)
    requires Inv(s, start, incr) && Run(s, acts, incr).Reached?
    ensures Inv(Run(s, acts, incr).s, start, incr)
    decreases |acts|
  {
    if acts != [] {
      NextInv(s, acts[0], start, incr);
      RunInv(Next(s, acts[0], incr), acts[1..], start, incr);
    }
  }

  /** Over every run: posts lead completed waits by 0 or 1, the `k`-th post finds the clock at
      `start + k * incr` counting from 0, and at most one daemon has the turn. */
  lemma LockStep(acts: seq<Action>, start: int, incr: nat)
    requires Run(Init(start), acts, incr).Reached?
    ensures var s := Run(Init(start), acts, incr).s;
            && s.waits <= s.posts <= s.waits + 1
            && |s.clockAtPost| == s.posts
            && (forall k :: 0 <= k < s.posts ==> s.clockAtPost[k] == start + k * incr)
            && s.holding <= 1
  {
    RunInv(Init(start), acts, start, incr);
  }

  /** While a daemon has the turn the manager is waiting, and no step of anyone that leaves the
      turn with the daemon moves the clock. */
  lemma ClockStandsStill(acts: seq<Action>, start: int, incr: nat, a: Action)
    requires Run(Init(start), acts, incr).Reached?
    requires var s := Run(Init(start), acts, incr).s; Enabled(s, a) && s.holding > 0
    ensures var s := Run(Init(start), acts, incr).s;
            s.pc == AwaitingSim && Next(s, a, incr).clock == s.clock
  {
    RunInv(Init(start), acts, start, incr);
  }

  /** The hand-over never deadlocks: someone can always move. */
  lemma SomeoneMoves(acts: seq<Action>, start: int, incr: nat) returns (a: Action)
    requires Run(Init(start), acts, incr).Reached?
    ensures Enabled(Run(Init(start), acts, incr).s, a)
  {
    RunInv(Init(start), acts, start, incr);
    var s := Run(Init(start), acts, incr).s;
    a := match s.pc
         case Submitting => Post
         case Advancing => Advance
         case AwaitingSim => if s.simSem > 0 then Wait else if s.holding > 0 then PeerPost else PeerTake;
  }
}
