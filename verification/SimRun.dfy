/** The loop of `time_mgr`: on every tick the reservation at the head of its queue is created if
    it is due, then the jobs of the trace that are due are submitted, in trace order, with their
    dependencies rewritten; then the clock moves on. */
module SimRun {
  import opened Decimal
  import opened SimClock
  import opened SimDependencies
  import opened SimJobIds
  import opened SimReservations

  datatype Job = Job(id: nat, submit: int, dependency: string)

  /** One submission: which job, on which tick, what the controller was told and answered. */
  datatype Submission = Submission(job: Job, tick: nat, dependency: string, actual: nat)

  /** The latest submit time among jobs `0..k`. */
  function MaxSubmit(jobs: seq<Job>, k: nat): int
    requires k < |jobs|
  {
    if k == 0 then jobs[0].submit
    else
      var m := MaxSubmit(jobs, k - 1);
      if m < jobs[k].submit then jobs[k].submit else m
  }

  /** `tick` is the first one at which jobs `0..k` have all come due. */
  predicate OnSchedule(jobs: seq<Job>, start: int, incr: nat, tick: nat, k: nat)
    requires k < |jobs|
  {
    && MaxSubmit(jobs, k) <= TimeOf(start, incr, tick)
    && (tick > 0 ==> TimeOf(start, incr, tick - 1) < MaxSubmit(jobs, k))
  }

  function IdPairs(s: seq<Submission>): (r: seq<IdPair>)
    ensures |r| == |s| && forall i :: 0 <= i < |s| ==> r[i] == IdPair(s[i].job.id, s[i].actual)
  {
    seq(|s|, i requires 0 <= i < |s| => IdPair(s[i].job.id, s[i].actual))
  }

  /** The dependency text of submission `k` is its job's, rewritten over the ids of the
      submissions before it. */
  predicate RewrittenFrom(s: seq<Submission>, k: nat)
    requires k < |s|
  {
    Rewrite(s[k].job.dependency, AfterAdds(IdPairs(s[..k])), "", true) == Text(s[k].dependency)
  }

  /** What holds of the submissions of a run at any moment. */
  predicate GoodLog(jobs: seq<Job>, start: int, incr: nat, s: seq<Submission>)
  {
    && |s| <= |jobs|
    && forall k :: 0 <= k < |s| ==>
         s[k].job == jobs[k] && OnSchedule(jobs, start, incr, s[k].tick, k) && RewrittenFrom(s, k)
  }

  /** What a trace record can hold. */
  predicate Records(jobs: seq<Job>)
  {
    forall k :: 0 <= k < |jobs| ==> |jobs[k].dependency| < MAX_DEPNAME
  }

  /** Job `k` and all before it have come due within the first `turns` ticks. */
  predicate Due(jobs: seq<Job>, start: int, incr: nat, turns: nat, k: nat)
    requires k < |jobs|
  {
    turns > 0 && forall i :: 0 <= i <= k ==> jobs[i].submit <= start + (turns - 1) * incr
  }

  lemma {:induction false} MaxIs(jobs: seq<Job>, k: nat, time: int)
    requires k < |jobs|
    ensures MaxSubmit(jobs, k) <= time <==> forall i :: 0 <= i <= k ==> jobs[i].submit <= time
    decreases k
  {
    if k > 0 { MaxIs(jobs, k - 1, time); }
  }

  lemma DueIs(jobs: seq<Job>, start: int, incr: nat, turns: nat, k: nat)
    requires k < |jobs|
    ensures Due(jobs, start, incr, turns, k)
       <==> turns > 0 && MaxSubmit(jobs, k) <= TimeOf(start, incr, turns - 1)
  {
    if turns > 0 { MaxIs(jobs, k, TimeOf(start, incr, turns - 1)); }
  }

  /** The source can rewrite the dependencies of job `k` and of all jobs before it. */
  ghost predicate RewritableUpTo(jobs: seq<Job>, k: nat)
    requires k < |jobs|
  {
    forall i :: 0 <= i <= k ==> Rewritable(jobs[i].dependency)
  }

  class SimManager {
    ghost const jobs: seq<Job>
    ghost const reservations: seq<int>
    ghost const start: int
    const timeIncr: nat
    const ids: JobIdList
    var trace: seq<Job>
    var rsvTrace: seq<int>
    var clock: int
    var tick: nat
    var submitted: seq<Submission>
    var reserved: seq<nat>           // the tick each reservation was created on
    var crashed: bool                // the rewriting went through a null pointer

    ghost predicate Valid()
      reads this, ids
    {
      && Records(jobs)
      && GoodLog(jobs, start, timeIncr, submitted)
      && trace == jobs[|submitted|..]
      && clock == TimeOf(start, timeIncr, tick)
      && (forall k :: 0 <= k < |submitted| ==> submitted[k].tick <= tick)
      && (tick > 0 && |submitted| < |jobs| ==>
            TimeOf(start, timeIncr, tick - 1) < MaxSubmit(jobs, |submitted|))
      && ids.pairs == AfterAdds(IdPairs(submitted))
      && Prompt(reservations, start, timeIncr, reserved, tick)
      && rsvTrace == reservations[|reserved|..]
      && (crashed ==> CrashedAt(|submitted|))
    }

    /** Job `k` came due on this tick and its dependencies cannot be rewritten. */
    ghost predicate CrashedAt(k: nat)
      reads this
    {
      && k < |jobs| && OnSchedule(jobs, start, timeIncr, tick, k)
      && !Rewritable(jobs[k].dependency)
    }

    /** A turn begins: nothing has been done on this tick. */
    ghost predicate TurnBegins()
      reads this
    {
      && !crashed
      && (forall k :: 0 <= k < |reserved| ==> reserved[k] < tick)
      && (forall k :: 0 <= k < |submitted| ==> submitted[k].tick < tick)
    }

    /** The records are queued one by one; the clock starts a minute before the first job. */
    constructor (records: seq<Job>, rsvs: seq<int>, incr: nat)
      requires Records(records)
      ensures Valid() && TurnBegins() && tick == 0 && timeIncr == incr
      ensures submitted == [] && reserved == []
      ensures jobs == records && reservations == rsvs
      ensures start == clock == if records == [] then 0 else records[0].submit - 60
      ensures fresh(ids)
    {
      jobs, reservations, timeIncr := records, rsvs, incr;
      submitted, reserved, tick, crashed := [], [], 0, false;
      ids := new JobIdList();
      var begin := if records == [] then 0 else records[0].submit - 60;
      start, clock := begin, begin;
      var queue, i := [], 0;
      while i < |records|
        invariant 0 <= i <= |records| && queue == records[..i]
      {
        queue := queue + [records[i]];
        i := i + 1;
      }
      var rsvQueue, j := [], 0;
      while j < |rsvs|
        invariant 0 <= j <= |rsvs| && rsvQueue == rsvs[..j]
      {
        rsvQueue := rsvQueue + [rsvs[j]];
        j := j + 1;
      }
      trace, rsvTrace := queue, rsvQueue;
      new;
      assert IdPairs([]) == [];
      StartTime(start, timeIncr);
    }

    /** The reservation at the head of the queue is created if it is due; one a turn at most. */
    method CreateReservation()
      requires Valid() && TurnBegins()
      modifies this`rsvTrace, this`reserved
      ensures Valid() && !crashed && old(reserved) <= reserved
      ensures rsvTrace != [] && reserved == old(reserved) ==> clock < rsvTrace[0]
      ensures reserved != old(reserved) ==> reserved == old(reserved) + [tick]
    {
      hide GoodLog, MaxSubmit, TimeOf, AfterAdds, Prompt, IdPairs, OnSchedule, Rewritable;
      if rsvTrace != [] && clock >= rsvTrace[0] {
        PromptSize(reservations, start, timeIncr, reserved, tick);
        PromptGrows(reservations, start, timeIncr, reserved, tick);
        reserved := reserved + [tick];
        rsvTrace := rsvTrace[1..];
      }
    }

    /** `generateJob`: the controller answers with `actual`.  After a failed submission the source
        records whatever number the reply holds, so `actual` may be anything. */
    method GenerateJob(job: Job, actual: nat)
      requires Valid() && !crashed && trace != [] && job == trace[0] && job.submit <= clock
      modifies this`submitted, this`trace, this`crashed, ids
      ensures Valid() && crashed == !Rewritable(job.dependency)
      ensures crashed ==> submitted == old(submitted) && trace == old(trace) && unchanged(ids)
      ensures !crashed ==>
                && |submitted| == old(|submitted|) + 1
                && submitted[..old(|submitted|)] == old(submitted)
                && submitted[old(|submitted|)].job == job
                && submitted[old(|submitted|)].tick == tick
                && submitted[old(|submitted|)].actual == actual
                && trace == old(trace)[1..]
    {
      hide Rewrite, TimeOf, MaxSubmit, AfterAdds, IdPairs, GoodLog, Prompt, OnSchedule, Rewritable;
      ghost var k, before := |submitted|, submitted;
      GoodSize(jobs, start, timeIncr, before);
      ComesDue(jobs, start, timeIncr, before, tick);
      RewritesExactly(job.dependency, ids.pairs);
      var dependency := ReWriteDependencies(job.dependency, ids);
      if dependency == Crash {
        crashed := true;
        return;
      }
      submitted := submitted + [Submission(job, tick, dependency.out, actual)];
      ids.Add(job.id, actual);
      trace := trace[1..];
      LogGrows(jobs, start, timeIncr, before, submitted[k]);
      IdsGrow(before, submitted[k]);
      if k + 1 < |jobs| { MaxAtLeast(jobs, k + 1, k); }
    }

    /** The inner loop: submit from the head of the queue while it is due.  The controller gives
        the job submitted as number `k` the id `controller(k)`. */
    method Drain(controller: nat -> nat)
      requires Valid() && !crashed
      modifies this`submitted, this`trace, this`crashed, ids
      ensures Valid() && old(submitted) <= submitted
      ensures forall k :: old(|submitted|) <= k < |submitted| ==> submitted[k].actual == controller(k)
      ensures !crashed && trace != [] ==> trace[0].submit > clock
    {
      hide GoodLog, MaxSubmit, TimeOf, AfterAdds, Prompt, OnSchedule, Rewritable;
      while trace != []
        invariant Valid() && !crashed && old(submitted) <= submitted
        invariant forall k :: old(|submitted|) <= k < |submitted| ==>
                    submitted[k].actual == controller(k)
        decreases |trace|
      {
        if clock >= trace[0].submit {
          GenerateJob(trace[0], controller(|submitted|));
          if crashed { return; }
        } else {
          break;
        }
      }
    }

    /** One turn of the manager: create a reservation and submit what is due, then advance the
        clock; a crash ends it all. */
    method Tick(controller: nat -> nat)
      requires Valid() && TurnBegins()
      modifies this, ids
      ensures Valid() && old(submitted) <= submitted && old(reserved) <= reserved
      ensures forall k :: old(|submitted|) <= k < |submitted| ==> submitted[k].actual == controller(k)
      ensures if crashed then tick == old(tick) && clock == old(clock)
              else TurnBegins() && tick == old(tick) + 1 && clock == old(clock) + timeIncr
    {
      hide GoodLog, MaxSubmit, TimeOf, AfterAdds, Prompt, OnSchedule, Rewritable;
      CreateReservation();
      Drain(controller);
      if crashed { return; }
      GoodSize(jobs, start, timeIncr, submitted);
      if |submitted| < |jobs| { MaxAtLeast(jobs, |submitted|, |submitted|); }
      NextTime(start, timeIncr, tick);
      PromptSize(reservations, start, timeIncr, reserved, tick);
      PromptOnward(reservations, start, timeIncr, reserved, tick);
      clock, tick := clock + timeIncr, tick + 1;
    }

    /** Any number of turns.  The jobs submitted are exactly those that have come due with all
        before them and come before the first text the source cannot rewrite; the manager
        crashes exactly when such a text has come due. */
    method Run(turns: nat, controller: nat -> nat)
      requires Valid() && TurnBegins() && tick == 0 && submitted == []
      modifies this, ids
      ensures Valid() && (!crashed ==> tick == turns && TurnBegins())
      ensures forall k :: 0 <= k < |submitted| ==> submitted[k].actual == controller(k)
      ensures forall k :: 0 <= k < |jobs| ==>
                (k < |submitted| <==>
                   Due(jobs, start, timeIncr, turns, k) && RewritableUpTo(jobs, k))
      ensures crashed <==> exists k :: && 0 <= k < |jobs| && Due(jobs, start, timeIncr, turns, k)
                                       && !Rewritable(jobs[k].dependency)
    {
      hide GoodLog, MaxSubmit, TimeOf, AfterAdds, Prompt, OnSchedule, Rewritable, Due;
      var i := 0;
      while i < turns && !crashed
        invariant 0 <= i <= turns && Valid() && (crashed ==> tick < turns)
        invariant !crashed ==> tick == i && TurnBegins()
        invariant forall k :: 0 <= k < |submitted| ==> submitted[k].actual == controller(k)
      {
        Tick(controller);
        i := i + 1;
      }
      forall k | 0 <= k < |jobs|
        ensures k < |submitted| <==>
                  Due(jobs, start, timeIncr, turns, k) && RewritableUpTo(jobs, k)
        ensures !crashed && Due(jobs, start, timeIncr, turns, k) ==> Rewritable(jobs[k].dependency)
      {
        if crashed { UpToTheCrash(turns, k); } else { ExactlyTheDueJobs(k); }
      }
      if crashed { TheCrash(turns); }
    }

    /** Without a crash the jobs submitted are exactly those that, with all the jobs before them,
        had come due by the last turn. */
    lemma ExactlyTheDueJobs(k: nat)
      requires Valid() && TurnBegins() && k < |jobs|
      ensures k < |submitted| <==> Due(jobs, start, timeIncr, tick, k)
      ensures k < |submitted| ==> RewritableUpTo(jobs, k)
    {
      hide TimeOf, AfterAdds, Rewrite, Prompt, Rewritable, Due;
      DueIs(jobs, start, timeIncr, tick, k);
      if k < |submitted| {
        TimeMonotone(start, timeIncr, submitted[k].tick, tick - 1);
        LogRewritable(jobs, start, timeIncr, submitted, k);
      } else {
        MaxAtLeast(jobs, k, |submitted|);
      }
    }

    /** With a crash they are those before the job it happened on. */
    lemma UpToTheCrash(turns: nat, k: nat)
      requires Valid() && crashed && tick < turns && k < |jobs|
      ensures k < |submitted| <==> Due(jobs, start, timeIncr, turns, k) && RewritableUpTo(jobs, k)
    {
      hide TimeOf, AfterAdds, Rewrite, Prompt, Rewritable, Due;
      DueIs(jobs, start, timeIncr, turns, k);
      if k < |submitted| {
        TimeMonotone(start, timeIncr, submitted[k].tick, turns - 1);
        LogRewritable(jobs, start, timeIncr, submitted, k);
      }
    }

    lemma TheCrash(turns: nat)
      requires Valid() && crashed && tick < turns
      ensures var k := |submitted|;
              && k < |jobs| && Due(jobs, start, timeIncr, turns, k)
              && !Rewritable(jobs[k].dependency)
    {
      hide TimeOf, AfterAdds, Rewrite, Prompt, Rewritable, GoodLog, Due;
      DueIs(jobs, start, timeIncr, turns, |submitted|);
      TimeMonotone(start, timeIncr, tick, turns - 1);
    }
  }

  /** A trace whose dependencies are printed lists never crashes the manager: every job that has
      come due with all before it is submitted. */
  method Simulate(records: seq<Job>, rsvs: seq<int>, incr: nat, turns: nat, controller: nat -> nat,
                  ghost deps: seq<seq<Dep>>)
    returns (m: SimManager)
    requires Records(records) && |deps| == |records|
    requires forall k :: 0 <= k < |records| ==>
               WellFormed(deps[k]) && records[k].dependency == PrintDeps(deps[k])
    ensures fresh(m) && m.Valid() && m.jobs == records && m.timeIncr == incr
    ensures !m.crashed && m.tick == turns
    ensures m.start == if records == [] then 0 else records[0].submit - 60
    ensures forall k :: 0 <= k < |records| ==>
              (k < |m.submitted| <==> Due(records, m.start, incr, turns, k))
  {
    hide Due, WellFormed, PrintDeps, Rewritable;
    m := new SimManager(records, rsvs, incr);
    m.Run(turns, controller);
    forall k | 0 <= k < |records| ensures Rewritable(records[k].dependency) {
      WellFormedIsRewritable(deps[k]);
    }
  }

  lemma WellFormedIsRewritable(deps: seq<Dep>)
    requires WellFormed(deps)
    ensures Rewritable(PrintDeps(deps))
  {
    RewriteList(deps, [], "", true);
    RewritesExactly(PrintDeps(deps), []);
  }

  /** A submitted job has a text the source can rewrite, and so have all before it. */
  lemma LogRewritable(jobs: seq<Job>, start: int, incr: nat, s: seq<Submission>, k: nat)
    requires GoodLog(jobs, start, incr, s) && k < |s|
    ensures RewritableUpTo(jobs, k)
  {
    hide Rewrite, AfterAdds, IdPairs, OnSchedule, Rewritable;
    forall i | 0 <= i <= k ensures Rewritable(jobs[i].dependency) {
      assert RewrittenFrom(s, i);
      RewritesExactly(jobs[i].dependency, AfterAdds(IdPairs(s[..i])));
    }
  }

  lemma PromptSize(times: seq<int>, start: int, incr: nat, ticks: seq<nat>, now: nat)
    requires Prompt(times, start, incr, ticks, now)
    ensures |ticks| <= |times|
  {
  }

  /** The turn is over: the head of the queue is not due or follows one created this turn. */
  lemma PromptOnward(times: seq<int>, start: int, incr: nat, ticks: seq<nat>, now: nat)
    requires Prompt(times, start, incr, ticks, now)
    requires |ticks| < |times| ==> Waits(times, start, incr, ticks, |ticks|, now)
    ensures Prompt(times, start, incr, ticks, now + 1)
  {
  }

  // ----- the schedule

  /** A job is never submitted before a job ahead of it in the trace, and on the first tick at
      which it and those jobs are due: no tick fits better. */
  lemma FirstFittingTick(jobs: seq<Job>, start: int, incr: nat, s: seq<Submission>, k: nat, t: nat)
    requires GoodLog(jobs, start, incr, s) && k < |s|
    ensures s[k].tick <= t <==> forall i :: 0 <= i <= k ==> jobs[i].submit <= start + t * incr
  {
    TickFits(jobs, start, incr, s, k, t);
    MaxIs(jobs, k, TimeOf(start, incr, t));
  }

  lemma TickFits(jobs: seq<Job>, start: int, incr: nat, s: seq<Submission>, k: nat, t: nat)
    requires GoodLog(jobs, start, incr, s) && k < |s|
    ensures s[k].tick <= t <==> MaxSubmit(jobs, k) <= TimeOf(start, incr, t)
  {
    hide TimeOf, Rewrite;
    if s[k].tick <= t {
      TimeMonotone(start, incr, s[k].tick, t);
    } else {
      TimeMonotone(start, incr, t, s[k].tick - 1);
    }
  }

  lemma InTraceOrder(jobs: seq<Job>, start: int, incr: nat, s: seq<Submission>, i: nat, j: nat)
    requires GoodLog(jobs, start, incr, s) && i <= j < |s|
    ensures s[i].job == jobs[i] && s[i].tick <= s[j].tick
  {
    hide TimeOf, Rewrite;
    MaxAtLeast(jobs, j, i);
    TickFits(jobs, start, incr, s, i, s[j].tick);
  }

  lemma {:induction false} MaxOfSorted(jobs: seq<Job>, k: nat)
    requires k < |jobs| && forall i, j :: 0 <= i < j < |jobs| ==> jobs[i].submit <= jobs[j].submit
    ensures MaxSubmit(jobs, k) == jobs[k].submit
    decreases k
  {
    if k > 0 { MaxOfSorted(jobs, k - 1); }
  }

  /** With a sorted trace a job is at least on time and less than one tick late. */
  lemma SortedLateness(jobs: seq<Job>, incr: nat, s: seq<Submission>, k: nat)
    requires jobs != [] && incr > 0 && GoodLog(jobs, jobs[0].submit - 60, incr, s) && k < |s|
    requires forall i, j :: 0 <= i < j < |jobs| ==> jobs[i].submit <= jobs[j].submit
    ensures var time := jobs[0].submit - 60 + s[k].tick * incr;
            0 <= time - jobs[k].submit < incr
  {
    hide Rewrite;
    var start := jobs[0].submit - 60;
    MaxOfSorted(jobs, k);
    assert OnSchedule(jobs, start, incr, s[k].tick, k);
    if s[k].tick > 0 { NextTime(start, incr, s[k].tick - 1); }
  }

  // ----- dependencies over a whole run

  /** Trace ids that grow, and an answer of the controller to every job. */
  predicate GoodIds(s: seq<Submission>)
  {
    && (forall i, j :: 0 <= i < j < |s| ==> s[i].job.id < s[j].job.id)
    && (forall i :: 0 <= i < |s| ==> s[i].actual != NO_VAL)
  }

  lemma ResolvesEarlier(s: seq<Submission>, k: nat, j: nat)
    requires GoodIds(s) && j < k <= |s|
    ensures Resolve(AfterAdds(IdPairs(s[..k])), s[j].job.id) == s[j].actual
  {
    var adds := IdPairs(s[..k]);
    var l := AfterAdds(adds);
    AddsKeepOrder(adds);
    OrderedAgrees(l, s[j].job.id);
    AfterAddsAt(adds, k - 1 - j);
    forall i | 0 <= i < k - 1 - j ensures l[i].trace != s[j].job.id {
      AfterAddsAt(adds, i);
    }
    FullSearchFinds(l, s[j].job.id, k - 1 - j);
  }

  /** Job `k` of the trace depends on the listed jobs, all of them earlier in the trace. */
  ghost predicate DependsOnEarlier(s: seq<Submission>, k: nat, deps: seq<Dep>)
    requires k < |s|
  {
    && s[k].job.dependency == PrintDeps(deps) && WellFormed(deps)
    && forall i :: 0 <= i < |deps| ==> exists j :: 0 <= j < k && s[j].job.id == deps[i].id
  }

  /** Over a whole run: if trace ids grow and a job's dependencies name earlier jobs, what is
      submitted for it is the same list naming the ids the controller gave to those jobs; the
      fallback to a trace id is never taken. */
  lemma DependenciesAreSound(jobs: seq<Job>, start: int, incr: nat, s: seq<Submission>,
                             k: nat, deps: seq<Dep>) returns (out: seq<Dep>)
    requires GoodLog(jobs, start, incr, s) && GoodIds(s)
    requires k < |s| && DependsOnEarlier(s, k, deps)
    ensures s[k].dependency == PrintDeps(out) && |out| == |deps|
    ensures forall i, j :: 0 <= i < |deps| && 0 <= j < k && s[j].job.id == deps[i].id ==>
              out[i] == Dep(deps[i].kind, s[j].actual)
  {
    hide PrintDeps, WellFormed, Rewrite, AfterAdds, Resolve;
    var ids := AfterAdds(IdPairs(s[..k]));
    out := Mapped(deps, ids);
    RewriteList(deps, ids, "", true);
    assert RewrittenFrom(s, k);
    assert "" + "" + PrintDeps(out) == PrintDeps(out);
    forall i, j | 0 <= i < |deps| && 0 <= j < k && s[j].job.id == deps[i].id
      ensures out[i] == Dep(deps[i].kind, s[j].actual)
    {
      ResolvesEarlier(s, k, j);
    }
  }

  lemma {:induction false} MaxAtLeast(jobs: seq<Job>, k: nat, i: nat)
    requires i <= k < |jobs|
    ensures MaxSubmit(jobs, i) <= MaxSubmit(jobs, k) && jobs[i].submit <= MaxSubmit(jobs, k)
    decreases k
  {
    if i < k { MaxAtLeast(jobs, k - 1, i); }
  }

  lemma GoodSize(jobs: seq<Job>, start: int, incr: nat, s: seq<Submission>)
    requires GoodLog(jobs, start, incr, s)
    ensures |s| <= |jobs|
  {
  }

  /** The job at the head of the queue is on schedule if it is due now and the jobs up to it
      were not all due on the tick before. */
  lemma ComesDue(jobs: seq<Job>, start: int, incr: nat, s: seq<Submission>, tick: nat)
    requires GoodLog(jobs, start, incr, s) && |s| < |jobs|
    requires jobs[|s|].submit <= TimeOf(start, incr, tick)
    requires forall k :: 0 <= k < |s| ==> s[k].tick <= tick
    requires tick > 0 ==> TimeOf(start, incr, tick - 1) < MaxSubmit(jobs, |s|)
    ensures OnSchedule(jobs, start, incr, tick, |s|)
  {
    hide TimeOf, Rewrite;
    if |s| > 0 {
      TimeMonotone(start, incr, s[|s| - 1].tick, tick);
    }
  }

  lemma IdsGrow(s: seq<Submission>, x: Submission)
    ensures AfterAdds(IdPairs(s + [x])) == [IdPair(x.job.id, x.actual)] + AfterAdds(IdPairs(s))
  {
    var p := IdPairs(s + [x]);
    assert p[..|s|] == IdPairs(s);
  }

  lemma LogGrows(jobs: seq<Job>, start: int, incr: nat, s: seq<Submission>, x: Submission)
    requires GoodLog(jobs, start, incr, s) && |s| < |jobs|
    requires x.job == jobs[|s|] && OnSchedule(jobs, start, incr, x.tick, |s|)
    requires Rewrite(x.job.dependency, AfterAdds(IdPairs(s)), "", true) == Text(x.dependency)
    ensures GoodLog(jobs, start, incr, s + [x])
  {
    hide Rewrite, OnSchedule, TimeOf, AfterAdds, IdPairs;
    var s' := s + [x];
    forall k | 0 <= k < |s'|
      ensures s'[k].job == jobs[k] && OnSchedule(jobs, start, incr, s'[k].tick, k)
      ensures RewrittenFrom(s', k)
    {
      if k < |s| {
        assert RewrittenFrom(s, k);
        assert s'[..k] == s[..k] && s'[k] == s[k];
      } else {
        assert s'[..k] == s && s'[k] == x;
      }
    }
  }
}
