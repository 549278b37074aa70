/** Trace job ids and the ids the controller gave: `job_id_list` of the simulation manager. */
module SimJobIds {
  import opened Options

  const NO_VAL: nat := 0xffff_fffe

  datatype IdPair = IdPair(trace: nat, actual: nat)

  /** The most recent pair for `id`: a search of the whole list. */
  function FullSearch(l: seq<IdPair>, id: nat): Option<nat>
  {
    if l == [] then None
    else if l[0].trace == id then Some(l[0].actual)
    else FullSearch(l[1..], id)
  }

  /** The search that gives up at the first smaller trace id. */
  function EarlySearch(l: seq<IdPair>, id: nat): Option<nat>
  {
    if l == [] || l[0].trace < id then None
    else if l[0].trace == id then Some(l[0].actual)
    else EarlySearch(l[1..], id)
  }

  function OrNoVal(r: Option<nat>): nat { if r.Some? then r.value else NO_VAL }

  class JobIdList {
    var pairs: seq<IdPair>

    constructor ()
      ensures pairs == []
    {
      pairs := [];
    }

    /** `_add_job_pair`: prepend. */
    method Add(traceId: nat, realId: nat)
      modifies this
      ensures pairs == [IdPair(traceId, realId)] + old(pairs)
    {
      pairs := [IdPair(traceId, realId)] + pairs;
    }

    /** `_get_real_job_id`: the search with the early exit. */
    method Lookup(traceId: nat) returns (actual: nat)
      ensures actual == OrNoVal(EarlySearch(pairs, traceId))
    {
      actual := NO_VAL;
      var i := 0;
      while i < |pairs|
        invariant 0 <= i <= |pairs| && actual == NO_VAL
        invariant EarlySearch(pairs, traceId) == EarlySearch(pairs[i..], traceId)
      {
        assert pairs[i..][1..] == pairs[i + 1..];
        if pairs[i].trace == traceId {
          actual := pairs[i].actual;
          break;
        } else if pairs[i].trace < traceId {
          break;
        }
        i := i + 1;
      }
    }
  }

  /** Before the first pair for a trace id come only pairs with larger ones. */
  ghost predicate Ordered(l: seq<IdPair>)
  {
    forall j :: 0 <= j < |l| ==>
      (exists i :: 0 <= i < j && l[i].trace == l[j].trace)
      || (forall i :: 0 <= i < j ==> l[i].trace > l[j].trace)
  }

  lemma {:induction false} FullSearchFinds(l: seq<IdPair>, id: nat, j: nat)
    requires j < |l| && l[j].trace == id && forall i :: 0 <= i < j ==> l[i].trace != id
    ensures FullSearch(l, id) == Some(l[j].actual)
    decreases j
  {
    if j > 0 { FullSearchFinds(l[1..], id, j - 1); }
  }

  lemma {:induction false} FullSearchMisses(l: seq<IdPair>, id: nat)
    requires forall i :: 0 <= i < |l| ==> l[i].trace != id
    ensures FullSearch(l, id) == None
  {
    if l != [] { FullSearchMisses(l[1..], id); }
  }

  lemma {:induction false} EarlySearchFinds(l: seq<IdPair>, id: nat, j: nat)
    requires j < |l| && l[j].trace == id && forall i :: 0 <= i < j ==> l[i].trace > id
    ensures EarlySearch(l, id) == Some(l[j].actual)
    decreases j
  {
    if j > 0 { EarlySearchFinds(l[1..], id, j - 1); }
  }

  lemma {:induction false} EarlySearchMisses(l: seq<IdPair>, id: nat, j: nat)
    requires forall i :: 0 <= i < j <= |l| ==> l[i].trace != id
    requires j <= |l| && (j == |l| || l[j].trace < id)
    ensures EarlySearch(l, id) == None
    decreases j
  {
    if j > 0 && l[0].trace > id { EarlySearchMisses(l[1..], id, j - 1); }
  }

  /** The first pair for `id`, if there is one. */
  lemma FirstPair(l: seq<IdPair>, id: nat) returns (j: nat)
    ensures j <= |l| && (forall i :: 0 <= i < j ==> l[i].trace != id)
    ensures j < |l| ==> l[j].trace == id
  {
    j := 0;
    while j < |l| && l[j].trace != id
      invariant j <= |l| && forall i :: 0 <= i < j ==> l[i].trace != id
    {
      j := j + 1;
    }
  }

  ghost predicate Agrees(l: seq<IdPair>)
  {
    forall id: nat :: EarlySearch(l, id) == FullSearch(l, id)
  }

  /** The early exit never changes an answer exactly when the list is ordered. */
  lemma EarlyExitIsSafe(l: seq<IdPair>)
    ensures Ordered(l) <==> Agrees(l)
  {
    if Ordered(l) {
      forall id: nat ensures EarlySearch(l, id) == FullSearch(l, id) { OrderedAgrees(l, id); }
    }
    if Agrees(l) {
      forall j | 0 <= j < |l| && !(exists i :: 0 <= i < j && l[i].trace == l[j].trace)
        ensures forall i :: 0 <= i < j ==> l[i].trace > l[j].trace
      {
        assert EarlySearch(l, l[j].trace) == FullSearch(l, l[j].trace);
        AgreementOrders(l, j);
      }
    }
  }

  lemma OrderedAgrees(l: seq<IdPair>, id: nat)
    requires Ordered(l)
    ensures EarlySearch(l, id) == FullSearch(l, id)
  {
    var j := FirstPair(l, id);
    if j < |l| {
      FullSearchFinds(l, id, j);
      EarlySearchFinds(l, id, j);
    } else {
      FullSearchMisses(l, id);
      EarlySearchMisses(l, id, |l|);
    }
  }

  lemma AgreementOrders(l: seq<IdPair>, j: nat)
    requires j < |l| && forall i :: 0 <= i < j ==> l[i].trace != l[j].trace
    requires EarlySearch(l, l[j].trace) == FullSearch(l, l[j].trace)
    ensures forall i :: 0 <= i < j ==> l[i].trace > l[j].trace
  {
    FullSearchFinds(l, l[j].trace, j);
    forall i | 0 <= i < j ensures l[i].trace > l[j].trace {
      if l[i].trace < l[j].trace { EarlySearchMisses(l, l[j].trace, i); }
    }
  }

  /** The list after adding `adds` in turn. */
  function AfterAdds(adds: seq<IdPair>): seq<IdPair>
  {
    if adds == [] then [] else [adds[|adds| - 1]] + AfterAdds(adds[..|adds| - 1])
  }

  lemma {:induction false} AfterAddsAt(adds: seq<IdPair>, i: nat)
    requires i < |adds|
    ensures |AfterAdds(adds)| == |adds| && AfterAdds(adds)[i] == adds[|adds| - 1 - i]
    decreases |adds|
  {
    if |adds| > 1 { AfterAddsAt(adds[..|adds| - 1], if i == 0 then 0 else i - 1); }
  }

  /** Adding trace ids that never decrease keeps the list ordered. */
  lemma AddsKeepOrder(adds: seq<IdPair>)
    requires forall i, j :: 0 <= i < j < |adds| ==> adds[i].trace <= adds[j].trace
    ensures Ordered(AfterAdds(adds))
  {
    var l := AfterAdds(adds);
    forall i | 0 <= i < |adds|
      ensures |l| == |adds| && l[i] == adds[|adds| - 1 - i]
    {
      AfterAddsAt(adds, i);
    }
    assert |l| == |adds| by { if adds != [] { AfterAddsAt(adds, 0); } }
    forall j | 0 <= j < |l| && !(exists i :: 0 <= i < j && l[i].trace == l[j].trace)
      ensures forall i :: 0 <= i < j ==> l[i].trace > l[j].trace
    {
    }
  }
}
