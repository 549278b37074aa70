/** The switch-name table of `netloc_to_topology.c`: every physical id gets one name, made from
    the name of a host on the switch and a number that makes it unlike the others. */
module SwitchNames {
  import opened Options
  import opened Runs
  import opened Decimal
  import opened Sets
  import opened Strtok

  datatype Entry = Entry(name: string, id: nat)

  /** The part of a host name before the first `n`; `printf` shows a missing token so. */
  function Prefix(host: string): string
  {
    var t := StrTok(host, 'n');
    if t.Token? then t.text else "(null)"
  }

  function Candidate(prefix: string, k: nat): string { prefix + "s" + Print(k) }

  lemma CandidatesDiffer(prefix: string, i: nat, j: nat)
    requires Candidate(prefix, i) == Candidate(prefix, j)
    ensures i == j
  {
    var n := |prefix| + 1;
    assert Candidate(prefix, i)[n..] == Print(i) && Candidate(prefix, j)[n..] == Print(j);
    PrintIsInjective(i, j);
  }

  function Names(entries: seq<Entry>): set<string> { set i | 0 <= i < |entries| :: entries[i].name }

  ghost predicate Distinct(entries: seq<Entry>)
  {
    && (forall i, j :: 0 <= i < j < |entries| ==> entries[i].id != entries[j].id)
    && (forall i, j :: 0 <= i < j < |entries| ==> entries[i].name != entries[j].name)
  }

  // ----- the search for an unused name ends

  function Candidates(prefix: string, k: nat): set<string>
  {
    set i | 0 <= i < k :: Candidate(prefix, i)
  }

  lemma {:induction false} CandidatesSize(prefix: string, k: nat)
    ensures |Candidates(prefix, k)| == k
  {
    if k > 0 {
      CandidatesSize(prefix, k - 1);
      assert Candidate(prefix, k - 1) !in Candidates(prefix, k - 1) by {
        forall i | 0 <= i < k - 1 ensures Candidate(prefix, i) != Candidate(prefix, k - 1) {
          if Candidate(prefix, i) == Candidate(prefix, k - 1) {
            CandidatesDiffer(prefix, i, k - 1);
          }
        }
      }
      assert Candidates(prefix, k) == Candidates(prefix, k - 1) + {Candidate(prefix, k - 1)};
    }
  }

  lemma {:induction false} NamesSize(entries: seq<Entry>)
    ensures |Names(entries)| <= |entries|
  {
    if entries != [] {
      var m := |entries| - 1;
      NamesSize(entries[..m]);
      assert Names(entries) == Names(entries[..m]) + {entries[m].name};
    }
  }

  /** Pigeonhole: a table cannot hold more of the numbered names than it has entries. */
  lemma Pigeonhole(entries: seq<Entry>, prefix: string, k: nat)
    requires forall i :: 0 <= i < k ==> Candidate(prefix, i) in Names(entries)
    ensures k <= |entries|
  {
    CandidatesSize(prefix, k);
    NamesSize(entries);
    SubsetSize(Candidates(prefix, k), Names(entries));
  }

  /** `name` is the first numbered name the table does not hold. */
  ghost predicate FirstUnused(entries: seq<Entry>, prefix: string, name: string)
  {
    exists k: nat ::
      && name == Candidate(prefix, k) && name !in Names(entries) && k <= |entries|
      && forall i :: 0 <= i < k ==> Candidate(prefix, i) in Names(entries)
  }

  /** `p + "s" + j` for the least `j` that gives a name the table does not hold. */
  ghost predicate NumberedFrom(entries: seq<Entry>, p: string, name: string)
  {
    exists j: nat :: LeastUnused(entries, p, name, j)
  }

  ghost predicate LeastUnused(entries: seq<Entry>, p: string, name: string, j: nat)
  {
    && name == p + "s" + Print(j)
    && (forall e :: 0 <= e < |entries| ==> entries[e].name != name)
    && forall i: nat :: i < j ==> Holds(entries, p + "s" + Print(i))
  }

  ghost predicate Holds(entries: seq<Entry>, name: string)
  {
    exists e :: 0 <= e < |entries| && entries[e].name == name
  }

  lemma NumberedIs(entries: seq<Entry>, p: string, name: string)
    requires FirstUnused(entries, p, name)
    ensures NumberedFrom(entries, p, name)
  {
    hide Print;
    var k: nat :| && name == Candidate(p, k) && name !in Names(entries) && k <= |entries|
                  && forall i :: 0 <= i < k ==> Candidate(p, i) in Names(entries);
    forall i: nat | i < k ensures Holds(entries, p + "s" + Print(i)) {
      assert Candidate(p, i) in Names(entries);
    }
    assert forall i :: 0 <= i < |entries| ==> entries[i].name in Names(entries);
    assert LeastUnused(entries, p, name, k);
  }

  /** What `Prefix` cuts out of a host name. */
  lemma PrefixOf(k: nat, p: string, rest: string)
    requires p != [] && 'n' !in p
    ensures Prefix(Repeat('n', k) + p) == p
    ensures Prefix(Repeat('n', k) + (p + "n" + rest)) == p
  {
    hide StrTok;
    StrTokSkips(k, p, 'n');
    StrTokSkips(k, p + "n" + rest, 'n');
    StrTokAt(p, 'n', rest);
  }

  lemma PrefixOfAny(host: string)
    ensures forall k: nat, p: string :: host == Repeat('n', k) + p && p != [] && 'n' !in p ==>
              Prefix(host) == p
    ensures forall k: nat, p: string, rest: string ::
              host == Repeat('n', k) + (p + "n" + rest) && p != [] && 'n' !in p ==> Prefix(host) == p
    ensures (forall i :: 0 <= i < |host| ==> host[i] == 'n') ==> Prefix(host) == "(null)"
  {
    hide Prefix;
    forall k: nat, p: string | host == Repeat('n', k) + p && p != [] && 'n' !in p
      ensures Prefix(host) == p
    {
      PrefixOf(k, p, "");
    }
    forall k: nat, p: string, rest: string
      | host == Repeat('n', k) + (p + "n" + rest) && p != [] && 'n' !in p
      ensures Prefix(host) == p
    {
      PrefixOf(k, p, rest);
    }
    if forall i :: 0 <= i < |host| ==> host[i] == 'n' { PrefixOfNs(host); }
  }

  lemma PrefixOfNs(host: string)
    requires forall i :: 0 <= i < |host| ==> host[i] == 'n'
    ensures Prefix(host) == "(null)"
  {
    hide StrTok, Repeat;
    NsRepeat(host);
    StrTokSkips(|host|, [], 'n');
  }

  lemma NsRepeat(host: string)
    requires forall i :: 0 <= i < |host| ==> host[i] == 'n'
    ensures host == Repeat('n', |host|) + []
  {
  }

  class SwitchTable {
    var table: array<Entry>
    var cnt: nat
    var max: nat

    ghost predicate Valid()
      reads this, table
    {
      cnt < max == table.Length && Distinct(table[..cnt])
    }

    constructor ()
      ensures Valid() && cnt == 0 && max == 256 && fresh(table)
    {
      table := new Entry[256](_ => Entry("", 0));
      cnt, max := 0, 256;
    }

    /** The entry with the id, or the count if there is none. */
    method FindSwitchName(id: nat) returns (j: nat)
      requires Valid()
      ensures j <= cnt && (j < cnt ==> table[j].id == id)
      ensures forall i :: 0 <= i < j ==> table[i].id != id
    {
      j := 0;
      while j < cnt
        invariant 0 <= j <= cnt && forall i :: 0 <= i < j ==> table[i].id != id
      {
        if table[j].id == id { return; }
        j := j + 1;
      }
    }

    method IsUnique(name: string) returns (unique: bool)
      requires Valid()
      ensures unique <==> name !in Names(table[..cnt])
    {
      var j := 0;
      while j < cnt
        invariant 0 <= j <= cnt && forall i :: 0 <= i < j ==> table[i].name != name
      {
        if table[j].name == name {
          assert table[..cnt][j].name == name;
          return false;
        }
        j := j + 1;
      }
      return true;
    }

    /** Number the prefix until the name is new; that takes at most one try more than the table
        has entries. */
    method MakeNewSwitchName(host: string) returns (name: string)
      requires Valid()
      ensures FirstUnused(table[..cnt], Prefix(host), name)
      // the host name from its first character other than `n` to the next `n`, or to its end
      ensures forall k: nat, p: string :: host == Repeat('n', k) + p && p != [] && 'n' !in p ==>
                NumberedFrom(table[..cnt], p, name)
      ensures forall k: nat, p: string, rest: string ::
                host == Repeat('n', k) + (p + "n" + rest) && p != [] && 'n' !in p ==>
                  NumberedFrom(table[..cnt], p, name)
      ensures (forall i :: 0 <= i < |host| ==> host[i] == 'n') ==>
                NumberedFrom(table[..cnt], "(null)", name)
    {
      hide Prefix, Candidate, NumberedFrom;
      PrefixOfAny(host);
      var prefix := Prefix(host);
      var k := 0;
      name := Candidate(prefix, k);
      var unique := IsUnique(name);
      while !unique
        invariant name == Candidate(prefix, k) && unique == (name !in Names(table[..cnt]))
        invariant k <= cnt
        invariant forall i :: 0 <= i < k ==> Candidate(prefix, i) in Names(table[..cnt])
        decreases cnt - k, !unique
      {
        Pigeonhole(table[..cnt], prefix, k + 1);
        k := k + 1;
        name := Candidate(prefix, k);
        unique := IsUnique(name);
      }
      NumberedIs(table[..cnt], prefix, name);
    }

    /** Append an entry, doubling the table when it is full. */
    method Append(e: Entry)
      requires Valid() && Distinct(table[..cnt] + [e])
      modifies this, table
      ensures Valid() && table[..cnt] == old(table[..cnt]) + [e]
      ensures max == if old(cnt) + 1 == old(max) then 2 * old(max) else old(max)
      ensures table == old(table) || fresh(table)
    {
      ghost var before := table[..cnt];
      table[cnt] := e;
      cnt := cnt + 1;
      assert table[..cnt] == before + [e];
      if cnt == max {
        var full := table;
        var bigger := new Entry[2 * max](_ => e);
        var i := 0;
        while i < cnt
          invariant 0 <= i <= cnt && bigger[..i] == full[..i]
          invariant full[..cnt] == before + [e]
          modifies bigger
        {
          bigger[i] := full[i];
          i := i + 1;
        }
        max := 2 * max;
        table := bigger;
        assert table[..cnt] == before + [e];
      }
    }

    /** The name of a switch: the one it has, or a new one if some host on it is known. */
    method GetSwitchName(id: nat, host: Option<string>) returns (r: Option<string>)
      requires Valid()
      modifies this, table
      ensures Valid() && (table == old(table) || fresh(table))
      ensures var entries := old(table[..cnt]);
              if exists j :: 0 <= j < |entries| && entries[j].id == id then
                table[..cnt] == entries && r.Some? && Entry(r.value, id) in entries
              else if host == None then
                table[..cnt] == entries && r == None
              else
                && r.Some? && FirstUnused(entries, Prefix(host.value), r.value)
                && table[..cnt] == entries + [Entry(r.value, id)]
    {
      var j := FindSwitchName(id);
      if j < cnt {
        r := Some(table[j].name);
        assert table[..cnt][j] == Entry(table[j].name, id);
      } else if host == None {
        r := None;
      } else {
        var name := MakeNewSwitchName(host.value);
        NewEntry(table[..cnt], name, id);
        Append(Entry(name, id));
        r := Some(name);
      }
    }
  }

  lemma NewEntry(entries: seq<Entry>, name: string, id: nat)
    requires Distinct(entries) && name !in Names(entries)
    requires forall i :: 0 <= i < |entries| ==> entries[i].id != id
    ensures Distinct(entries + [Entry(name, id)])
  {
    assert forall i :: 0 <= i < |entries| ==> entries[i].name in Names(entries);
  }

  /** Over any sequence of lookups: two switches that got names got the same name exactly when
      they are the same switch. */
  method LookupAll(t: SwitchTable, ids: seq<nat>, hosts: seq<Option<string>>)
    returns (names: seq<Option<string>>)
    requires t.Valid() && |ids| == |hosts|
    modifies t, t.table
    ensures t.Valid() && |names| == |ids|
    ensures forall i, j :: 0 <= i < |ids| && 0 <= j < |ids| && names[i].Some? && names[j].Some? ==>
              (names[i] == names[j] <==> ids[i] == ids[j])
  {
    names := [];
    while |names| < |ids|
      invariant t.Valid() && |names| <= |ids|
      invariant t.table == old(t.table) || fresh(t.table)
      invariant forall i :: 0 <= i < |names| && names[i].Some? ==>
                  Entry(names[i].value, ids[i]) in t.table[..t.cnt]
      decreases |ids| - |names|
    {
      var r := t.GetSwitchName(ids[|names|], hosts[|names|]);
      names := names + [r];
    }
  }
}
