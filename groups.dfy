/**
 * Variable groups of the dataset bundle: the fixed display order of the group
 * names, the walk over the groups of one dataset row that both the table
 * renderer and the variable mapping perform (skip a group whose names are
 * null, stop at a group whose data is null or of the wrong length), and the
 * name-to-value mapping built from that walk.
 */
module Groups {
  import opened JsStrings
  import opened JsValues

  /** `vars.names`: group name to the names of its variables. */
  type Names = map<string, Entry<seq<string>>>

  /** One element of `vars.lists`: group name to the values of one dataset row. */
  type Row = map<string, Entry<seq<Value>>>

  // ---------------------------------------------------------------------------
  // getGroupnames
  // ---------------------------------------------------------------------------

  /** `leading`, `random`, `global`, then `local<i>` and `answer<i>` for the 100 possible parts. */
  predicate IsGroupOrder(gs: seq<string>) {
    && |gs| == 203
    && gs[0] == "leading" && gs[1] == "random" && gs[2] == "global"
    && forall i :: 0 <= i < 100 ==> gs[3 + 2 * i] == "local" + Decimal(i) && gs[4 + 2 * i] == "answer" + Decimal(i)
  }

  /** `getGroupnames()` (editing.js:325-331). */
  method GroupNames() returns (names: seq<string>)
    ensures IsGroupOrder(names)
  {
    names := ["leading", "random", "global"];
    for i := 0 to 100
      invariant |names| == 3 + 2 * i
      invariant names[0] == "leading" && names[1] == "random" && names[2] == "global"
      invariant forall k :: 0 <= k < i ==> names[3 + 2 * k] == "local" + Decimal(k) && names[4 + 2 * k] == "answer" + Decimal(k)
    {
      names := names + ["local" + Decimal(i), "answer" + Decimal(i)];
    }
  }

  lemma PrefixedInjective(p: string, a: nat, b: nat)
    requires p + Decimal(a) == p + Decimal(b)
    ensures a == b
  {
    assert Decimal(a) == (p + Decimal(a))[|p|..];
    assert Decimal(b) == (p + Decimal(b))[|p|..];
    DecimalInjective(a, b);
  }

  /** The name at a position past the three fixed ones. */
  lemma GroupAt(gs: seq<string>, i: nat)
    requires IsGroupOrder(gs) && 3 <= i < 203
    ensures var k := (i - 3) / 2;
            gs[i] == (if i == 3 + 2 * k then "local" else "answer") + Decimal(k)
  {
    var k := (i - 3) / 2;
    assert gs[3 + 2 * k] == "local" + Decimal(k);
  }

  /** The order is fully determined: there is only one list of group names. */
  lemma GroupOrderUnique(a: seq<string>, b: seq<string>)
    requires IsGroupOrder(a) && IsGroupOrder(b)
    ensures a == b
  {
    forall i | 3 <= i < 203
      ensures a[i] == b[i]
    {
      GroupAt(a, i);
      GroupAt(b, i);
    }
  }

  /** No group name occurs twice, so every group is visited once. */
  lemma GroupOrderDistinct(gs: seq<string>)
    requires IsGroupOrder(gs)
    ensures forall a, b :: 0 <= a < b < |gs| ==> gs[a] != gs[b]
  {
    forall a, b | 0 <= a < b < |gs| ensures gs[a] != gs[b] {
      if b >= 3 {
        GroupAt(gs, b);
      }
      if a >= 3 {
        GroupAt(gs, a);
        var k, l := (a - 3) / 2, (b - 3) / 2;
        var la, lb := a == 3 + 2 * k, b == 3 + 2 * l;
        if la && lb {
          if gs[a] == gs[b] { PrefixedInjective("local", k, l); }
        } else if !la && !lb {
          if gs[a] == gs[b] { PrefixedInjective("answer", k, l); }
        } else {
          assert gs[a][0] != gs[b][0];
        }
      } else if b >= 3 {
        assert gs[a][1] != gs[b][1] || gs[a][0] != gs[b][0];
      }
    }
  }

  // ---------------------------------------------------------------------------
  // The walk over the groups of one row
  // ---------------------------------------------------------------------------

  /** A group whose variables are output: their names and their values, position by position. */
  datatype Group = Group(names: seq<string>, values: seq<Value>)

  /** A group with a value for each of its names. */
  type Aligned = g: Group | |g.names| == |g.values| witness Group([], [])

  /** What the loop body does with one group. */
  datatype Action = Skip | Stop | Take(group: Aligned) | Throw

  /**
   * One iteration of the loops at editing.js:454-471 and 587-598. A null
   * entry in `names` skips the group; a null entry in the row, or one whose
   * length differs from the names', ends the walk; reading `.length` of an
   * absent entry (or indexing an absent row) raises a TypeError.
   */
  function Classify(check: NullCheck, names: Names, row: Option<Row>, g: string): (a: Action)
    ensures a.Skip? <==> EntryIsNull(check, Get(names, g))
    ensures a.Throw? <==> && !EntryIsNull(check, Get(names, g))
                          && (|| row.None?
                              || (!EntryIsNull(check, Get(row.value, g)) && (Get(row.value, g).Absent? || Get(names, g).Absent?)))
    ensures a.Stop? <==> && !EntryIsNull(check, Get(names, g)) && row.Some?
                         && (|| EntryIsNull(check, Get(row.value, g))
                             || (&& Get(names, g).Present? && Get(row.value, g).Present?
                                 && |Get(names, g).value| != |Get(row.value, g).value|))
    ensures a.Take? <==> && !EntryIsNull(check, Get(names, g)) && row.Some?
                         && Get(names, g).Present? && Get(row.value, g).Present?
                         && |Get(names, g).value| == |Get(row.value, g).value|
    ensures a.Take? ==> a.group == Group(Get(names, g).value, Get(row.value, g).value)
    ensures a.Throw? ==> row.None? || (check == StrictNull && (Get(names, g).Absent? || Get(row.value, g).Absent?))
  {
    var n := Get(names, g);
    if EntryIsNull(check, n) then Skip
    else if row.None? then Throw
    else
      var subset := Get(row.value, g);
      if EntryIsNull(check, subset) then Stop
      else if subset.Absent? || n.Absent? then Throw
      else if |subset.value| != |n.value| then Stop
      else Take(Group(n.value, subset.value))
  }

  datatype Status = Going | Stopped | Threw

  /** The groups taken so far and whether the walk goes on, has stopped, or has thrown. */
  datatype Walked = Walked(taken: seq<Aligned>, status: Status)

  /** The walk after one more group: a walk that has halted stays as it is. */
  function Advance(w: Walked, a: Action): Walked {
    if w.status != Going then w
    else match a
      case Skip => w
      case Stop => w.(status := Stopped)
      case Throw => w.(status := Threw)
      case Take(grp) => w.(taken := w.taken + [grp])
  }

  /** The walk over `groups`, group by group from the first. */
  function Walk(check: NullCheck, names: Names, row: Option<Row>, groups: seq<string>): Walked {
    if groups == [] then Walked([], Going)
    else Advance(Walk(check, names, row, groups[..|groups| - 1]), Classify(check, names, row, groups[|groups| - 1]))
  }

  lemma WalkStep(check: NullCheck, names: Names, row: Option<Row>, groups: seq<string>, i: nat)
    requires i < |groups|
    ensures Walk(check, names, row, groups[..i + 1])
         == Advance(Walk(check, names, row, groups[..i]), Classify(check, names, row, groups[i]))
  {
    assert groups[..i + 1][..i] == groups[..i];
  }

  /** A group that stops or throws decides the whole walk. */
  lemma WalkHaltsAt(check: NullCheck, names: Names, row: Option<Row>, groups: seq<string>, i: nat)
    requires i < |groups| && Walk(check, names, row, groups[..i]).status == Going
    requires Classify(check, names, row, groups[i]) == Stop || Classify(check, names, row, groups[i]) == Throw
    ensures Walk(check, names, row, groups)
         == Advance(Walk(check, names, row, groups[..i]), Classify(check, names, row, groups[i]))
  {
    WalkStep(check, names, row, groups, i);
    WalkHalted(check, names, row, groups, i + 1);
  }

  /** Once the walk has stopped or thrown, the remaining groups change nothing. */
  lemma {:induction false} WalkHalted(check: NullCheck, names: Names, row: Option<Row>, groups: seq<string>, k: nat)
    requires k <= |groups| && Walk(check, names, row, groups[..k]).status != Going
    ensures Walk(check, names, row, groups) == Walk(check, names, row, groups[..k])
  {
    if k < |groups| {
      var front := groups[..|groups| - 1];
      assert front[..k] == groups[..k];
      WalkHalted(check, names, row, front, k);
    } else {
      assert groups[..k] == groups;
    }
  }

  /** A group whose names entry is null is skipped: the walk is as if it were not listed. */
  lemma {:induction false} NullGroupSkipped(check: NullCheck, names: Names, row: Option<Row>, before: seq<string>, g: string, after: seq<string>)
    requires EntryIsNull(check, Get(names, g))
    ensures Walk(check, names, row, before + [g] + after) == Walk(check, names, row, before + after)
  {
    if after == [] {
      assert (before + [g] + after)[..|before| + 1 - 1] == before;
      assert before + after == before;
    } else {
      var front := after[..|after| - 1];
      assert (before + [g] + after)[..|before + [g] + after| - 1] == before + [g] + front;
      assert (before + after)[..|before + after| - 1] == before + front;
      NullGroupSkipped(check, names, row, before, g, front);
    }
  }

  /**
   * A group whose data is null or has the wrong length ends the walk: the
   * groups taken before it are kept, and nothing after it is taken.
   */
  lemma StopKeepsEarlier(check: NullCheck, names: Names, row: Option<Row>, before: seq<string>, g: string, after: seq<string>)
    requires Walk(check, names, row, before).status == Going
    requires Classify(check, names, row, g) == Stop
    ensures Walk(check, names, row, before + [g] + after) == Walked(Walk(check, names, row, before).taken, Stopped)
  {
    var gs := before + [g] + after;
    assert gs[..|before|] == before;
    assert gs[..|before| + 1][..|before|] == before;
    WalkHalted(check, names, row, gs, |before| + 1);
  }

  /** With the loose test (`== null`) and an existing row, the walk never throws. */
  lemma {:induction false} LooseWalkNeverThrows(names: Names, row: Row, groups: seq<string>)
    ensures Walk(LooseNull, names, Some(row), groups).status != Threw
  {
    if groups != [] {
      LooseWalkNeverThrows(names, row, groups[..|groups| - 1]);
    }
  }

  /**
   * With the strict test (`=== null`) as written, a row that omits a group
   * whose names are listed throws, where the walk is meant to end quietly.
   */
  lemma StrictWalkThrowsOnOmittedGroup(names: Names, row: Row, before: seq<string>, g: string, after: seq<string>)
    requires Walk(StrictNull, names, Some(row), before).status == Going
    requires Get(names, g).Present? && g !in row
    ensures Walk(StrictNull, names, Some(row), before + [g] + after).status == Threw
    ensures Walk(LooseNull, names, Some(row), before + [g] + after).status != Threw
  {
    var gs := before + [g] + after;
    assert gs[..|before| + 1][..|before|] == before;
    WalkHalted(StrictNull, names, Some(row), gs, |before| + 1);
    LooseWalkNeverThrows(names, row, gs);
  }

  // ---------------------------------------------------------------------------
  // getVariablesMapping
  // ---------------------------------------------------------------------------

  /** The (name, value) assignments of the taken groups, in the order they are made. */
  function Pairs(taken: seq<Aligned>): seq<(string, Value)>
  {
    if taken == [] then []
    else
      var last := taken[|taken| - 1];
      Pairs(taken[..|taken| - 1]) + Zip(last.names, last.values, |last.names|)
  }

  /** The first `j` names paired with their values. */
  function Zip(ns: seq<string>, vs: seq<Value>, j: nat): (ps: seq<(string, Value)>)
    requires j <= |ns| && j <= |vs|
    ensures |ps| == j && forall k :: 0 <= k < j ==> ps[k] == (ns[k], vs[k])
  {
    seq(j, k requires 0 <= k < j => (ns[k], vs[k]))
  }

  /** The object built by assigning `obj[name] = value` for every pair in turn. */
  function Assigned(ps: seq<(string, Value)>): map<string, Value> {
    if ps == [] then map[]
    else Assigned(ps[..|ps| - 1])[ps[|ps| - 1].0 := ps[|ps| - 1].1]
  }

  /** The value of the last pair that names `key`, if any: the reference reading of a chain of assignments. */
  function LastValue(ps: seq<(string, Value)>, key: string): (r: Option<Value>)
    ensures r.None? <==> forall i :: 0 <= i < |ps| ==> ps[i].0 != key
  {
    if ps == [] then None
    else if ps[|ps| - 1].0 == key then Some(ps[|ps| - 1].1)
    else LastValue(ps[..|ps| - 1], key)
  }

  /** The object holds exactly the assigned names, each with the value assigned last. */
  lemma {:induction false} AssignedLookup(ps: seq<(string, Value)>, key: string)
    ensures key in Assigned(ps) <==> LastValue(ps, key).Some?
    ensures key in Assigned(ps) ==> Assigned(ps)[key] == LastValue(ps, key).value
  {
    if ps != [] {
      AssignedLookup(ps[..|ps| - 1], key);
    }
  }

  /** A later assignment to a name overrides every earlier one. */
  lemma {:induction false} LaterAssignmentWins(ps: seq<(string, Value)>, qs: seq<(string, Value)>, key: string)
    ensures LastValue(ps + qs, key) == if LastValue(qs, key).Some? then LastValue(qs, key) else LastValue(ps, key)
  {
    if qs == [] {
      assert ps + qs == ps;
    } else {
      assert (ps + qs)[..|ps + qs| - 1] == ps + qs[..|qs| - 1];
      LaterAssignmentWins(ps, qs[..|qs| - 1], key);
    }
  }

  /** `vars.lists[idataset]`: undefined past the end of the list. */
  function RowAt(lists: seq<Row>, idataset: nat): Option<Row> {
    if idataset < |lists| then Some(lists[idataset]) else None
  }

  /** What `getVariablesMapping(idataset, groupnames)` returns, or the TypeError it raises. */
  function VariablesMappingOf(check: NullCheck, names: Names, lists: seq<Row>, idataset: nat, groups: seq<string>): Result<map<string, Value>>
  {
    var w := Walk(check, names, RowAt(lists, idataset), groups);
    if w.status == Threw then TypeError else Ok(Assigned(Pairs(w.taken)))
  }

  /**
   * `getVariablesMapping(idataset, groupnames)` (editing.js:584-600): the
   * groups are visited in order and their names assigned their values of row
   * `idataset`.
   */
  method VariablesMapping(check: NullCheck, names: Names, lists: seq<Row>, idataset: nat, groups: seq<string>)
    returns (r: Result<map<string, Value>>)
    ensures r == VariablesMappingOf(check, names, lists, idataset, groups)
  {
    var row := RowAt(lists, idataset);
    var mapping: map<string, Value> := map[];
    ghost var taken: seq<Aligned> := [];
    var i := 0;
    while i < |groups|
      invariant 0 <= i <= |groups|
      invariant Walk(check, names, row, groups[..i]) == Walked(taken, Going)
      invariant mapping == Assigned(Pairs(taken))
    {
      ghost var a := Classify(check, names, row, groups[i]);
      var n := Get(names, groups[i]);
      if EntryIsNull(check, n) {
        WalkStep(check, names, row, groups, i);
        i := i + 1;
        continue;
      }
      if row.None? {
        WalkHaltsAt(check, names, row, groups, i);
        return TypeError;
      }
      var subset := Get(row.value, groups[i]);
      if EntryIsNull(check, subset) {
        WalkHaltsAt(check, names, row, groups, i);
        return Ok(mapping);
      }
      if subset.Absent? || n.Absent? {
        WalkHaltsAt(check, names, row, groups, i);
        return TypeError;
      }
      if |subset.value| != |n.value| {
        WalkHaltsAt(check, names, row, groups, i);
        return Ok(mapping);
      }
      assert a == Take(Group(n.value, subset.value));
      WalkStep(check, names, row, groups, i);
      mapping := AssignGroup(mapping, Pairs(taken), n.value, subset.value);
      PairsAppend(taken, Group(n.value, subset.value));
      taken := taken + [Group(n.value, subset.value)];
      i := i + 1;
    }
    assert groups[..i] == groups;
    r := Ok(mapping);
  }

  /** The inner loop of `getVariablesMapping`: each name of the group is assigned its value, in order. */
  method AssignGroup(mapping: map<string, Value>, ghost before: seq<(string, Value)>, ns: seq<string>, vs: seq<Value>)
    returns (m: map<string, Value>)
    requires |ns| == |vs| && mapping == Assigned(before)
    ensures m == Assigned(before + Zip(ns, vs, |ns|))
  {
    m := mapping;
    assert before + Zip(ns, vs, 0) == before;
    for j := 0 to |ns|
      invariant m == Assigned(before + Zip(ns, vs, j))
    {
      AssignStep(before, ns, vs, j);
      m := m[ns[j] := vs[j]];
    }
  }

  lemma AssignStep(before: seq<(string, Value)>, ns: seq<string>, vs: seq<Value>, j: nat)
    requires j < |ns| && j < |vs|
    ensures Assigned(before + Zip(ns, vs, j + 1)) == Assigned(before + Zip(ns, vs, j))[ns[j] := vs[j]]
  {
    var ps := before + Zip(ns, vs, j + 1);
    assert ps[..|ps| - 1] == before + Zip(ns, vs, j);
  }

  lemma PairsAppend(taken: seq<Aligned>, g: Aligned)
    ensures Pairs(taken + [g]) == Pairs(taken) + Zip(g.names, g.values, |g.names|)
  {
    assert (taken + [g])[..|taken|] == taken;
  }

  /**
   * Reading a name from the mapping gives the value that the last taken group
   * listing that name holds at that name's last position; groups after a
   * stopping group contribute nothing.
   */
  lemma MappingLookup(check: NullCheck, names: Names, lists: seq<Row>, idataset: nat, groups: seq<string>, key: string)
    requires VariablesMappingOf(check, names, lists, idataset, groups).Ok?
    ensures var w := Walk(check, names, RowAt(lists, idataset), groups);
            var m := VariablesMappingOf(check, names, lists, idataset, groups).value;
            (key in m <==> LastValue(Pairs(w.taken), key).Some?)
            && (key in m ==> m[key] == LastValue(Pairs(w.taken), key).value)
  {
    var w := Walk(check, names, RowAt(lists, idataset), groups);
    AssignedLookup(Pairs(w.taken), key);
  }
}
