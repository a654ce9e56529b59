/** The `CSP` class of csp.py: a backtracking solver for binary constraint
    satisfaction problems with forward checking, the MRV and degree heuristics for
    choosing a variable, and the least-constraining-value heuristic for ordering its
    values. Each method is proved against the value-level definitions of `CspSpec`. */
module Csp {
  import opened CspSpec
  import opened StableSort

  /** The working-domains dictionary that `solve` copies from the initial domains and
      that the search prunes and restores in place. */
  class Domains<V(==), Val> {
    var lists: map<V, seq<Val>>

    constructor (initial: map<V, seq<Val>>)
      ensures lists == initial
    {
      lists := initial;
    }
  }

  class CSP<V(==,!new), Val(==,!new)> {
    const variables: seq<V>
    const initialDomains: map<V, seq<Val>>
    const neighbors: map<V, seq<V>>
    const constraints: (V, Val, V, Val) -> bool
    /** The partial assignment the search extends and retracts. */
    var assignments: map<V, Val>
    /** One step per assignment made and one per assignment taken back. */
    var numSteps: nat

    /** The problem the object was built from. */
    function P(): Problem<V, Val> {
      Problem(variables, initialDomains, neighbors, constraints)
    }

    constructor (variables: seq<V>, domains: map<V, seq<Val>>, neighbors: map<V, seq<V>>,
                 constraints: (V, Val, V, Val) -> bool)
      ensures P() == Problem(variables, domains, neighbors, constraints)
      ensures assignments == map[] && numSteps == 0
    {
      this.variables := variables;
      this.initialDomains := domains;
      this.neighbors := neighbors;
      this.constraints := constraints;
      assignments := map[];
      numSteps := 0;
    }

    /** `is_complete`: compares the number of assignments with the number of
        variables, which over unique variables means every variable is assigned. */
    predicate IsComplete(): (r: bool)
      reads this
      ensures Distinct(variables) && (forall v :: v in assignments ==> v in variables) ==>
                (r <==> forall v :: v in variables ==> v in assignments)
    {
      CompleteByCount(variables, assignments);
      |assignments| == |variables|
    }

    /** `is_consistent(v, value, a)`: `v = value` agrees with every listed neighbour
        that `a` assigns; the scan stops at the first disagreement. */
    method IsConsistent(v: V, value: Val, a: map<V, Val>) returns (ok: bool)
      ensures ok <==> ConsistentWith(P(), v, value, a)
    {
      var ns := NeighborsOf(P(), v);
      var i := 0;
      while i < |ns|
        invariant 0 <= i <= |ns|
        invariant forall j :: 0 <= j < i && ns[j] in a ==> constraints(v, value, ns[j], a[ns[j]])
      {
        var n := ns[i];
        if n in a && !constraints(v, value, n, a[n]) {
          return false;
        }
        i := i + 1;
      }
      return true;
    }

    /** `forward_checking(v, value, domains, {})`: for each unassigned neighbour,
        removes from its working domain, one `list.remove` at a time, every value the
        predicate rejects next to `v = value`, records each removed value, and fails
        as soon as a neighbour's domain is empty. The result and the new domains are
        those of `ForwardCheck`, whose closed form is `ForwardCheckClosedForm`. */
    method ForwardChecking(v: V, value: Val, domains: Domains<V, Val>) returns (ok: bool, removed: map<V, seq<Val>>)
      requires forall n :: n in NeighborsOf(P(), v) && n !in assignments ==> n in domains.lists
      modifies domains
      ensures FcOutcome(ok, domains.lists, removed)
              == ForwardCheck(P(), assignments, v, value, NeighborsOf(P(), v), old(domains.lists), map[])
    {
      var ns := NeighborsOf(P(), v);
      removed := map[];
      var i := 0;
      while i < |ns|
        invariant 0 <= i <= |ns|
        invariant domains.lists.Keys == old(domains.lists).Keys
        invariant ForwardCheck(P(), assignments, v, value, ns[i..], domains.lists, removed)
                  == ForwardCheck(P(), assignments, v, value, ns, old(domains.lists), map[])
      {
        var n := ns[i];
        assert ns[i..][0] == n && ns[i..][1..] == ns[i + 1..];
        if n !in assignments {
          removed := PruneNeighbor(v, value, n, domains, removed);
          if domains.lists[n] == [] {
            return false, removed;
          }
        }
        i := i + 1;
      }
      ok := true;
    }

    /** The inner loop of `forward_checking` for one unassigned neighbour `n`: walks a
        copy of `n`'s working domain and, for each value the predicate rejects, removes
        its first occurrence from the domain and appends it to `n`'s record. The
        domain ends up filtered to the accepted values, in order, and the record gains
        the rejected ones, in order. */
    method PruneNeighbor(v: V, value: Val, n: V, domains: Domains<V, Val>, removed: map<V, seq<Val>>)
      returns (removed': map<V, seq<Val>>)
      requires n in domains.lists
      modifies domains
      ensures domains.lists == old(domains.lists)[n := Allowed(P(), v, value, n, old(domains.lists)[n])]
      ensures var gone := Rejected(P(), v, value, n, old(domains.lists)[n]);
              removed' == if gone == [] then removed else removed[n := Lookup(removed, n) + gone]
    {
      var snapshot := domains.lists[n];
      ghost var d0 := domains.lists;
      removed' := removed;
      var j := 0;
      assert snapshot[..0] == [] && snapshot[0..] == snapshot && [] + snapshot == snapshot;
      assert d0[n := snapshot] == d0;
      while j < |snapshot|
        invariant 0 <= j <= |snapshot|
        invariant domains.lists == d0[n := Allowed(P(), v, value, n, snapshot[..j]) + snapshot[j..]]
        invariant var gone := Rejected(P(), v, value, n, snapshot[..j]);
                  removed' == if gone == [] then removed else removed[n := Lookup(removed, n) + gone]
      {
        var x := snapshot[j];
        PruneOneMore(P(), v, value, n, snapshot, j);
        if !constraints(v, value, n, x) {
          RecordOneMore(removed, n, Rejected(P(), v, value, n, snapshot[..j]), x);
          UpdateTwice(d0, n, domains.lists[n], RemoveFirst(domains.lists[n], x));
          domains.lists := domains.lists[n := RemoveFirst(domains.lists[n], x)];
          removed' := removed'[n := Lookup(removed', n) + [x]];
        }
        j := j + 1;
      }
      assert snapshot[..j] == snapshot;
      assert Allowed(P(), v, value, n, snapshot) + snapshot[j..] == Allowed(P(), v, value, n, snapshot);
    }

    /** `restore_domains(domains, removed)`: appends each recorded list back onto
        its variable's working domain. Each key is restored once, so the order in
        which the record is walked does not matter. */
    method RestoreDomains(domains: Domains<V, Val>, removed: map<V, seq<Val>>)
      requires removed.Keys <= domains.lists.Keys
      modifies domains
      ensures domains.lists == Restored(old(domains.lists), removed)
    {
      ghost var d0 := domains.lists;
      var pending := removed.Keys;
      while pending != {}
        invariant pending <= removed.Keys
        invariant domains.lists.Keys == d0.Keys
        invariant forall k :: k in d0 ==>
                    domains.lists[k] == if k in removed && k !in pending then d0[k] + removed[k] else d0[k]
        decreases pending
      {
        var k :| k in pending;
        domains.lists := domains.lists[k := domains.lists[k] + removed[k]];
        pending := pending - {k};
      }
      assert domains.lists == Restored(d0, removed);
    }

    /** `select_unassigned_variable(domains)`: `None` exactly when every variable is
        assigned; otherwise an unassigned variable with the fewest working values
        (MRV), and among those one with the most unassigned neighbours (degree);
        among equal degrees, the first in variable order wins. */
    method SelectUnassignedVariable(domains: Domains<V, Val>) returns (r: Option<V>)
      requires forall u :: u in variables && u !in assignments ==> u in domains.lists
      ensures r.None? <==> forall u :: u in variables ==> u in assignments
      ensures r.Some? ==> r.value in variables && r.value !in assignments
      ensures r.Some? ==> forall u :: u in variables && u !in assignments ==>
                |domains.lists[r.value]| <= |domains.lists[u]|
      ensures r.Some? ==> forall u :: u in variables && u !in assignments && |domains.lists[u]| == |domains.lists[r.value]| ==>
                Degree(P(), assignments, u) <= Degree(P(), assignments, r.value)
      ensures r.Some? && Distinct(variables) ==>
                forall u :: u in variables && u !in assignments && |domains.lists[u]| == |domains.lists[r.value]| &&
                            Before(variables, u, r.value) ==>
                  Degree(P(), assignments, u) < Degree(P(), assignments, r.value)
    {
      var unassigned := Unassigned(assignments, variables);
      if unassigned == [] {
        return None;
      }
      var m := MinDomainSize(domains.lists, unassigned);
      var mrv := OfDomainSize(domains.lists, unassigned, m);
      if |mrv| == 1 {
        r := Some(mrv[0]);
        assert forall u :: u in mrv ==> u == mrv[0];
      } else {
        assert mrv != [] by {
          var u :| u in unassigned && |domains.lists[u]| == m;
          assert u in mrv;
        }
        ghost var si;
        r, si := MaxDegreeCandidate(mrv);
        if Distinct(variables) {
          UnassignedDistinct(assignments, variables);
          OfDomainSizeDistinct(domains.lists, unassigned, m);
          forall u | u in variables && u !in assignments && |domains.lists[u]| == |domains.lists[r.value]| &&
                     Before(variables, u, r.value)
            ensures Degree(P(), assignments, u) < Degree(P(), assignments, r.value)
          {
            UnassignedKeepsOrder(assignments, variables, u, r.value);
            OfDomainSizeKeepsOrder(domains.lists, unassigned, m, u, r.value);
            EarlierCandidateSmaller(P(), assignments, mrv, si, u);
          }
        }
      }
    }

    /** The degree loop of `select_unassigned_variable`: over the candidates `mrv`,
        the first one with the most unassigned neighbours, found at index `si`.
        `max_degree` starts at -1, so the first candidate is always taken, and only a
        strictly larger degree replaces the choice. */
    method MaxDegreeCandidate(mrv: seq<V>) returns (r: Option<V>, ghost si: nat)
      ensures r.None? <==> mrv == []
      ensures r.Some? ==> si < |mrv| && r.value == mrv[si]
      ensures r.Some? ==> forall u :: u in mrv ==> Degree(P(), assignments, u) <= Degree(P(), assignments, r.value)
      ensures r.Some? ==> forall j :: 0 <= j < si ==> Degree(P(), assignments, mrv[j]) < Degree(P(), assignments, r.value)
    {
      var maxDegree: int := -1;
      r := None;
      si := 0;
      var i := 0;
      while i < |mrv|
        invariant 0 <= si <= i <= |mrv|
        invariant i == 0 ==> maxDegree == -1 && r.None?
        invariant i > 0 ==> si < i && r == Some(mrv[si]) && maxDegree == Degree(P(), assignments, mrv[si])
        invariant forall j :: 0 <= j < i ==> Degree(P(), assignments, mrv[j]) <= maxDegree
        invariant forall j :: 0 <= j < si ==> Degree(P(), assignments, mrv[j]) < maxDegree
      {
        var degree := CountUnassigned(assignments, NeighborsOf(P(), mrv[i]));
        if degree > maxDegree {
          maxDegree := degree;
          r := Some(mrv[i]);
          si := i;
        }
        i := i + 1;
      }
    }

    /** `count_conflicts(value)` inside `order_domain_values(v, domains)`: over the
        unassigned neighbours of `v`, the number of working values the predicate
        rejects next to `v = value`; this is the key `ConflictKey` sorts by. */
    method CountConflicts(v: V, value: Val, domains: Domains<V, Val>) returns (count: nat)
      requires forall n :: n in NeighborsOf(P(), v) && n !in assignments ==> n in domains.lists
      ensures count == ConflictKey(P(), assignments, domains.lists, v)(value)
    {
      var ns := NeighborsOf(P(), v);
      count := 0;
      var i := 0;
      while i < |ns|
        invariant 0 <= i <= |ns|
        invariant count + ConflictsOver(P(), assignments, domains.lists, v, value, ns[i..])
                  == ConflictsOver(P(), assignments, domains.lists, v, value, ns)
      {
        var n := ns[i];
        assert ns[i..][0] == n && ns[i..][1..] == ns[i + 1..];
        if n !in assignments {
          var xs := domains.lists[n];
          ghost var c0 := count;
          var j := 0;
          while j < |xs|
            invariant 0 <= j <= |xs|
            invariant count == c0 + |Rejected(P(), v, value, n, xs[..j])|
          {
            assert xs[..j + 1] == xs[..j] + [xs[j]];
            RejectedSnoc(P(), v, value, n, xs[..j], xs[j]);
            if !constraints(v, value, n, xs[j]) {
              count := count + 1;
            }
            j := j + 1;
          }
          assert xs[..j] == xs;
        }
        i := i + 1;
      }
    }

    /** `order_domain_values(v, domains)`: no values for a variable without a working
        domain; otherwise the working values stably sorted by `count_conflicts`, the
        number of neighbour values each would rule out (least constraining first). */
    function OrderDomainValues(v: V, domains: Domains<V, Val>): (r: seq<Val>)
      reads this, domains
      ensures v !in domains.lists ==> r == []
      ensures v in domains.lists ==> IsStableSortOf(r, domains.lists[v], ConflictKey(P(), assignments, domains.lists, v))
    {
      if v !in domains.lists then []
      else
        SortIsStableSort(domains.lists[v], ConflictKey(P(), assignments, domains.lists, v));
        Sort(domains.lists[v], ConflictKey(P(), assignments, domains.lists, v))
    }

    /** `backtrack(domains)`. On success it returns the current assignment, which is
        then a solution extending the assignment it started from, with values from
        the working domains it started from. On failure it leaves the assignment as
        it found it and the working domains with the same values, and no solution
        extends the starting state: the search is complete. Every assignment costs
        one step and every retraction one more; `undone` counts the retractions. */
    method Backtrack(domains: Domains<V, Val>) returns (result: Option<map<V, Val>>, ghost undone: nat)
      requires WellFormed(P()) && SearchInv(P(), assignments, domains.lists)
      modifies this, domains
      decreases |variables| - |assignments|, 2
      ensures result.Some? ==> result.value == assignments && IsSolution(P(), assignments)
      ensures result.Some? ==> Extends(assignments, old(assignments), old(domains.lists))
      ensures result.Some? ==> numSteps == old(numSteps) + (|assignments| - |old(assignments)|) + 2 * undone
      ensures result.None? ==> assignments == old(assignments) && SameContents(domains.lists, old(domains.lists))
      ensures result.None? ==> numSteps == old(numSteps) + 2 * undone
      ensures result.None? ==> NoSolutionExtends(P(), old(assignments), old(domains.lists))
    {
      CompleteByCount(variables, assignments);
      if IsComplete() {
        CompleteIsSolution(P(), assignments, domains.lists);
        return Some(assignments), 0;
      }
      var sel := SelectUnassignedVariable(domains);
      // The assignment is incomplete, so some variable is unassigned and the
      // source's `var is None` exit cannot be taken here.
      assert sel.Some?;
      var v := sel.value;
      var values := OrderDomainValues(v, domains);
      ghost var a0, dom0 := assignments, domains.lists;
      result, undone := TryValues(v, values, domains);
      if result.None? {
        AllValuesExcluded(P(), a0, dom0, v, values);
      }
    }

    /** The loop of `backtrack(domains)` over the ordered values of `v`: each value is
        tried in turn, and the first success is returned. When every value fails, the
        state comes back with the same contents and no solution extending the starting
        state gives `v` any of the values. */
    method TryValues(v: V, values: seq<Val>, domains: Domains<V, Val>)
      returns (result: Option<map<V, Val>>, ghost undone: nat)
      requires WellFormed(P()) && SearchInv(P(), assignments, domains.lists)
      requires v in variables && v !in assignments && v in domains.lists
      requires multiset(values) == multiset(domains.lists[v])
      modifies this, domains
      decreases |variables| - |assignments|, 1
      ensures result.Some? ==> result.value == assignments && IsSolution(P(), assignments)
      ensures result.Some? ==> Extends(assignments, old(assignments), old(domains.lists))
      ensures result.Some? ==> numSteps == old(numSteps) + (|assignments| - |old(assignments)|) + 2 * undone
      ensures result.None? ==> assignments == old(assignments) && SameContents(domains.lists, old(domains.lists))
      ensures result.None? ==> numSteps == old(numSteps) + 2 * undone
      ensures result.None? ==> forall s :: IsSolution(P(), s) && Extends(s, old(assignments), old(domains.lists)) ==>
                s[v] !in values
    {
      undone := 0;
      ghost var a0, dom0, steps0 := assignments, domains.lists, numSteps;
      var i := 0;
      while i < |values|
        invariant 0 <= i <= |values|
        invariant assignments == a0 && SameContents(domains.lists, dom0) && SearchInv(P(), a0, domains.lists)
        invariant numSteps == steps0 + 2 * undone
        invariant forall s :: IsSolution(P(), s) && Extends(s, a0, dom0) ==> s[v] !in values[..i]
      {
        var value := values[i];
        ghost var dcur := domains.lists;
        assert value in multiset(dcur[v]) by {
          assert values[i] in multiset(values);
          SameContentsSymmetric(dcur, dom0);
        }
        var result, deeper := TryValue(v, value, domains);
        undone := undone + deeper;
        if result.Some? {
          ExtendsSameContents(result.value, a0, dcur, dom0);
          return result, undone;
        }
        SameContentsTransitive(domains.lists, dcur, dom0);
        SearchInvSameContents(P(), a0, dcur, domains.lists);
        ExcludedUnderSameContents(P(), a0, dcur, dom0, v, value);
        ExcludedOneMore(P(), a0, dom0, v, values, i);
        i := i + 1;
      }
      assert values[..i] == values;
      return None, undone;
    }

    /** One turn of the loop in `backtrack(domains)` for the value `value` of `v`: if
        `v = value` is consistent, assign it (one step) and forward check; if that
        succeeds, search deeper. When that search fails, or forward checking does,
        retract `v` (one more step) and restore the working domains. On success the
        assignment is a solution extending the starting one; on failure the state
        comes back with the same contents and no solution extending the starting
        state gives `v` the value `value`. */
    method TryValue(v: V, value: Val, domains: Domains<V, Val>) returns (result: Option<map<V, Val>>, ghost undone: nat)
      requires WellFormed(P()) && SearchInv(P(), assignments, domains.lists)
      requires v in variables && v !in assignments && value in multiset(domains.lists[v])
      modifies this, domains
      decreases |variables| - |assignments|, 0
      ensures result.Some? ==> result.value == assignments && IsSolution(P(), assignments)
      ensures result.Some? ==> Extends(assignments, old(assignments), old(domains.lists))
      ensures result.Some? ==> numSteps == old(numSteps) + (|assignments| - |old(assignments)|) + 2 * undone
      ensures result.None? ==> assignments == old(assignments) && SameContents(domains.lists, old(domains.lists))
      ensures result.None? ==> numSteps == old(numSteps) + 2 * undone
      ensures result.None? ==> forall s :: IsSolution(P(), s) && Extends(s, old(assignments), old(domains.lists)) ==>
                s[v] != value
    {
      ghost var a0, dom0 := assignments, domains.lists;
      var consistent := IsConsistent(v, value, assignments);
      if !consistent {
        InconsistentValueExcludes(P(), a0, dom0, v, value);
        return None, 0;
      }
      assignments := assignments[v := value];
      numSteps := numSteps + 1;
      var ok, removed := ForwardChecking(v, value, domains);
      ghost var dfc := domains.lists;
      TryValueFacts(P(), a0, dom0, v, value, ok, dfc, removed);
      undone := 0;
      if ok {
        CompleteByCount(variables, a0);
        result, undone := Backtrack(domains);
        if result.Some? {
          PrunedStateExtends(P(), a0, dom0, v, value, result.value);
          return;
        }
        FailedDescentExcludes(P(), a0, dom0, dom0, v, value);
        RestoredSameContents(domains.lists, dfc, removed);
        SameContentsTransitive(Restored(domains.lists, removed), Restored(dfc, removed), dom0);
      } else {
        EmptiedNeighbourExcludes(P(), a0, dom0, dom0, v, value);
      }
      RetractUndoesAssign(a0, v, value);
      assignments := assignments - {v};
      numSteps := numSteps + 1;
      undone := undone + 1;
      RestoreDomains(domains, removed);
      result := None;
    }

    /** `solve()`: starts from the empty assignment, a zero step count and a copy of
        the initial domains. It returns a solution when there is one, and `None`
        only when the problem has no solution at all; `undone` counts the
        retractions behind the final step count. */
    method Solve() returns (result: Option<map<V, Val>>, ghost undone: nat)
      requires WellFormed(P())
      modifies this
      ensures result.Some? ==> result.value == assignments && IsSolution(P(), result.value)
      ensures result.Some? ==> numSteps == |assignments| + 2 * undone
      ensures result.None? ==> assignments == map[] && numSteps == 2 * undone
      ensures result.None? ==> forall s :: !IsSolution(P(), s)
    {
      assignments := map[];
      numSteps := 0;
      var domains := new Domains(initialDomains);
      result, undone := Backtrack(domains);
    }
  }

  /** One more step of the walk in `PruneNeighbor`: the value at `j` is either kept
      in place or removed, by its first occurrence, which lies past the kept prefix. */
  lemma PruneOneMore<V, Val>(p: Problem<V, Val>, v: V, value: Val, n: V, snapshot: seq<Val>, j: int)
    requires 0 <= j < |snapshot|
    ensures var x, pre := snapshot[j], snapshot[..j];
            var cur := Allowed(p, v, value, n, pre) + snapshot[j..];
            var next := Allowed(p, v, value, n, snapshot[..j + 1]) + snapshot[j + 1..];
            && x in cur
            && (p.constraints(v, value, n, x) ==> cur == next)
            && (!p.constraints(v, value, n, x) ==> RemoveFirst(cur, x) == next)
            && (p.constraints(v, value, n, x) ==>
                  Rejected(p, v, value, n, snapshot[..j + 1]) == Rejected(p, v, value, n, pre))
            && (!p.constraints(v, value, n, x) ==>
                  Rejected(p, v, value, n, snapshot[..j + 1]) == Rejected(p, v, value, n, pre) + [x])
  {
    var x, pre := snapshot[j], snapshot[..j];
    var kept := Allowed(p, v, value, n, pre);
    assert snapshot[..j + 1] == pre + [x];
    assert snapshot[j..] == [x] + snapshot[j + 1..];
    AllowedSnoc(p, v, value, n, pre, x);
    RejectedSnoc(p, v, value, n, pre, x);
    if !p.constraints(v, value, n, x) {
      AllowedMembers(p, v, value, n, pre, x);
      RemoveFirstPastPrefix(kept, snapshot[j..], x);
      assert kept + [] == kept;
    } else {
      assert kept + snapshot[j..] == (kept + [x]) + snapshot[j + 1..];
      assert Rejected(p, v, value, n, pre) + [] == Rejected(p, v, value, n, pre);
    }
  }

  /** Appending one more removed value to `n`'s record. */
  lemma RecordOneMore<V, Val>(rem: map<V, seq<Val>>, n: V, gone: seq<Val>, x: Val)
    ensures var r := if gone == [] then rem else rem[n := Lookup(rem, n) + gone];
            r[n := Lookup(r, n) + [x]] == rem[n := Lookup(rem, n) + (gone + [x])]
  {
    if gone == [] {
      assert gone + [x] == [x];
    } else {
      assert (Lookup(rem, n) + gone) + [x] == Lookup(rem, n) + (gone + [x]);
    }
  }

  /** Deleting a key just added gives back the map it was added to. */
  lemma RetractUndoesAssign<K, T>(m: map<K, T>, k: K, x: T)
    requires k !in m
    ensures m[k := x] - {k} == m
  {
    assert (m[k := x] - {k}).Keys == m.Keys;
  }

  /** The values tried so far grow by one. */
  lemma ExcludedOneMore<V(!new), Val(!new)>(p: Problem<V, Val>, a: map<V, Val>, dom: map<V, seq<Val>>, v: V,
                                            values: seq<Val>, i: int)
    requires v in p.variables && 0 <= i < |values|
    requires forall s :: IsSolution(p, s) && Extends(s, a, dom) ==> s[v] !in values[..i]
    requires forall s :: IsSolution(p, s) && Extends(s, a, dom) ==> s[v] != values[i]
    ensures forall s :: IsSolution(p, s) && Extends(s, a, dom) ==> s[v] !in values[..i + 1]
  {
    assert values[..i + 1] == values[..i] + [values[i]];
  }

  /** Over candidates without repeats, a candidate whose predecessors all have a
      smaller degree has a larger degree than any candidate placed before it. */
  lemma EarlierCandidateSmaller<V, Val>(p: Problem<V, Val>, a: map<V, Val>, mrv: seq<V>, si: int, u: V)
    requires Distinct(mrv) && 0 <= si < |mrv| && Before(mrv, u, mrv[si])
    requires forall j :: 0 <= j < si ==> Degree(p, a, mrv[j]) < Degree(p, a, mrv[si])
    ensures Degree(p, a, u) < Degree(p, a, mrv[si])
  {
    var x, y :| 0 <= x < y < |mrv| && mrv[x] == u && mrv[y] == mrv[si];
    assert y == si;
  }

  lemma UpdateTwice<K, T>(m: map<K, T>, k: K, a: T, b: T)
    ensures m[k := a][k := b] == m[k := b]
  {
  }

  /** What forward checking leaves behind for `v = value`, read off its closed form:
      the record only names working domains, restoring it gives back the domains
      forward checking started from, and on success the domains are the pruned ones
      and the search invariant holds for the extended assignment. */
  lemma TryValueFacts<V, Val>(p: Problem<V, Val>, a: map<V, Val>, dom: map<V, seq<Val>>, v: V, value: Val,
                              ok: bool, dfc: map<V, seq<Val>>, removed: map<V, seq<Val>>)
    requires WellFormed(p) && SearchInv(p, a, dom)
    requires v in p.variables && v !in a && value in multiset(dom[v])
    requires ConsistentWith(p, v, value, a)
    requires var ns := NeighborsOf(p, v);
             FcOutcome(ok, dfc, removed) == ForwardCheck(p, a[v := value], v, value, ns, dom, map[])
    ensures removed.Keys <= dfc.Keys && SameContents(Restored(dfc, removed), dom)
    ensures ok ==> dfc == PruneAll(p, a[v := value], v, value, NeighborsOf(p, v), dom)
    ensures ok ==> SearchInv(p, a[v := value], dfc)
    ensures !ok ==> FirstEmpty(p, a[v := value], v, value, NeighborsOf(p, v), dom) < |NeighborsOf(p, v)|
  {
    var a', ns := a[v := value], NeighborsOf(p, v);
    ForwardCheckClosedForm(p, a', v, value, ns, dom, map[]);
    RestoreUndoesForwardCheck(p, a', v, value, ns, dom);
    if ok {
      PrunedToIsPruneAll(p, a', v, value, ns, dom, dfc);
      AssignKeepsSearchInv(p, a, dom, v, value);
    }
  }

  /** A value whose descent failed is in no solution extending the starting state. */
  lemma FailedDescentExcludes<V(!new), Val(!new)>(p: Problem<V, Val>, a: map<V, Val>, dom: map<V, seq<Val>>,
                                                  dom0: map<V, seq<Val>>, v: V, value: Val)
    requires WellFormed(p) && SearchInv(p, a, dom) && SameContents(dom, dom0)
    requires v in p.variables && v !in a
    requires NoSolutionExtends(p, a[v := value], PruneAll(p, a[v := value], v, value, NeighborsOf(p, v), dom))
    ensures forall s :: IsSolution(p, s) && Extends(s, a, dom0) ==> s[v] != value
  {
    forall s | IsSolution(p, s) && Extends(s, a, dom0) ensures s[v] != value {
      SameContentsSymmetric(dom, dom0);
      ExtendsSameContents(s, a, dom0, dom);
      ExtendsPrunedState(p, a, dom, v, value, s);
    }
  }

  /** A value that empties an unassigned neighbour is in no solution extending the
      starting state. */
  lemma EmptiedNeighbourExcludes<V(!new), Val(!new)>(p: Problem<V, Val>, a: map<V, Val>, dom: map<V, seq<Val>>,
                                                     dom0: map<V, seq<Val>>, v: V, value: Val)
    requires WellFormed(p) && SearchInv(p, a, dom) && SameContents(dom, dom0)
    requires v in p.variables && v !in a
    requires FirstEmpty(p, a[v := value], v, value, NeighborsOf(p, v), dom) < |NeighborsOf(p, v)|
    ensures forall s :: IsSolution(p, s) && Extends(s, a, dom0) ==> s[v] != value
  {
    forall s | IsSolution(p, s) && Extends(s, a, dom0) ensures s[v] != value {
      SameContentsSymmetric(dom, dom0);
      ExtendsSameContents(s, a, dom0, dom);
      EmptiedNeighbourExcluded(p, a, dom, v, value, s);
    }
  }

  /** A value that clashes with an assigned neighbour is in no solution extending
      the starting state. */
  lemma InconsistentValueExcludes<V(!new), Val(!new)>(p: Problem<V, Val>, a: map<V, Val>, dom0: map<V, seq<Val>>,
                                                      v: V, value: Val)
    requires v in p.variables && v !in a && !ConsistentWith(p, v, value, a)
    ensures forall s :: IsSolution(p, s) && Extends(s, a, dom0) ==> s[v] != value
  {
    forall s | IsSolution(p, s) && Extends(s, a, dom0) ensures s[v] != value {
      InconsistentValueExcluded(p, a, dom0, v, value, s);
    }
  }

  /** A value excluded from the solutions extending `a` within `d1` is excluded
      within any working domains with the same contents. */
  lemma ExcludedUnderSameContents<V(!new), Val(!new)>(p: Problem<V, Val>, a: map<V, Val>, d1: map<V, seq<Val>>,
                                                      d2: map<V, seq<Val>>, v: V, value: Val)
    requires v in p.variables && SameContents(d1, d2)
    requires forall s :: IsSolution(p, s) && Extends(s, a, d1) ==> s[v] != value
    ensures forall s :: IsSolution(p, s) && Extends(s, a, d2) ==> s[v] != value
  {
    forall s | IsSolution(p, s) && Extends(s, a, d2) ensures s[v] != value {
      SameContentsSymmetric(d1, d2);
      ExtendsSameContents(s, a, d2, d1);
    }
  }
}
