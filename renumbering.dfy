/** Renumbering the vertices (or faces) of the mesh being added.

    Given the correlated pairs (ID in the kept mesh, ID in the added mesh),
    every added-mesh ID `o` below `n` gets a new ID: a correlated `o` takes its
    kept-mesh counterpart, and the uncorrelated IDs are numbered `base`,
    `base + 1`, ... in increasing order of `o`. This is how `vertex_map`
    (fipy/meshes/abstractMesh.py:357-360) and `face_map` (407-410) are built. */
module Renumbering {

  /** Correlated pairs: `.0` is the ID in the kept mesh, `.1` the ID in the added mesh. */
  type Correlates = seq<(nat, nat)>

  function Others(pairs: Correlates): set<nat> {
    set i | 0 <= i < |pairs| :: pairs[i].1
  }

  predicate DistinctOthers(pairs: Correlates) {
    forall i, j | 0 <= i < j < |pairs| :: pairs[i].1 != pairs[j].1
  }

  predicate StrictlyIncreasing(s: seq<nat>) {
    forall i, j | 0 <= i < j < |s| :: s[i] < s[j]
  }

  /** `numerix.delete(numerix.arange(n), removed)`: the IDs below `n` that are
      not removed, in increasing order. */
  function Remaining(n: nat, removed: set<nat>): (r: seq<nat>)
    ensures |r| <= n
    ensures forall i | 0 <= i < |r| :: r[i] < n && r[i] !in removed
    ensures StrictlyIncreasing(r)
    decreases n
  {
    if n == 0 then []
    else
      var prev := Remaining(n - 1, removed);
      if n - 1 in removed then prev else prev + [n - 1]
  }

  /** A shorter range gives a prefix. */
  lemma {:induction false} RemainingPrefix(m: nat, n: nat, removed: set<nat>)
    requires m <= n
    ensures |Remaining(m, removed)| <= |Remaining(n, removed)|
    ensures Remaining(m, removed) == Remaining(n, removed)[..|Remaining(m, removed)|]
    decreases n
  {
    if m < n {
      RemainingPrefix(m, n - 1, removed);
    }
  }

  /** An ID that is not removed sits at the position given by the number of
      remaining IDs below it. */
  lemma RemainingRank(n: nat, removed: set<nat>, o: nat)
    requires o < n && o !in removed
    ensures |Remaining(o, removed)| < |Remaining(n, removed)|
    ensures Remaining(n, removed)[|Remaining(o, removed)|] == o
  {
    RemainingPrefix(o + 1, n, removed);
    assert Remaining(o + 1, removed) == Remaining(o, removed) + [o];
  }

  /** The remaining IDs are exactly those below `n` that are not removed. */
  lemma RemainingMembers(n: nat, removed: set<nat>, x: nat)
    ensures x in Remaining(n, removed) <==> x < n && x !in removed
  {
    if x < n && x !in removed {
      RemainingRank(n, removed, x);
    }
  }

  /** The k-th remaining ID has exactly k remaining IDs below it. */
  lemma RemainingIndex(n: nat, removed: set<nat>, k: nat)
    requires k < |Remaining(n, removed)|
    ensures |Remaining(Remaining(n, removed)[k], removed)| == k
  {
    var r := Remaining(n, removed);
    assert r[k] in r;
    RemainingRank(n, removed, r[k]);
  }

  /** Removing an ID at or above `n` changes nothing below `n`. */
  lemma {:induction false} RemainingIgnoresAbove(n: nat, removed: set<nat>, x: nat)
    requires n <= x
    ensures Remaining(n, removed + {x}) == Remaining(n, removed)
    decreases n
  {
    if n > 0 {
      RemainingIgnoresAbove(n - 1, removed, x);
    }
  }

  /** Removing one more ID below `n` shortens the list by one. */
  lemma {:induction false} RemainingRemoveOne(n: nat, removed: set<nat>, x: nat)
    requires x < n && x !in removed
    ensures |Remaining(n, removed + {x})| + 1 == |Remaining(n, removed)|
    decreases n
  {
    if x == n - 1 {
      RemainingIgnoresAbove(n - 1, removed, x);
    } else {
      RemainingRemoveOne(n - 1, removed, x);
    }
  }

  lemma {:induction false} RemainingNone(n: nat)
    ensures Remaining(n, {}) == seq(n, i => i)
    decreases n
  {
    if n > 0 {
      RemainingNone(n - 1);
    }
  }

  /** With distinct correlated IDs below `n`, exactly `n - |pairs|` IDs are left
      to append (the length `arange(n - len(correlates))` at lines 359 and 409). */
  lemma {:induction false} RemainingCount(n: nat, pairs: Correlates)
    requires DistinctOthers(pairs) && forall i | 0 <= i < |pairs| :: pairs[i].1 < n
    ensures |Remaining(n, Others(pairs))| == n - |pairs|
    decreases |pairs|
  {
    if pairs == [] {
      assert Others(pairs) == {};
      RemainingNone(n);
    } else {
      var init := pairs[..|pairs| - 1];
      var last := pairs[|pairs| - 1];
      assert Others(pairs) == Others(init) + {last.1} by {
        forall x ensures x in Others(pairs) <==> x in Others(init) + {last.1} {
          if x in Others(pairs) {
            var i :| 0 <= i < |pairs| && pairs[i].1 == x;
            if i < |pairs| - 1 { assert init[i].1 == x; }
          }
          if x in Others(init) {
            var i :| 0 <= i < |init| && init[i].1 == x;
            assert pairs[i].1 == x;
          }
        }
      }
      assert last.1 !in Others(init) by {
        assert forall i | 0 <= i < |init| :: init[i].1 == pairs[i].1 != last.1;
      }
      RemainingCount(n, init);
      RemainingRemoveOne(n, Others(init), last.1);
    }
  }

  /** The kept-mesh ID of a correlated added-mesh ID: the scatter
      `vertex_map[correlates[1]] = correlates[0]` keeps the last pair naming it. */
  function Counterpart(pairs: Correlates, o: nat): nat
    requires o in Others(pairs)
    decreases |pairs|
  {
    var last := pairs[|pairs| - 1];
    if last.1 == o then last.0
    else
      assert o in Others(pairs[..|pairs| - 1]) by {
        var i :| 0 <= i < |pairs| && pairs[i].1 == o;
        assert pairs[..|pairs| - 1][i].1 == o;
      }
      Counterpart(pairs[..|pairs| - 1], o)
  }

  /** With distinct added-mesh IDs, a pair's added ID maps to its own kept ID. */
  lemma {:induction false} CounterpartOfPair(pairs: Correlates, i: nat)
    requires DistinctOthers(pairs) && i < |pairs|
    ensures pairs[i].1 in Others(pairs) && Counterpart(pairs, pairs[i].1) == pairs[i].0
    decreases |pairs|
  {
    assert pairs[i].1 in Others(pairs);
    if i < |pairs| - 1 {
      var init := pairs[..|pairs| - 1];
      assert init[i] == pairs[i];
      CounterpartOfPair(init, i);
    }
  }

  /** The renumbering as a whole: entry `o` is the new ID of added-mesh ID `o`. */
  function RenumberingOf(n: nat, base: nat, pairs: Correlates): (m: seq<nat>)
    ensures |m| == n
  {
    var removed := Others(pairs);
    seq(n, o requires 0 <= o < n =>
      if o in removed then Counterpart(pairs, o) else base + |Remaining(o, removed)|)
  }

  /** A correlated ID maps to its kept-mesh counterpart. */
  lemma RenumberingCorrelated(n: nat, base: nat, pairs: Correlates, i: nat)
    requires DistinctOthers(pairs) && i < |pairs| && pairs[i].1 < n
    ensures RenumberingOf(n, base, pairs)[pairs[i].1] == pairs[i].0
  {
    CounterpartOfPair(pairs, i);
  }

  /** The k-th uncorrelated ID, in increasing order, maps to `base + k`. */
  lemma RenumberingAppended(n: nat, base: nat, pairs: Correlates, k: nat)
    requires k < |Remaining(n, Others(pairs))|
    ensures RenumberingOf(n, base, pairs)[Remaining(n, Others(pairs))[k]] == base + k
  {
    var r := Remaining(n, Others(pairs));
    assert r[k] in r;
    RemainingIndex(n, Others(pairs), k);
  }

  /** Uncorrelated IDs keep their relative order. */
  lemma RenumberingMonotone(n: nat, base: nat, pairs: Correlates, o1: nat, o2: nat)
    requires o1 < o2 < n && o1 !in Others(pairs) && o2 !in Others(pairs)
    ensures RenumberingOf(n, base, pairs)[o1] < RenumberingOf(n, base, pairs)[o2]
  {
    RemainingRank(o2, Others(pairs), o1);
  }

  /** Correlated IDs land below `base` when the kept IDs do; the others land in
      `[base, base + number appended)`. */
  lemma RenumberingBounds(n: nat, base: nat, pairs: Correlates, o: nat)
    requires o < n
    requires forall i | 0 <= i < |pairs| :: pairs[i].0 < base
    ensures o in Others(pairs) ==> RenumberingOf(n, base, pairs)[o] < base
    ensures o !in Others(pairs) ==>
      base <= RenumberingOf(n, base, pairs)[o] < base + |Remaining(n, Others(pairs))|
  {
    if o in Others(pairs) {
      CounterpartBelow(pairs, o, base);
    } else {
      RemainingRank(n, Others(pairs), o);
    }
  }

  lemma {:induction false} CounterpartBelow(pairs: Correlates, o: nat, base: nat)
    requires o in Others(pairs)
    requires forall i | 0 <= i < |pairs| :: pairs[i].0 < base
    ensures Counterpart(pairs, o) < base
    decreases |pairs|
  {
    if pairs[|pairs| - 1].1 != o {
      var init := pairs[..|pairs| - 1];
      assert forall i | 0 <= i < |init| :: init[i] == pairs[i];
      assert o in Others(init) by {
        var i :| 0 <= i < |pairs| && pairs[i].1 == o;
        assert init[i].1 == o;
      }
      CounterpartBelow(init, o, base);
    }
  }

  /** `map = empty(n)`; `map[toAdd] = arange(len) + base`; `map[others] = kept`:
      the two scatter-writes of lines 357-360 (and 407-410). */
  method BuildRenumbering(n: nat, base: nat, pairs: Correlates) returns (toAdd: seq<nat>, m: seq<nat>)
    requires DistinctOthers(pairs) && forall i | 0 <= i < |pairs| :: pairs[i].1 < n
    ensures toAdd == Remaining(n, Others(pairs))
    ensures |toAdd| == n - |pairs|
    ensures m == RenumberingOf(n, base, pairs)
  {
    toAdd := Remaining(n, Others(pairs));
    RemainingCount(n, pairs);
    var a := new nat[n];
    var k := 0;
    while k < |toAdd|
      invariant k <= |toAdd|
      invariant forall k' | 0 <= k' < k :: a[toAdd[k']] == base + k'
    {
      a[toAdd[k]] := base + k;
      k := k + 1;
    }
    var i := 0;
    while i < |pairs|
      invariant i <= |pairs|
      invariant forall k' | 0 <= k' < |toAdd| :: a[toAdd[k']] == base + k'
      invariant forall j | 0 <= j < i :: a[pairs[j].1] == pairs[j].0
    {
      assert pairs[i].1 !in toAdd by {
        assert pairs[i].1 in Others(pairs);
      }
      a[pairs[i].1] := pairs[i].0;
      i := i + 1;
    }
    m := a[..];
    ScatterIsRenumbering(n, base, pairs, m);
  }

  /** A table holding `base + k` at the k-th uncorrelated ID and the kept ID
      at every correlated one is the renumbering. */
  lemma ScatterIsRenumbering(n: nat, base: nat, pairs: Correlates, m: seq<nat>)
    requires DistinctOthers(pairs) && forall i | 0 <= i < |pairs| :: pairs[i].1 < n
    requires |m| == n
    requires var toAdd := Remaining(n, Others(pairs));
      forall k | 0 <= k < |toAdd| :: m[toAdd[k]] == base + k
    requires forall j | 0 <= j < |pairs| :: m[pairs[j].1] == pairs[j].0
    ensures m == RenumberingOf(n, base, pairs)
  {
    forall o | 0 <= o < n ensures m[o] == RenumberingOf(n, base, pairs)[o] {
      if o in Others(pairs) {
        var j :| 0 <= j < |pairs| && pairs[j].1 == o;
        CounterpartOfPair(pairs, j);
      } else {
        RemainingRank(n, Others(pairs), o);
      }
    }
  }
}
