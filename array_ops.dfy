/** The two vectorised array operations the face connection is written in:
    `take` (gather) and `put` (scatter). A `put` whose index list repeats an
    index writes in index-list order, so the last write to a slot wins. */
module ArrayOps {

  predicate InRange(idx: seq<nat>, n: nat) {
    forall k | 0 <= k < |idx| :: idx[k] < n
  }

  predicate Distinct(idx: seq<nat>) {
    forall k, k' | 0 <= k < k' < |idx| :: idx[k] != idx[k']
  }

  /** `s.take(idx)`: the elements of `s` at the positions listed in `idx`. */
  function Take<T>(s: seq<T>, idx: seq<nat>): (r: seq<T>)
    requires InRange(idx, |s|)
    ensures |r| == |idx| && forall k | 0 <= k < |idx| :: r[k] == s[idx[k]]
  {
    seq(|idx|, k requires 0 <= k < |idx| => s[idx[k]])
  }

  /** `s.put(idx, vals)` on a copy of `s`: `vals[k]` is written at `idx[k]`
      for k = 0, 1, ... in turn. */
  function Put<T>(s: seq<T>, idx: seq<nat>, vals: seq<T>): (r: seq<T>)
    requires |idx| == |vals| && InRange(idx, |s|)
    ensures |r| == |s|
    decreases |idx|
  {
    if idx == [] then s
    else Put(s, idx[..|idx| - 1], vals[..|vals| - 1])[idx[|idx| - 1] := vals[|vals| - 1]]
  }

  /** A slot that no index names keeps its value. */
  lemma {:induction false} PutUntouched<T>(s: seq<T>, idx: seq<nat>, vals: seq<T>, p: nat)
    requires |idx| == |vals| && InRange(idx, |s|) && p < |s|
    requires forall k | 0 <= k < |idx| :: idx[k] != p
    ensures Put(s, idx, vals)[p] == s[p]
    decreases |idx|
  {
    if idx != [] {
      PutUntouched(s, idx[..|idx| - 1], vals[..|vals| - 1], p);
    }
  }

  /** The last write to a slot is the one that survives. */
  lemma {:induction false} PutLastWins<T>(s: seq<T>, idx: seq<nat>, vals: seq<T>, k: nat)
    requires |idx| == |vals| && InRange(idx, |s|) && k < |idx|
    requires forall k' | k < k' < |idx| :: idx[k'] != idx[k]
    ensures Put(s, idx, vals)[idx[k]] == vals[k]
    decreases |idx|
  {
    if k < |idx| - 1 {
      PutLastWins(s, idx[..|idx| - 1], vals[..|vals| - 1], k);
    }
  }

  /** With distinct indices every listed slot holds its value. */
  lemma PutDistinct<T>(s: seq<T>, idx: seq<nat>, vals: seq<T>, k: nat)
    requires |idx| == |vals| && InRange(idx, |s|) && k < |idx| && Distinct(idx)
    ensures Put(s, idx, vals)[idx[k]] == vals[k]
  {
    PutLastWins(s, idx, vals, k);
  }

  /** Every slot after a `put` holds either its old value or one of the written values. */
  lemma {:induction false} PutFrom<T>(s: seq<T>, idx: seq<nat>, vals: seq<T>, p: nat)
    requires |idx| == |vals| && InRange(idx, |s|) && p < |s|
    ensures Put(s, idx, vals)[p] == s[p] || exists k | 0 <= k < |idx| :: idx[k] == p && Put(s, idx, vals)[p] == vals[k]
    decreases |idx|
  {
    if idx != [] {
      var n := |idx| - 1;
      if idx[n] != p {
        PutFrom(s, idx[..n], vals[..n], p);
        if Put(s, idx, vals)[p] != s[p] {
          var k :| 0 <= k < n && idx[..n][k] == p && Put(s, idx[..n], vals[..n])[p] == vals[..n][k];
          assert idx[k] == p && Put(s, idx, vals)[p] == vals[k];
        }
      }
    }
  }
}
