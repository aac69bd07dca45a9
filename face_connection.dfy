/** The array rewrites of `_connectFaces` (fipy/meshes/abstractMesh.py:162-258),
    stated as functions of the arrays before the call.

    `faces0[j]` and `faces1[j]` are paired exterior faces of one mesh. The
    faces of `faces0` become interior: they take the owner cell of their
    partner as a second neighbour, the summed face-to-cell distances, and the
    partner's normal; the cells that owned a `faces1` face are made to list
    the paired `faces0` face instead. */
module FaceConnection {
  import opened Masked
  import opened ArrayOps

  /** The two rows of a 2 x numberOfFaces table after lines 206-212
      (`faceCellIDs`) or 215-221 (`_faceToCellDistances`): slot 1 of each
      `faces0` column is set to the old slot 0 of that column, then slot 0 to
      the old slot 0 of the paired `faces1` column. Both gathers read the old
      row 0. */
  function ConnectedRows<T>(row0: seq<T>, row1: seq<T>, faces0: seq<nat>, faces1: seq<nat>): (r: (seq<T>, seq<T>))
    requires |row1| == |row0| && |faces0| == |faces1|
    requires InRange(faces0, |row0|) && InRange(faces1, |row0|)
    ensures |r.0| == |r.1| == |row0|
  {
    (Put(row0, faces0, Take(row0, faces1)), Put(row1, faces0, Take(row0, faces0)))
  }

  /** For distinct `faces0`: column `faces0[j]` now holds (old slot 0 of
      `faces1[j]`, old slot 0 of `faces0[j]`). */
  lemma ConnectedRowsAt<T>(row0: seq<T>, row1: seq<T>, faces0: seq<nat>, faces1: seq<nat>, j: nat)
    requires |row1| == |row0| && |faces0| == |faces1|
    requires InRange(faces0, |row0|) && InRange(faces1, |row0|)
    requires Distinct(faces0) && j < |faces0|
    ensures ConnectedRows(row0, row1, faces0, faces1).0[faces0[j]] == row0[faces1[j]]
    ensures ConnectedRows(row0, row1, faces0, faces1).1[faces0[j]] == row0[faces0[j]]
  {
    PutDistinct(row0, faces0, Take(row0, faces1), j);
    PutDistinct(row1, faces0, Take(row0, faces0), j);
  }

  /** Columns outside `faces0` keep both slots. */
  lemma ConnectedRowsElsewhere<T>(row0: seq<T>, row1: seq<T>, faces0: seq<nat>, faces1: seq<nat>, f: nat)
    requires |row1| == |row0| && |faces0| == |faces1|
    requires InRange(faces0, |row0|) && InRange(faces1, |row0|)
    requires f < |row0| && f !in faces0
    ensures ConnectedRows(row0, row1, faces0, faces1).0[f] == row0[f]
    ensures ConnectedRows(row0, row1, faces0, faces1).1[f] == row1[f]
  {
    PutUntouched(row0, faces0, Take(row0, faces1), f);
    PutUntouched(row1, faces0, Take(row0, faces0), f);
  }

  function SumRows(a: seq<real>, b: seq<real>): (r: seq<real>)
    requires |a| == |b|
    ensures |r| == |a| && forall f | 0 <= f < |a| :: r[f] == a[f] + b[f]
  {
    seq(|a|, f requires 0 <= f < |a| => a[f] + b[f])
  }

  /** `_cellDistances` after lines 223-227: at `faces0` the sum of the two
      (already rewritten) face-to-cell distances. */
  function ConnectedCellDistances(cellDistances: seq<real>, dist0: seq<real>, dist1: seq<real>, faces0: seq<nat>): (r: seq<real>)
    requires |dist0| == |dist1| == |cellDistances| && InRange(faces0, |cellDistances|)
    ensures |r| == |cellDistances|
  {
    Put(cellDistances, faces0, Take(SumRows(dist0, dist1), faces0))
  }

  /** A `put` of values gathered from `t` at the same indices copies `t` at
      every listed slot, however often the slot is listed. */
  lemma {:induction false} PutGathered<T>(s: seq<T>, idx: seq<nat>, t: seq<T>, p: nat)
    requires |t| == |s| && InRange(idx, |s|) && p < |s|
    ensures Put(s, idx, Take(t, idx))[p] == if p in idx then t[p] else s[p]
    decreases |idx|
  {
    if idx != [] {
      var n := |idx| - 1;
      assert Take(t, idx)[..n] == Take(t, idx[..n]);
      PutGathered(s, idx[..n], t, p);
      assert p in idx <==> p in idx[..n] || p == idx[n] by {
        assert idx == idx[..n] + [idx[n]];
      }
    }
  }

  /** The cell distance at each `faces0` face is the sum of its two new
      face-to-cell distances, and every other face keeps its cell distance. */
  lemma ConnectedCellDistancesAt(cellDistances: seq<real>, dist0: seq<real>, dist1: seq<real>, faces0: seq<nat>, f: nat)
    requires |dist0| == |dist1| == |cellDistances| && InRange(faces0, |cellDistances|) && f < |cellDistances|
    ensures f in faces0 ==> ConnectedCellDistances(cellDistances, dist0, dist1, faces0)[f] == dist0[f] + dist1[f]
    ensures f !in faces0 ==> ConnectedCellDistances(cellDistances, dist0, dist1, faces0)[f] == cellDistances[f]
  {
    PutGathered(cellDistances, faces0, SumRows(dist0, dist1), f);
  }

  predicate RowsOfLength(rows: seq<seq<real>>, n: nat) {
    forall d | 0 <= d < |rows| :: |rows[d]| == n
  }

  /** One row of `_faceNormals` after line 233: each `faces0` entry takes the
      paired `faces1` entry. */
  function ConnectedNormalRow(row: seq<real>, faces0: seq<nat>, faces1: seq<nat>): (r: seq<real>)
    requires |faces0| == |faces1| && InRange(faces0, |row|) && InRange(faces1, |row|)
    ensures |r| == |row|
  {
    Put(row, faces0, Take(row, faces1))
  }

  /** `_faceNormals` after the loop over dimensions of lines 231-234. */
  function ConnectedNormals(normals: seq<seq<real>>, n: nat, faces0: seq<nat>, faces1: seq<nat>): (r: seq<seq<real>>)
    requires RowsOfLength(normals, n) && |faces0| == |faces1| && InRange(faces0, n) && InRange(faces1, n)
    ensures |r| == |normals| && RowsOfLength(r, n)
  {
    seq(|normals|, d requires 0 <= d < |normals| => ConnectedNormalRow(normals[d], faces0, faces1))
  }

  /** For distinct `faces0`, every component of the normal of `faces0[j]` is
      now that of `faces1[j]`; normals of faces outside `faces0` are unchanged. */
  lemma ConnectedNormalsAt(normals: seq<seq<real>>, n: nat, faces0: seq<nat>, faces1: seq<nat>, d: nat, f: nat)
    requires RowsOfLength(normals, n) && |faces0| == |faces1| && InRange(faces0, n) && InRange(faces1, n)
    requires Distinct(faces0) && d < |normals| && f < n
    ensures forall j | 0 <= j < |faces0| && faces0[j] == f ::
      ConnectedNormals(normals, n, faces0, faces1)[d][f] == normals[d][faces1[j]]
    ensures f !in faces0 ==> ConnectedNormals(normals, n, faces0, faces1)[d][f] == normals[d][f]
  {
    forall j | 0 <= j < |faces0| && faces0[j] == f
      ensures ConnectedNormals(normals, n, faces0, faces1)[d][f] == normals[d][faces1[j]]
    {
      PutDistinct(normals[d], faces0, Take(normals[d], faces1), j);
    }
    if f !in faces0 {
      PutUntouched(normals[d], faces0, Take(normals[d], faces1), f);
    }
  }

  // ---------------------------------------------------------------------
  // cellFaceIDs (lines 236-250)

  /** Row `i` of a table (slot `i` of every column). */
  function RowOf(t: Table, i: nat): (r: seq<Option<nat>>)
    requires Shaped(t) && i < t.height
    ensures |r| == Width(t) && forall c | 0 <= c < Width(t) :: r[c] == t.cols[c][i]
  {
    seq(|t.cols|, c requires 0 <= c < |t.cols| => t.cols[c][i])
  }

  /** Lines 246-248: slot `j` of the gathered row becomes `faces0[j]` when it
      holds `faces1[j]`; masked slots stay masked. */
  function Redirect(local: seq<Option<nat>>, faces0: seq<nat>, faces1: seq<nat>): (r: seq<Option<nat>>)
    requires |local| == |faces0| == |faces1|
    ensures |r| == |local|
    ensures forall j | 0 <= j < |local| :: r[j] == if local[j] == Some(faces1[j]) then Some(faces0[j]) else local[j]
  {
    seq(|local|, j requires 0 <= j < |local| => if local[j] == Some(faces1[j]) then Some(faces0[j]) else local[j])
  }

  /** Row `i` after line 250: the redirected gathered row put back at the
      owner cells, in pair order (a cell listed twice keeps its last write). */
  function RedirectedRow(t: Table, owners: seq<nat>, faces0: seq<nat>, faces1: seq<nat>, i: nat): (r: seq<Option<nat>>)
    requires Shaped(t) && i < t.height && InRange(owners, Width(t))
    requires |owners| == |faces0| == |faces1|
    ensures |r| == Width(t)
  {
    var row := RowOf(t, i);
    Put(row, owners, Redirect(Take(row, owners), faces0, faces1))
  }

  /** `cellFaceIDs` after the loop over rows of lines 243-250, as written:
      `owners[j]` is the cell that owns `faces1[j]`. */
  function RedirectedCellFaces(t: Table, owners: seq<nat>, faces0: seq<nat>, faces1: seq<nat>): (r: Table)
    requires Shaped(t) && InRange(owners, Width(t))
    requires |owners| == |faces0| == |faces1|
    ensures Shaped(r) && r.height == t.height && Width(r) == Width(t)
    ensures forall c, i | 0 <= c < Width(t) && 0 <= i < t.height ::
      r.cols[c][i] == RedirectedRow(t, owners, faces0, faces1, i)[c]
  {
    Table(t.height, seq(|t.cols|, c requires 0 <= c < |t.cols| =>
      seq(t.height, i requires 0 <= i < t.height => RedirectedRow(t, owners, faces0, faces1, i)[c])))
  }

  /** When no cell owns two of the `faces1` faces, the rewrite does what the
      source's comment promises: in the owner of `faces1[j]` every slot naming
      `faces1[j]` now names `faces0[j]`; all other slots of that cell and all
      slots of every other cell are unchanged. */
  lemma RedirectedCellFacesAt(t: Table, owners: seq<nat>, faces0: seq<nat>, faces1: seq<nat>, c: nat, i: nat)
    requires Shaped(t) && InRange(owners, Width(t))
    requires |owners| == |faces0| == |faces1|
    requires Distinct(owners) && c < Width(t) && i < t.height
    ensures forall j | 0 <= j < |owners| && owners[j] == c ::
      RedirectedCellFaces(t, owners, faces0, faces1).cols[c][i] ==
        if t.cols[c][i] == Some(faces1[j]) then Some(faces0[j]) else t.cols[c][i]
    ensures c !in owners ==> RedirectedCellFaces(t, owners, faces0, faces1).cols[c][i] == t.cols[c][i]
  {
    var row := RowOf(t, i);
    var vals := Redirect(Take(row, owners), faces0, faces1);
    forall j | 0 <= j < |owners| && owners[j] == c
      ensures RedirectedCellFaces(t, owners, faces0, faces1).cols[c][i] ==
        if t.cols[c][i] == Some(faces1[j]) then Some(faces0[j]) else t.cols[c][i]
    {
      PutDistinct(row, owners, vals, j);
    }
    if c !in owners {
      PutUntouched(row, owners, vals, c);
    }
  }

  /** The rewrite only ever writes existing IDs or `faces0` IDs, so a table of
      face IDs below `n` stays below `n`. */
  lemma RedirectedCellFacesBounded(t: Table, owners: seq<nat>, faces0: seq<nat>, faces1: seq<nat>, n: nat)
    requires Shaped(t) && InRange(owners, Width(t))
    requires |owners| == |faces0| == |faces1|
    requires Bounded(t, n) && InRange(faces0, n)
    ensures Bounded(RedirectedCellFaces(t, owners, faces0, faces1), n)
  {
    var r := RedirectedCellFaces(t, owners, faces0, faces1);
    forall c, i | 0 <= c < Width(r) && 0 <= i < |r.cols[c]| && r.cols[c][i].Some?
      ensures r.cols[c][i].value < n
    {
      var row := RowOf(t, i);
      var vals := Redirect(Take(row, owners), faces0, faces1);
      PutFrom(row, owners, vals, c);
    }
  }

  // ---------------------------------------------------------------------
  // The rewrite as evidently intended: one pair at a time.

  /** Every slot of `col` naming `g` now names `f`. */
  function ReplaceIn(col: Column, g: nat, f: nat): (r: Column)
    ensures |r| == |col|
    ensures forall i | 0 <= i < |col| :: r[i] == if col[i] == Some(g) then Some(f) else col[i]
  {
    seq(|col|, i requires 0 <= i < |col| => if col[i] == Some(g) then Some(f) else col[i])
  }

  /** One cell's face list after redirecting pair 0, then pair 1, ...:
      for every pair `j` that cell `c` owns, `faces1[j]` is replaced by
      `faces0[j]`. */
  function RedirectColumn(col: Column, c: nat, owners: seq<nat>, faces0: seq<nat>, faces1: seq<nat>): (r: Column)
    requires |owners| == |faces0| == |faces1|
    ensures |r| == |col|
    decreases |owners|
  {
    if owners == [] then col
    else
      var k := |owners| - 1;
      var prev := RedirectColumn(col, c, owners[..k], faces0[..k], faces1[..k]);
      if owners[k] == c then ReplaceIn(prev, faces1[k], faces0[k]) else prev
  }

  /** The cells' face lists after redirecting pair 0, then pair 1, ...: in the
      owner of `faces1[j]`, `faces1[j]` is replaced by `faces0[j]`. */
  function RedirectEach(t: Table, owners: seq<nat>, faces0: seq<nat>, faces1: seq<nat>): (r: Table)
    requires Shaped(t) && InRange(owners, Width(t))
    requires |owners| == |faces0| == |faces1|
    ensures Shaped(r) && r.height == t.height && Width(r) == Width(t)
    ensures forall c | 0 <= c < Width(t) :: r.cols[c] == RedirectColumn(t.cols[c], c, owners, faces0, faces1)
  {
    Table(t.height, seq(|t.cols|, c requires 0 <= c < |t.cols| => RedirectColumn(t.cols[c], c, owners, faces0, faces1)))
  }

  /** No `faces0` face is also a `faces1` face. */
  predicate Disjoint(faces0: seq<nat>, faces1: seq<nat>) {
    forall j, j' | 0 <= j < |faces0| && 0 <= j' < |faces1| :: faces0[j] != faces1[j']
  }

  /** One slot of one cell under the intended rewrite, for distinct
      `faces1` disjoint from `faces0`. */
  lemma {:induction false} RedirectColumnAt(col: Column, c: nat, owners: seq<nat>, faces0: seq<nat>, faces1: seq<nat>, i: nat)
    requires |owners| == |faces0| == |faces1|
    requires Distinct(faces1) && Disjoint(faces0, faces1) && i < |col|
    ensures forall j | 0 <= j < |owners| && owners[j] == c && col[i] == Some(faces1[j]) ::
      RedirectColumn(col, c, owners, faces0, faces1)[i] == Some(faces0[j])
    ensures (forall j | 0 <= j < |owners| && owners[j] == c :: col[i] != Some(faces1[j])) ==>
      RedirectColumn(col, c, owners, faces0, faces1)[i] == col[i]
    decreases |owners|
  {
    if owners != [] {
      var k := |owners| - 1;
      var o', f0', f1' := owners[..k], faces0[..k], faces1[..k];
      assert Distinct(f1') && Disjoint(f0', f1');
      RedirectColumnAt(col, c, o', f0', f1', i);
      var prev := RedirectColumn(col, c, o', f0', f1');
      forall j | 0 <= j < |owners| && owners[j] == c && col[i] == Some(faces1[j])
        ensures RedirectColumn(col, c, owners, faces0, faces1)[i] == Some(faces0[j])
      {
        if j < k {
          assert o'[j] == c && col[i] == Some(f1'[j]);
          assert prev[i] == Some(faces0[j]);
          assert faces0[j] != faces1[k];
        } else {
          assert forall j' | 0 <= j' < k && o'[j'] == c :: col[i] != Some(f1'[j']);
        }
      }
      if forall j | 0 <= j < |owners| && owners[j] == c :: col[i] != Some(faces1[j]) {
        assert forall j' | 0 <= j' < k && o'[j'] == c :: col[i] != Some(f1'[j']);
      }
    }
  }

  /** The intended rewrite, for distinct `faces1` disjoint from `faces0` and
      any owners (a cell may own several `faces1` faces): every slot of the
      owner of `faces1[j]` that names `faces1[j]` now names `faces0[j]`, and
      every slot that names none of its owned `faces1` faces is unchanged. */
  lemma RedirectEachAt(t: Table, owners: seq<nat>, faces0: seq<nat>, faces1: seq<nat>, c: nat, i: nat)
    requires Shaped(t) && InRange(owners, Width(t))
    requires |owners| == |faces0| == |faces1|
    requires Distinct(faces1) && Disjoint(faces0, faces1)
    requires c < Width(t) && i < t.height
    ensures forall j | 0 <= j < |owners| && owners[j] == c && t.cols[c][i] == Some(faces1[j]) ::
      RedirectEach(t, owners, faces0, faces1).cols[c][i] == Some(faces0[j])
    ensures (forall j | 0 <= j < |owners| && owners[j] == c :: t.cols[c][i] != Some(faces1[j])) ==>
      RedirectEach(t, owners, faces0, faces1).cols[c][i] == t.cols[c][i]
  {
    RedirectColumnAt(t.cols[c], c, owners, faces0, faces1, i);
  }

  /** With distinct owner cells the rewrite as written and the intended one agree. */
  lemma RedirectedAgreesWhenOwnersDistinct(t: Table, owners: seq<nat>, faces0: seq<nat>, faces1: seq<nat>)
    requires Shaped(t) && InRange(owners, Width(t))
    requires |owners| == |faces0| == |faces1|
    requires Distinct(owners)
    ensures RedirectedCellFaces(t, owners, faces0, faces1) == RedirectEach(t, owners, faces0, faces1)
  {
    var a := RedirectedCellFaces(t, owners, faces0, faces1);
    var b := RedirectEach(t, owners, faces0, faces1);
    forall c | 0 <= c < Width(t) ensures a.cols[c] == b.cols[c] {
      RedirectEachColumn(t, owners, faces0, faces1, c);
      forall i | 0 <= i < t.height ensures a.cols[c][i] == b.cols[c][i] {
        RedirectedCellFacesAt(t, owners, faces0, faces1, c, i);
      }
    }
  }

  /** With distinct owners, a cell's column is replaced at most once. */
  lemma {:induction false} RedirectColumnDistinct(col: Column, c: nat, owners: seq<nat>, faces0: seq<nat>, faces1: seq<nat>)
    requires |owners| == |faces0| == |faces1| && Distinct(owners)
    ensures forall j | 0 <= j < |owners| && owners[j] == c ::
      RedirectColumn(col, c, owners, faces0, faces1) == ReplaceIn(col, faces1[j], faces0[j])
    ensures c !in owners ==> RedirectColumn(col, c, owners, faces0, faces1) == col
    decreases |owners|
  {
    if owners != [] {
      var k := |owners| - 1;
      RedirectColumnDistinct(col, c, owners[..k], faces0[..k], faces1[..k]);
      if owners[k] != c {
        assert c in owners ==> c in owners[..k];
      } else {
        assert c !in owners[..k];
      }
    }
  }

  /** With distinct owners, each owner column is replaced once. */
  lemma RedirectEachColumn(t: Table, owners: seq<nat>, faces0: seq<nat>, faces1: seq<nat>, c: nat)
    requires Shaped(t) && InRange(owners, Width(t))
    requires |owners| == |faces0| == |faces1|
    requires Distinct(owners) && c < Width(t)
    ensures forall j | 0 <= j < |owners| && owners[j] == c ::
      RedirectEach(t, owners, faces0, faces1).cols[c] == ReplaceIn(t.cols[c], faces1[j], faces0[j])
    ensures c !in owners ==> RedirectEach(t, owners, faces0, faces1).cols[c] == t.cols[c]
  {
    RedirectColumnDistinct(t.cols[c], c, owners, faces0, faces1);
  }

  /** The intended rewrite only ever writes `faces0` IDs, so a column of
      real face IDs stays one. */
  lemma {:induction false} RedirectColumnBounded(col: Column, c: nat, owners: seq<nat>, faces0: seq<nat>, faces1: seq<nat>, n: nat)
    requires |owners| == |faces0| == |faces1| && InRange(faces0, n)
    requires forall i | 0 <= i < |col| :: col[i].Some? ==> col[i].value < n
    ensures forall i | 0 <= i < |col| ::
      RedirectColumn(col, c, owners, faces0, faces1)[i].Some? ==> RedirectColumn(col, c, owners, faces0, faces1)[i].value < n
    decreases |owners|
  {
    if owners != [] {
      var k := |owners| - 1;
      RedirectColumnBounded(col, c, owners[..k], faces0[..k], faces1[..k], n);
    }
  }

  lemma RedirectEachBounded(t: Table, owners: seq<nat>, faces0: seq<nat>, faces1: seq<nat>, n: nat)
    requires Shaped(t) && InRange(owners, Width(t))
    requires |owners| == |faces0| == |faces1|
    requires Bounded(t, n) && InRange(faces0, n)
    ensures Bounded(RedirectEach(t, owners, faces0, faces1), n)
  {
    forall c | 0 <= c < Width(t) {
      RedirectColumnBounded(t.cols[c], c, owners, faces0, faces1, n);
    }
  }

  // ---------------------------------------------------------------------
  // Row access used by the loop over rows, and facts the loop relies on.

  /** The table with row `i` replaced by `row`. */
  function SetRow(t: Table, i: nat, row: seq<Option<nat>>): (r: Table)
    requires Shaped(t) && i < t.height && |row| == Width(t)
    ensures Shaped(r) && r.height == t.height && Width(r) == Width(t)
    ensures forall c, i' | 0 <= c < Width(t) && 0 <= i' < t.height ::
      r.cols[c][i'] == if i' == i then row[c] else t.cols[c][i']
  {
    Table(t.height, seq(|t.cols|, c requires 0 <= c < |t.cols| => t.cols[c][i := row[c]]))
  }

  /** Every present entry of the row names one of `n` cells. */
  predicate OwnedWhenPresent(row: seq<Option<nat>>, n: nat) {
    forall f | 0 <= f < |row| :: row[f].Some? ==> row[f].value < n
  }

  /** The face-to-cell rewrite keeps row 0 fully populated with cell IDs
      below `n` and row 1 free of other IDs: every value it writes is read
      from row 0. */
  lemma ConnectedRowsOwned(row0: seq<Option<nat>>, row1: seq<Option<nat>>, faces0: seq<nat>, faces1: seq<nat>, n: nat)
    requires |row1| == |row0| && |faces0| == |faces1|
    requires InRange(faces0, |row0|) && InRange(faces1, |row0|)
    requires AllBelow(row0, n) && OwnedWhenPresent(row1, n)
    ensures AllBelow(ConnectedRows(row0, row1, faces0, faces1).0, n)
    ensures OwnedWhenPresent(ConnectedRows(row0, row1, faces0, faces1).1, n)
  {
    forall f | 0 <= f < |row0| ensures ConnectedRows(row0, row1, faces0, faces1).0[f].Some?
      && ConnectedRows(row0, row1, faces0, faces1).0[f].value < n
    {
      PutFrom(row0, faces0, Take(row0, faces1), f);
    }
    forall f | 0 <= f < |row0| && ConnectedRows(row0, row1, faces0, faces1).1[f].Some?
      ensures ConnectedRows(row0, row1, faces0, faces1).1[f].value < n
    {
      PutFrom(row1, faces0, Take(row0, faces0), f);
    }
  }

  // ---------------------------------------------------------------------
  // The 2 x 2 grid of unit squares: cells 0 1 / 2 3, horizontal faces 0-5
  // numbered row by row from the bottom, vertical faces 6-11 likewise.

  function GridCellFaces(): Table {
    Table(4, [[Some(0), Some(7), Some(2), Some(6)],
              [Some(1), Some(8), Some(3), Some(7)],
              [Some(2), Some(10), Some(4), Some(9)],
              [Some(3), Some(11), Some(5), Some(10)]])
  }

  /** Slot 0 of `faceCellIDs`: the owner cell of each face. An interior
      horizontal face (2 and 3) is taken as owned by the cell above it. The
      grid's own construction is not part of this model, and no result
      below reads faces 2 or 3. */
  function GridFaceOwners(): seq<Option<nat>> {
    [Some(0), Some(1), Some(2), Some(3), Some(2), Some(3),
     Some(0), Some(0), Some(1), Some(2), Some(2), Some(3)]
  }

  /** Slot 1 of `faceCellIDs`: the neighbour cell of each interior face. */
  function GridFaceNeighbours(): seq<Option<nat>> {
    [None, None, Some(0), Some(1), None, None,
     None, Some(1), None, None, Some(3), None]
  }

  /** In the grid, connecting the left faces [6, 9] to the right faces
      [8, 11] gives each left face the cell on the right as owner and its
      old owner as neighbour; the owners of [8, 11] read afterwards are
      cells 1 and 3. */
  lemma GridConnectLeftRightOwners()
    ensures var rows := ConnectedRows(GridFaceOwners(), GridFaceNeighbours(), [6, 9], [8, 11]);
      && rows.0[6] == Some(1) && rows.1[6] == Some(0)
      && rows.0[9] == Some(3) && rows.1[9] == Some(2)
      && rows.0[8] == Some(1) && rows.0[11] == Some(3)
  {
    ConnectedRowsAt(GridFaceOwners(), GridFaceNeighbours(), [6, 9], [8, 11], 0);
    ConnectedRowsAt(GridFaceOwners(), GridFaceNeighbours(), [6, 9], [8, 11], 1);
    ConnectedRowsElsewhere(GridFaceOwners(), GridFaceNeighbours(), [6, 9], [8, 11], 8);
    ConnectedRowsElsewhere(GridFaceOwners(), GridFaceNeighbours(), [6, 9], [8, 11], 11);
  }

  /** Cell 1 owns face 8, which becomes face 6. */
  lemma GridRedirectedCell1()
    ensures RedirectEach(GridCellFaces(), [1, 3], [6, 9], [8, 11]).cols[1] ==
      [Some(1), Some(6), Some(3), Some(7)]
  {
    RedirectEachColumn(GridCellFaces(), [1, 3], [6, 9], [8, 11], 1);
    var c := RedirectEach(GridCellFaces(), [1, 3], [6, 9], [8, 11]).cols[1];
    assert c == ReplaceIn(GridCellFaces().cols[1], 8, 6);
    assert c == [c[0], c[1], c[2], c[3]];
  }

  /** Cell 3 owns face 11, which becomes face 9. */
  lemma GridRedirectedCell3()
    ensures RedirectEach(GridCellFaces(), [1, 3], [6, 9], [8, 11]).cols[3] ==
      [Some(3), Some(9), Some(5), Some(10)]
  {
    RedirectEachColumn(GridCellFaces(), [1, 3], [6, 9], [8, 11], 3);
    var c := RedirectEach(GridCellFaces(), [1, 3], [6, 9], [8, 11]).cols[3];
    assert c == ReplaceIn(GridCellFaces().cols[3], 11, 9);
    assert c == [c[0], c[1], c[2], c[3]];
  }

  /** The documented example (lines 177-189): with owners [1, 3], row 1 of
      `cellFaceIDs` goes from [7, 8, 10, 11] to [7, 6, 10, 9] while rows 0,
      2 and 3 are unchanged; the owners being distinct, the rewrite as
      written gives the same table. */
  lemma GridConnectLeftRight()
    ensures var expected := Table(4, [[Some(0), Some(7), Some(2), Some(6)],
                                      [Some(1), Some(6), Some(3), Some(7)],
                                      [Some(2), Some(10), Some(4), Some(9)],
                                      [Some(3), Some(9), Some(5), Some(10)]]);
      && RedirectEach(GridCellFaces(), [1, 3], [6, 9], [8, 11]) == expected
      && RedirectedCellFaces(GridCellFaces(), [1, 3], [6, 9], [8, 11]) == expected
  {
    var t := GridCellFaces();
    var r := RedirectEach(t, [1, 3], [6, 9], [8, 11]);
    RedirectEachColumn(t, [1, 3], [6, 9], [8, 11], 0);
    RedirectEachColumn(t, [1, 3], [6, 9], [8, 11], 2);
    GridRedirectedCell1();
    GridRedirectedCell3();
    assert r.cols == [r.cols[0], r.cols[1], r.cols[2], r.cols[3]];
    RedirectedAgreesWhenOwnersDistinct(t, [1, 3], [6, 9], [8, 11]);
  }

  /** Connecting left to right and bottom to top in one call: the faces
      [8, 11, 4, 5] paired with [6, 9, 0, 1] are owned by cells 1, 3, 2 and 3,
      so cell 3 owns two of them. */
  lemma GridConnectTwoAxesOwners()
    ensures var rows := ConnectedRows(GridFaceOwners(), GridFaceNeighbours(), [6, 9, 0, 1], [8, 11, 4, 5]);
      rows.0[8] == Some(1) && rows.0[11] == Some(3) && rows.0[4] == Some(2) && rows.0[5] == Some(3)
  {
    var faces0, faces1 := [6, 9, 0, 1], [8, 11, 4, 5];
    forall f | f in faces1
      ensures ConnectedRows(GridFaceOwners(), GridFaceNeighbours(), faces0, faces1).0[f] == GridFaceOwners()[f]
    {
      ConnectedRowsElsewhere(GridFaceOwners(), GridFaceNeighbours(), faces0, faces1, f);
    }
  }

  /** As written, the write-back of line 250 stores cell 3's column twice
      and the second write, which only redirected face 5, wins: slot 1 of
      cell 3 still names face 11. */
  lemma GridConnectTwoAxesLosesRedirect()
    ensures RedirectedCellFaces(GridCellFaces(), [1, 3, 2, 3], [6, 9, 0, 1], [8, 11, 4, 5]).cols[3][1] == Some(11)
  {
    var faces0, faces1, owners := [6, 9, 0, 1], [8, 11, 4, 5], [1, 3, 2, 3];
    var t := GridCellFaces();
    var row := RowOf(t, 1);
    var vals := Redirect(Take(row, owners), faces0, faces1);
    PutLastWins(row, owners, vals, 3);
  }

  /** Redirecting pair by pair names face 9 in slot 1 of cell 3. */
  lemma GridConnectTwoAxesRedirectEach()
    ensures RedirectEach(GridCellFaces(), [1, 3, 2, 3], [6, 9, 0, 1], [8, 11, 4, 5]).cols[3][1] == Some(9)
  {
    var faces0, faces1, owners := [6, 9, 0, 1], [8, 11, 4, 5], [1, 3, 2, 3];
    assert Distinct(faces1) && Disjoint(faces0, faces1);
    RedirectEachAt(GridCellFaces(), owners, faces0, faces1, 3, 1);
    assert owners[1] == 3 && GridCellFaces().cols[3][1] == Some(faces1[1]);
  }
}
