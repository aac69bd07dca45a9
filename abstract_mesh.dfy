/** The mesh object of fipy/meshes/abstractMesh.py, reduced to the integer
    connectivity it updates in place: the face-to-cell table, the
    face-to-cell and cell distances, the face normals, the cells' face
    lists, the scale and the two memoised topology arrays. */
module AbstractMeshes {
  import opened Masked
  import opened ArrayOps
  import opened FaceConnection
  import opened Renumbering

  /** `numerix.nonzero(bs)[0]`: the indices where `bs` is true, in increasing order. */
  function Nonzero(bs: seq<bool>): (r: seq<nat>)
    ensures StrictlyIncreasing(r)
    ensures forall k | 0 <= k < |r| :: r[k] < |bs| && bs[r[k]]
    ensures forall f | 0 <= f < |bs| && bs[f] :: f in r
    decreases |bs|
  {
    if bs == [] then []
    else
      var prev := Nonzero(bs[..|bs| - 1]);
      assert forall f | 0 <= f < |bs| - 1 :: bs[..|bs| - 1][f] == bs[f];
      if bs[|bs| - 1] then prev + [|bs| - 1] else prev
  }

  /** The loop of lines 231-234 on a copy of the normals: each dimension's
      row takes, at `faces0`, the entries at `faces1`. */
  method ConnectNormalRows(normals: seq<seq<real>>, n: nat, faces0: seq<nat>, faces1: seq<nat>) returns (r: seq<seq<real>>)
    requires RowsOfLength(normals, n) && |faces0| == |faces1| && InRange(faces0, n) && InRange(faces1, n)
    ensures r == ConnectedNormals(normals, n, faces0, faces1)
  {
    r := normals;
    var d := 0;
    while d < |normals|
      invariant d <= |normals| && |r| == |normals|
      invariant forall d' | 0 <= d' < d :: r[d'] == ConnectedNormalRow(normals[d'], faces0, faces1)
      invariant forall d' | d <= d' < |normals| :: r[d'] == normals[d']
    {
      r := r[d := ConnectedNormalRow(r[d], faces0, faces1)];
      d := d + 1;
    }
  }

  /** The loop of lines 243-250 as written, on a copy of `cellFaceIDs`: row
      by row, the owner columns are gathered, their `faces1` entries
      redirected, and the columns written back. */
  method RedirectRows(t: Table, owners: seq<nat>, faces0: seq<nat>, faces1: seq<nat>) returns (r: Table)
    requires Shaped(t) && InRange(owners, Width(t))
    requires |owners| == |faces0| == |faces1|
    ensures r == RedirectedCellFaces(t, owners, faces0, faces1)
  {
    r := t;
    var i := 0;
    while i < t.height
      invariant Shaped(r) && r.height == t.height && Width(r) == Width(t)
      invariant i <= t.height
      invariant forall c, i' | 0 <= c < Width(t) && 0 <= i' < i ::
        r.cols[c][i'] == RedirectedRow(t, owners, faces0, faces1, i')[c]
      invariant forall c, i' | 0 <= c < Width(t) && i <= i' < t.height ::
        r.cols[c][i'] == t.cols[c][i']
    {
      var row := RowOf(t, i);
      var local := Redirect(Take(row, owners), faces0, faces1);
      r := SetRow(r, i, Put(row, owners, local));
      i := i + 1;
    }
    var expected := RedirectedCellFaces(t, owners, faces0, faces1);
    assert forall c | 0 <= c < Width(t) :: r.cols[c] == expected.cols[c];
  }

  /** The rewrite of lines 238-250 as evidently intended, one pair at a
      time: the owner of `faces1[j]` lists `faces0[j]` wherever it listed
      `faces1[j]`. */
  method RedirectPairs(t: Table, owners: seq<nat>, faces0: seq<nat>, faces1: seq<nat>) returns (r: Table)
    requires Shaped(t) && InRange(owners, Width(t))
    requires |owners| == |faces0| == |faces1|
    ensures r == RedirectEach(t, owners, faces0, faces1)
  {
    r := t;
    var j := 0;
    while j < |owners|
      invariant j <= |owners| && r.height == t.height && |r.cols| == |t.cols|
      invariant forall c | 0 <= c < |t.cols| :: r.cols[c] == RedirectColumn(t.cols[c], c, owners[..j], faces0[..j], faces1[..j])
    {
      assert owners[..j + 1][..j] == owners[..j] && faces0[..j + 1][..j] == faces0[..j] && faces1[..j + 1][..j] == faces1[..j];
      r := Table(r.height, r.cols[owners[j] := ReplaceIn(r.cols[owners[j]], faces1[j], faces0[j])]);
      j := j + 1;
    }
    assert owners[..j] == owners && faces0[..j] == faces0 && faces1[..j] == faces1;
    assert r.cols == RedirectEach(t, owners, faces0, faces1).cols;
  }

  class Mesh {
    var dim: nat
    var exteriorFaces: seq<bool>
    var interiorFaces: seq<bool>
    /** Row 0: the owner cell of each face; row 1: the neighbour cell, masked on exterior faces. */
    var faceCellIDs: seq<seq<Option<nat>>>
    var faceToCellDistances: seq<seq<real>>
    var cellDistances: seq<real>
    /** One row per dimension. */
    var faceNormals: seq<seq<real>>
    /** One column per cell, listing its faces. */
    var cellFaceIDs: Table
    var scaleLength: real
    /** `_interiorFaceIDs`, absent until first asked for. */
    var interiorFaceIDsCache: Option<seq<nat>>
    /** `_interiorFaceCellIDs`, absent until first asked for. */
    var interiorFaceCellIDsCache: Option<seq<seq<Option<nat>>>>

    function NumberOfFaces(): nat
      reads this
    {
      |exteriorFaces|
    }

    function NumberOfCells(): nat
      reads this
    {
      Width(cellFaceIDs)
    }

    /** The shapes every array agrees on, every face owned by a cell, every
        face ID a cell lists a real face, and the interior-face cache (when
        present) the one the interior faces give. */
    ghost predicate Valid()
      reads this
    {
      var nF := NumberOfFaces();
      && |interiorFaces| == nF
      && |faceCellIDs| == 2 && |faceCellIDs[0]| == nF && |faceCellIDs[1]| == nF
      && AllBelow(faceCellIDs[0], NumberOfCells())
      && OwnedWhenPresent(faceCellIDs[1], NumberOfCells())
      && |faceToCellDistances| == 2 && |faceToCellDistances[0]| == nF && |faceToCellDistances[1]| == nF
      && |cellDistances| == nF
      && |faceNormals| == dim && RowsOfLength(faceNormals, nF)
      && Shaped(cellFaceIDs) && Bounded(cellFaceIDs, nF)
      && (interiorFaceIDsCache.Some? ==> interiorFaceIDsCache.value == Nonzero(interiorFaces))
    }

    constructor (dim: nat, exteriorFaces: seq<bool>, interiorFaces: seq<bool>,
                 faceCellIDs: seq<seq<Option<nat>>>, faceToCellDistances: seq<seq<real>>,
                 cellDistances: seq<real>, faceNormals: seq<seq<real>>, cellFaceIDs: Table)
      requires |interiorFaces| == |exteriorFaces|
      requires |faceCellIDs| == 2 && |faceCellIDs[0]| == |faceCellIDs[1]| == |exteriorFaces|
      requires AllBelow(faceCellIDs[0], Width(cellFaceIDs)) && OwnedWhenPresent(faceCellIDs[1], Width(cellFaceIDs))
      requires |faceToCellDistances| == 2 && |faceToCellDistances[0]| == |faceToCellDistances[1]| == |exteriorFaces|
      requires |cellDistances| == |exteriorFaces|
      requires |faceNormals| == dim && RowsOfLength(faceNormals, |exteriorFaces|)
      requires Shaped(cellFaceIDs) && Bounded(cellFaceIDs, |exteriorFaces|)
      ensures Valid()
      ensures this.dim == dim && this.exteriorFaces == exteriorFaces && this.interiorFaces == interiorFaces
      ensures this.faceCellIDs == faceCellIDs && this.faceToCellDistances == faceToCellDistances
      ensures this.cellDistances == cellDistances && this.faceNormals == faceNormals
      ensures this.cellFaceIDs == cellFaceIDs
      ensures scaleLength == 1.0
      ensures interiorFaceIDsCache == None && interiorFaceCellIDsCache == None
    {
      this.dim := dim;
      this.exteriorFaces := exteriorFaces;
      this.interiorFaces := interiorFaces;
      this.faceCellIDs := faceCellIDs;
      this.faceToCellDistances := faceToCellDistances;
      this.cellDistances := cellDistances;
      this.faceNormals := faceNormals;
      this.cellFaceIDs := cellFaceIDs;
      scaleLength := 1.0;
      interiorFaceIDsCache := None;
      interiorFaceCellIDsCache := None;
    }

    /** `_setScale` (lines 92-99): records the scale length. */
    method SetScale(length: real)
      modifies this`scaleLength
      ensures scaleLength == length
    {
      scaleLength := length;
    }

    /** `_connectFaces` (lines 162-258). The two `assert`s of lines 194-203
        become the requirements that the lists have equal length and name
        exterior faces only. */
    method ConnectFaces(faces0: seq<nat>, faces1: seq<nat>)
      requires Valid()
      requires |faces0| == |faces1|
      requires InRange(faces0, NumberOfFaces()) && InRange(faces1, NumberOfFaces())
      requires forall j | 0 <= j < |faces0| :: exteriorFaces[faces0[j]] && exteriorFaces[faces1[j]]
      modifies this
      ensures Valid()
      ensures (faceCellIDs[0], faceCellIDs[1]) ==
        ConnectedRows(old(faceCellIDs[0]), old(faceCellIDs[1]), faces0, faces1)
      ensures (faceToCellDistances[0], faceToCellDistances[1]) ==
        ConnectedRows(old(faceToCellDistances[0]), old(faceToCellDistances[1]), faces0, faces1)
      ensures cellDistances ==
        ConnectedCellDistances(old(cellDistances), faceToCellDistances[0], faceToCellDistances[1], faces0)
      ensures faceNormals == ConnectedNormals(old(faceNormals), NumberOfFaces(), faces0, faces1)
      ensures NumberOfCells() == old(NumberOfCells())
      ensures AllBelow(Take(faceCellIDs[0], faces1), NumberOfCells())
      ensures cellFaceIDs == RedirectEach(old(cellFaceIDs), Ids(Take(faceCellIDs[0], faces1)), faces0, faces1)
      ensures scaleLength == old(scaleLength)
      ensures dim == old(dim) && exteriorFaces == old(exteriorFaces) && interiorFaces == old(interiorFaces)
      ensures interiorFaceIDsCache == old(interiorFaceIDsCache)
      ensures interiorFaceCellIDsCache == old(interiorFaceCellIDsCache)
    {
      var nF := NumberOfFaces();
      var nC := NumberOfCells();

      // lines 206-212: the owner and neighbour cells of faces0
      var cells0, cells1 := faceCellIDs[0], faceCellIDs[1];
      var newFaces0 := Take(cells0, faces0);
      var newFaces1 := Take(cells0, faces1);
      cells1 := Put(cells1, faces0, newFaces0);
      cells0 := Put(cells0, faces0, newFaces1);
      ConnectedRowsOwned(faceCellIDs[0], faceCellIDs[1], faces0, faces1, nC);
      faceCellIDs := [cells0, cells1];

      // lines 215-221: the face-to-cell distances of faces0
      var dist0, dist1 := faceToCellDistances[0], faceToCellDistances[1];
      var newDistances0 := Take(dist0, faces0);
      var newDistances1 := Take(dist0, faces1);
      dist1 := Put(dist1, faces0, newDistances0);
      dist0 := Put(dist0, faces0, newDistances1);
      faceToCellDistances := [dist0, dist1];

      // lines 223-227: the cell distances of faces0
      cellDistances := Put(cellDistances, faces0, Take(SumRows(dist0, dist1), faces0));

      // lines 230-234: the normals of faces0, one dimension at a time
      faceNormals := ConnectNormalRows(faceNormals, nF, faces0, faces1);

      // lines 238-250: the cells owning faces1 list faces0 instead, one
      // pair at a time (the row-wise write-back of line 250 loses redirects
      // when a cell owns two faces1 faces; see `RedirectRows`)
      var owners := Ids(Take(cells0, faces1));
      RedirectEachBounded(cellFaceIDs, owners, faces0, faces1, nF);
      cellFaceIDs := RedirectPairs(cellFaceIDs, owners, faces0, faces1);

      // lines 253-258: the topology and geometry hooks are not part of this
      // model; re-applying the current scale leaves it as it is
      SetScale(scaleLength);
    }

    /** `interiorFaceIDs` (lines 445-449): computed on first use and
        remembered. */
    method InteriorFaceIDs() returns (ids: seq<nat>)
      requires Valid()
      modifies this`interiorFaceIDsCache
      ensures Valid()
      ensures ids == Nonzero(interiorFaces)
      ensures interiorFaceIDsCache == Some(ids)
    {
      if interiorFaceIDsCache.None? {
        interiorFaceIDsCache := Some(Nonzero(interiorFaces));
      }
      ids := interiorFaceIDsCache.value;
    }

    /** `interiorFaceCellIDs` (lines 451-458): the two `faceCellIDs` rows at
        the interior faces, computed on first use and remembered. A value
        remembered before the face-to-cell table changed is returned as it
        is. */
    method InteriorFaceCellIDs() returns (cells: seq<seq<Option<nat>>>)
      requires Valid()
      modifies this`interiorFaceIDsCache, this`interiorFaceCellIDsCache
      ensures Valid()
      ensures old(interiorFaceCellIDsCache).Some? ==> cells == old(interiorFaceCellIDsCache).value
      ensures old(interiorFaceCellIDsCache).None? ==>
        cells == [Take(faceCellIDs[0], Nonzero(interiorFaces)), Take(faceCellIDs[1], Nonzero(interiorFaces))]
      ensures interiorFaceCellIDsCache == Some(cells)
      ensures old(interiorFaceCellIDsCache).None? ==> interiorFaceIDsCache == Some(Nonzero(interiorFaces))
      ensures old(interiorFaceCellIDsCache).Some? ==> interiorFaceIDsCache == old(interiorFaceIDsCache)
    {
      if interiorFaceCellIDsCache.None? {
        var ids := InteriorFaceIDs();
        interiorFaceCellIDsCache := Some([Take(faceCellIDs[0], ids), Take(faceCellIDs[1], ids)]);
      }
      cells := interiorFaceCellIDsCache.value;
    }

    /** `_numberOfFacesPerCell` for a masked table (lines 460-464): the
        number of unmasked face IDs of each cell, which is the full height
        exactly for the cells with no masked slot. */
    function NumberOfFacesPerCell(): (counts: seq<nat>)
      reads this
      ensures |counts| == NumberOfCells()
      ensures forall c | 0 <= c < |counts| :: counts[c] == |PresentSlots(cellFaceIDs.cols[c])|
      ensures forall c | 0 <= c < |counts| :: counts[c] <= |cellFaceIDs.cols[c]|
      ensures forall c | 0 <= c < |counts| ::
        counts[c] == |cellFaceIDs.cols[c]| <==> forall i | 0 <= i < |cellFaceIDs.cols[c]| :: cellFaceIDs.cols[c][i].Some?
      ensures forall c | 0 <= c < |counts| ::
        counts[c] == 0 <==> forall i | 0 <= i < |cellFaceIDs.cols[c]| :: cellFaceIDs.cols[c][i] == None
    {
      var cols := cellFaceIDs.cols;
      seq(|cols|, c requires 0 <= c < |cols| => CountPresent(cols[c]))
    }
  }
}
