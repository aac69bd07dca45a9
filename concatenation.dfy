/** Joining two meshes (`_getAddedMeshValues`, fipy/meshes/abstractMesh.py:267-439).

    The vertices of `other` that were found to coincide with exterior
    vertices of `self` (the vertex correlates, an input here) are merged with
    them; faces of `other` whose renumbered vertices are those of a face of
    `self` are merged with it; everything else of `other` is appended after
    the entities of `self`, keeping its relative order. */
module Concatenation {
  import opened Masked
  import opened ArrayOps
  import opened Sorting
  import opened Renumbering
  import AbstractMeshes

  /** The arrays read from one mesh: one point per vertex, the faces' vertex
      IDs, the cells' face IDs and the exterior-face flags. */
  datatype MeshArrays = MeshArrays(dim: nat, vertexCoords: seq<seq<real>>, faceVertexIDs: Table,
                                   cellFaceIDs: Table, exteriorFaces: seq<bool>)

  function NumberOfVertices(m: MeshArrays): nat {
    |m.vertexCoords|
  }

  function NumberOfFaces(m: MeshArrays): nat {
    Width(m.faceVertexIDs)
  }

  function NumberOfCells(m: MeshArrays): nat {
    Width(m.cellFaceIDs)
  }

  /** Points of the mesh's dimension, tables of fixed height whose IDs name
      existing vertices and faces, and one exterior flag per face. */
  predicate WellFormed(m: MeshArrays) {
    && (forall v | 0 <= v < |m.vertexCoords| :: |m.vertexCoords[v]| == m.dim)
    && Shaped(m.faceVertexIDs) && Bounded(m.faceVertexIDs, NumberOfVertices(m))
    && Shaped(m.cellFaceIDs) && Bounded(m.cellFaceIDs, NumberOfFaces(m))
    && |m.exteriorFaces| == NumberOfFaces(m)
  }

  /** `MeshAdditionError` ("Dimensions do not match", lines 284-285), and the
      error numpy's `concatenate` raises for tables of different heights. */
  datatype AdditionError = DimensionsDoNotMatch | FaceTableShapesDiffer

  datatype Outcome<T> = Ok(value: T) | Err(error: AdditionError)

  /** The returned arrays, and whether each "not aligned" warning fires. */
  datatype Added = Added(vertexCoords: seq<seq<real>>, faceVertexIDs: Table, cellFaceIDs: Table,
                         verticesNotAligned: bool, facesNotAligned: bool)

  // ---------------------------------------------------------------------
  // Exterior vertices and vertex correlates (lines 289-318)

  predicate OnExteriorFace(m: MeshArrays, v: nat) {
    exists f, i | 0 <= f < |m.faceVertexIDs.cols| && 0 <= i < |m.faceVertexIDs.cols[f]| ::
      f < |m.exteriorFaces| && m.exteriorFaces[f] && m.faceVertexIDs.cols[f][i] == Some(v)
  }

  lemma OnExteriorFaceBelow(m: MeshArrays, v: nat)
    requires WellFormed(m) && OnExteriorFace(m, v)
    ensures v < NumberOfVertices(m)
  {
    var f, i :| 0 <= f < |m.faceVertexIDs.cols| && 0 <= i < |m.faceVertexIDs.cols[f]|
      && f < |m.exteriorFaces| && m.exteriorFaces[f] && m.faceVertexIDs.cols[f][i] == Some(v);
  }

  /** Lines 289-298: the distinct vertex IDs found on exterior faces, in
      increasing order. */
  function ExteriorVertices(m: MeshArrays): (r: seq<nat>)
    requires WellFormed(m)
    ensures StrictlyIncreasing(r)
    ensures forall v: nat :: v in r <==> OnExteriorFace(m, v)
  {
    var flags := seq(NumberOfVertices(m), v requires 0 <= v => OnExteriorFace(m, v));
    var r := AbstractMeshes.Nonzero(flags);
    assert forall v: nat | OnExteriorFace(m, v) :: v in r by {
      forall v: nat | OnExteriorFace(m, v) ensures v in r {
        OnExteriorFaceBelow(m, v);
        assert flags[v];
      }
    }
    r
  }

  /** What the nearest-vertex search of lines 300-318 can produce: pairs of
      an exterior vertex of `self` and an exterior vertex of `other`, in
      increasing order of the `other` vertex. */
  predicate VertexCorrelatesFor(self: MeshArrays, other: MeshArrays, vc: Correlates) {
    && (forall i | 0 <= i < |vc| :: OnExteriorFace(self, vc[i].0) && OnExteriorFace(other, vc[i].1))
    && (forall i, j | 0 <= i < j < |vc| :: vc[i].1 < vc[j].1)
  }

  /** Two meshes and vertex correlates between them that can be joined. */
  predicate Joinable(self: MeshArrays, other: MeshArrays, vc: Correlates) {
    WellFormed(self) && WellFormed(other) && VertexCorrelatesFor(self, other, vc)
  }

  lemma CorrelatesInRange(self: MeshArrays, other: MeshArrays, vc: Correlates)
    requires Joinable(self, other, vc)
    ensures DistinctOthers(vc)
    ensures forall i | 0 <= i < |vc| :: vc[i].0 < NumberOfVertices(self) && vc[i].1 < NumberOfVertices(other)
  {
    forall i | 0 <= i < |vc|
      ensures vc[i].0 < NumberOfVertices(self) && vc[i].1 < NumberOfVertices(other)
    {
      OnExteriorFaceBelow(self, vc[i].0);
      OnExteriorFaceBelow(other, vc[i].1);
    }
  }

  /** The vertex IDs `self` contributes to a list of correlates. */
  function Kept(pairs: Correlates): set<nat> {
    set i | 0 <= i < |pairs| :: pairs[i].0
  }

  /** Lines 357-360: the new ID of every vertex of `other`. */
  function VertexMap(self: MeshArrays, other: MeshArrays, vc: Correlates): (m: seq<nat>)
    ensures |m| == NumberOfVertices(other)
  {
    RenumberingOf(NumberOfVertices(other), NumberOfVertices(self), vc)
  }

  /** Line 358: the vertices of `other` that are appended, in increasing order. */
  function VerticesToAdd(other: MeshArrays, vc: Correlates): seq<nat> {
    Remaining(NumberOfVertices(other), Others(vc))
  }

  // ---------------------------------------------------------------------
  // Face selection and face keys (lines 348-396)

  /** No slot is masked. */
  predicate Complete(col: Column) {
    forall i | 0 <= i < |col| :: col[i].Some?
  }

  /** Every slot holds a vertex ID from `ids`; a masked slot never does. */
  predicate AllCorrelated(col: Column, ids: set<nat>) {
    forall i | 0 <= i < |col| :: col[i].Some? && col[i].value in ids
  }

  /** Lines 348-353: the faces all of whose vertices are correlated, in
      increasing order. */
  function MatchingFaces(t: Table, ids: set<nat>): (r: seq<nat>)
    ensures StrictlyIncreasing(r)
    ensures forall k | 0 <= k < |r| :: r[k] < Width(t) && AllCorrelated(t.cols[r[k]], ids)
    ensures forall f | 0 <= f < Width(t) && AllCorrelated(t.cols[f], ids) :: f in r
  {
    AbstractMeshes.Nonzero(seq(Width(t), f requires 0 <= f < Width(t) => AllCorrelated(t.cols[f], ids)))
  }

  /** Lines 365-368: a face of `self` is keyed by its vertex IDs in ascending order. */
  function SelfKey(col: Column): seq<nat>
    requires Complete(col)
  {
    SortIds(Ids(col))
  }

  /** Lines 378-382: a face of `other` is keyed by its renumbered vertex IDs
      in ascending order. */
  function OtherKey(vertexMap: seq<nat>, col: Column): seq<nat>
    requires AllBelow(col, |vertexMap|)
  {
    SortIds(Take(vertexMap, Ids(col)))
  }

  predicate CompleteAt(t: Table, cand: seq<nat>) {
    InRange(cand, Width(t)) && forall k | 0 <= k < |cand| :: Complete(t.cols[cand[k]])
  }

  predicate BelowAt(t: Table, cand: seq<nat>, n: nat) {
    InRange(cand, Width(t)) && forall k | 0 <= k < |cand| :: AllBelow(t.cols[cand[k]], n)
  }

  /** The position of the first key equal to `key`. */
  function FirstWithKey(keys: seq<seq<nat>>, key: seq<nat>): (r: Option<nat>)
    ensures r.Some? ==> r.value < |keys| && keys[r.value] == key
    ensures r.Some? ==> forall j | 0 <= j < r.value :: keys[j] != key
    ensures r.None? ==> forall j | 0 <= j < |keys| :: keys[j] != key
  {
    if keys == [] then None
    else if keys[0] == key then Some(0)
    else
      match FirstWithKey(keys[1..], key)
      case None => None
      case Some(j) => Some(j + 1)
  }

  /** Lines 371-396 on the candidates' keys: each `other` candidate, in
      order, paired with the first `self` candidate of equal key, when there
      is one (positions into the two candidate lists). */
  function MatchIndices(selfKeys: seq<seq<nat>>, otherKeys: seq<seq<nat>>): (pi: seq<(nat, nat)>)
    ensures forall i | 0 <= i < |pi| ::
      pi[i].0 < |selfKeys| && pi[i].1 < |otherKeys| && selfKeys[pi[i].0] == otherKeys[pi[i].1]
    ensures forall i, i' | 0 <= i < i' < |pi| :: pi[i].1 < pi[i'].1
    decreases |otherKeys|
  {
    if otherKeys == [] then []
    else
      var n := |otherKeys| - 1;
      var prev := MatchIndices(selfKeys, otherKeys[..n]);
      match FirstWithKey(selfKeys, otherKeys[n])
      case None => prev
      case Some(j) => prev + [(j, n)]
  }

  /** Every `other` candidate whose key some `self` candidate has is matched,
      with the first such `self` candidate. */
  lemma {:induction false} MatchIndicesComplete(selfKeys: seq<seq<nat>>, otherKeys: seq<seq<nat>>, k: nat)
    requires k < |otherKeys| && FirstWithKey(selfKeys, otherKeys[k]).Some?
    ensures (FirstWithKey(selfKeys, otherKeys[k]).value, k) in MatchIndices(selfKeys, otherKeys)
    decreases |otherKeys|
  {
    var n := |otherKeys| - 1;
    if k < n {
      assert otherKeys[..n][k] == otherKeys[k];
      MatchIndicesComplete(selfKeys, otherKeys[..n], k);
    }
  }

  // ---------------------------------------------------------------------
  // Face correlates and the face renumbering (lines 331-410)

  /** Lines 333-345: both face-vertex tables padded to the larger height. */
  function PaddedFaces(self: MeshArrays, other: MeshArrays): (r: (Table, Table))
    requires WellFormed(self) && WellFormed(other)
    ensures Shaped(r.0) && Shaped(r.1) && r.0.height == r.1.height
    ensures Width(r.0) == NumberOfFaces(self) && Width(r.1) == NumberOfFaces(other)
    ensures Bounded(r.0, NumberOfVertices(self)) && Bounded(r.1, NumberOfVertices(other))
  {
    var r := PadToCommon(self.faceVertexIDs, other.faceVertexIDs);
    PadToBounded(self.faceVertexIDs, r.0.height, NumberOfVertices(self));
    PadToBounded(other.faceVertexIDs, r.1.height, NumberOfVertices(other));
    r
  }

  function SelfCandidates(self: MeshArrays, other: MeshArrays, vc: Correlates): (r: seq<nat>)
    requires WellFormed(self) && WellFormed(other)
    ensures CompleteAt(PaddedFaces(self, other).0, r)
  {
    MatchingFaces(PaddedFaces(self, other).0, Kept(vc))
  }

  function OtherCandidates(self: MeshArrays, other: MeshArrays, vc: Correlates): (r: seq<nat>)
    requires Joinable(self, other, vc)
    ensures BelowAt(PaddedFaces(self, other).1, r, NumberOfVertices(other))
    ensures StrictlyIncreasing(r)
  {
    var t := PaddedFaces(self, other).1;
    var r := MatchingFaces(t, Others(vc));
    CorrelatesInRange(self, other, vc);
    assert forall k | 0 <= k < |r| :: AllBelow(t.cols[r[k]], NumberOfVertices(other)) by {
      forall k, i | 0 <= k < |r| && 0 <= i < |t.cols[r[k]]|
        ensures t.cols[r[k]][i].value < NumberOfVertices(other)
      {
        assert t.cols[r[k]][i].value in Others(vc);
      }
    }
    r
  }

  /** The keys of the `self` candidates (lines 365-368). */
  function SelfKeys(self: MeshArrays, other: MeshArrays, vc: Correlates): (keys: seq<seq<nat>>)
    requires WellFormed(self) && WellFormed(other)
    ensures |keys| == |SelfCandidates(self, other, vc)|
  {
    var t := PaddedFaces(self, other).0;
    var cand := SelfCandidates(self, other, vc);
    seq(|cand|, j requires 0 <= j < |cand| => SelfKey(t.cols[cand[j]]))
  }

  /** The keys of the `other` candidates (lines 378-382). */
  function OtherKeys(self: MeshArrays, other: MeshArrays, vc: Correlates): (keys: seq<seq<nat>>)
    requires Joinable(self, other, vc)
    ensures |keys| == |OtherCandidates(self, other, vc)|
  {
    var t := PaddedFaces(self, other).1;
    var cand := OtherCandidates(self, other, vc);
    var vertexMap := VertexMap(self, other, vc);
    seq(|cand|, k requires 0 <= k < |cand| => OtherKey(vertexMap, t.cols[cand[k]]))
  }

  /** The pairs of candidates at the matched positions `pi`. */
  function CandidatePairs(selfCand: seq<nat>, otherCand: seq<nat>, pi: seq<(nat, nat)>): (pairs: Correlates)
    requires forall i | 0 <= i < |pi| :: pi[i].0 < |selfCand| && pi[i].1 < |otherCand|
    requires StrictlyIncreasing(otherCand) && forall i, i' | 0 <= i < i' < |pi| :: pi[i].1 < pi[i'].1
    ensures |pairs| == |pi| && forall i | 0 <= i < |pi| :: pairs[i] == (selfCand[pi[i].0], otherCand[pi[i].1])
    ensures DistinctOthers(pairs)
  {
    seq(|pi|, i requires 0 <= i < |pi| => (selfCand[pi[i].0], otherCand[pi[i].1]))
  }

  /** `faceCorrelates` (line 393): pairs (face of `self`, face of `other`)
      with equal keys, in increasing order of the `other` face. */
  function FaceCorrelates(self: MeshArrays, other: MeshArrays, vc: Correlates): (pairs: Correlates)
    requires Joinable(self, other, vc)
    ensures DistinctOthers(pairs)
    ensures forall i | 0 <= i < |pairs| :: pairs[i].0 < NumberOfFaces(self) && pairs[i].1 < NumberOfFaces(other)
  {
    var pi := MatchIndices(SelfKeys(self, other, vc), OtherKeys(self, other, vc));
    CandidatePairs(SelfCandidates(self, other, vc), OtherCandidates(self, other, vc), pi)
  }

  /** Lines 407-410: the new ID of every face of `other`. */
  function FaceMap(self: MeshArrays, other: MeshArrays, vc: Correlates): (m: seq<nat>)
    requires Joinable(self, other, vc)
    ensures |m| == NumberOfFaces(other)
  {
    RenumberingOf(NumberOfFaces(other), NumberOfFaces(self), FaceCorrelates(self, other, vc))
  }

  /** Line 408: the faces of `other` that are appended, in increasing order. */
  function FacesToAdd(self: MeshArrays, other: MeshArrays, vc: Correlates): (r: seq<nat>)
    requires Joinable(self, other, vc)
    ensures InRange(r, NumberOfFaces(other))
  {
    Remaining(NumberOfFaces(other), Others(FaceCorrelates(self, other, vc)))
  }

  // ---------------------------------------------------------------------
  // The joined arrays (lines 412-439)

  /** The appended faces of `other` (padded) with their vertices renumbered. */
  function AppendedFaces(self: MeshArrays, other: MeshArrays, vc: Correlates): (r: Table)
    requires Joinable(self, other, vc)
    ensures Shaped(r) && r.height == PaddedFaces(self, other).1.height
    ensures Width(r) == |FacesToAdd(self, other, vc)|
  {
    var otherT := PaddedFaces(self, other).1;
    var toAdd := FacesToAdd(self, other, vc);
    TakeColumnsBounded(otherT, toAdd, NumberOfVertices(other));
    MapTable(VertexMap(self, other, vc), TakeColumns(otherT, toAdd))
  }

  function JoinedVertexCoords(self: MeshArrays, other: MeshArrays, vc: Correlates): seq<seq<real>> {
    self.vertexCoords + Take(other.vertexCoords, VerticesToAdd(other, vc))
  }

  function JoinedFaceVertexIDs(self: MeshArrays, other: MeshArrays, vc: Correlates): (r: Table)
    requires Joinable(self, other, vc)
    ensures Shaped(r) && Width(r) == NumberOfFaces(self) + |FacesToAdd(self, other, vc)|
  {
    var selfT := PaddedFaces(self, other).0;
    Table(selfT.height, selfT.cols + AppendedFaces(self, other, vc).cols)
  }

  /** Lines 415-438: the cells of both meshes, the face IDs of `other`'s
      cells renumbered, both padded to the larger height. */
  function JoinedCellFaceIDs(self: MeshArrays, other: MeshArrays, vc: Correlates): (r: Table)
    requires Joinable(self, other, vc)
    ensures Shaped(r) && r.height == Max(self.cellFaceIDs.height, other.cellFaceIDs.height)
  {
    JoinColumns(self.cellFaceIDs, MapTable(FaceMap(self, other, vc), other.cellFaceIDs))
  }

  /** The joined arrays and the two warnings of lines 321-325 and 399-403. */
  function Joined(self: MeshArrays, other: MeshArrays, vc: Correlates): Added
    requires Joinable(self, other, vc)
  {
    Added(JoinedVertexCoords(self, other, vc),
          JoinedFaceVertexIDs(self, other, vc),
          JoinedCellFaceIDs(self, other, vc),
          NumberOfVertices(self) > 0 && NumberOfVertices(other) > 0 && |vc| == 0,
          NumberOfFaces(self) > 0 && NumberOfFaces(other) > 0 && |FaceCorrelates(self, other, vc)| == 0)
  }

  /** `_getAddedMeshValues` with the appended faces padded as the padding of
      lines 333-345 intends: only a dimension mismatch is refused. */
  function AddedMeshValues(self: MeshArrays, other: MeshArrays, vc: Correlates): (r: Outcome<Added>)
    requires Joinable(self, other, vc)
    ensures r.Err? <==> self.dim != other.dim
    ensures r.Err? ==> r.error == DimensionsDoNotMatch
  {
    if self.dim != other.dim then Err(DimensionsDoNotMatch)
    else Ok(Joined(self, other, vc))
  }

  // ---------------------------------------------------------------------
  // As written: line 412 reads the unpadded `other.faceVertexIDs`.

  /** `numerix.concatenate((a, b), axis=1)`: numpy refuses tables of
      different heights, even when one of them has no columns. */
  function ConcatenateColumns(a: Table, b: Table): (r: Outcome<Table>)
    ensures r.Ok? <==> a.height == b.height
    ensures r.Ok? ==> r.value.height == a.height && r.value.cols == a.cols + b.cols
  {
    if a.height != b.height then Err(FaceTableShapesDiffer)
    else Ok(Table(a.height, a.cols + b.cols))
  }

  /** The appended faces as line 412 builds them, from `other`'s own table. */
  function AppendedFacesAsWritten(self: MeshArrays, other: MeshArrays, vc: Correlates): (r: Table)
    requires Joinable(self, other, vc)
    ensures r.height == other.faceVertexIDs.height
  {
    var toAdd := FacesToAdd(self, other, vc);
    TakeColumnsBounded(other.faceVertexIDs, toAdd, NumberOfVertices(other));
    MapTable(VertexMap(self, other, vc), TakeColumns(other.faceVertexIDs, toAdd))
  }

  /** `_getAddedMeshValues` as written. */
  function AddedMeshValuesAsWritten(self: MeshArrays, other: MeshArrays, vc: Correlates): (r: Outcome<Added>)
    requires Joinable(self, other, vc)
  {
    if self.dim != other.dim then Err(DimensionsDoNotMatch)
    else
      var cells := PadToCommon(self.cellFaceIDs, MapTable(FaceMap(self, other, vc), other.cellFaceIDs));
      match ConcatenateColumns(PaddedFaces(self, other).0, AppendedFacesAsWritten(self, other, vc))
      case Err(e) => Err(e)
      case Ok(faces) =>
        match ConcatenateColumns(cells.0, cells.1)
        case Err(e) => Err(e)
        case Ok(cellFaces) =>
          Ok(Added(JoinedVertexCoords(self, other, vc), faces, cellFaces,
                   NumberOfVertices(self) > 0 && NumberOfVertices(other) > 0 && |vc| == 0,
                   NumberOfFaces(self) > 0 && NumberOfFaces(other) > 0 && |FaceCorrelates(self, other, vc)| == 0))
  }

  // ---------------------------------------------------------------------
  // Properties of the joined arrays

  /** Lines 357-360 and 433-434: the vertices of `self` come first, then the
      uncorrelated vertices of `other` in increasing order; the new ID of an
      uncorrelated vertex names its own point, and a correlated vertex is
      renumbered to its `self` counterpart. */
  lemma JoinedVertices(self: MeshArrays, other: MeshArrays, vc: Correlates)
    requires Joinable(self, other, vc)
    ensures var r := JoinedVertexCoords(self, other, vc);
      && |r| == NumberOfVertices(self) + NumberOfVertices(other) - |vc|
      && r[..NumberOfVertices(self)] == self.vertexCoords
      && (forall o | 0 <= o < NumberOfVertices(other) && o !in Others(vc) ::
            NumberOfVertices(self) <= VertexMap(self, other, vc)[o] < |r|
            && r[VertexMap(self, other, vc)[o]] == other.vertexCoords[o])
      && (forall i | 0 <= i < |vc| :: VertexMap(self, other, vc)[vc[i].1] == vc[i].0 < NumberOfVertices(self))
  {
    var nS, nO := NumberOfVertices(self), NumberOfVertices(other);
    var r := JoinedVertexCoords(self, other, vc);
    var toAdd := VerticesToAdd(other, vc);
    CorrelatesInRange(self, other, vc);
    RemainingCount(nO, vc);
    forall o | 0 <= o < nO && o !in Others(vc)
      ensures nS <= VertexMap(self, other, vc)[o] < |r| && r[VertexMap(self, other, vc)[o]] == other.vertexCoords[o]
    {
      RemainingRank(nO, Others(vc), o);
    }
    forall i | 0 <= i < |vc| ensures VertexMap(self, other, vc)[vc[i].1] == vc[i].0 {
      RenumberingCorrelated(nO, nS, vc, i);
    }
  }

  /** The number of faces of the joined mesh (lines 407-412 and 435-436). */
  lemma JoinedFaceCount(self: MeshArrays, other: MeshArrays, vc: Correlates)
    requires Joinable(self, other, vc)
    ensures Width(JoinedFaceVertexIDs(self, other, vc)) ==
      NumberOfFaces(self) + NumberOfFaces(other) - |FaceCorrelates(self, other, vc)|
  {
    RemainingCount(NumberOfFaces(other), FaceCorrelates(self, other, vc));
  }

  /** Lines 333-345 and 435-436: the joined face table has the larger of
      the two heights, and its first faces are those of `self`, padded with
      masked slots. */
  lemma JoinedFacesKeepSelf(self: MeshArrays, other: MeshArrays, vc: Correlates)
    requires Joinable(self, other, vc)
    ensures var r := JoinedFaceVertexIDs(self, other, vc);
      && r.height == Max(self.faceVertexIDs.height, other.faceVertexIDs.height)
      && forall f, i | 0 <= f < NumberOfFaces(self) && 0 <= i < r.height ::
           r.cols[f][i] == if i < self.faceVertexIDs.height then self.faceVertexIDs.cols[f][i] else None
  {
    var selfT := PaddedFaces(self, other).0;
    var r := JoinedFaceVertexIDs(self, other, vc);
    assert forall f | 0 <= f < NumberOfFaces(self) :: r.cols[f] == selfT.cols[f];
  }

  /** Lines 407-412 and 435-436: the new ID of an unmatched face of `other`
      is past the faces of `self` and names that face, padded, with its
      vertices renumbered. */
  lemma JoinedFacesAppendOther(self: MeshArrays, other: MeshArrays, vc: Correlates, o: nat)
    requires Joinable(self, other, vc)
    requires o < NumberOfFaces(other) && o !in Others(FaceCorrelates(self, other, vc))
    ensures var r := JoinedFaceVertexIDs(self, other, vc);
      var m := FaceMap(self, other, vc)[o];
      && NumberOfFaces(self) <= m < Width(r)
      && forall i | 0 <= i < r.height ::
           r.cols[m][i] ==
             if i < other.faceVertexIDs.height && other.faceVertexIDs.cols[o][i].Some?
             then Some(VertexMap(self, other, vc)[other.faceVertexIDs.cols[o][i].value]) else None
  {
    var fc := FaceCorrelates(self, other, vc);
    var nS, nO := NumberOfFaces(self), NumberOfFaces(other);
    var r := JoinedFaceVertexIDs(self, other, vc);
    var otherT := PaddedFaces(self, other).1;
    var appended := AppendedFaces(self, other, vc);
    RemainingRank(nO, Others(fc), o);
    var k := |Remaining(o, Others(fc))|;
    assert FaceMap(self, other, vc)[o] == nS + k;
    assert FacesToAdd(self, other, vc)[k] == o;
    assert r.cols[nS + k] == appended.cols[k];
    assert appended.cols[k] == MapColumn(VertexMap(self, other, vc), otherT.cols[o]);
  }

  /** Line 410: a matched face of `other` is renumbered to its `self` partner. */
  lemma JoinedFacesMergeMatched(self: MeshArrays, other: MeshArrays, vc: Correlates, i: nat)
    requires Joinable(self, other, vc)
    requires i < |FaceCorrelates(self, other, vc)|
    ensures var fc := FaceCorrelates(self, other, vc);
      FaceMap(self, other, vc)[fc[i].1] == fc[i].0 < NumberOfFaces(self)
  {
    RenumberingCorrelated(NumberOfFaces(other), NumberOfFaces(self), FaceCorrelates(self, other, vc), i);
  }

  /** A padded column with no masked slot comes from a table that needed no padding. */
  lemma CompletePaddedIsOriginal(a: Table, b: Table, c: nat)
    requires Shaped(a) && Shaped(b)
    ensures c < Width(a) && Complete(PadToCommon(a, b).0.cols[c]) ==> a.height >= b.height
    ensures c < Width(b) && Complete(PadToCommon(a, b).1.cols[c]) ==> b.height >= a.height
  {
    var r := PadToCommon(a, b);
    if c < Width(a) && a.height < b.height {
      assert !Complete(r.0.cols[c]) by {
        assert r.0.cols[c][a.height] == None;
      }
    }
    if c < Width(b) && b.height < a.height {
      assert !Complete(r.1.cols[c]) by {
        assert r.1.cols[c][b.height] == None;
      }
    }
  }

  /** Lines 348-396: a face of `other` is merged into a face of `self` only
      when every vertex of both is correlated (so neither has a masked slot
      and both face tables have the same height) and the renumbered vertices
      of the `other` face are those of the `self` face, in any order. */
  lemma MergedFacesShareVertices(self: MeshArrays, other: MeshArrays, vc: Correlates, i: nat)
    requires Joinable(self, other, vc)
    requires i < |FaceCorrelates(self, other, vc)|
    ensures var (fs, fo) := FaceCorrelates(self, other, vc)[i];
      && self.faceVertexIDs.height == other.faceVertexIDs.height
      && AllCorrelated(self.faceVertexIDs.cols[fs], Kept(vc))
      && AllCorrelated(other.faceVertexIDs.cols[fo], Others(vc))
      && AllBelow(other.faceVertexIDs.cols[fo], NumberOfVertices(other))
      && multiset(Ids(self.faceVertexIDs.cols[fs])) ==
         multiset(Take(VertexMap(self, other, vc), Ids(other.faceVertexIDs.cols[fo])))
  {
    var (selfT, otherT) := PaddedFaces(self, other);
    var selfCand := SelfCandidates(self, other, vc);
    var otherCand := OtherCandidates(self, other, vc);
    var pi := MatchIndices(SelfKeys(self, other, vc), OtherKeys(self, other, vc));
    var (fs, fo) := FaceCorrelates(self, other, vc)[i];
    var j, k := pi[i].0, pi[i].1;
    assert fs == selfCand[j] && fo == otherCand[k];
    assert SelfKey(selfT.cols[fs]) == OtherKey(VertexMap(self, other, vc), otherT.cols[fo]) by {
      assert SelfKeys(self, other, vc)[j] == OtherKeys(self, other, vc)[k];
    }
    CompletePaddedIsOriginal(self.faceVertexIDs, other.faceVertexIDs, fs);
    CompletePaddedIsOriginal(self.faceVertexIDs, other.faceVertexIDs, fo);
    assert selfT == self.faceVertexIDs && otherT == other.faceVertexIDs;
  }

  /** No two candidate faces of `self` have the same key. */
  predicate DistinctSelfKeys(self: MeshArrays, other: MeshArrays, vc: Correlates)
    requires WellFormed(self) && WellFormed(other)
  {
    var keys := SelfKeys(self, other, vc);
    forall j, j' | 0 <= j < j' < |keys| :: keys[j] != keys[j']
  }

  /** With distinct keys, the first position holding a key is its only one. */
  lemma FirstWithKeyUnique(keys: seq<seq<nat>>, j: nat)
    requires j < |keys| && forall i, i' | 0 <= i < i' < |keys| :: keys[i] != keys[i']
    ensures FirstWithKey(keys, keys[j]) == Some(j)
  {
  }

  /** The positions of `fs` and `fo` among the candidates, when both have all
      their vertices correlated. */
  lemma CandidatePositions(self: MeshArrays, other: MeshArrays, vc: Correlates, fs: nat, fo: nat)
    returns (j: nat, k: nat)
    requires Joinable(self, other, vc)
    requires fs < NumberOfFaces(self) && fo < NumberOfFaces(other)
    requires AllCorrelated(PaddedFaces(self, other).0.cols[fs], Kept(vc))
    requires AllCorrelated(PaddedFaces(self, other).1.cols[fo], Others(vc))
    ensures j < |SelfCandidates(self, other, vc)| && SelfCandidates(self, other, vc)[j] == fs
    ensures k < |OtherCandidates(self, other, vc)| && OtherCandidates(self, other, vc)[k] == fo
  {
    var selfCand := SelfCandidates(self, other, vc);
    var otherCand := OtherCandidates(self, other, vc);
    assert fs in selfCand && fo in otherCand;
    j :| 0 <= j < |selfCand| && selfCand[j] == fs;
    k :| 0 <= k < |otherCand| && otherCand[k] == fo;
  }

  /** Lines 348-396, the other direction: when no two faces of `self` with
      all vertices correlated share their vertices, every face of `other`
      whose renumbered vertices are those of such a face of `self` (in any
      order) is merged into it. */
  lemma FacesWithSameVerticesMerge(self: MeshArrays, other: MeshArrays, vc: Correlates, fs: nat, fo: nat)
    requires Joinable(self, other, vc)
    requires DistinctSelfKeys(self, other, vc)
    requires fs < NumberOfFaces(self) && fo < NumberOfFaces(other)
    requires AllCorrelated(PaddedFaces(self, other).0.cols[fs], Kept(vc))
    requires AllCorrelated(PaddedFaces(self, other).1.cols[fo], Others(vc))
    requires AllBelow(PaddedFaces(self, other).1.cols[fo], NumberOfVertices(other))
    requires multiset(Ids(PaddedFaces(self, other).0.cols[fs])) ==
      multiset(Take(VertexMap(self, other, vc), Ids(PaddedFaces(self, other).1.cols[fo])))
    ensures (fs, fo) in FaceCorrelates(self, other, vc)
  {
    var (selfT, otherT) := PaddedFaces(self, other);
    var selfKeys, otherKeys := SelfKeys(self, other, vc), OtherKeys(self, other, vc);
    var j, k := CandidatePositions(self, other, vc, fs, fo);
    KeysEqualIff(Ids(selfT.cols[fs]), Take(VertexMap(self, other, vc), Ids(otherT.cols[fo])));
    assert selfKeys[j] == otherKeys[k];
    FirstWithKeyUnique(selfKeys, j);
    MatchIndicesComplete(selfKeys, otherKeys, k);
    var pi := MatchIndices(selfKeys, otherKeys);
    var n :| 0 <= n < |pi| && pi[n] == (j, k);
    assert FaceCorrelates(self, other, vc)[n] == (fs, fo);
  }

  /** Lines 414-438: the joined cell table has the larger of the two
      heights, one cell per cell of either mesh, and its first cells are
      those of `self`, padded with masked slots. */
  lemma JoinedCellsKeepSelf(self: MeshArrays, other: MeshArrays, vc: Correlates, c: nat)
    requires Joinable(self, other, vc)
    requires c < NumberOfCells(self)
    ensures var r := JoinedCellFaceIDs(self, other, vc);
      && Width(r) == NumberOfCells(self) + NumberOfCells(other)
      && forall i | 0 <= i < r.height ::
           r.cols[c][i] == if i < self.cellFaceIDs.height then self.cellFaceIDs.cols[c][i] else None
  {
  }

  /** Lines 414-438: after them comes every cell of `other`, in order,
      with its face IDs renumbered and padded with masked slots. */
  lemma JoinedCellsAppendOther(self: MeshArrays, other: MeshArrays, vc: Correlates, c: nat)
    requires Joinable(self, other, vc)
    requires c < NumberOfCells(other)
    ensures var r := JoinedCellFaceIDs(self, other, vc);
      && Width(r) == NumberOfCells(self) + NumberOfCells(other)
      && forall i | 0 <= i < r.height ::
           r.cols[NumberOfCells(self) + c][i] ==
             if i < other.cellFaceIDs.height && other.cellFaceIDs.cols[c][i].Some?
             then Some(FaceMap(self, other, vc)[other.cellFaceIDs.cols[c][i].value]) else None
  {
    var m := FaceMap(self, other, vc);
    assert MapTable(m, other.cellFaceIDs).cols[c] == MapColumn(m, other.cellFaceIDs.cols[c]);
  }

  /** Every renumbered vertex is an ID of the joined vertex list. */
  lemma VertexMapBounded(self: MeshArrays, other: MeshArrays, vc: Correlates)
    requires Joinable(self, other, vc)
    ensures forall o | 0 <= o < NumberOfVertices(other) ::
      VertexMap(self, other, vc)[o] < |JoinedVertexCoords(self, other, vc)|
  {
    CorrelatesInRange(self, other, vc);
    JoinedVertices(self, other, vc);
    forall o | 0 <= o < NumberOfVertices(other)
      ensures VertexMap(self, other, vc)[o] < |JoinedVertexCoords(self, other, vc)|
    {
      RenumberingBounds(NumberOfVertices(other), NumberOfVertices(self), vc, o);
    }
  }

  /** Every renumbered face is an ID of the joined face table. */
  lemma FaceMapBounded(self: MeshArrays, other: MeshArrays, vc: Correlates)
    requires Joinable(self, other, vc)
    ensures forall o | 0 <= o < NumberOfFaces(other) ::
      FaceMap(self, other, vc)[o] < Width(JoinedFaceVertexIDs(self, other, vc))
  {
    var fc := FaceCorrelates(self, other, vc);
    forall o | 0 <= o < NumberOfFaces(other)
      ensures FaceMap(self, other, vc)[o] < Width(JoinedFaceVertexIDs(self, other, vc))
    {
      RenumberingBounds(NumberOfFaces(other), NumberOfFaces(self), fc, o);
    }
  }

  lemma JoinedPoints(self: MeshArrays, other: MeshArrays, vc: Correlates)
    requires Joinable(self, other, vc)
    requires self.dim == other.dim
    ensures var coords := JoinedVertexCoords(self, other, vc);
      forall v | 0 <= v < |coords| :: |coords[v]| == self.dim
  {
    var coords := JoinedVertexCoords(self, other, vc);
    forall v | 0 <= v < |coords| ensures |coords[v]| == self.dim {
      if v >= NumberOfVertices(self) {
        assert coords[v] == other.vertexCoords[VerticesToAdd(other, vc)[v - NumberOfVertices(self)]];
      }
    }
  }

  lemma JoinedFacesBounded(self: MeshArrays, other: MeshArrays, vc: Correlates)
    requires Joinable(self, other, vc)
    ensures Bounded(JoinedFaceVertexIDs(self, other, vc), |JoinedVertexCoords(self, other, vc)|)
  {
    var n := |JoinedVertexCoords(self, other, vc)|;
    var selfT := PaddedFaces(self, other).0;
    var otherT := PaddedFaces(self, other).1;
    var toAdd := FacesToAdd(self, other, vc);
    var picked := TakeColumns(otherT, toAdd);
    TakeColumnsBounded(otherT, toAdd, NumberOfVertices(other));
    VertexMapBounded(self, other, vc);
    MapTableBounded(VertexMap(self, other, vc), picked, n);
    assert Bounded(selfT, n);
    JoinBounded(selfT, AppendedFaces(self, other, vc), selfT.height, n);
  }

  lemma JoinedCellsBounded(self: MeshArrays, other: MeshArrays, vc: Correlates)
    requires Joinable(self, other, vc)
    ensures Bounded(JoinedCellFaceIDs(self, other, vc), Width(JoinedFaceVertexIDs(self, other, vc)))
  {
    var n := Width(JoinedFaceVertexIDs(self, other, vc));
    FaceMapBounded(self, other, vc);
    MapTableBounded(FaceMap(self, other, vc), other.cellFaceIDs, n);
    assert Bounded(self.cellFaceIDs, n);
    JoinColumnsBounded(self.cellFaceIDs, MapTable(FaceMap(self, other, vc), other.cellFaceIDs), n);
  }

  /** The joined arrays describe a mesh again: points of the common
      dimension, and every vertex ID and face ID they hold names an existing
      vertex or face. */
  lemma JoinedWellFormed(self: MeshArrays, other: MeshArrays, vc: Correlates, exteriorFaces: seq<bool>)
    requires Joinable(self, other, vc)
    requires self.dim == other.dim
    requires |exteriorFaces| == Width(JoinedFaceVertexIDs(self, other, vc))
    ensures WellFormed(MeshArrays(self.dim, JoinedVertexCoords(self, other, vc), JoinedFaceVertexIDs(self, other, vc),
                                  JoinedCellFaceIDs(self, other, vc), exteriorFaces))
  {
    JoinedPoints(self, other, vc);
    JoinedFacesBounded(self, other, vc);
    JoinedCellsBounded(self, other, vc);
  }

  /** Lines 321-325 and 399-403: each "not aligned" warning fires exactly
      when both meshes have such entities and none of them was merged. */
  lemma AlignmentWarnings(self: MeshArrays, other: MeshArrays, vc: Correlates)
    requires Joinable(self, other, vc)
    ensures var r := Joined(self, other, vc);
      && (r.verticesNotAligned <==>
            (NumberOfVertices(self) > 0 && NumberOfVertices(other) > 0
             && |r.vertexCoords| == NumberOfVertices(self) + NumberOfVertices(other)))
      && (r.facesNotAligned <==>
            (NumberOfFaces(self) > 0 && NumberOfFaces(other) > 0
             && Width(r.faceVertexIDs) == NumberOfFaces(self) + NumberOfFaces(other)))
  {
    JoinedVertices(self, other, vc);
    JoinedFaceCount(self, other, vc);
    CorrelatesInRange(self, other, vc);
    RemainingCount(NumberOfVertices(other), vc);
    RemainingCount(NumberOfFaces(other), FaceCorrelates(self, other, vc));
  }

  // ---------------------------------------------------------------------
  // The source as written against the corrected join

  /** When the face table of `self` is not the taller one, the two agree. */
  lemma AsWrittenAgreesUnlessSelfTaller(self: MeshArrays, other: MeshArrays, vc: Correlates)
    requires Joinable(self, other, vc)
    requires self.faceVertexIDs.height <= other.faceVertexIDs.height
    ensures AddedMeshValuesAsWritten(self, other, vc) == AddedMeshValues(self, other, vc)
  {
    if self.dim == other.dim {
      assert PaddedFaces(self, other).1 == other.faceVertexIDs;
      assert AppendedFacesAsWritten(self, other, vc) == AppendedFaces(self, other, vc);
    }
  }

  /** As written, a `self` face table taller than `other`'s is refused:
      line 412 rebuilds the appended faces from the unpadded table, whose
      height line 435 cannot concatenate. */
  lemma AsWrittenRefusesTallerSelf(self: MeshArrays, other: MeshArrays, vc: Correlates)
    requires Joinable(self, other, vc)
    requires self.dim == other.dim && self.faceVertexIDs.height > other.faceVertexIDs.height
    ensures AddedMeshValuesAsWritten(self, other, vc) == Err(FaceTableShapesDiffer)
    ensures AddedMeshValues(self, other, vc).Ok?
  {
    assert PaddedFaces(self, other).0 == self.faceVertexIDs;
  }
}
