/** A concrete pair of meshes on which the source as written refuses to
    join: a quadrilateral face joined by a triangular one
    (fipy/meshes/abstractMesh.py:333-345, 412 and 435-436). */
module ConcatenationExamples {
  import opened Masked
  import opened Renumbering
  import opened Concatenation
  import AbstractMeshes

  /** A one-face mesh whose face has four vertices. */
  function QuadFace(): MeshArrays {
    MeshArrays(1, [[0.0], [1.0], [2.0], [3.0]],
               Table(4, [[Some(0), Some(1), Some(2), Some(3)]]), Table(0, []), [true])
  }

  /** A one-face mesh whose face has three vertices. */
  function TriangleFace(): MeshArrays {
    MeshArrays(1, [[4.0], [5.0], [6.0]], Table(3, [[Some(0), Some(1), Some(2)]]), Table(0, []), [true])
  }

  /** Without vertex correlates no face of `other` with a slot is merged. */
  lemma NoFaceCorrelatesWithoutVertexCorrelates(self: MeshArrays, other: MeshArrays)
    requires WellFormed(self) && WellFormed(other) && other.faceVertexIDs.height > 0
    ensures FaceCorrelates(self, other, []) == []
  {
    var t := PaddedFaces(self, other).1;
    NothingCorrelated(t);
    var none: Correlates := [];
    var flags := seq(Width(t), f requires 0 <= f < Width(t) => AllCorrelated(t.cols[f], Others(none)));
    NonzeroNone(flags);
    assert OtherCandidates(self, other, []) == AbstractMeshes.Nonzero(flags);
    assert |OtherKeys(self, other, [])| == 0;
  }

  /** No flag set, no position listed. */
  lemma {:induction false} NonzeroNone(bs: seq<bool>)
    requires forall i | 0 <= i < |bs| :: !bs[i]
    ensures AbstractMeshes.Nonzero(bs) == []
    decreases |bs|
  {
    if bs != [] {
      NonzeroNone(bs[..|bs| - 1]);
    }
  }

  /** With no correlated vertex, no face with a slot has all its vertices correlated. */
  lemma NothingCorrelated(t: Table)
    requires Shaped(t) && t.height > 0
    ensures forall f | 0 <= f < Width(t) :: !AllCorrelated(t.cols[f], Others([]))
  {
    forall f | 0 <= f < Width(t) ensures !AllCorrelated(t.cols[f], Others([])) {
      var col := t.cols[f];
      assert col[0].Some? ==> col[0].value !in Others([]);
    }
  }

  /** Without vertex correlates every vertex of `other` is appended. */
  lemma VertexMapWithoutCorrelates(self: MeshArrays, other: MeshArrays, o: nat)
    requires o < NumberOfVertices(other)
    ensures VertexMap(self, other, [])[o] == NumberOfVertices(self) + o
  {
    var none: Correlates := [];
    assert Others(none) == {};
    RemainingNone(o);
  }

  /** The triangle's face is not merged: it becomes face 1. */
  lemma TriangleFaceRenumbered(self: MeshArrays, other: MeshArrays)
    requires self == QuadFace() && other == TriangleFace()
    requires Joinable(self, other, [])
    ensures FaceCorrelates(self, other, []) == [] && FaceMap(self, other, [])[0] == 1
  {
    NoFaceCorrelatesWithoutVertexCorrelates(self, other);
    var fc := FaceCorrelates(self, other, []);
    assert Others(fc) == {};
    RemainingNone(1);
  }

  /** Face 1 lists the triangle's vertices renumbered past the quadrilateral's four. */
  lemma TriangleAppended(self: MeshArrays, other: MeshArrays)
    requires Joinable(self, other, [])
    requires NumberOfVertices(self) == 4 && self.faceVertexIDs.height == 4
    requires NumberOfVertices(other) == 3 && other.faceVertexIDs == TriangleFace().faceVertexIDs
    requires FaceCorrelates(self, other, []) == [] && FaceMap(self, other, [])[0] == 1
    ensures JoinedFaceVertexIDs(self, other, []).cols[1] == [Some(4), Some(5), Some(6), None]
  {
    TriangleAppendedSlots(self, other);
  }

  /** The four slots of face 1, one by one. */
  lemma TriangleAppendedSlots(self: MeshArrays, other: MeshArrays)
    requires Joinable(self, other, [])
    requires NumberOfVertices(self) == 4 && self.faceVertexIDs.height == 4
    requires NumberOfVertices(other) == 3 && other.faceVertexIDs == TriangleFace().faceVertexIDs
    requires FaceCorrelates(self, other, []) == [] && FaceMap(self, other, [])[0] == 1
    ensures var col := JoinedFaceVertexIDs(self, other, []).cols[1];
      |col| == 4 && col[0] == Some(4) && col[1] == Some(5) && col[2] == Some(6) && col[3] == None
  {
    var none: Correlates := [];
    assert Others(none) == {};
    JoinedFacesAppendOther(self, other, [], 0);
    JoinedFacesKeepSelf(self, other, []);
    var r := JoinedFaceVertexIDs(self, other, []);
    var t := other.faceVertexIDs;
    assert t.height == 3 && t.cols[0][0] == Some(0) && t.cols[0][1] == Some(1) && t.cols[0][2] == Some(2);
    var vm := VertexMap(self, other, []);
    VertexMapWithoutCorrelates(self, other, 0);
    VertexMapWithoutCorrelates(self, other, 1);
    VertexMapWithoutCorrelates(self, other, 2);
    assert vm[0] == 4 && vm[1] == 5 && vm[2] == 6;
    assert r.height == 4;
  }

  /** The joined table holds the quadrilateral and the triangle and nothing else. */
  lemma QuadKept(self: MeshArrays, other: MeshArrays)
    requires self == QuadFace() && other == TriangleFace()
    requires Joinable(self, other, [])
    ensures var faces := JoinedFaceVertexIDs(self, other, []);
      faces.cols == [[Some(0), Some(1), Some(2), Some(3)], faces.cols[1]]
  {
    QuadKeptColumns(self, other);
  }

  /** The first column and the number of columns of the joined table. */
  lemma QuadKeptColumns(self: MeshArrays, other: MeshArrays)
    requires self == QuadFace() && other == TriangleFace()
    requires Joinable(self, other, [])
    ensures JoinedFaceVertexIDs(self, other, []).cols[0] == [Some(0), Some(1), Some(2), Some(3)]
    ensures Width(JoinedFaceVertexIDs(self, other, [])) == 2
  {
    NoFaceCorrelatesWithoutVertexCorrelates(self, other);
    JoinedFacesKeepSelf(self, other, []);
    JoinedFaceCount(self, other, []);
  }

  /** The two one-face meshes can be joined without vertex correlates. */
  lemma QuadTriangleJoinable()
    ensures Joinable(QuadFace(), TriangleFace(), [])
  {
  }

  /** Adding a three-vertex face to a four-vertex face with no vertex in
      common: as written the join is refused, while the padded join appends
      the face as vertices 4, 5, 6 and a masked slot. */
  lemma TallerSelfFaceTableRefused(self: MeshArrays, other: MeshArrays)
    requires self == QuadFace() && other == TriangleFace()
    ensures Joinable(self, other, [])
    ensures AddedMeshValuesAsWritten(self, other, []) == Err(FaceTableShapesDiffer)
    ensures var r := AddedMeshValues(self, other, []);
      && r.Ok?
      && r.value.faceVertexIDs.cols ==
           [[Some(0), Some(1), Some(2), Some(3)], [Some(4), Some(5), Some(6), None]]
  {
    QuadTriangleJoinable();
    AsWrittenRefusesTallerSelf(self, other, []);
    TriangleFaceRenumbered(self, other);
    assert NumberOfVertices(self) == 4 && self.faceVertexIDs.height == 4 && NumberOfVertices(other) == 3;
    TriangleAppended(self, other);
    QuadKept(self, other);
    assert AddedMeshValues(self, other, []) == Ok(Joined(self, other, []));
  }
}
