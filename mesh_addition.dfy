/** `_getAddedMeshValues` (fipy/meshes/abstractMesh.py:267-439) as a
    procedure: the dimension check, the vertex and face renumberings built
    by scatter-writes, and the concatenated arrays, each step proved to
    compute the join defined in `Concatenation`. */
module MeshAddition {
  import opened Masked
  import opened ArrayOps
  import opened Renumbering
  import opened Concatenation

  /** `_getAddedMeshValues` step by step: the dimension check, then the join. */
  method GetAddedMeshValues(self: MeshArrays, other: MeshArrays, vc: Correlates) returns (r: Outcome<Added>)
    requires Joinable(self, other, vc)
    ensures r == AddedMeshValues(self, other, vc)
  {
    if self.dim != other.dim {
      return Err(DimensionsDoNotMatch);
    }
    var added := JoinMeshes(self, other, vc);
    r := Ok(added);
  }

  /** Lines 348-438: the two scatter-built renumberings (lines 357-360 and
      407-410), the faces of `other` left unmatched with their vertices
      renumbered (line 412), the cells of `other` with their faces
      renumbered (line 416), and the concatenations of lines 433-438. */
  method JoinMeshes(self: MeshArrays, other: MeshArrays, vc: Correlates) returns (r: Added)
    requires Joinable(self, other, vc)
    ensures r == Joined(self, other, vc)
  {
    CorrelatesInRange(self, other, vc);
    var verticesToAdd, vertexMap := BuildRenumbering(NumberOfVertices(other), NumberOfVertices(self), vc);
    var faceCorrelates := FaceCorrelates(self, other, vc);
    var facesToAdd, faceMap := BuildRenumbering(NumberOfFaces(other), NumberOfFaces(self), faceCorrelates);
    var (selfFaces, otherFaces) := PaddedFaces(self, other);
    TakeColumnsBounded(otherFaces, facesToAdd, |vertexMap|);
    var appended := MapTable(vertexMap, TakeColumns(otherFaces, facesToAdd));
    var cells := JoinColumns(self.cellFaceIDs, MapTable(faceMap, other.cellFaceIDs));
    r := Added(self.vertexCoords + Take(other.vertexCoords, verticesToAdd),
               Table(selfFaces.height, selfFaces.cols + appended.cols), cells,
               NumberOfVertices(self) > 0 && NumberOfVertices(other) > 0 && |vc| == 0,
               NumberOfFaces(self) > 0 && NumberOfFaces(other) > 0 && |faceCorrelates| == 0);
  }
}
