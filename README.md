# Mesh connectivity of fipy's `AbstractMesh`

This project models the integer connectivity core of FiPy's mesh base class
(`fipy/meshes/abstractMesh.py`) in Dafny and proves properties of the model.
The core covers four things:

- **Connecting faces** (`_connectFaces`). This is how periodic meshes are built.
  Every face in `faces0` takes over the owner cell, distances and normal of its
  partner face in `faces1`. The cells that owned `faces1` list `faces0` instead.
  It is modelled as a `Mesh` class whose method updates the fields in place. The
  loop over dimensions stays a loop. The rewrite of the cell face lists is the
  corrected one, applied pair by pair (`RedirectPairs`). The source's row-wise
  write-back, which can lose a redirect (see "## Findings"), is modelled on its
  own as `RedirectRows`.
- **Adding meshes** (`_getAddedMeshValues`). Vertices of `other` that coincide
  with exterior vertices of `self` are merged, and faces whose renumbered vertex
  sets agree are merged. Everything else of `other` is renumbered and appended
  after `self`. The dimension check returns an error value, and the two
  "not aligned" warnings become boolean flags in the result. The operation is
  specified by pure functions (`Concatenation`). A method (`MeshAddition`) builds
  the two renumberings with the source's scatter writes and is proved to compute
  those functions.
- **Topology helpers.** These are the memoised `interiorFaceIDs` and
  `interiorFaceCellIDs`, and `_numberOfFacesPerCell` for masked tables.
- **Boundary masks.** These are `facesLeft` … `facesFront` over `_madmin` and
  `_madmax`.

The face and cell tables are masked numpy arrays. They are modelled as
column-major tables (`Masked.Table`) with one column per face or cell. A masked
slot is `None`. numpy's `take` and `put` are `ArrayOps.Take` and `ArrayOps.Put`.
With `Put`, the last write to a repeated index wins, as it does in numpy.

## Model

| member | source | states |
|---|---|---|
| AbstractMeshes.Mesh.ConnectFaces | fipy/meshes/abstractMesh.py:162-258 | Keeps the mesh invariant: row 0 of `faceCellIDs` stays fully owned and every face ID stays a real face. The new face-to-cell rows, distances, cell distances and normals are the connected ones. Every owner cell of a `faces1` face lists the partner `faces0` face instead, pair by pair. Dimension, face flags, scale and caches are unchanged. |
| AbstractMeshes.ConnectNormalRows | fipy/meshes/abstractMesh.py:230-234 | The loop over dimensions yields, for every dimension, the row whose `faces0` entries are taken from `faces1`. |
| AbstractMeshes.RedirectRows | fipy/meshes/abstractMesh.py:238-250 | As written: the row-by-row loop (gather the owner columns, redirect, put back) yields the row-wise redirected cell-face table. |
| AbstractMeshes.RedirectPairs | fipy/meshes/abstractMesh.py:238-250 | Corrected: the loop over pairs rewrites, in the owner cell of each pair, the `faces1` face to the `faces0` face, giving the pair-by-pair redirected table. |
| FaceConnection.ConnectedRowsAt | fipy/meshes/abstractMesh.py:208-212 | For distinct `faces0`, face `faces0[j]` gets the owner of `faces1[j]` as owner and its own old owner as neighbour. |
| FaceConnection.ConnectedRowsElsewhere | fipy/meshes/abstractMesh.py:208-212 | A face outside `faces0` keeps both of its cells. |
| FaceConnection.ConnectedRowsOwned | fipy/meshes/abstractMesh.py:208-212 | After the rewrite every face still has an owner cell, and every neighbour present is a real cell. |
| FaceConnection.ConnectedCellDistancesAt | fipy/meshes/abstractMesh.py:223-227 | The cell distance of a `faces0` face is the sum of its two new face-to-cell distances. Every other face keeps its old cell distance. |
| FaceConnection.ConnectedNormalsAt | fipy/meshes/abstractMesh.py:230-234 | Every component of the normal of `faces0[j]` is that of `faces1[j]`. Every other normal is unchanged. |
| FaceConnection.RedirectedCellFacesAt | fipy/meshes/abstractMesh.py:238-250 | With distinct owner cells, every slot of an owner cell naming its `faces1` face names the `faces0` face instead. Non-owner cells are untouched. |
| FaceConnection.RedirectedCellFacesBounded | fipy/meshes/abstractMesh.py:238-250 | The rewrite writes only existing IDs or `faces0` IDs, so every face ID stays a real face. |
| FaceConnection.RedirectedAgreesWhenOwnersDistinct | fipy/meshes/abstractMesh.py:243-250 | With distinct owner cells, the row-wise write-back equals the pair-by-pair redirection. |
| FaceConnection.RedirectEachAt | fipy/meshes/abstractMesh.py:236-250 | Intended rewrite: each slot naming `faces1[j]` in an owner cell of pair `j` names `faces0[j]`, even when a cell owns several `faces1` faces. |
| FaceConnection.RedirectEachBounded | fipy/meshes/abstractMesh.py:236-250 | The pair-by-pair rewrite writes only existing IDs or `faces0` IDs, so every face ID stays a real face. |
| FaceConnection.GridConnectLeftRightOwners | fipy/meshes/abstractMesh.py:173-189 | On the documented 2x2 grid, joining faces [6, 9] to [8, 11] gives faces 6 and 9 owners 1 and 3 and neighbours 0 and 2. |
| FaceConnection.GridConnectLeftRight | fipy/meshes/abstractMesh.py:177-189 | The documented example: cell 1 lists face 6 instead of face 8, and cell 3 lists face 9 instead of face 11. The cell-face table becomes the one printed in the docstring, both pair by pair and as written. |
| FaceConnection.GridConnectTwoAxesOwners | fipy/meshes/abstractMesh.py:238 | Connecting both axes at once on the grid makes cell 3 the owner of two `faces1` faces (11 and 5). |
| FaceConnection.GridConnectTwoAxesLosesRedirect | fipy/meshes/abstractMesh.py:250 | As written, cell 3 still lists face 11 after the connection. |
| FaceConnection.GridConnectTwoAxesRedirectEach | fipy/meshes/abstractMesh.py:236-250 | Redirected pair by pair, cell 3 lists face 9 in that slot. |
| AbstractMeshes.Nonzero | fipy/meshes/abstractMesh.py:448 | The positions of the true flags, strictly increasing, each one a true flag, and every true flag listed. |
| AbstractMeshes.Mesh.InteriorFaceIDs | fipy/meshes/abstractMesh.py:445-449 | Returns the interior face IDs and remembers them. The cached value always equals the nonzero positions of `interiorFaces`. |
| AbstractMeshes.Mesh.InteriorFaceCellIDs | fipy/meshes/abstractMesh.py:451-458 | On first use, returns both `faceCellIDs` rows taken at the interior faces, and remembers the interior face IDs on the way. Later calls return the remembered value and leave both caches as they are. |
| AbstractMeshes.Mesh.NumberOfFacesPerCell | fipy/meshes/abstractMesh.py:460-465 | One count per cell: the number of unmasked face IDs of that cell, as `count(axis=0)` returns. A count reaches the table height exactly when the cell has no masked slot, and is 0 exactly when every slot is masked. |
| AbstractMeshes.Mesh.SetScale | fipy/meshes/abstractMesh.py:92-99 | Records the scale length. |
| Masked.CountPresent | fipy/meshes/abstractMesh.py:465 | `count` on a column: the number of its unmasked slots. So it is at most its length, full exactly when nothing is masked, and 0 exactly when everything is. |
| BoundaryFaces.Madmin | fipy/meshes/abstractMesh.py:1332-1336 | 0 for an empty sequence. Otherwise an element of it that is at most every element. |
| BoundaryFaces.Madmax | fipy/meshes/abstractMesh.py:1338-1342 | 0 for an empty sequence. Otherwise an element of it that is at least every element. |
| BoundaryFaces.FacesLeft | fipy/meshes/abstractMesh.py:716-736 | A face is flagged exactly when its x-centre is the least one. |
| BoundaryFaces.FacesRight | fipy/meshes/abstractMesh.py:738-758 | A face is flagged exactly when its x-centre is the greatest one. |
| BoundaryFaces.FacesBottom | fipy/meshes/abstractMesh.py:760-780 | A face is flagged exactly when its y-centre is the least one. |
| BoundaryFaces.FacesTop | fipy/meshes/abstractMesh.py:784-804 | A face is flagged exactly when its y-centre is the greatest one. |
| BoundaryFaces.FacesBack | fipy/meshes/abstractMesh.py:808-824 | A face is flagged exactly when its z-centre is the greatest one. |
| BoundaryFaces.FacesFront | fipy/meshes/abstractMesh.py:826-842 | A face is flagged exactly when its z-centre is the least one. |
| Concatenation.ExteriorVertices | fipy/meshes/abstractMesh.py:289-297 | Strictly increasing, and containing exactly the vertices that lie on an exterior face. |
| Concatenation.CorrelatesInRange | fipy/meshes/abstractMesh.py:317-318 | Vertex correlates name real vertices of both meshes, and no vertex of `other` appears twice. |
| Masked.PadToCommon | fipy/meshes/abstractMesh.py:333-345 | Both tables get the larger height. The shorter table's columns are its old slots followed by masked ones (`PadTo`). The taller table is left as it is, and the widths are kept. |
| Concatenation.MatchingFaces | fipy/meshes/abstractMesh.py:347-353 | The faces whose every slot is a correlated vertex, strictly increasing and all listed. A masked slot never matches. |
| Renumbering.Remaining | fipy/meshes/abstractMesh.py:358 | `delete(arange(n), removed)`: strictly increasing, below `n`, and avoiding the removed IDs. |
| Renumbering.RemainingMembers | fipy/meshes/abstractMesh.py:358 | An ID is left exactly when it is below `n` and not removed. |
| Renumbering.RemainingCount | fipy/meshes/abstractMesh.py:359 | With distinct correlated IDs, exactly `n - len(correlates)` IDs are left. |
| Renumbering.BuildRenumbering | fipy/meshes/abstractMesh.py:357-360 | The two scatter loops produce the IDs to add, `n - len(correlates)` of them, and the renumbering `RenumberingOf`. |
| Renumbering.ScatterIsRenumbering | fipy/meshes/abstractMesh.py:357-360 | An array holding `base + k` at the k-th remaining ID and each self ID at its correlated other ID is exactly `RenumberingOf`. |
| Renumbering.RenumberingCorrelated | fipy/meshes/abstractMesh.py:360 | A correlated ID of `other` maps to its counterpart in `self`. |
| Renumbering.RenumberingAppended | fipy/meshes/abstractMesh.py:359 | The k-th uncorrelated ID maps to `base + k`. |
| Renumbering.RenumberingMonotone | fipy/meshes/abstractMesh.py:359 | Uncorrelated IDs keep their relative order. |
| Renumbering.RenumberingBounds | fipy/meshes/abstractMesh.py:357-360 | Correlated IDs land below `base`, and appended IDs land in `[base, base + n - len(correlates))`. |
| Sorting.SortIds | fipy/meshes/abstractMesh.py:368-382 | The sorted key of a face: sorted, a permutation of the IDs. |
| Sorting.KeysEqualIff | fipy/meshes/abstractMesh.py:365-384 | Two faces have equal keys exactly when they hold the same multiset of vertex IDs. |
| Concatenation.FirstWithKey | fipy/meshes/abstractMesh.py:390-393 | Finds the first `self` key equal to the given key, or reports that none is equal. |
| Concatenation.MatchIndices | fipy/meshes/abstractMesh.py:390-396 | Every pair links equal keys, and the `other` positions are strictly increasing. |
| Concatenation.MatchIndicesComplete | fipy/meshes/abstractMesh.py:390-396 | Every `other` key that has an equal `self` key is paired with the first such key. |
| Concatenation.FaceCorrelates | fipy/meshes/abstractMesh.py:395-396 | The face correlates name real faces of both meshes, and no `other` face appears twice. |
| Concatenation.MergedFacesShareVertices | fipy/meshes/abstractMesh.py:347-396 | Two merged faces have the same number of vertex slots, no masked slot, and the same multiset of vertices after renumbering. |
| Concatenation.FacesWithSameVerticesMerge | fipy/meshes/abstractMesh.py:347-396 | Suppose the `self` keys are distinct. Then a correlated face of `self` and a correlated face of `other` with the same renumbered vertex multiset are merged. |
| Concatenation.JoinedVertices | fipy/meshes/abstractMesh.py:357-360 | The joined points are those of `self`, followed by the uncorrelated points of `other`. The new ID of an uncorrelated vertex names its own point, and a correlated vertex maps to its `self` counterpart. The concatenation is that of lines 433-434. |
| Concatenation.JoinedFaceCount | fipy/meshes/abstractMesh.py:408-436 | The joined face count is the faces of `self` plus the faces of `other` that were not merged. |
| Concatenation.JoinedFacesKeepSelf | fipy/meshes/abstractMesh.py:333-345 | Every face of `self` keeps its vertices, padded with masked slots to the common height, and stays first in the concatenation of line 435. |
| Concatenation.JoinedFacesAppendOther | fipy/meshes/abstractMesh.py:407-412 | An unmerged face of `other` reappears at its new ID with its vertices renumbered, padded to the common height, after the faces of `self` (lines 435-436). |
| Concatenation.JoinedFacesMergeMatched | fipy/meshes/abstractMesh.py:410 | A merged face of `other` maps to its `self` partner. |
| Concatenation.JoinedCellsKeepSelf | fipy/meshes/abstractMesh.py:414-429 | The cells of `self` come first with their faces unchanged, padded with masked slots (lines 437-438). |
| Concatenation.JoinedCellsAppendOther | fipy/meshes/abstractMesh.py:416-438 | Every cell of `other` is appended, with its faces renumbered through the face map. |
| Concatenation.JoinedWellFormed | fipy/meshes/abstractMesh.py:432-439 | The joined arrays form a mesh: every point has the common dimension, every face's vertex IDs are real vertices, and every cell's face IDs are real faces. |
| Concatenation.AlignmentWarnings | fipy/meshes/abstractMesh.py:321-325 | Each "not aligned" flag is set exactly when both meshes have such entities and all of `other`'s are appended (vertices at lines 321-325, faces at lines 399-403). |
| Concatenation.AddedMeshValues | fipy/meshes/abstractMesh.py:283-285 | The join is refused exactly when the dimensions differ, with "Dimensions do not match". |
| MeshAddition.GetAddedMeshValues | fipy/meshes/abstractMesh.py:267-439 | The procedure returns exactly the join specified by `AddedMeshValues`. |
| MeshAddition.JoinMeshes | fipy/meshes/abstractMesh.py:348-438 | Building both renumberings by scatter writes and concatenating gives the specified joined arrays. |
| Concatenation.AsWrittenAgreesUnlessSelfTaller | fipy/meshes/abstractMesh.py:412-436 | If the face table of `self` is no taller than that of `other`, the join as written and the corrected join agree. |
| Concatenation.AsWrittenRefusesTallerSelf | fipy/meshes/abstractMesh.py:412-436 | If the face table of `self` is taller, the join as written fails at the concatenation, while the corrected join, which uses the table padded at lines 333-339, succeeds. |
| ConcatenationExamples.TallerSelfFaceTableRefused | fipy/meshes/abstractMesh.py:412-436 | Adding a triangle to a quadrilateral fails as written. Corrected by the padding of lines 333-339, the result is [0, 1, 2, 3] and [4, 5, 6, masked]. |

## Left out

- The search for coinciding vertices (lines 299-318) is not modelled. It is a nearest-point search in floating point with a tolerance relative to the smallest cell-to-cell distance. Instead, the vertex correlates are an input. They are required to pair exterior vertices, with the `other` IDs strictly increasing, as `numerix.unique` makes them.
- The `allclose` check on area projections (lines 202-203) is floating-point geometry and is not modelled. The exterior-face check (lines 195-199) and the equal lengths it implies become preconditions of `ConnectFaces`.
- `_setTopology` and `_handleFaceConnection` (lines 253-256) are not part of this model. They are overridden in subclasses. As a result, the interior and exterior flags and the memoised caches are not refreshed after a connection. The `ensures` of `ConnectFaces` says they are unchanged.
- `_setScale` (lines 92-101) only records the length, and line 258 records it again through the `scale` property. `SetScale` models that. The default argument is not modelled.
- `facesLeft` … `facesFront` require as many centre coordinates as the axis they read. On a mesh of lower dimension (`facesBack` on a 2D mesh, say) the source raises `IndexError`, which is not modelled.
- `_numberOfFacesPerCell` for an unmasked table (line 467, through `_maxFacesPerCell`) is not modelled. Tables are always masked here.
- Lines 412 and 416 index the renumbering with `.value` of masked tables, so a masked slot is looked up by the value stored under its mask. For the -1 that padding stores (lines 335-339), numpy's negative indexing returns the renumbering's last entry: a real ID, and the slot is no longer masked. The model keeps masked slots masked instead. Likewise, `filled()` in lines 290 and 294 would add the fill value to the exterior vertices, which `ExteriorVertices` leaves out.
- Concatenation.FaceCorrelates: the source sorts face hashes with `argsort` and pairs them with two `in1d` selections (lines 372-393). The model pairs each candidate face of `other` with the first candidate face of `self` that has an equal key. The two agree when the keys within each mesh are distinct, which is the case `FacesWithSameVerticesMerge` assumes. With duplicate keys the source's pairing depends on sort order and is not modelled.
- Keys are whole sorted vertex-ID sequences. The source hashes them with `apply_along_axis(str, …)` (lines 370 and 384), which sizes the string type from the first face's string and truncates longer ones. Truncated `self` keys can then miss equal `other` keys at line 388, and distinct faces sharing a prefix can collide. These misses and collisions are not modelled: the model compares whole keys.
- Geometry (face centres, areas, normals, cell volumes), `_translate`, the VTK and Gmsh exports, parallel global IDs, the deprecated getters and the rest of the mesh classes are not part of this model.
- Overlapping meshes are not merged: every cell of `other` is appended (lines 416 and 437-438), as the `__add__` docstring says at line 904. Only vertices and faces can be shared.

## Findings

| source | as written | input that shows it | evidently intended | confidence | as-written member | corrected member |
|---|---|---|---|---|---|---|
| fipy/meshes/abstractMesh.py:412 | The appended faces are built from `other.faceVertexIDs`, not from the table padded at lines 333-339. The concatenation of lines 435-436 then meets tables of different heights whenever the faces of `self` have more slots than those of `other`. | `self` is one quadrilateral face (vertices 0-3), `other` is one triangular face (vertices 0-2), and there are no vertex correlates. | The padded table is used, so the triangle is appended as [4, 5, 6, masked]. | not executed | ConcatenationExamples.TallerSelfFaceTableRefused | Concatenation.AddedMeshValues |
| fipy/meshes/abstractMesh.py:250 | `put` of the redirected owner columns stores a column once per pair. When one cell owns two `faces1` faces, the later copy is the column redirected only for its own pair, and the earlier redirect is lost. | The 2x2 grid of the docstring with `faces0 = [6, 9, 0, 1]` and `faces1 = [8, 11, 4, 5]`: cell 3 owns faces 11 and 5 and still lists face 11. | Every `faces1` face of every owner cell is redirected, so cell 3 lists face 9. | not executed | FaceConnection.GridConnectTwoAxesLosesRedirect | AbstractMeshes.RedirectPairs |
