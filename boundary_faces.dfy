/** The boundary face masks of a mesh (`facesLeft` ... `facesFront`) and the
    extreme-value helpers they are built on.

    Face centre coordinates are modelled as reals: the comparison `x == min(x)`
    is exact, as it is between the stored floating-point values. */
module BoundaryFaces {

  /** `_madmin`: 0 for an empty sequence, otherwise its least element. */
  function Madmin(x: seq<real>): (m: real)
    ensures |x| == 0 ==> m == 0.0
    ensures |x| > 0 ==> (exists i | 0 <= i < |x| :: x[i] == m) && forall i | 0 <= i < |x| :: m <= x[i]
  {
    if |x| == 0 then 0.0
    else if |x| == 1 then x[0]
    else
      var rest := Madmin(x[1..]);
      assert forall i | 1 <= i < |x| :: x[i] == x[1..][i - 1];
      if x[0] <= rest then x[0] else rest
  }

  /** `_madmax`: 0 for an empty sequence, otherwise its greatest element. */
  function Madmax(x: seq<real>): (m: real)
    ensures |x| == 0 ==> m == 0.0
    ensures |x| > 0 ==> (exists i | 0 <= i < |x| :: x[i] == m) && forall i | 0 <= i < |x| :: x[i] <= m
  {
    if |x| == 0 then 0.0
    else if |x| == 1 then x[0]
    else
      var rest := Madmax(x[1..]);
      assert forall i | 1 <= i < |x| :: x[i] == x[1..][i - 1];
      if rest <= x[0] then x[0] else rest
  }

  /** The faces whose coordinate `x` equals `_madmin(x)`: exactly those with
      the least coordinate, and at least one when there are faces. */
  function FacesAtMin(x: seq<real>): (r: seq<bool>)
    ensures |r| == |x|
    ensures forall f | 0 <= f < |x| :: r[f] <==> forall g | 0 <= g < |x| :: x[f] <= x[g]
    ensures |x| > 0 ==> exists f | 0 <= f < |x| :: r[f]
  {
    var m := Madmin(x);
    seq(|x|, f requires 0 <= f < |x| => x[f] == m)
  }

  /** The faces whose coordinate `x` equals `_madmax(x)`: exactly those with
      the greatest coordinate, and at least one when there are faces. */
  function FacesAtMax(x: seq<real>): (r: seq<bool>)
    ensures |r| == |x|
    ensures forall f | 0 <= f < |x| :: r[f] <==> forall g | 0 <= g < |x| :: x[g] <= x[f]
    ensures |x| > 0 ==> exists f | 0 <= f < |x| :: r[f]
  {
    var m := Madmax(x);
    seq(|x|, f requires 0 <= f < |x| => x[f] == m)
  }

  /** `faceCenters` is the dim x numberOfFaces table of face centre coordinates. */
  type FaceCenters = seq<seq<real>>

  /** Faces on the left: least x-centre. */
  function FacesLeft(faceCenters: FaceCenters): (r: seq<bool>)
    requires |faceCenters| >= 1
    ensures |r| == |faceCenters[0]|
    ensures forall f | 0 <= f < |r| :: r[f] <==> forall g | 0 <= g < |r| :: faceCenters[0][f] <= faceCenters[0][g]
  {
    FacesAtMin(faceCenters[0])
  }

  /** Faces on the right: greatest x-centre. */
  function FacesRight(faceCenters: FaceCenters): (r: seq<bool>)
    requires |faceCenters| >= 1
    ensures |r| == |faceCenters[0]|
    ensures forall f | 0 <= f < |r| :: r[f] <==> forall g | 0 <= g < |r| :: faceCenters[0][g] <= faceCenters[0][f]
  {
    FacesAtMax(faceCenters[0])
  }

  /** Faces at the bottom: least y-centre. */
  function FacesBottom(faceCenters: FaceCenters): (r: seq<bool>)
    requires |faceCenters| >= 2
    ensures |r| == |faceCenters[1]|
    ensures forall f | 0 <= f < |r| :: r[f] <==> forall g | 0 <= g < |r| :: faceCenters[1][f] <= faceCenters[1][g]
  {
    FacesAtMin(faceCenters[1])
  }

  /** Faces at the top: greatest y-centre. */
  function FacesTop(faceCenters: FaceCenters): (r: seq<bool>)
    requires |faceCenters| >= 2
    ensures |r| == |faceCenters[1]|
    ensures forall f | 0 <= f < |r| :: r[f] <==> forall g | 0 <= g < |r| :: faceCenters[1][g] <= faceCenters[1][f]
  {
    FacesAtMax(faceCenters[1])
  }

  /** Faces at the back: greatest z-centre. */
  function FacesBack(faceCenters: FaceCenters): (r: seq<bool>)
    requires |faceCenters| >= 3
    ensures |r| == |faceCenters[2]|
    ensures forall f | 0 <= f < |r| :: r[f] <==> forall g | 0 <= g < |r| :: faceCenters[2][g] <= faceCenters[2][f]
  {
    FacesAtMax(faceCenters[2])
  }

  /** Faces at the front: least z-centre. */
  function FacesFront(faceCenters: FaceCenters): (r: seq<bool>)
    requires |faceCenters| >= 3
    ensures |r| == |faceCenters[2]|
    ensures forall f | 0 <= f < |r| :: r[f] <==> forall g | 0 <= g < |r| :: faceCenters[2][f] <= faceCenters[2][g]
  {
    FacesAtMin(faceCenters[2])
  }
}
