/** Masked integer tables: the ragged connectivity arrays of a mesh.

    A face lists its vertices and a cell lists its faces in a table of fixed
    height whose unused slots are masked. The table is stored column by
    column (one column per face or per cell) and a masked slot is `None`,
    never a magic ID. */
module Masked {

  datatype Option<T> = None | Some(value: T)

  /** One column of a table: the vertex IDs of one face, or the face IDs of one cell. */
  type Column = seq<Option<nat>>

  /** A masked `height` x `|cols|` table. */
  datatype Table = Table(height: nat, cols: seq<Column>)

  function Width(t: Table): nat {
    |t.cols|
  }

  /** Every column has exactly `height` slots. */
  predicate Shaped(t: Table) {
    forall c | 0 <= c < |t.cols| :: |t.cols[c]| == t.height
  }

  /** Every present ID is below `bound`. */
  predicate Bounded(t: Table, bound: nat) {
    forall c, i | 0 <= c < |t.cols| && 0 <= i < |t.cols[c]| :: t.cols[c][i].Some? ==> t.cols[c][i].value < bound
  }

  /** No slot is masked and every ID is below `n`. */
  predicate AllBelow(col: Column, n: nat) {
    forall i | 0 <= i < |col| :: col[i].Some? && col[i].value < n
  }

  /** `n` masked slots. */
  function MaskedSlots(n: nat): (r: Column)
    ensures |r| == n && forall i | 0 <= i < n :: r[i] == None
  {
    seq(n, _ => None)
  }

  /** A column with masked slots appended up to `h` slots. */
  function PadColumn(col: Column, h: nat): (r: Column)
    requires |col| <= h
    ensures |r| == h && forall i | 0 <= i < h :: r[i] == if i < |col| then col[i] else None
  {
    col + MaskedSlots(h - |col|)
  }

  /** The table with masked rows appended up to height `h` (lines 335-339 and 419-423). */
  function PadTo(t: Table, h: nat): (r: Table)
    requires Shaped(t) && t.height <= h
    ensures Shaped(r) && r.height == h && Width(r) == Width(t)
    ensures forall c, i | 0 <= c < Width(t) && 0 <= i < h ::
      r.cols[c][i] == if i < t.height then t.cols[c][i] else None
  {
    Table(h, seq(|t.cols|, c requires 0 <= c < |t.cols| => PadColumn(t.cols[c], h)))
  }

  function Max(a: nat, b: nat): nat {
    if a < b then b else a
  }

  /** Both tables padded with masked rows to the larger of the two heights:
      the shorter one grows, the taller one is returned as it is. */
  function PadToCommon(a: Table, b: Table): (r: (Table, Table))
    requires Shaped(a) && Shaped(b)
    ensures Shaped(r.0) && Shaped(r.1)
    ensures r.0.height == r.1.height == Max(a.height, b.height)
    ensures Width(r.0) == Width(a) && Width(r.1) == Width(b)
    ensures a.height >= b.height ==> r.0 == a
    ensures b.height >= a.height ==> r.1 == b
    ensures a.height < b.height ==> r.0 == PadTo(a, b.height)
    ensures b.height < a.height ==> r.1 == PadTo(b, a.height)
  {
    var diff := a.height - b.height;
    if diff > 0 then (a, PadTo(b, a.height))
    else if diff < 0 then (PadTo(a, b.height), b)
    else (a, b)
  }

  /** `concatenate` along the columns of the two tables once both are
      padded to the larger height: the columns of `a`, then those of `b`. */
  function JoinColumns(a: Table, b: Table): (r: Table)
    requires Shaped(a) && Shaped(b)
    ensures Shaped(r) && r.height == Max(a.height, b.height) && Width(r) == Width(a) + Width(b)
    ensures forall c, i | 0 <= c < Width(a) && 0 <= i < r.height ::
      r.cols[c][i] == if i < a.height then a.cols[c][i] else None
    ensures forall c, i | 0 <= c < Width(b) && 0 <= i < r.height ::
      r.cols[Width(a) + c][i] == if i < b.height then b.cols[c][i] else None
  {
    var p := PadToCommon(a, b);
    var r := Table(p.0.height, p.0.cols + p.1.cols);
    assert forall c | 0 <= c < Width(b) :: r.cols[Width(a) + c] == p.1.cols[c];
    r
  }

  lemma PadToBounded(t: Table, h: nat, bound: nat)
    requires Shaped(t) && t.height <= h && Bounded(t, bound)
    ensures Bounded(PadTo(t, h), bound)
  {
  }

  /** The positions of the present (unmasked) slots of a column. */
  function PresentSlots(col: Column): set<nat> {
    set i: nat | i < |col| && col[i].Some?
  }

  /** The number of present (unmasked) slots of a column. */
  function CountPresent(col: Column): (n: nat)
    ensures n == |PresentSlots(col)|
    ensures n <= |col|
    ensures n == |col| <==> forall i | 0 <= i < |col| :: col[i].Some?
    ensures n == 0 <==> forall i | 0 <= i < |col| :: col[i] == None
  {
    if col == [] then 0
    else
      var k := |col| - 1;
      assert PresentSlots(col) == PresentSlots(col[..k]) + (if col[k].Some? then {k} else {});
      CountPresent(col[..k]) + (if col[k].Some? then 1 else 0)
  }

  /** The IDs of a column that has no masked slot. */
  function Ids(col: Column): (ids: seq<nat>)
    requires forall i | 0 <= i < |col| :: col[i].Some?
    ensures |ids| == |col| && forall i | 0 <= i < |col| :: col[i] == Some(ids[i])
  {
    seq(|col|, i requires 0 <= i < |col| => col[i].value)
  }

  /** Every present ID of `col` translated through `m`; masked slots stay masked. */
  function MapColumn(m: seq<nat>, col: Column): (r: Column)
    requires forall i | 0 <= i < |col| :: col[i].Some? ==> col[i].value < |m|
    ensures |r| == |col|
    ensures forall i | 0 <= i < |col| :: r[i] == if col[i].Some? then Some(m[col[i].value]) else None
  {
    seq(|col|, i requires 0 <= i < |col| => if col[i].Some? then Some(m[col[i].value]) else None)
  }

  /** `t[..., idx]`: the columns of `t` at the positions listed in `idx`. */
  function TakeColumns(t: Table, idx: seq<nat>): (r: Table)
    requires forall k | 0 <= k < |idx| :: idx[k] < |t.cols|
    ensures r.height == t.height && Width(r) == |idx|
    ensures forall k | 0 <= k < |idx| :: r.cols[k] == t.cols[idx[k]]
    ensures Shaped(t) ==> Shaped(r)
  {
    Table(t.height, seq(|idx|, k requires 0 <= k < |idx| => t.cols[idx[k]]))
  }

  lemma TakeColumnsBounded(t: Table, idx: seq<nat>, bound: nat)
    requires forall k | 0 <= k < |idx| :: idx[k] < |t.cols|
    requires Bounded(t, bound)
    ensures Bounded(TakeColumns(t, idx), bound)
  {
    var r := TakeColumns(t, idx);
    forall k, i | 0 <= k < |idx| && 0 <= i < |r.cols[k]| && r.cols[k][i].Some?
      ensures r.cols[k][i].value < bound
    {
      assert r.cols[k] == t.cols[idx[k]];
    }
  }

  /** Every column of `t` translated through `m`. */
  function MapTable(m: seq<nat>, t: Table): (r: Table)
    requires Bounded(t, |m|)
    ensures r.height == t.height && Width(r) == Width(t)
    ensures forall c | 0 <= c < Width(t) :: r.cols[c] == MapColumn(m, t.cols[c])
    ensures Shaped(t) ==> Shaped(r)
  {
    Table(t.height, seq(|t.cols|, c requires 0 <= c < |t.cols| => MapColumn(m, t.cols[c])))
  }

  /** Joining the columns of two tables keeps every ID below a common bound. */
  lemma JoinBounded(a: Table, b: Table, h: nat, bound: nat)
    requires Bounded(a, bound) && Bounded(b, bound)
    ensures Bounded(Table(h, a.cols + b.cols), bound)
  {
    var r := Table(h, a.cols + b.cols);
    forall c | 0 <= c < |r.cols| ensures r.cols[c] == if c < |a.cols| then a.cols[c] else b.cols[c - |a.cols|] {
    }
  }

  /** A renumbering whose every entry is below `bound` yields a table bounded by it. */
  lemma MapTableBounded(m: seq<nat>, t: Table, bound: nat)
    requires Bounded(t, |m|) && forall x | 0 <= x < |m| :: m[x] < bound
    ensures Bounded(MapTable(m, t), bound)
  {
  }

  lemma JoinColumnsBounded(a: Table, b: Table, bound: nat)
    requires Shaped(a) && Shaped(b) && Bounded(a, bound) && Bounded(b, bound)
    ensures Bounded(JoinColumns(a, b), bound)
  {
    var p := PadToCommon(a, b);
    PadToBounded(a, p.0.height, bound);
    PadToBounded(b, p.1.height, bound);
    JoinBounded(p.0, p.1, p.0.height, bound);
  }
}
