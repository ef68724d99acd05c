/**
 * The flattening loop of coordinates.py: every contour is simplified by the
 * opaque polygon approximation, and its points become rows `(ID, X, Y)` of
 * one table, where ID counts the contours from 0 and each point, unpacked as
 * `(y, x)`, is stored as `(x, y)`.
 */
module Coordinates {

  /** A point as the approximation returns it: its first component is read as y, its second as x. */
  type Point = (int, int)

  type Contour = seq<Point>

  datatype Row = Row(id: nat, x: int, y: int)

  datatype Table = Table(columns: seq<string>, rows: seq<Row>)

  const Columns: seq<string> := ["ID", "X", "Y"]

  /** The approximation accuracy: 0.0005 times the closed perimeter. */
  function Tolerance(perimeter: real): (eps: real)
    ensures perimeter >= 0.0 ==> 0.0 <= eps <= perimeter
  {
    0.0005 * perimeter
  }

  /** The simplified polygon of every contour, in order. */
  function Simplified(contours: seq<Contour>, approx: (Contour, real) -> Contour, arcLength: Contour -> real): (polys: seq<Contour>)
  {
    seq(|contours|, k requires 0 <= k < |contours| => approx(contours[k], Tolerance(arcLength(contours[k]))))
  }

  /** The rows of one polygon: its id and each point with its pair swapped. */
  function PolygonRows(id: nat, poly: Contour): (rows: seq<Row>)
  {
    seq(|poly|, j requires 0 <= j < |poly| => Row(id, poly[j].1, poly[j].0))
  }

  /** The rows of the polygons, the first one numbered `first`. */
  function Rows(polys: seq<Contour>, first: nat): seq<Row> {
    if polys == [] then [] else PolygonRows(first, polys[0]) + Rows(polys[1..], first + 1)
  }

  function TotalPoints(polys: seq<Contour>): nat {
    if polys == [] then 0 else |polys[0]| + TotalPoints(polys[1..])
  }

  /** Where the rows of polygon k start: the points of the polygons before it. */
  function Offset(polys: seq<Contour>, k: nat): nat
    requires k <= |polys|
  {
    TotalPoints(polys[..k])
  }

  lemma {:induction false} RowsAppend(polys: seq<Contour>, poly: Contour, first: nat)
    ensures Rows(polys + [poly], first) == Rows(polys, first) + PolygonRows(first + |polys|, poly)
    decreases |polys|
  {
    if polys == [] {
      assert [poly][1..] == [];
      assert Rows([poly], first) == PolygonRows(first, poly) + [];
    } else {
      var all := polys + [poly];
      assert all[0] == polys[0] && all[1..] == polys[1..] + [poly];
      RowsAppend(polys[1..], poly, first + 1);
      var head := PolygonRows(first, polys[0]);
      var last := PolygonRows(first + |polys|, poly);
      assert Rows(all, first) == head + (Rows(polys[1..], first + 1) + last);
    }
  }

  /** There is one row per simplified point. */
  lemma {:induction false} RowCount(polys: seq<Contour>, first: nat)
    ensures |Rows(polys, first)| == TotalPoints(polys)
    decreases |polys|
  {
    if polys != [] {
      RowCount(polys[1..], first + 1);
    }
  }

  /**
   * Point j of polygon k is row Offset(k) + j, carrying id `first + k` and
   * the point's coordinates swapped: the polygons appear in order, each as one
   * block, with its points in their order.
   */
  lemma {:induction false} RowAt(polys: seq<Contour>, first: nat, k: nat, j: nat)
    requires k < |polys| && j < |polys[k]|
    ensures Offset(polys, k) + j < |Rows(polys, first)|
    ensures Rows(polys, first)[Offset(polys, k) + j] == Row(first + k, polys[k][j].1, polys[k][j].0)
    decreases k
  {
    RowCount(polys, first);
    var head := PolygonRows(first, polys[0]);
    if k == 0 {
      assert polys[..0] == [];
    } else {
      assert polys[..k][1..] == polys[1..][..k - 1];
      assert Offset(polys, k) == |polys[0]| + Offset(polys[1..], k - 1);
      RowAt(polys[1..], first + 1, k - 1, j);
    }
  }

  /** Every row carries the id of one of the polygons. */
  lemma {:induction false} RowIds(polys: seq<Contour>, first: nat, i: nat)
    requires i < |Rows(polys, first)|
    ensures first <= Rows(polys, first)[i].id < first + |polys|
    decreases |polys|
  {
    if polys != [] {
      var head := PolygonRows(first, polys[0]);
      if i >= |head| {
        RowIds(polys[1..], first + 1, i - |head|);
      }
    }
  }

  /** Ids never decrease along the table, so each polygon's rows form one block. */
  lemma {:induction false} RowIdsSorted(polys: seq<Contour>, first: nat, i: nat, j: nat)
    requires i <= j < |Rows(polys, first)|
    ensures Rows(polys, first)[i].id <= Rows(polys, first)[j].id
    decreases |polys|
  {
    if polys != [] {
      var head := PolygonRows(first, polys[0]);
      if j >= |head| {
        RowIds(polys[1..], first + 1, j - |head|);
        if i >= |head| {
          RowIdsSorted(polys[1..], first + 1, i - |head|, j - |head|);
        }
      }
    }
  }

  /**
   * The loop of coordinates.py:13-29 over the contours (an input here), with
   * the approximation and the perimeter as opaque functions. Returns the table
   * written to the CSV file.
   */
  method Flatten(contours: seq<Contour>, approx: (Contour, real) -> Contour, arcLength: Contour -> real)
    returns (table: Table)
    ensures table.columns == Columns
    ensures table.rows == Rows(Simplified(contours, approx, arcLength), 0)
  {
    ghost var polys := Simplified(contours, approx, arcLength);
    var allCoords: seq<Row> := [];
    var polygonId: nat := 0;
    for n := 0 to |contours|
      invariant polygonId == n
      invariant allCoords == Rows(polys[..n], 0)
    {
      var c := contours[n];
      var simplified := approx(c, Tolerance(arcLength(c)));
      var coords: seq<(int, int)> := [];
      for m := 0 to |simplified|
        invariant |coords| == m
        invariant forall j :: 0 <= j < m ==> coords[j] == (simplified[j].1, simplified[j].0)
      {
        var point := simplified[m];
        coords := coords + [(point.1, point.0)];
      }
      ghost var before := allCoords;
      for m := 0 to |coords|
        invariant allCoords == before + PolygonRows(polygonId, simplified[..m])
      {
        allCoords := allCoords + [Row(polygonId, coords[m].0, coords[m].1)];
        assert simplified[..m + 1] == simplified[..m] + [simplified[m]];
      }
      assert simplified[..|coords|] == simplified;
      assert polys[..n + 1] == polys[..n] + [simplified];
      RowsAppend(polys[..n], simplified, 0);
      polygonId := polygonId + 1;
    }
    assert polys[..|contours|] == polys;
    table := Table(Columns, allCoords);
  }
}
