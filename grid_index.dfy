/** `get_idx`: the grid cell closest to a position, by the sum of the
    absolute latitude and longitude differences, as numpy's `argmin`
    followed by `unravel_index` picks it: the first minimal cell in
    row-major order.  Coordinates are exact numbers. */
module GridIndex {
  import opened Common

  /** A two-dimensional array, row by row. */
  type Grid = seq<seq<real>>

  /** Two arrays of one rectangular shape. */
  predicate SameShape(lats: Grid, lons: Grid) {
    && |lats| == |lons|
    && (forall i :: 0 <= i < |lats| ==> |lats[i]| == |lons[i]|)
    && (forall i :: 0 <= i < |lats| ==> |lats[i]| == |lats[0]|)
  }

  function Abs(x: real): (r: real)
    ensures r >= 0.0 && (r == x || r == -x)
  {
    if x < 0.0 then -x else x
  }

  /** `abs(lat_array - lat) + abs(lon_array - lon)`, element by element. */
  function Distances(lats: Grid, lons: Grid, lat: real, lon: real): (r: Grid)
    requires SameShape(lats, lons)
    ensures SameShape(r, lats)
    ensures forall i, j :: 0 <= i < |r| && 0 <= j < |r[i]| ==> r[i][j] >= 0.0
    ensures forall i, j :: 0 <= i < |r| && 0 <= j < |r[i]| ==>
      (r[i][j] == 0.0 <==> lats[i][j] == lat && lons[i][j] == lon)
  {
    seq(|lats|, i requires 0 <= i < |lats| =>
      seq(|lats[i]|, j requires 0 <= j < |lats[i]| => Abs(lats[i][j] - lat) + Abs(lons[i][j] - lon)))
  }

  /** Whether cell `a` comes before cell `b` in row-major order, the order
      of numpy's flat index. */
  predicate Before(a: (nat, nat), b: (nat, nat)) {
    a.0 < b.0 || (a.0 == b.0 && a.1 < b.1)
  }

  /** Cell `c` holds the least value of `g`, and every cell before it holds
      a larger one: `c` is where `argmin` stops. */
  predicate IsFirstMin(g: Grid, c: (nat, nat)) {
    && c.0 < |g| && c.1 < |g[c.0]|
    && (forall i, j :: 0 <= i < |g| && 0 <= j < |g[i]| ==> g[c.0][c.1] <= g[i][j])
    && (forall i, j :: 0 <= i < |g| && 0 <= j < |g[i]| && Before((i, j), c) ==> g[c.0][c.1] < g[i][j])
  }

  /** Position `j` holds the least value of the row, and every position
      before it a larger one. */
  predicate IsRowFirstMin(row: seq<real>, j: nat) {
    && j < |row|
    && (forall k :: 0 <= k < |row| ==> row[j] <= row[k])
    && (forall k :: 0 <= k < j ==> row[j] < row[k])
  }

  /** The first position of the least value of a non-empty row. */
  function RowFirstMin(row: seq<real>): (j: nat)
    requires |row| > 0
    ensures IsRowFirstMin(row, j)
    decreases |row|
  {
    if |row| == 1 then 0
    else
      var init := row[..|row| - 1];
      var p := RowFirstMin(init);
      assert forall k :: 0 <= k < |init| ==> init[k] == row[k];
      if row[p] <= row[|row| - 1] then p else |row| - 1
  }

  /** The first minimal cell of a grid whose rows are not empty. */
  function GridFirstMin(g: Grid): (c: (nat, nat))
    requires |g| > 0 && forall i :: 0 <= i < |g| ==> |g[i]| > 0
    ensures IsFirstMin(g, c)
    decreases |g|
  {
    var last := |g| - 1;
    var q := RowFirstMin(g[last]);
    if |g| == 1 then (0, q)
    else
      var p := GridFirstMin(g[..last]);
      LastRowStep(g, p, q);
      if g[p.0][p.1] <= g[last][q] then p else (last, q)
  }

  /** The first minimum of all rows but the last and that of the last row
      give the first minimum of the grid: the earlier one wins a tie. */
  lemma {:induction false} LastRowStep(g: Grid, p: (nat, nat), q: nat)
    requires |g| > 1
    requires IsFirstMin(g[..|g| - 1], p)
    requires IsRowFirstMin(g[|g| - 1], q)
    ensures IsFirstMin(g, if g[p.0][p.1] <= g[|g| - 1][q] then p else (|g| - 1, q))
  {
    var last := |g| - 1;
    var init := g[..last];
    assert forall i :: 0 <= i < last ==> init[i] == g[i];
    assert g[p.0] == init[p.0];
  }

  /** `get_idx(lat_array, lon_array, lat, lon)`: the first cell, in
      row-major order, whose distance to the position is least; an empty
      grid has no minimum and raises ValueError. */
  function GetIdx(lats: Grid, lons: Grid, lat: real, lon: real): (r: Result<(nat, nat)>)
    requires SameShape(lats, lons)
    ensures r.Err? <==> |lats| == 0 || |lats[0]| == 0
    ensures r.Err? ==> r.error == ValueError
    ensures r.Ok? ==> IsFirstMin(Distances(lats, lons, lat, lon), r.value)
  {
    if |lats| == 0 || |lats[0]| == 0 then Err(ValueError)
    else Ok(GridFirstMin(Distances(lats, lons, lat, lon)))
  }

  /** At most one cell is the first minimal one, so the index `get_idx`
      returns is determined by the distances alone. */
  lemma FirstMinUnique(g: Grid, a: (nat, nat), b: (nat, nat))
    requires IsFirstMin(g, a) && IsFirstMin(g, b)
    ensures a == b
  {
    if Before(a, b) {
      assert false;
    } else if Before(b, a) {
      assert false;
    }
  }

  /** A position that is a cell of the grid is found: the cell returned
      has exactly its coordinates, and no earlier cell has them. */
  lemma ExactHit(lats: Grid, lons: Grid, lat: real, lon: real, i: nat, j: nat)
    requires SameShape(lats, lons)
    requires i < |lats| && j < |lats[i]| && lats[i][j] == lat && lons[i][j] == lon
    ensures GetIdx(lats, lons, lat, lon).Ok?
    ensures var c := GetIdx(lats, lons, lat, lon).value;
      && c.0 < |lats| && c.1 < |lats[c.0]|
      && lats[c.0][c.1] == lat && lons[c.0][c.1] == lon
      && !Before((i, j), c)
  {
    var d := Distances(lats, lons, lat, lon);
    var c := GetIdx(lats, lons, lat, lon).value;
    assert d[i][j] == 0.0;
    assert d[c.0][c.1] <= d[i][j];
  }
}
