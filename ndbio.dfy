/**
 * The CSV layout of NDB_python/ndbio.py, on rows of already-parsed cells.
 *
 * A file is a header row [dt, G, epsilon, N] followed by one row per body:
 * the N position coordinates, the N speed coordinates, then the mass in the
 * last cell. Reading indexes rows as Python does, so an index past the end
 * of a row fails (None) and a negative index counts from the end.
 */
module NdbIo {
  import opened Vectors
  import opened Bodies

  datatype Option<T> = None | Some(value: T)

  /** The universe as the files store it. */
  datatype UniverseData = UniverseData(bodies: seq<BodyState>, dt: real, g: real, epsilon: real)

  /** Python's row[i]: non-negative indices from the start, negative ones from the end. */
  function Cell(row: seq<real>, i: int): (r: Option<real>)
    ensures r.Some? <==> -|row| <= i < |row|
    ensures 0 <= i < |row| ==> r == Some(row[i])
    ensures -|row| <= i < 0 ==> r == Some(row[|row| + i])
  {
    if 0 <= i < |row| then Some(row[i])
    else if -|row| <= i < 0 then Some(row[|row| + i])
    else None
  }

  /** int(x): truncation toward zero. */
  function Trunc(x: real): (k: int)
    ensures 0.0 <= x ==> k as real <= x < k as real + 1.0
    ensures x < 0.0 ==> k as real - 1.0 < x <= k as real
  {
    if 0.0 <= x then x.Floor else -((-x).Floor)
  }

  /** int() gives back every integer written as a real. */
  lemma TruncOfInt(k: int)
    ensures Trunc(k as real) == k
  {
  }

  /** The cells row[offset], ..., row[offset + n - 1] as a vector; none when n <= 0. */
  function ReadVector(row: seq<real>, n: int, offset: int): (r: Option<Vector>)
    ensures 0 <= offset ==> (r.Some? <==> n <= 0 || offset + n <= |row|)
    ensures r.Some? ==> r.value.N() == (if n < 0 then 0 else n)
    ensures 0 <= offset && r.Some? ==> forall i :: 0 <= i < n ==> r.value.coords[i] == row[offset + i]
  {
    var m := if n < 0 then 0 else n;
    // The indices offset .. offset + m - 1 are consecutive: all valid when the first and the last are.
    if m == 0 || (-|row| <= offset && offset + m <= |row|) then
      var coords := seq(m, i requires 0 <= i < m && -|row| <= offset + i < |row| => Cell(row, offset + i).value);
      assert forall i :: 0 <= i < m ==> coords[i] == Cell(row, offset + i).value;
      Some(Vector(coords))
    else
      None
  }

  /**
   * A body from a row: position from the first n cells, speed from the next
   * n, mass from the last cell. A row can be read exactly when it has at least
   * one cell and at least 2n cells; a negative n reads two empty vectors.
   */
  function ReadBody(row: seq<real>, n: int): (r: Option<BodyState>)
    ensures r.Some? <==> 0 < |row| && 2 * n <= |row|
    ensures r.Some? ==>
              var m := if n < 0 then 0 else n;
              && r.value.position == Vector(row[..m])
              && r.value.speed == Vector(row[m..2 * m])
              && r.value.mass == row[|row| - 1]
  {
    match (ReadVector(row, n, 0), ReadVector(row, n, n), Cell(row, -1))
    case (Some(position), Some(speed), Some(mass)) =>
      var m := if n < 0 then 0 else n;
      assert position.coords == row[..m];
      assert speed.coords == row[m..2 * m];
      Some(BodyState(position, speed, mass))
    case _ => None
  }

  /** The row of a body: position coordinates, speed coordinates, mass. */
  function WriteBody(b: BodyState): (row: seq<real>)
    ensures |row| == b.position.N() + b.speed.N() + 1
    ensures row[..b.position.N()] == b.position.coords
    ensures row[b.position.N()..|row| - 1] == b.speed.coords
    ensures row[|row| - 1] == b.mass
  {
    b.position.coords + b.speed.coords + [b.mass]
  }

  /** The cell count is not checked: cells between index 2n and the last one are ignored. */
  lemma ReadBodyIgnoresExtraCells(row: seq<real>, extra: seq<real>, n: nat)
    requires 2 * n < |row|
    ensures ReadBody(row[..|row| - 1] + extra + [row[|row| - 1]], n) == ReadBody(row, n)
  {
    var longer := row[..|row| - 1] + extra + [row[|row| - 1]];
    assert longer[..n] == row[..n];
    assert longer[n..2 * n] == row[n..2 * n];
  }

  /** A row of exactly 2n cells, n > 0, is read with the last speed coordinate as the mass. */
  lemma ReadBodyWithoutMassCell(row: seq<real>, n: nat)
    requires 0 < n && |row| == 2 * n
    ensures ReadBody(row, n).Some?
    ensures ReadBody(row, n).value.mass == ReadBody(row, n).value.speed.coords[n - 1]
  {
    assert row[n..2 * n][n - 1] == row[2 * n - 1];
  }

  /** Writing a body whose vectors have dimension n gives 2n + 1 cells, and reading them back gives the body. */
  lemma BodyRoundTrip(b: BodyState, n: nat)
    requires b.position.N() == n && b.speed.N() == n
    ensures |WriteBody(b)| == 2 * n + 1
    ensures ReadBody(WriteBody(b), n) == Some(b)
  {
    var row := WriteBody(b);
    assert row[n..2 * n] == b.speed.coords;
  }

  /** A row of 2n + 1 cells that reads as a body is that body's row. */
  lemma RowRoundTrip(row: seq<real>, n: nat)
    requires |row| == 2 * n + 1
    ensures ReadBody(row, n).Some?
    ensures WriteBody(ReadBody(row, n).value) == row
  {
    var b := ReadBody(row, n).value;
    assert row == row[..n] + row[n..2 * n] + [row[2 * n]];
  }

  // ---------------------------------------------------------------------------
  // Files

  /** One body per row, in row order; the first row that cannot be read fails the whole list. */
  function ReadBodies(rows: seq<seq<real>>, n: int): (r: Option<seq<BodyState>>)
    ensures r.Some? <==> forall i :: 0 <= i < |rows| ==> ReadBody(rows[i], n).Some?
    ensures r.Some? ==> |r.value| == |rows|
    ensures r.Some? ==> forall i :: 0 <= i < |rows| ==> r.value[i] == ReadBody(rows[i], n).value
  {
    if rows == [] then Some([])
    else
      match (ReadBodies(rows[..|rows| - 1], n), ReadBody(rows[|rows| - 1], n))
      case (Some(init), Some(last)) => Some(init + [last])
      case _ => None
  }

  /** The header row: dt, G, epsilon and the dimension. */
  function WriteHeader(dt: real, g: real, epsilon: real, n: nat): (info: seq<real>)
    ensures |info| == 4 && Trunc(info[3]) == n
  {
    TruncOfInt(n);
    [dt, g, epsilon, n as real]
  }

  /**
   * The file of a universe: the header, then one row per body in list
   * order. The dimension is the first body's, so a universe without bodies
   * cannot be written.
   */
  function WriteUniverse(u: UniverseData): (r: Option<seq<seq<real>>>)
    ensures r.Some? <==> |u.bodies| > 0
    ensures r.Some? ==> |r.value| == |u.bodies| + 1
    ensures r.Some? ==> r.value[0] == WriteHeader(u.dt, u.g, u.epsilon, u.bodies[0].position.N())
    ensures r.Some? ==> forall i :: 0 <= i < |u.bodies| ==> r.value[i + 1] == WriteBody(u.bodies[i])
  {
    if u.bodies == [] then None
    else
      Some([WriteHeader(u.dt, u.g, u.epsilon, u.bodies[0].position.N())]
           + seq(|u.bodies|, i requires 0 <= i < |u.bodies| => WriteBody(u.bodies[i])))
  }

  /**
   * A universe from a file: dt, G and epsilon are header cells 0 to 2, the
   * dimension is int() of cell 3, and every further row is a body. A file
   * without rows, a header of fewer than four cells or an unreadable body
   * row fails.
   */
  function ReadUniverse(rows: seq<seq<real>>): (r: Option<UniverseData>)
    ensures r.Some? <==>
              && |rows| > 0 && |rows[0]| >= 4
              && forall i :: 1 <= i < |rows| ==> ReadBody(rows[i], Trunc(rows[0][3])).Some?
    ensures r.Some? ==> r.value.dt == rows[0][0] && r.value.g == rows[0][1] && r.value.epsilon == rows[0][2]
    ensures r.Some? ==> |r.value.bodies| == |rows| - 1
    ensures r.Some? ==> forall i :: 1 <= i < |rows| ==> r.value.bodies[i - 1] == ReadBody(rows[i], Trunc(rows[0][3])).value
  {
    if rows == [] then None
    else
      var info := rows[0];
      if |info| < 4 then None
      else
        assert forall i :: 1 <= i < |rows| ==> rows[1..][i - 1] == rows[i];
        match ReadBodies(rows[1..], Trunc(info[3]))
        case None => None
        case Some(bodies) => Some(UniverseData(bodies, info[0], info[1], info[2]))
  }

  /** Writing then reading a header gives back all four values. */
  lemma HeaderRoundTrip(dt: real, g: real, epsilon: real, n: nat)
    ensures var info := WriteHeader(dt, g, epsilon, n);
            |info| == 4 && info[0] == dt && info[1] == g && info[2] == epsilon && Trunc(info[3]) == n
  {
    TruncOfInt(n);
  }

  /**
   * A universe of at least one body whose vectors all have the first body's
   * dimension is read back as written: same dt, G, epsilon, and the same
   * bodies in the same order.
   */
  lemma UniverseRoundTrip(u: UniverseData)
    requires |u.bodies| > 0
    requires forall i :: 0 <= i < |u.bodies| ==>
               u.bodies[i].position.N() == u.bodies[0].position.N()
               && u.bodies[i].speed.N() == u.bodies[0].position.N()
    ensures WriteUniverse(u).Some?
    ensures ReadUniverse(WriteUniverse(u).value) == Some(u)
  {
    var n := u.bodies[0].position.N();
    var rows := WriteUniverse(u).value;
    HeaderRoundTrip(u.dt, u.g, u.epsilon, n);
    forall i | 0 <= i < |u.bodies| ensures ReadBody(rows[1..][i], n) == Some(u.bodies[i]) {
      BodyRoundTrip(u.bodies[i], n);
    }
    var bodies := ReadBodies(rows[1..], n).value;
    assert bodies == u.bodies;
  }
}
