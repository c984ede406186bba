/** `createEarthApproximation`: append the vertices of a latitude/longitude grid, then the
    index buffer that triangulates every grid cell, with the same loops, index arithmetic and
    bounds guard as `createEarthApproximation` in src/main.cpp. A vertex is its grid point;
    its position is left out. */
module Earth {
  import opened SphereGrid

  /** Largest value of a C `int`. */
  const Int32Max: int := 0x7FFF_FFFF

  /** C `int`: the type of the loop counters, `first` and `second`. */
  type Int32 = x: int | -0x8000_0000 <= x <= 0x7FFF_FFFF

  /** OpenGL `GLuint`: the element type of the index vector. */
  type GLuint = x: int | 0 <= x < 0x1_0000_0000

  /** The segment counts the application hard-codes. */
  const NumLatSegments: nat := 8
  const NumLongSegments: nat := 6

  /** The vertex loops (one pass of the outer loop per latitude ring, of the inner loop per
      longitude step): appends the grid points to `vertices` in row-major order. */
  method AppendGridVertices(vertices: seq<GridPoint>, numLat: nat, numLong: nat)
    returns (vs: seq<GridPoint>)
    requires VertexCount(numLat, numLong) <= Int32Max
    ensures |vs| == |vertices| + VertexCount(numLat, numLong)
    ensures vs[..|vertices|] == vertices
    ensures vs == vertices + GridVertices(numLat, numLong)
  {
    CountBounds(numLat, numLong);
    vs := vertices;
    var i: Int32 := 0;
    while i <= numLat
      invariant 0 <= i <= numLat + 1
      invariant vs == vertices + Rings(i, numLong)
    {
      var j: Int32 := 0;
      while j <= numLong
        invariant 0 <= j <= numLong + 1
        invariant vs == vertices + Rings(i, numLong) + RingPrefix(i, j)
      {
        assert RingPrefix(i, j + 1) == RingPrefix(i, j) + [GridPoint(i, j)];
        vs := vs + [GridPoint(i, j)];
        j := j + 1;
      }
      i := i + 1;
    }
  }

  /** One pass of the inner index loop, for cell `(i, j)` and a vertex array of `size`
      elements: pushes the cell's first triangle, then its second one if the bounds guard
      holds. The requirement is that `second + 1` does not overflow a C `int`. The indices
      pushed name the cell's corners, and when the guard holds every one of them addresses
      an element of the vertex array. */
  method PushCell(ix: seq<GLuint>, size: nat, numLong: nat, i: Int32, j: Int32)
    returns (ix': seq<GLuint>)
    requires 0 <= i && 0 <= j < numLong && Second(numLong, i, j) + 1 <= Int32Max
    ensures var guard := SecondTriangleGuard(size, First(numLong, i, j), Second(numLong, i, j));
            ix' == ix + Flatten(CellTriangles(numLong, i, j)[..if guard then 2 else 1])
    ensures ix'[..|ix|] == ix
    ensures |ix'| == |ix| + 3 || |ix'| == |ix| + 6
    ensures Decode(numLong, ix'[|ix|]) == GridPoint(i, j)
    ensures Decode(numLong, ix'[|ix| + 1]) == GridPoint(i + 1, j)
    ensures Decode(numLong, ix'[|ix| + 2]) == GridPoint(i, j + 1)
    ensures |ix'| == |ix| + 6 <==> Second(numLong, i, j) + 1 < size && First(numLong, i, j) + 1 < size
    ensures |ix'| == |ix| + 6 ==>
              Decode(numLong, ix'[|ix| + 3]) == GridPoint(i + 1, j)
              && Decode(numLong, ix'[|ix| + 4]) == GridPoint(i + 1, j + 1)
              && Decode(numLong, ix'[|ix| + 5]) == GridPoint(i, j + 1)
              && forall k :: |ix| <= k < |ix'| ==> ix'[k] < size
  {
    var first: Int32 := i * (numLong + 1) + j;
    var second: Int32 := first + numLong + 1;
    FlattenCell(numLong, i, j);
    CellCorners(numLong, i, j);

    ix' := ix + [first];
    ix' := ix' + [second];
    ix' := ix' + [first + 1];

    if second + 1 < size && first + 1 < size {
      ix' := ix' + [second];
      ix' := ix' + [second + 1];
      ix' := ix' + [first + 1];
    }
  }

  /** Pushing cell `(i, j)`'s two triangles extends band `i`'s buffer by one cell, and keeps
      every pushed index below the vertex count. */
  lemma BandStep(base: seq<GLuint>, prev: seq<GLuint>, next: seq<GLuint>,
                 numLat: nat, numLong: nat, i: nat, j: nat)
    requires i < numLat && j < numLong
    requires prev == base + Flatten(RowTriangles(numLong, i, j))
    requires forall k :: |base| <= k < |prev| ==> prev[k] < VertexCount(numLat, numLong)
    requires next == prev + Flatten(CellTriangles(numLong, i, j))
    ensures next == base + Flatten(RowTriangles(numLong, i, j + 1))
    ensures forall k :: |base| <= k < |next| ==> next[k] < VertexCount(numLat, numLong)
  {
    CellInRange(numLat, numLong, i, j);
    FlattenCell(numLong, i, j);
    FlattenRowStep(numLong, i, j);
  }

  /** The inner index loop for latitude band `i`: pushes the two triangles of each cell
      `(i, 0) .. (i, numLong - 1)`, the guard never failing. */
  method AppendBand(ix: seq<GLuint>, size: nat, numLat: nat, numLong: nat, i: Int32)
    returns (ix': seq<GLuint>)
    requires VertexCount(numLat, numLong) <= Int32Max
    requires VertexCount(numLat, numLong) <= size
    requires 0 <= i < numLat
    ensures ix' == ix + Flatten(RowTriangles(numLong, i, numLong))
    ensures forall k :: |ix| <= k < |ix'| ==> ix'[k] < VertexCount(numLat, numLong)
  {
    CountBounds(numLat, numLong);
    ix' := ix;
    var j: Int32 := 0;
    while j < numLong
      invariant 0 <= j <= numLong
      invariant ix' == ix + Flatten(RowTriangles(numLong, i, j))
      invariant forall k :: |ix| <= k < |ix'| ==> ix'[k] < VertexCount(numLat, numLong)
    {
      CellInRange(numLat, numLong, i, j);
      GuardAlwaysHolds(numLat, numLong, size, i, j);
      var next := PushCell(ix', size, numLong, i, j);
      BandStep(ix, ix', next, numLat, numLong, i, j);
      ix' := next;
      j := j + 1;
    }
  }

  /** Pushing band `i`'s cells extends the grid's buffer by one band. */
  lemma GridStep(base: seq<GLuint>, prev: seq<GLuint>, next: seq<GLuint>, numLong: nat, i: nat)
    requires prev == base + Flatten(GridTriangles(i, numLong))
    requires next == prev + Flatten(RowTriangles(numLong, i, numLong))
    ensures next == base + Flatten(GridTriangles(i + 1, numLong))
  {
    FlattenBandStep(numLong, i);
  }

  /** The index loops, for a vertex array of `size` elements that holds at least the grid:
      pushes the two triangles of every cell, band by band, because the bounds guard never
      fails. Every pushed index is below the grid's vertex count. */
  method AppendGridIndices(indices: seq<GLuint>, size: nat, numLat: nat, numLong: nat)
    returns (ix: seq<GLuint>)
    requires VertexCount(numLat, numLong) <= Int32Max
    requires VertexCount(numLat, numLong) <= size
    ensures ix == indices + Flatten(GridTriangles(numLat, numLong))
    ensures ix[..|indices|] == indices
    ensures |ix| == |indices| + 6 * (numLat * numLong)
    ensures forall k :: |indices| <= k < |ix| ==> ix[k] < VertexCount(numLat, numLong)
  {
    CountBounds(numLat, numLong);
    ix := indices;
    var i: Int32 := 0;
    while i < numLat
      invariant 0 <= i <= numLat
      invariant ix == indices + Flatten(GridTriangles(i, numLong))
      invariant forall k :: |indices| <= k < |ix| ==> ix[k] < VertexCount(numLat, numLong)
    {
      var next := AppendBand(ix, size, numLat, numLong, i);
      GridStep(indices, ix, next, numLong, i);
      ix := next;
      i := i + 1;
    }
    assert ix[..|indices|] == indices;
    IndexCount(numLat, numLong);
  }

  /** The triangles a draw call reads from the appended part of the index buffer. */
  lemma AppendedTriangles(numLat: nat, numLong: nat, indices: seq<nat>, ix: seq<nat>)
    requires ix == indices + Flatten(GridTriangles(numLat, numLong))
    ensures |ix[|indices|..]| % 3 == 0
    ensures forall t :: 0 <= t < |Assemble(ix[|indices|..])| ==>
              MeshTriangle(numLat, numLong, Assemble(ix[|indices|..])[t])
  {
    assert ix[|indices|..] == Flatten(GridTriangles(numLat, numLong));
    DrawnTriangles(numLat, numLong, ix[|indices|..]);
  }

  /** Appends the grid's vertices to `vertices` and its triangles to `indices`, and changes
      nothing already there. The only demand on the segment counts is that every index fits
      in a C `int`. The appended indices depend on the loop counters alone: they are offsets
      into the appended vertices, so they address them only when `vertices` starts empty, as
      it does at the one call site. */
  method CreateEarthApproximation(vertices: seq<GridPoint>, indices: seq<GLuint>, numLat: nat, numLong: nat)
    returns (vs: seq<GridPoint>, ix: seq<GLuint>)
    requires VertexCount(numLat, numLong) <= Int32Max
    ensures |vs| == |vertices| + VertexCount(numLat, numLong)
    ensures vs[..|vertices|] == vertices
    ensures forall k :: |vertices| <= k < |vs| ==> vs[k] == Decode(numLong, k - |vertices|)
    ensures |ix| == |indices| + 6 * (numLat * numLong)
    ensures ix[..|indices|] == indices
    ensures forall k :: |indices| <= k < |ix| ==> ix[k] < VertexCount(numLat, numLong) && ix[k] < |vs|
    ensures |ix[|indices|..]| % 3 == 0
    ensures forall t :: 0 <= t < |Assemble(ix[|indices|..])| ==>
              MeshTriangle(numLat, numLong, Assemble(ix[|indices|..])[t])
    ensures vs == vertices + GridVertices(numLat, numLong)
    ensures ix == indices + Flatten(GridTriangles(numLat, numLong))
  {
    vs := AppendGridVertices(vertices, numLat, numLong);
    ix := AppendGridIndices(indices, |vs|, numLat, numLong);
    AppendedTriangles(numLat, numLong, indices, ix);
    GridVerticesRowMajor(numLat, numLong);
    assert vs[|vertices|..] == GridVertices(numLat, numLong);
  }

  /** `createEarthApproximation` on empty vectors, as at its one call site, for any grid: the
      vertex array is the grid in row-major order, and the draw reads triangle `t` as triangle
      `t % 2` of cell `t / 2`, counted band by band. Together with the length this pins every
      index. */
  method CreateFromEmpty(numLat: nat, numLong: nat) returns (vs: seq<GridPoint>, ix: seq<GLuint>)
    requires VertexCount(numLat, numLong) <= Int32Max
    ensures |vs| == VertexCount(numLat, numLong) && |ix| == 6 * (numLat * numLong)
    ensures forall k :: 0 <= k < |vs| ==> vs[k] == Decode(numLong, k)
    ensures forall k :: 0 <= k < |ix| ==> ix[k] < |vs|
    ensures |ix| % 3 == 0
    ensures forall t :: 0 <= t < |Assemble(ix)| ==> MeshTriangle(numLat, numLong, Assemble(ix)[t])
    ensures forall t :: 0 <= t < |Assemble(ix)| ==>
              0 < numLong && Assemble(ix)[t] == DrawnTriangle(numLong, t)
  {
    vs, ix := CreateEarthApproximation([], [], numLat, numLong);
    assert ix[0..] == ix;
    DrawnCells(numLat, numLong, ix);
  }

  /** The call site: both vectors start empty and the grid is 8 by 6, giving 63 vertices and
      288 indices; every index is in range, and the draw call reads the buffer as 96 mesh
      triangles, triangle `t` being triangle `t % 2` of cell `t / 2`. */
  method EarthMesh() returns (vs: seq<GridPoint>, ix: seq<GLuint>)
    ensures |vs| == 63 && |ix| == 288
    ensures forall k :: 0 <= k < |vs| ==> vs[k] == Decode(NumLongSegments, k)
    ensures forall k :: 0 <= k < |ix| ==> ix[k] < |vs|
    ensures |Assemble(ix)| == 96
    ensures forall t :: 0 <= t < |Assemble(ix)| ==>
              MeshTriangle(NumLatSegments, NumLongSegments, Assemble(ix)[t])
    ensures forall t :: 0 <= t < |Assemble(ix)| ==> Assemble(ix)[t] == DrawnTriangle(NumLongSegments, t)
  {
    vs, ix := CreateFromEmpty(NumLatSegments, NumLongSegments);
  }
}
