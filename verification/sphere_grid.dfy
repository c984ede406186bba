/** Reference definitions for the latitude/longitude sphere that `createEarthApproximation`
    builds: where each grid point lands in the vertex array, which triangles each grid cell
    contributes to the index buffer, and how the index buffer is read back as triangles.
    Vertex positions (floating-point trigonometry) are abstracted away: a vertex is
    identified by its grid coordinates. */
module SphereGrid {

  /** A sphere vertex, identified by its latitude ring `lat` and its longitude step `long`. */
  datatype GridPoint = GridPoint(lat: nat, long: nat)

  /** A triangle as three indices into the vertex array, in the order they are pushed. */
  datatype Triangle = Triangle(a: nat, b: nat, c: nat)

  /** Number of vertices of a grid with `numLat` latitude segments and `numLong` longitude
      segments: both vertex loops run to their bound inclusive. */
  function VertexCount(numLat: nat, numLong: nat): nat {
    (numLat + 1) * (numLong + 1)
  }

  /** Each latitude ring and each longitude column has at most as many vertices as the grid. */
  lemma CountBounds(numLat: nat, numLong: nat)
    ensures numLat + 1 <= VertexCount(numLat, numLong) && numLong + 1 <= VertexCount(numLat, numLong)
  {
    MulMono(1, numLong + 1, numLat + 1);
    MulMono(1, numLat + 1, numLong + 1);
  }

  predicate InGrid(numLat: nat, numLong: nat, p: GridPoint) {
    p.lat <= numLat && p.long <= numLong
  }

  /** Row-major position of a grid point: each latitude ring holds `numLong + 1` vertices. */
  function Encode(numLong: nat, p: GridPoint): nat {
    p.lat * (numLong + 1) + p.long
  }

  /** The grid point stored at position `k` of a row-major vertex array. */
  function Decode(numLong: nat, k: nat): GridPoint {
    GridPoint(k / (numLong + 1), k % (numLong + 1))
  }

  lemma MulDistrib(a: int, b: int, w: int)
    ensures (a + b) * w == a * w + b * w
  {
  }

  lemma MulMono(a: nat, b: nat, w: nat)
    requires a <= b
    ensures a * w <= b * w
  {
    MulDistrib(a, b - a, w);
  }

  /** Quotient and remainder are determined by any decomposition `k == q * w + r`, `r < w`. */
  lemma DivModUnique(k: nat, w: nat, q: nat, r: nat)
    requires 0 < w && r < w && k == q * w + r
    ensures k / w == q && k % w == r
  {
    var q', r' := k / w, k % w;
    assert k == q' * w + r';
    if q' < q {
      MulMono(q' + 1, q, w);
      MulDistrib(q', 1, w);
    } else if q < q' {
      MulMono(q + 1, q', w);
      MulDistrib(q, 1, w);
    }
  }

  /** A multiple of three leaves no remainder. */
  lemma TripleMod(n: nat)
    ensures (3 * n) % 3 == 0
  {
    DivModUnique(3 * n, 3, n, 0);
  }

  lemma DecodeEncode(numLong: nat, p: GridPoint)
    requires p.long <= numLong
    ensures Decode(numLong, Encode(numLong, p)) == p
  {
    DivModUnique(Encode(numLong, p), numLong + 1, p.lat, p.long);
  }

  lemma EncodeDecode(numLong: nat, k: nat)
    ensures Encode(numLong, Decode(numLong, k)) == k
    ensures Decode(numLong, k).long <= numLong
  {
  }

  /** A point with a valid longitude lies in the grid exactly when its position is below the
      vertex count. */
  lemma InGridIffBelowCount(numLat: nat, numLong: nat, p: GridPoint)
    requires p.long <= numLong
    ensures InGrid(numLat, numLong, p) <==> Encode(numLong, p) < VertexCount(numLat, numLong)
  {
    var w := numLong + 1;
    if p.lat <= numLat {
      MulDistrib(p.lat, numLat + 1 - p.lat, w);
      MulMono(1, numLat + 1 - p.lat, w);
    } else {
      MulMono(numLat + 1, p.lat, w);
    }
  }

  // ---------------------------------------------------------------------------------------
  // Vertices

  /** The first `n` vertices the inner vertex loop appends for latitude ring `lat`. */
  function RingPrefix(lat: nat, n: nat): seq<GridPoint> {
    seq(n, j requires 0 <= j => GridPoint(lat, j))
  }

  /** The vertices of latitude rings `0 .. m - 1`, in the order the vertex loops append them. */
  function Rings(m: nat, numLong: nat): (r: seq<GridPoint>)
    ensures |r| == m * (numLong + 1)
  {
    if m == 0 then [] else Rings(m - 1, numLong) + RingPrefix(m - 1, numLong + 1)
  }

  /** All vertices of the grid, as the vertex loops append them. */
  function GridVertices(numLat: nat, numLong: nat): seq<GridPoint> {
    Rings(numLat + 1, numLong)
  }

  lemma {:induction false} RingsRowMajor(m: nat, numLong: nat)
    ensures forall k :: 0 <= k < |Rings(m, numLong)| ==> Rings(m, numLong)[k] == Decode(numLong, k)
  {
    if m > 0 {
      RingsRowMajor(m - 1, numLong);
      var prev := Rings(m - 1, numLong);
      forall k | 0 <= k < |Rings(m, numLong)|
        ensures Rings(m, numLong)[k] == Decode(numLong, k)
      {
        if k >= |prev| {
          var j := k - |prev|;
          assert Rings(m, numLong)[k] == GridPoint(m - 1, j);
          DecodeEncode(numLong, GridPoint(m - 1, j));
        }
      }
    }
  }

  /** The vertex array holds exactly the grid points, in row-major order: position `k` holds
      the point `k` decodes to, and every grid point sits at its encoded position. */
  lemma GridVerticesRowMajor(numLat: nat, numLong: nat)
    ensures |GridVertices(numLat, numLong)| == VertexCount(numLat, numLong)
    ensures forall k :: 0 <= k < |GridVertices(numLat, numLong)| ==>
              GridVertices(numLat, numLong)[k] == Decode(numLong, k)
              && InGrid(numLat, numLong, GridVertices(numLat, numLong)[k])
    ensures forall p :: InGrid(numLat, numLong, p) ==>
              Encode(numLong, p) < |GridVertices(numLat, numLong)|
              && GridVertices(numLat, numLong)[Encode(numLong, p)] == p
  {
    var vs := GridVertices(numLat, numLong);
    RingsRowMajor(numLat + 1, numLong);
    forall k | 0 <= k < |vs|
      ensures InGrid(numLat, numLong, vs[k])
    {
      EncodeDecode(numLong, k);
      InGridIffBelowCount(numLat, numLong, Decode(numLong, k));
    }
    forall p | InGrid(numLat, numLong, p)
      ensures Encode(numLong, p) < |vs| && vs[Encode(numLong, p)] == p
    {
      InGridIffBelowCount(numLat, numLong, p);
      DecodeEncode(numLong, p);
    }
  }

  // ---------------------------------------------------------------------------------------
  // Cells and triangles

  /** Index of the cell's upper-left corner `(i, j)`. */
  function First(numLong: nat, i: nat, j: nat): nat {
    i * (numLong + 1) + j
  }

  /** Index of the corner one latitude ring further, `(i + 1, j)`. */
  function Second(numLong: nat, i: nat, j: nat): nat {
    First(numLong, i, j) + numLong + 1
  }

  /** The two triangles pushed for grid cell `(i, j)`. */
  function CellTriangles(numLong: nat, i: nat, j: nat): seq<Triangle> {
    var first := First(numLong, i, j);
    var second := Second(numLong, i, j);
    [Triangle(first, second, first + 1), Triangle(second, second + 1, first + 1)]
  }

  /** The triangles of cells `(i, 0) .. (i, n - 1)`, in the order the inner index loop pushes them. */
  function RowTriangles(numLong: nat, i: nat, n: nat): (r: seq<Triangle>)
    ensures |r| == 2 * n
  {
    if n == 0 then [] else RowTriangles(numLong, i, n - 1) + CellTriangles(numLong, i, n - 1)
  }

  /** The triangles of latitude bands `0 .. numLat - 1`, in the order the index loops push them. */
  function GridTriangles(numLat: nat, numLong: nat): seq<Triangle> {
    if numLat == 0 then []
    else GridTriangles(numLat - 1, numLong) + RowTriangles(numLong, numLat - 1, numLong)
  }

  /** Each cell contributes two triangles. */
  lemma {:induction false} GridTrianglesLength(numLat: nat, numLong: nat)
    ensures |GridTriangles(numLat, numLong)| == 2 * (numLat * numLong)
  {
    if numLat > 0 {
      GridTrianglesLength(numLat - 1, numLong);
      MulDistrib(numLat - 1, 1, numLong);
    }
  }

  /** The index buffer of a triangle list: three indices per triangle, in order. */
  function Flatten(ts: seq<Triangle>): (r: seq<nat>)
    ensures |r| == 3 * |ts|
  {
    if ts == [] then []
    else
      var last := ts[|ts| - 1];
      Flatten(ts[..|ts| - 1]) + [last.a, last.b, last.c]
  }

  /** The index buffer of the grid holds six indices per cell, a whole number of triangles. */
  lemma IndexCount(numLat: nat, numLong: nat)
    ensures |Flatten(GridTriangles(numLat, numLong))| == 6 * (numLat * numLong)
    ensures |Flatten(GridTriangles(numLat, numLong))| % 3 == 0
  {
    GridTrianglesLength(numLat, numLong);
    TripleMod(|GridTriangles(numLat, numLong)|);
  }

  /** Triangle `t` occupies positions `3 * t .. 3 * t + 2` of the index buffer. */
  lemma {:induction false} FlattenIndex(ts: seq<Triangle>)
    ensures forall t :: 0 <= t < |ts| ==>
              Flatten(ts)[3 * t] == ts[t].a && Flatten(ts)[3 * t + 1] == ts[t].b
              && Flatten(ts)[3 * t + 2] == ts[t].c
  {
    if ts != [] {
      FlattenIndex(ts[..|ts| - 1]);
    }
  }

  /** How a `GL_TRIANGLES` draw call reads an index buffer: consecutive groups of three. */
  function Assemble(s: seq<nat>): (r: seq<Triangle>)
    requires |s| % 3 == 0
    ensures 3 * |r| == |s|
    ensures forall t :: 0 <= t < |r| ==>
              r[t] == Triangle(s[3 * t], s[3 * t + 1], s[3 * t + 2])
  {
    if s == [] then [] else [Triangle(s[0], s[1], s[2])] + Assemble(s[3..])
  }

  /** Reading the index buffer back as triangles gives exactly the triangles that were pushed. */
  lemma AssembleFlatten(ts: seq<Triangle>)
    ensures Assemble(Flatten(ts)) == ts
  {
    var r := Assemble(Flatten(ts));
    FlattenIndex(ts);
    assert |r| == |ts|;
    forall t | 0 <= t < |ts|
      ensures r[t] == ts[t]
    {
    }
  }

  lemma FlattenSnoc(ts: seq<Triangle>, t: Triangle)
    ensures Flatten(ts + [t]) == Flatten(ts) + [t.a, t.b, t.c]
  {
    assert (ts + [t])[..|ts|] == ts;
  }

  /** The index buffer of a cell's first triangle alone, and of both its triangles. */
  lemma FlattenCell(numLong: nat, i: nat, j: nat)
    ensures var first := First(numLong, i, j);
            var second := Second(numLong, i, j);
            Flatten(CellTriangles(numLong, i, j)[..1]) == [first, second, first + 1]
            && Flatten(CellTriangles(numLong, i, j)) == [first, second, first + 1, second, second + 1, first + 1]
  {
    var cell := CellTriangles(numLong, i, j);
    assert cell[..1] == [] + [cell[0]];
    FlattenSnoc([], cell[0]);
    assert cell == cell[..1] + [cell[1]];
    FlattenSnoc(cell[..1], cell[1]);
  }

  /** Visiting cell `(i, j)` appends the index buffer of its two triangles. */
  lemma FlattenRowStep(numLong: nat, i: nat, j: nat)
    ensures Flatten(RowTriangles(numLong, i, j + 1))
         == Flatten(RowTriangles(numLong, i, j)) + Flatten(CellTriangles(numLong, i, j))
  {
    var ts := RowTriangles(numLong, i, j);
    var cell := CellTriangles(numLong, i, j);
    assert RowTriangles(numLong, i, j + 1) == ts + [cell[0]] + [cell[1]];
    FlattenSnoc(ts, cell[0]);
    FlattenSnoc(ts + [cell[0]], cell[1]);
    FlattenCell(numLong, i, j);
  }

  /** Visiting band `i` appends the index buffer of its cells. */
  lemma FlattenBandStep(numLong: nat, i: nat)
    ensures Flatten(GridTriangles(i + 1, numLong))
         == Flatten(GridTriangles(i, numLong)) + Flatten(RowTriangles(numLong, i, numLong))
  {
    FlattenConcat(GridTriangles(i, numLong), RowTriangles(numLong, i, numLong));
  }

  lemma {:induction false} FlattenConcat(ts: seq<Triangle>, us: seq<Triangle>)
    ensures Flatten(ts + us) == Flatten(ts) + Flatten(us)
  {
    if us != [] {
      var init := us[..|us| - 1];
      var last := us[|us| - 1];
      assert us == init + [last];
      assert ts + us == (ts + init) + [last];
      FlattenConcat(ts, init);
      FlattenSnoc(ts + init, last);
      FlattenSnoc(init, last);
    } else {
      assert ts + us == ts;
    }
  }

  /** Two grid points are adjacent when they differ and are at most one step apart in each
      direction. */
  predicate Adjacent(p: GridPoint, q: GridPoint) {
    p != q && -1 <= p.lat - q.lat <= 1 && -1 <= p.long - q.long <= 1
  }

  /** Twice the signed area of a triangle of grid points, in (latitude, longitude) coordinates. */
  function Orientation(p: GridPoint, q: GridPoint, r: GridPoint): int {
    (q.lat - p.lat) * (r.long - p.long) - (q.long - p.long) * (r.lat - p.lat)
  }

  /** A triangle of the sphere mesh: its indices are in range and pairwise distinct, its
      corners are pairwise adjacent grid points, and it is half a grid cell wound the same way
      as every other triangle. This is a statement about grid points: on the sphere every
      vertex of ring 0 sits at the pole, so the first triangle of each cell in band 0 is
      degenerate there. */
  predicate MeshTriangle(numLat: nat, numLong: nat, t: Triangle) {
    var n := VertexCount(numLat, numLong);
    t.a < n && t.b < n && t.c < n
    && t.a != t.b && t.b != t.c && t.a != t.c
    && Adjacent(Decode(numLong, t.a), Decode(numLong, t.b))
    && Adjacent(Decode(numLong, t.b), Decode(numLong, t.c))
    && Adjacent(Decode(numLong, t.a), Decode(numLong, t.c))
    && Orientation(Decode(numLong, t.a), Decode(numLong, t.b), Decode(numLong, t.c)) == 1
  }

  /** The four indices of a cell decode to the four corners of that cell. */
  lemma CellCorners(numLong: nat, i: nat, j: nat)
    requires j < numLong
    ensures Decode(numLong, First(numLong, i, j)) == GridPoint(i, j)
    ensures Decode(numLong, Second(numLong, i, j)) == GridPoint(i + 1, j)
    ensures Decode(numLong, First(numLong, i, j) + 1) == GridPoint(i, j + 1)
    ensures Decode(numLong, Second(numLong, i, j) + 1) == GridPoint(i + 1, j + 1)
  {
    assert Second(numLong, i, j) == Encode(numLong, GridPoint(i + 1, j));
    DecodeEncode(numLong, GridPoint(i, j));
    DecodeEncode(numLong, GridPoint(i + 1, j));
    DecodeEncode(numLong, GridPoint(i, j + 1));
    DecodeEncode(numLong, GridPoint(i + 1, j + 1));
  }

  /** The largest index a cell uses is `Second + 1`, and it is in range for every cell. */
  lemma CellInRange(numLat: nat, numLong: nat, i: nat, j: nat)
    requires i < numLat && j < numLong
    ensures First(numLong, i, j) < First(numLong, i, j) + 1 < Second(numLong, i, j) + 1
    ensures Second(numLong, i, j) + 1 < VertexCount(numLat, numLong)
  {
    var w := numLong + 1;
    MulDistrib(i, 1, w);
    MulDistrib(i + 1, 1, w);
    MulMono(i + 2, numLat + 1, w);
  }

  /** Both triangles of every cell are mesh triangles. */
  lemma CellTrianglesWellFormed(numLat: nat, numLong: nat, i: nat, j: nat)
    requires i < numLat && j < numLong
    ensures forall t :: 0 <= t < 2 ==> MeshTriangle(numLat, numLong, CellTriangles(numLong, i, j)[t])
  {
    CellCorners(numLong, i, j);
    CellInRange(numLat, numLong, i, j);
  }

  lemma {:induction false} RowTrianglesWellFormed(numLat: nat, numLong: nat, i: nat, n: nat)
    requires i < numLat && n <= numLong
    ensures forall t :: 0 <= t < |RowTriangles(numLong, i, n)| ==>
              MeshTriangle(numLat, numLong, RowTriangles(numLong, i, n)[t])
  {
    if n > 0 {
      RowTrianglesWellFormed(numLat, numLong, i, n - 1);
      CellTrianglesWellFormed(numLat, numLong, i, n - 1);
    }
  }

  lemma {:induction false} BandsWellFormed(numLat: nat, numLong: nat, m: nat)
    requires m <= numLat
    ensures forall t :: 0 <= t < |GridTriangles(m, numLong)| ==>
              MeshTriangle(numLat, numLong, GridTriangles(m, numLong)[t])
  {
    if m > 0 {
      BandsWellFormed(numLat, numLong, m - 1);
      RowTrianglesWellFormed(numLat, numLong, m - 1, numLong);
    }
  }

  /** Every triangle the index loops push is a mesh triangle: in range, with three distinct
      indices naming pairwise adjacent grid points, all wound the same way. */
  lemma GridTrianglesWellFormed(numLat: nat, numLong: nat)
    ensures forall t :: 0 <= t < |GridTriangles(numLat, numLong)| ==>
              MeshTriangle(numLat, numLong, GridTriangles(numLat, numLong)[t])
  {
    BandsWellFormed(numLat, numLong, numLat);
  }

  lemma {:induction false} RowPlacement(numLong: nat, i: nat, n: nat, j: nat)
    requires j < n
    ensures RowTriangles(numLong, i, n)[2 * j .. 2 * j + 2] == CellTriangles(numLong, i, j)
  {
    if j < n - 1 {
      RowPlacement(numLong, i, n - 1, j);
      assert RowTriangles(numLong, i, n)[..2 * (n - 1)] == RowTriangles(numLong, i, n - 1);
    }
  }

  lemma PairOfConcat<T>(a: seq<T>, b: seq<T>, k: nat)
    requires k + 2 <= |a| + |b|
    ensures k + 2 <= |a| ==> (a + b)[k .. k + 2] == a[k .. k + 2]
    ensures |a| <= k ==> (a + b)[k .. k + 2] == b[k - |a| .. k - |a| + 2]
  {
  }

  lemma {:induction false} BandPlacement(numLong: nat, m: nat, i: nat, j: nat)
    requires i < m && j < numLong
    ensures 2 * (i * numLong + j) + 2 <= |GridTriangles(m, numLong)|
    ensures GridTriangles(m, numLong)[2 * (i * numLong + j) .. 2 * (i * numLong + j) + 2]
         == CellTriangles(numLong, i, j)
  {
    if i < m - 1 {
      BandPlacement(numLong, m - 1, i, j);
      EarlierBandPlacement(numLong, m, i, j);
    } else {
      LastBandPlacement(numLong, m, j);
    }
  }

  lemma EarlierBandPlacement(numLong: nat, m: nat, i: nat, j: nat)
    requires i + 1 < m && j < numLong
    requires 2 * (i * numLong + j) + 2 <= |GridTriangles(m - 1, numLong)|
    requires GridTriangles(m - 1, numLong)[2 * (i * numLong + j) .. 2 * (i * numLong + j) + 2]
          == CellTriangles(numLong, i, j)
    ensures 2 * (i * numLong + j) + 2 <= |GridTriangles(m, numLong)|
    ensures GridTriangles(m, numLong)[2 * (i * numLong + j) .. 2 * (i * numLong + j) + 2]
         == CellTriangles(numLong, i, j)
  {
    var prev := GridTriangles(m - 1, numLong);
    var row := RowTriangles(numLong, m - 1, numLong);
    assert GridTriangles(m, numLong) == prev + row;
    PairOfConcat(prev, row, 2 * (i * numLong + j));
  }

  lemma LastBandPlacement(numLong: nat, m: nat, j: nat)
    requires 0 < m && j < numLong
    ensures 2 * ((m - 1) * numLong + j) + 2 <= |GridTriangles(m, numLong)|
    ensures GridTriangles(m, numLong)[2 * ((m - 1) * numLong + j) .. 2 * ((m - 1) * numLong + j) + 2]
         == CellTriangles(numLong, m - 1, j)
  {
    var prev := GridTriangles(m - 1, numLong);
    var row := RowTriangles(numLong, m - 1, numLong);
    assert GridTriangles(m, numLong) == prev + row;
    GridTrianglesLength(m - 1, numLong);
    var c := (m - 1) * numLong;
    assert |prev| == 2 * c;
    RowPlacement(numLong, m - 1, numLong, j);
    PairOfConcat(prev, row, 2 * c + 2 * j);
  }

  /** Cell `(i, j)` contributes exactly its two triangles, at triangle positions
      `2 * (i * numLong + j)` and the one after: cells are visited band by band. */
  lemma CellPlacement(numLat: nat, numLong: nat, i: nat, j: nat)
    requires i < numLat && j < numLong
    ensures 2 * (i * numLong + j) + 2 <= |GridTriangles(numLat, numLong)|
    ensures GridTriangles(numLat, numLong)[2 * (i * numLong + j)] == CellTriangles(numLong, i, j)[0]
    ensures GridTriangles(numLat, numLong)[2 * (i * numLong + j) + 1] == CellTriangles(numLong, i, j)[1]
  {
    BandPlacement(numLong, numLat, i, j);
    var ts := GridTriangles(numLat, numLong);
    var k := 2 * (i * numLong + j);
    var pair := ts[k .. k + 2];
    assert ts[k] == pair[0] && ts[k + 1] == pair[1];
  }

  /** The two triangles of a cell share exactly the diagonal from `(i + 1, j)` to `(i, j + 1)`;
      both list `second` before `first + 1`, and they traverse that edge in opposite
      directions, as two faces wound the same way must. */
  lemma CellSharedDiagonal(numLong: nat, i: nat, j: nat)
    requires j < numLong
    ensures var ts := CellTriangles(numLong, i, j);
            var first := First(numLong, i, j);
            var second := Second(numLong, i, j);
            {ts[0].a, ts[0].b, ts[0].c} * {ts[1].a, ts[1].b, ts[1].c} == {second, first + 1}
            && ts[0].b == second && ts[0].c == first + 1
            && ts[1].a == second && ts[1].c == first + 1
            && Decode(numLong, second) == GridPoint(i + 1, j)
            && Decode(numLong, first + 1) == GridPoint(i, j + 1)
  {
    CellCorners(numLong, i, j);
    var first := First(numLong, i, j);
    var second := Second(numLong, i, j);
    assert first != second + 1;
  }

  /** What a `GL_TRIANGLES` draw reads from the grid's index buffer: two triangles per cell,
      each of them a mesh triangle. */
  lemma DrawnTriangles(numLat: nat, numLong: nat, ix: seq<nat>)
    requires ix == Flatten(GridTriangles(numLat, numLong))
    ensures |ix| % 3 == 0 && |Assemble(ix)| == 2 * (numLat * numLong)
    ensures forall t :: 0 <= t < |Assemble(ix)| ==> MeshTriangle(numLat, numLong, Assemble(ix)[t])
  {
    var ts := GridTriangles(numLat, numLong);
    TripleMod(|ts|);
    AssembleFlatten(ts);
    assert Assemble(ix) == ts;
    GridTrianglesLength(numLat, numLong);
    GridTrianglesWellFormed(numLat, numLong);
  }

  /** Index `v` is one of the corners of triangle `t`. */
  predicate HasCorner(t: Triangle, v: nat) {
    v == t.a || v == t.b || v == t.c
  }

  /** The four corners of cell `(i, j)` are stored at `first`, `second`, `first + 1` and
      `second + 1`. */
  lemma CornerEncodings(numLong: nat, i: nat, j: nat)
    ensures Encode(numLong, GridPoint(i, j)) == First(numLong, i, j)
    ensures Encode(numLong, GridPoint(i + 1, j)) == Second(numLong, i, j)
    ensures Encode(numLong, GridPoint(i, j + 1)) == First(numLong, i, j) + 1
    ensures Encode(numLong, GridPoint(i + 1, j + 1)) == Second(numLong, i, j) + 1
  {
    MulDistrib(i, 1, numLong + 1);
  }

  /** Where cell `(i, j)`'s triangles sit, as corner indices. */
  lemma CellAt(numLat: nat, numLong: nat, i: nat, j: nat) returns (k: nat)
    requires i < numLat && j < numLong
    ensures k + 1 < |GridTriangles(numLat, numLong)|
    ensures GridTriangles(numLat, numLong)[k]
         == Triangle(First(numLong, i, j), Second(numLong, i, j), First(numLong, i, j) + 1)
    ensures GridTriangles(numLat, numLong)[k + 1]
         == Triangle(Second(numLong, i, j), Second(numLong, i, j) + 1, First(numLong, i, j) + 1)
  {
    CellPlacement(numLat, numLong, i, j);
    k := 2 * (i * numLong + j);
  }

  /** The cell that triangle position `t` belongs to when every band has `numLong` cells: cell
      number `t / 2`, counted band by band. */
  function CellOf(numLong: nat, t: nat): (p: GridPoint)
    requires 0 < numLong
    ensures p.long < numLong
    ensures t == 2 * (p.lat * numLong + p.long) + t % 2
  {
    var c := t / 2;
    assert c == (c / numLong) * numLong + c % numLong;
    GridPoint(c / numLong, c % numLong)
  }

  /** Triangle `t` of a grid listed band by band, cell by cell, two triangles per cell. */
  function DrawnTriangle(numLong: nat, t: nat): Triangle
    requires 0 < numLong
  {
    var p := CellOf(numLong, t);
    CellTriangles(numLong, p.lat, p.long)[t % 2]
  }

  /** A triangle position below `2 * (numLat * numLong)` belongs to a cell of the grid. */
  lemma CellOfTriangle(numLat: nat, numLong: nat, t: nat)
    requires t < 2 * (numLat * numLong)
    ensures 0 < numLong && CellOf(numLong, t).lat < numLat
  {
    if numLong == 0 {
      assert false;
    }
    var p := CellOf(numLong, t);
    if numLat <= p.lat {
      MulMono(numLat, p.lat, numLong);
      assert false;
    }
  }

  /** The index loops list the triangles band by band, cell by cell: triangle `t` is
      `DrawnTriangle(numLong, t)`. */
  lemma TriangleAt(numLat: nat, numLong: nat, t: nat)
    requires t < |GridTriangles(numLat, numLong)|
    ensures 0 < numLong
    ensures GridTriangles(numLat, numLong)[t] == DrawnTriangle(numLong, t)
  {
    GridTrianglesLength(numLat, numLong);
    CellOfTriangle(numLat, numLong, t);
    var p := CellOf(numLong, t);
    CellPlacement(numLat, numLong, p.lat, p.long);
  }

  /** The draw reads the grid's index buffer as the cells' triangles in loop order. */
  lemma DrawnCells(numLat: nat, numLong: nat, ix: seq<nat>)
    requires ix == Flatten(GridTriangles(numLat, numLong))
    ensures |ix| % 3 == 0
    ensures forall t :: 0 <= t < |Assemble(ix)| ==>
              0 < numLong && Assemble(ix)[t] == DrawnTriangle(numLong, t)
  {
    var ts := GridTriangles(numLat, numLong);
    TripleMod(|ts|);
    AssembleFlatten(ts);
    forall t | 0 <= t < |ts|
      ensures 0 < numLong && ts[t] == DrawnTriangle(numLong, t)
    {
      TriangleAt(numLat, numLong, t);
    }
  }

  /** When the grid has at least one cell in each direction, every vertex is a corner of some
      pushed triangle: the mesh has no unused vertex. */
  lemma EveryVertexUsed(numLat: nat, numLong: nat, p: GridPoint)
    requires 1 <= numLat && 1 <= numLong && InGrid(numLat, numLong, p)
    ensures exists t :: 0 <= t < |GridTriangles(numLat, numLong)| &&
              HasCorner(GridTriangles(numLat, numLong)[t], Encode(numLong, p))
  {
    var i := if p.lat < numLat then p.lat else numLat - 1;
    var j := if p.long < numLong then p.long else numLong - 1;
    var k := CellAt(numLat, numLong, i, j);
    CornerEncodings(numLong, i, j);
    var ts := GridTriangles(numLat, numLong);
    if p.lat == i && p.long == j {
      assert HasCorner(ts[k], Encode(numLong, p));
    } else if p.long == j {
      assert p == GridPoint(i + 1, j);
      assert HasCorner(ts[k], Encode(numLong, p));
    } else if p.lat == i {
      assert p == GridPoint(i, j + 1);
      assert HasCorner(ts[k], Encode(numLong, p));
    } else {
      assert p == GridPoint(i + 1, j + 1);
      assert HasCorner(ts[k + 1], Encode(numLong, p));
    }
  }

  /** The guard in front of the second triangle: both `second + 1` and `first + 1` are below
      the vertex array's size. */
  predicate SecondTriangleGuard(size: nat, first: nat, second: nat) {
    second + 1 < size && first + 1 < size
  }

  /** Once the vertex array holds at least the grid's vertices, the guard holds for every
      cell the index loops visit, so each cell always pushes both triangles. */
  lemma GuardAlwaysHolds(numLat: nat, numLong: nat, size: nat, i: nat, j: nat)
    requires VertexCount(numLat, numLong) <= size
    requires i < numLat && j < numLong
    ensures SecondTriangleGuard(size, First(numLong, i, j), Second(numLong, i, j))
  {
    CellInRange(numLat, numLong, i, j);
  }
}
