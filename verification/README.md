# Sphere mesh indices of `createEarthApproximation`

The renderer draws the Earth as a latitude/longitude sphere. `createEarthApproximation`
appends one vertex per grid point to a vertex vector, ring by ring, then fills an index
buffer with two triangles per grid cell, which `glDrawElements(GL_TRIANGLES, ...)` later
reads in groups of three. This project models that integer logic and proves that the
index buffer is a well-formed triangulation of the latitude/longitude grid (a statement
about grid points, not about positions on the sphere).

- `sphere_grid.dfy`, module `SphereGrid`, holds the reference definitions:
  - a vertex is a `GridPoint(lat, long)`, and `Encode`/`Decode` map it to and from its
    position in the vertex array;
  - `GridVertices` lists the grid points in row-major order;
  - `CellTriangles`, `RowTriangles` and `GridTriangles` are the triangles of a cell, of a
    latitude band and of the whole grid;
  - `Flatten` turns triangles into an index buffer, and `Assemble` reads one back the way a
    `GL_TRIANGLES` draw does;
  - `MeshTriangle` says what a good triangle is: indices below the vertex count, pairwise
    distinct, naming pairwise adjacent grid points, with the same winding (orientation +1)
    as every other triangle.
- `earth.dfy`, module `Earth`, holds the imperative model:
  - nested `while` loops over C `int` counters (`Int32`) that push vertices and `GLuint`
    indices the way `createEarthApproximation` in src/main.cpp does;
  - `first` and `second` are computed as in that function, and the bounds guard in front of
    the second triangle is kept;
  - the entry point is `CreateEarthApproximation`, and the 8 × 6 call site is `EarthMesh`.

The segment counts are parameters, which may be any naturals, including 0. The one demand
is that the vertex count `(numLat + 1) * (numLong + 1)` fits in a C `int`, so that `first`,
`second` and `second + 1` never overflow. A vertex's floating-point position is left out:
a vertex is identified by its grid point.

## Model

| member | source | states |
|---|---|---|
| Earth.CreateEarthApproximation | src/main.cpp:148-191 | Appends exactly the grid points in row-major order to `vertices` and exactly the flattened triangles of every cell, band by band, to `indices`; the existing elements of both vectors are unchanged. That is `(numLat+1)*(numLong+1)` vertices, vertex `k` being grid point `(k / (numLong+1), k % (numLong+1))`, and `6*numLat*numLong` indices. Every appended index is below the grid's vertex count and below the new vertex vector's size. When `vertices` starts empty, each index names the grid point it encodes. The appended indices are a whole number of triangles, and each is a mesh triangle. |
| Earth.CreateFromEmpty | src/main.cpp:214-227 | Called with two empty vectors, as at the call site: the vertex vector holds exactly the grid in row-major order, every index is in range and names the grid point it encodes, and the index buffer is read as mesh triangles. |
| Earth.EarthMesh | src/main.cpp:148-151 | At the hard-coded 8 × 6 grid with empty vectors: 63 vertices in row-major order and 288 indices, every index below 63. The draw reads 96 triangles, all of them mesh triangles, triangle `t` being triangle `t % 2` of cell `t / 2`, which pins every index. |
| Earth.AppendGridVertices | src/main.cpp:158-170 | The vertex loops append exactly the grid points in row-major order and keep the earlier vertices. |
| Earth.AppendGridIndices | src/main.cpp:173-190 | The index loops append exactly the flattened triangles of every cell, band by band, and keep the earlier indices. That is `6*numLat*numLong` indices, each below the vertex count. The appended indices depend only on the segment counts, not on the vector contents. |
| Earth.AppendBand | src/main.cpp:174-189 | One pass of the outer index loop appends the flattened triangles of the band's cells `(i, 0) .. (i, numLong-1)`, in order, each index below the vertex count. |
| Earth.PushCell | src/main.cpp:175-188 | One cell's pushes keep the earlier indices and add three or six indices, six exactly when the guard holds. The first three indices name the corners `(i, j)`, `(i+1, j)` and `(i, j+1)`. When the guard holds, the next three name `(i+1, j)`, `(i+1, j+1)` and `(i, j+1)`, and every pushed index is below the vertex vector's size, as the comment at line 183 intends. The pushes are the cell's triangles, in order. |
| SphereGrid.GridVerticesRowMajor | src/main.cpp:158-168 | The grid has `(numLat+1)*(numLong+1)` vertices. Vertex `k` is the grid point `Decode(k)`. Every grid point `p` sits at position `Encode(p) = p.lat*(numLong+1)+p.long`. |
| SphereGrid.InGridIffBelowCount | src/main.cpp:158-159 | A point with longitude at most `numLong` lies in the grid if and only if its encoding is below the vertex count. |
| SphereGrid.DecodeEncode | src/main.cpp:175 | Decoding the row-major position of a grid point gives the point back. |
| SphereGrid.EncodeDecode | src/main.cpp:175 | Encoding the decoded form of a position gives the position back, and the decoded longitude is at most `numLong`. |
| SphereGrid.CellCorners | src/main.cpp:175-176 | `first`, `second`, `first+1` and `second+1` decode to `(i, j)`, `(i+1, j)`, `(i, j+1)` and `(i+1, j+1)`. |
| SphereGrid.CellInRange | src/main.cpp:175-187 | For a cell the loops visit, `first < first+1 < second+1 < (numLat+1)*(numLong+1)`, so every index the cell pushes is in range. |
| SphereGrid.GuardAlwaysHolds | src/main.cpp:184 | Once the vertex vector holds the grid, the guard `second+1 < size && first+1 < size` holds for every visited cell, so every cell pushes both triangles. |
| SphereGrid.CellTrianglesWellFormed | src/main.cpp:179-187 | Both triangles of a visited cell are mesh triangles. |
| SphereGrid.CellSharedDiagonal | src/main.cpp:179-187 | The two triangles of a cell have exactly `{second, first+1}` in common, the diagonal from `(i+1, j)` to `(i, j+1)`. Both list `second` before `first+1`. |
| SphereGrid.GridTrianglesLength | src/main.cpp:173-190 | The loops produce two triangles per cell: `2*numLat*numLong`. |
| SphereGrid.IndexCount | src/main.cpp:173-190 | The index buffer holds `6*numLat*numLong` indices, a multiple of three. |
| SphereGrid.CellPlacement | src/main.cpp:173-190 | Cell `(i, j)`'s two triangles sit at triangle positions `2*(i*numLong+j)` and the one after, so cells are visited band by band, left to right. |
| SphereGrid.GridTrianglesWellFormed | src/main.cpp:173-190 | Every triangle the index loops produce is a mesh triangle. |
| SphereGrid.EveryVertexUsed | src/main.cpp:158-190 | With at least one cell in each direction, every grid vertex is a corner of some produced triangle. |
| SphereGrid.Assemble | src/main.cpp:301 | A `GL_TRIANGLES` draw reads triangle `t` from indices `3t`, `3t+1` and `3t+2`, one triangle per three indices. |
| SphereGrid.AssembleFlatten | src/main.cpp:301 | Reading a flattened triangle list back in groups of three gives the same triangles. |
| SphereGrid.CellOf | src/main.cpp:173-175 | Triangle position `t` belongs to the cell `(lat, long)` with `long < numLong` and `t = 2*(lat*numLong + long) + t % 2`: cells are visited band by band, two triangles each. |
| SphereGrid.CellOfTriangle | src/main.cpp:173-174 | Every triangle position below `2*numLat*numLong` belongs to a cell of the grid. |
| SphereGrid.TriangleAt | src/main.cpp:173-190 | Triangle `t` of the index loops is `DrawnTriangle(numLong, t)`, the triangle `t % 2` of cell `CellOf(numLong, t)`. |
| SphereGrid.DrawnCells | src/main.cpp:173-190 | The draw reads the grid's index buffer, triangle by triangle, as `DrawnTriangle(numLong, t)`. |
| SphereGrid.DrawnTriangles | src/main.cpp:301 | The draw reads the grid's index buffer as `2*numLat*numLong` triangles, each a mesh triangle. |

## Left out

- Vertex positions are not modelled (src/main.cpp:154-166). They are single-precision `sinf`/`cosf` of multiples of `M_PI / numLatSegments` and `2 * M_PI / numLongSegments`, which is floating-point trigonometry. A vertex is its grid point `(i, j)` instead, so the model says nothing about the geometric sphere. In particular "well-formed" is about grid points only: every ring-0 vertex lies at the pole `(0, 0, 1)` because `sinf(0) == 0` (src/main.cpp:160-166), so the first triangle of each band-0 cell has two coincident corners on the sphere (6 of the 96 triangles at 8 × 6 are degenerate).
- The SDL/GLEW set-up, shader compilation and GL buffer uploads are not modelled (`init`, `setupShaders`, `vertexSetup`, src/main.cpp:12-146). They are foreign I/O. The draw call's grouping of indices into triangles is kept as `Assemble`.
- The rest of `main` is not modelled (src/main.cpp:193-316). It covers event handling, camera nudging, `deltaTime` and the rotation matrix: input glue and float timing.
- `src/shaders.h` is left out. It is GLSL text compiled by the driver, with float lighting.
- `src/triangles.h` and `src/triangleFill.h` are left out. They hold declarations only; the rasteriser and OBJ loader bodies are not part of this model.
- `src/camera.h` is left out. It is a data struct with no behaviour.
- `src/noise.h` is left out. It wraps the external FastNoiseLite library.
- The comparisons at src/main.cpp:184 are not modelled as written. They mix a signed `int` with the unsigned `size_t` of `vertices.size()`. Both operands are non-negative whenever the `int` ones do not overflow, which the precondition guarantees, so they are modelled as plain integer comparisons.
- Earth.CreateEarthApproximation: when `vertices` is not empty on entry, the appended indices still count from 0, because `createEarthApproximation` does not offset them by the old size. So the contract promises that an index names its grid point only when `vertices` starts empty, which is the case at the one call site (src/main.cpp:214-227).
