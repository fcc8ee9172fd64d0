# Homestead: the icosahedral lattice and its small linear-algebra kit, in Dafny

Homestead's terrain sits on an icosahedral sphere lattice. The sphere is cut into a north cap (latitude face 0), the tropics (face 1) and a south cap (face 2). Each latitude face is split into `n` rings. Each ring goes round five longitude faces. A point of the lattice is a *polar coordinate*: a latitude pair `(face, div)` and a longitude pair `(face, div)`. The lattice has `10 n² + 2` vertices.

This project models the integer core of that lattice, its terrain grid and its helpers. It proves what the code and its tests promise.

- **Coordinates** (`coordinates.dfy`, module `IcoCoordinates`):
  - `SubdividedCoordinate.Normalize`, a two-digit floor-mod with a borrow across faces;
  - `PolarCoordinate.Normalize`: pole collapse, the fold of latitude faces 3 to 5 back over the equator or a pole, the `InvalidOperationException` on an odd polar fold, and the longitude range of each region;
  - the normal form, its fixed points, and the test vectors.
- **The lattice** (`ico_lattice.dfy`, module `IcoLattice`):
  - the constructor's argument check;
  - the `PolarCoordinates` enumeration, as nested `while` loops over a coordinate that is updated in place;
  - the `Edges` walk, as nested loops that append index pairs.
    - The vertex numbering is in `lattice_rows.dfy` (`IcoRows`). The edge formulas are in `edge_list.dfy` (`IcoEdges`).
    - That every vertex has degree 5 or 6, with 12 corners of degree 5, is proved in `degrees.dfy` (`IcoDegrees`). The supporting files are `mesh*.dfy` and `shape.dfy`.
- **The terrain grid** (`terrain.dfy`, module `Terrain`): `IcoGrid<T>`, which holds one slot per vertex in an array. Its `Edge` handles read and write the slots of their two ends in that shared array.
- **Integer helpers** (`int_math.dfy`, module `IntMath`):
  - `FloorMod` and `DivRem`, over C#'s truncating `/` and `%`, which `TruncDiv`/`TruncRem` spell out;
  - `IntCube`.
- **Matrices and vectors**:
  - `SymmetricMatrix`, a packed lower triangle;
  - `Matrix` and `SquareMatrix` over a caller-visible 2-D array, and `Vector` over a 1-D array;
  - the lazy pointwise operators and enumerators of `IMatrix` and `IVector`.
  - Operator results are expression values (`MatrixExpr`, `VectorExpr`). Their entries are read from the operands' storage at the moment of reading, so a later write to an operand shows through every view.

Design choices:
- Entries are `real`.
- Integers are unbounded.
- A thrown exception is an `Err` value of `Errors.Result`. `Unrepresentable` stands for the coordinate's `InvalidOperationException`.
- C# inheritance is modelled as composition: a `SquareMatrix` holds its `Matrix`.

## Model

| member | source | states |
|---|---|---|
| IcoCoordinates.SubdividedCoordinate.Normalize | Assets/Lattice/IcoLattice.cs:25-38 | the field-by-field update with C#'s truncating `/` and `%` and the two negative fix-ups ends in exactly the normal form `Normalized` |
| IcoCoordinates.Normalized | Assets/Lattice/IcoLattice.cs:21-38 | the result has `0 <= face < faces` and `0 <= div < subdivisions`, and `face·s + div` equals the original `face·s + div` modulo `faces·s` (floor semantics: a negative `div` borrows a face) |
| IcoCoordinates.NormalizedFixedPoint | Assets/Lattice/IcoLattice.cs:25-38 | a coordinate is left unchanged exactly when it is already in range, and normalising twice equals normalising once |
| IcoCoordinates.NormalizedSameTurn | Assets/Lattice/IcoLattice.cs:25-38 | two coordinates normalise alike exactly when their offsets agree modulo a full turn of `faces·s` divisions |
| IcoCoordinates.PolarCoordinate.Normalize | Assets/Lattice/IcoLattice.cs:57-84 | the in-place steps on a copy (latitude over 6 faces, poles collapse their longitude to 0, fold `5 - face`/`n - div` with +5 longitude faces in the tropics, or +2 faces and +div/2 divisions at a pole, and an odd polar fold stops with the exception) compute exactly `NormalizedPolar` |
| IcoCoordinates.NormalizedPolar | Assets/Lattice/IcoLattice.cs:57-84 | a finished result is in range (one of the poles, or latitude face 0-2, longitude face 0-4, longitude div below the ring length `lat.div`, `n` or `n - lat.div`); it fails to be canonical only on a face border `lat.div == n`; the exception occurs exactly when the 6-face latitude is on face 5, or on face 3 off the pole, and `n - lat.div` is odd |
| IcoCoordinates.NormalizedPolarPoles | Assets/Lattice/IcoLattice.cs:58-61 | a latitude that normalises to `(0, 0)` gives the north pole and one that normalises to `(3, 0)` the south pole, whatever the longitude |
| IcoCoordinates.NormalizedPolarUnfolded | Assets/Lattice/IcoLattice.cs:58-82 | off the poles and below latitude face 3, the normalised latitude is kept and the longitude is normalised over 5 faces of its ring's length |
| IcoCoordinates.NormalizedPolarFold | Assets/Lattice/IcoLattice.cs:63-76 | a normalised latitude `l` on faces 3-5, other than the south pole, becomes `(5 - l.face, n - l.div)`; an unrepresentable fold's partial state has that latitude and the given longitude |
| IcoCoordinates.NormalizedPolarEquatorFold | Assets/Lattice/IcoLattice.cs:63-82 | a fold from latitude face 4 gives `(1, n - l.div)` and the longitude with 5 faces added, normalised over `n`; that is a whole turn, so the longitude equals the given one normalised |
| IcoCoordinates.NormalizedPolarPolarFold | Assets/Lattice/IcoLattice.cs:63-82 | a polar fold with an even folded division adds 2 faces and half that division to the longitude and normalises over the new ring; across the north pole this is half a turn of that ring |
| IcoCoordinates.CanonicalIsFixedPoint | Assets/Lattice/IcoLattice.cs:57-84 | normalisation leaves a coordinate as it is exactly when the coordinate is canonical (a pole, or in range with `lat.div < n`, and `lat.div >= 1` on face 0) |
| IcoCoordinates.NormalizeTwiceCanonical | Assets/Lattice/IcoLattice.cs:57-84 | a second normalisation always finishes with a canonical coordinate; it changes nothing if the first result was canonical, and otherwise it moves a border coordinate `(f, n)` to `(f + 1, 0)` with the same longitude |
| IcoCoordinates.NormalizePoleExamples | Assets/Tests/IcoLatticeTest.cs:13-39 | with 3 subdivisions, `(0,0,1,1)` and `(5,3,1,1)` normalise to the north pole, and `(3,0,1,1)` and `(2,3,1,1)` to the south pole |
| IcoCoordinates.NormalizeTropicExamples | Assets/Tests/IcoLatticeTest.cs:41-95 | with 3 subdivisions, the eight tropic test vectors normalise to the expected coordinates, e.g. `(1,-1,0,-1)` to `(0,2,4,1)` and `(1,3,0,-1)` to `(2,0,4,2)` |
| IcoCoordinates.Polar | Assets/Lattice/IcoLattice.cs:52-55 | the four-argument constructor: latitude `(latFace, latDiv)` and longitude `(lonFace, lonDiv)` (no contract of its own; the normalisation rows and the test-vector rows use it) |
| IcoLattice.NewLattice | Assets/Lattice/IcoLattice.cs:110-118 | construction succeeds exactly when `subdivisions >= 1`, keeps that value (an immutable field), and otherwise fails with ArgumentOutOfRange |
| IcoLattice.Lattice.PolarCoordinates | Assets/Lattice/IcoLattice.cs:168-207 | yields exactly `10n² + 2` coordinates, pairwise distinct, from the north pole to the south pole; vertex number `k` gets the coordinate of vertex `k`; every yielded coordinate is canonical and a fixed point of `Normalize`; every canonical coordinate is yielded |
| IcoLattice.NorthCapCoordinates | Assets/Lattice/IcoLattice.cs:175-181 | the loop over latitudes 1..n-1 of face 0 appends the rings of rows 1..n-1, each coordinate at its vertex number |
| IcoLattice.TropicCoordinates | Assets/Lattice/IcoLattice.cs:184-191 | the loop over latitudes 0..n-1 of face 1 appends rows n..2n-1, each coordinate at its vertex number |
| IcoLattice.SouthCapCoordinates | Assets/Lattice/IcoLattice.cs:194-202 | the loop over latitudes 0..n-1 of face 2, with rings of `n - lat` divisions per face, appends rows 2n..3n-1 |
| IcoLattice.Ring | Assets/Lattice/IcoLattice.cs:176-180 | the two inner loops yield, for a fixed latitude, longitude face `f` and division `d` at position `f·len + d`, for all `f < 5` and `d < len` |
| IcoLattice.NorthPoleFirst | Assets/Lattice/IcoLattice.cs:171-173 | the default coordinate that is yielded first is vertex 0, the north pole |
| IcoLattice.SouthPoleLast | Assets/Lattice/IcoLattice.cs:204 | the final `(3,0,0,0)` completes the enumeration of all `3n + 1` rows |
| IcoLattice.EnumerationFacts | Assets/Lattice/IcoLattice.cs:168-207 | a sequence that holds every vertex's coordinate at its number has length `10n² + 2`, starts and ends at the poles, has no repeats, holds only canonical fixed points of `Normalize`, and holds every canonical coordinate |
| IcoLattice.PolarOfCanonical | Assets/Lattice/IcoLattice.cs:168-207 | the coordinate the enumeration gives each vertex is canonical |
| IcoLattice.PolarOfInjective | Assets/Lattice/IcoLattice.cs:168-207 | two vertices get the same coordinate exactly when they are the same vertex |
| IcoLattice.PolarOfComplete | Assets/Lattice/IcoLattice.cs:168-207 | every canonical coordinate belongs to some vertex |
| IcoLattice.Lattice.Edges | Assets/Lattice/IcoLattice.cs:217-294 | the pairs are exactly `EdgeList(n)`; both ends of every pair lie in `[0, 10n² + 2)` and differ; no undirected edge occurs twice, in either direction; every vertex has degree 5 if it is one of the 12 corners and degree 6 otherwise |
| IcoLattice.NorthCapEdges | Assets/Lattice/IcoLattice.cs:230-251 | the north loops over latitudes 0..n-1 yield exactly the north-cap pairs |
| IcoLattice.NorthRingEdges | Assets/Lattice/IcoLattice.cs:238-249 | the loop over the five faces of one north latitude yields exactly that ring's pairs |
| IcoLattice.NorthFaceEdges | Assets/Lattice/IcoLattice.cs:239-248 | one face yields its spoke `(vertex(lat,f,0), vertex(lat+1,f,0))`, then per division the pairs `(a,b)`, `(a,c)` and `(b,c)` |
| IcoLattice.TropicEdges | Assets/Lattice/IcoLattice.cs:254-269 | the tropic loops yield exactly the tropic pairs, with `div % 5n` wrapping the last cell of a row |
| IcoLattice.SouthCapEdges | Assets/Lattice/IcoLattice.cs:272-292 | the south loops over latitudes 0..n-1 yield exactly the south-cap pairs |
| IcoLattice.SouthRingEdges | Assets/Lattice/IcoLattice.cs:280-290 | the loop over the five faces of one south latitude yields exactly that ring's pairs |
| IcoLattice.SouthFaceEdges | Assets/Lattice/IcoLattice.cs:281-289 | one face yields, per division, `(a,b)`, then `(a,c)` only when `div > 0`, then `(b,c)` |
| IcoEdges.NorthVertex | Assets/Lattice/IcoLattice.cs:231-235 | vertex 0 for latitude 0; otherwise a number in ring `lat`, from `PyramidSize(lat)` to `PyramidSize(lat) + 5·lat - 1` |
| IcoEdges.TropicVertex | Assets/Lattice/IcoLattice.cs:257 | a number in tropic row `lat`, from `northTropic + lat·5n` to `northTropic + lat·5n + 5n - 1` |
| IcoEdges.SouthVertex | Assets/Lattice/IcoLattice.cs:273-277 | `latStart` on the pole row `lat == n`; otherwise a number in ring `lat`, from `latStart` to `latStart + 5(n - lat) - 1` |
| IcoEdges.EdgeList | Assets/Lattice/IcoLattice.cs:217-294 | the pairs of the three loops in order, `30n²` of them: half the degree sum of 12 vertices of degree 5 and `10n² - 10` of degree 6 |
| IcoNamedEdges.EdgeListIndex | Assets/Lattice/IcoLattice.cs:217-294 | the source's three `vertex` formulas, applied to the pairs, give exactly the row-by-row numbering of the named vertices that the degree proofs use |
| IcoRows.VertexCountClosed | Assets/Terrain/IcoGrid.cs:35 | the sum of the row lengths (1, 5, 10, …, 5n across the caps and tropics, 1) is `10n² + 2` |
| IcoRows.PyramidSize | Assets/Lattice/IcoLattice.cs:222 | `1 + 5h(h-1)/2`, and the halving is exact: `2·(PyramidSize(h) - 1) == 5h(h-1)` for every `h` |
| IcoRows.RowStartNorth | Assets/Lattice/IcoLattice.cs:222 | north row `r` starts at `PyramidSize(r) = 1 + 5r(r-1)/2` |
| IcoRows.RowStartTropics | Assets/Lattice/IcoLattice.cs:224-225 | tropic row `n + t` starts at `northTropic + t·5n`, and row `2n` at `southTropic` |
| IcoRows.RowStartSouth | Assets/Lattice/IcoLattice.cs:273-276 | south row `2n + lat` starts at the source's `latStart` |
| IcoRows.IdxInjective | Assets/Lattice/IcoLattice.cs:222-276 | (row, position) pairs and vertex numbers correspond one to one |
| IcoRows.IdxSurjective | Assets/Lattice/IcoLattice.cs:222-276 | every number below the vertex count is some vertex |
| IcoDegrees.VertexNeighbours | Assets/Lattice/IcoLattice.cs:217-294 | the multiset of neighbours that the edge list gives each vertex is exactly its expected list (5 around a corner, 6 elsewhere) |
| IcoDegrees.VertexDegree | Assets/Tests/IcoLatticeTest.cs:106-129 | every vertex has no self-neighbour, no neighbour twice, neighbours only in range, and 5 neighbours at a corner or 6 elsewhere |
| IcoDegrees.DegreeFiveAtCorners | Assets/Tests/IcoGridTest.cs:6-28 | there are exactly 12 distinct corners, all in range, the corners have degree 5, every other vertex has degree 6, and the count is `10n² + 2` |
| IcoDegrees.CornerIndex | Assets/Tests/IcoGridTest.cs:18-27 | a vertex is a corner (a pole, or the first vertex of a face on row n or 2n) exactly when its number is in `Corners` |
| IcoDegrees.EdgeEnds | Assets/Lattice/IcoLattice.cs:217-294 | both ends of every yielded pair are in `[0, 10n² + 2)` and differ |
| IcoDegrees.NoRepeatedEdge | Assets/Tests/IcoGridTest.cs:13-16 | two different positions of the edge list never carry the same pair, or the same pair reversed |
| Terrain.IcoGrid.constructor | Assets/Terrain/IcoGrid.cs:29-36 | keeps `subdivisions` and allocates a fresh array of `2·n·5·n + 2 = 10n² + 2` slots |
| Terrain.NewIcoGrid | Assets/Terrain/IcoGrid.cs:29-36 | construction succeeds exactly when `subdivisions >= 1` and otherwise fails with ArgumentOutOfRange |
| Terrain.IcoGrid.Edges | Assets/Terrain/IcoGrid.cs:38-109 | yields one fresh edge handle per pair of the lattice's `Edges`, in the same order, with the same `a` and `b`, each over the grid's own array, each with both ends in range |
| Terrain.IcoGrid.Views | Assets/Terrain/IcoGrid.cs:52-103 | `new Edge(this, a, b)` for each pair in order: fresh handles that share the grid's array |
| Terrain.Edge.constructor | Assets/Terrain/IcoGrid.cs:9-13 | the handle shares the grid's array (no copy) and keeps `a` and `b` |
| Terrain.Edge.SetA | Assets/Terrain/IcoGrid.cs:15-18 | writes slot `a` of the shared array and no other slot; afterwards `A` reads the value and `B` keeps its value unless `b == a` |
| Terrain.Edge.SetB | Assets/Terrain/IcoGrid.cs:19-22 | the same for slot `b` |
| Terrain.Edge.A | Assets/Terrain/IcoGrid.cs:15-16 | the getter of `A` reads slot `a` of the shared array (no contract of its own; `SetA` and `SetB` state how writes show through it) |
| Terrain.Edge.B | Assets/Terrain/IcoGrid.cs:19-20 | the getter of `B` reads slot `b` of the shared array (no contract of its own) |
| IntMath.TruncDiv | Assets/Math.cs:14 | C#'s `/`: the quotient rounded toward zero, leaving a remainder of the dividend's sign below `|b|` |
| IntMath.TruncRem | Assets/Math.cs:9 | C#'s `%`: `a == (a / b)·b + r`, with `r` of the sign of `a` and below `|b|` |
| IntMath.FloorMod | Assets/Math.cs:8-11 | for `a >= 0`, the truncating remainder, in `[0, |b|)`; for `a < 0`, that remainder plus `|b|`, in `(0, |b|]`; always congruent to `a` modulo `b`; equal to `|b|` exactly when `a` is a negative multiple of `b` |
| IntMath.FloorModNegativeMultiple | Assets/Math.cs:8-11 | `FloorMod(-4, 4) == 4`, which lies outside `[0, 4)` |
| IntMath.FloorModCorrected | Assets/Math.cs:8-11 | the intended floor remainder: in `[0, |b|)`, equals `a mod |b|`, and agrees with `FloorMod` except on negative multiples of `b` |
| IntMath.DivRem | Assets/Math.cs:13-20 | `rem` is in `[0, |b|)`; when the truncating remainder is non-negative (in particular for `a >= 0`) the result is truncating division; for `b > 0` it is floor division `a == q·b + rem`; for `b < 0` with a negative truncating remainder, `q` is two less than a quotient that would satisfy the identity |
| IntMath.DivRemNegativeDivisor | Assets/Math.cs:13-20 | `DivRem(-1, -2)` gives `q = -1, rem = 1`, and `-1·-2 + 1 != -1` |
| IntMath.DivRemCorrected | Assets/Math.cs:13-20 | the intended Euclidean division: `a == q·b + rem`, `0 <= rem < |b|`, and the same result as `DivRem` wherever that one holds the identity |
| IntMath.IntCube | Assets/Math.cs:22-30 | yields `n³` points (none when `n <= 0`), each with coordinates in `[0, n)`, the `i`-th at offset `x + n·y + n²·z == i` (x fastest, then y, then z), all distinct, and every point of the cube |
| IntMath.CubeOffsetInjective | Assets/Math.cs:22-30 | distinct points of the cube have distinct positions in that order |
| SymmetricMatrices.ResolveIndexSymmetric | Assets/SymmetricMatrix.cs:16-22 | `(r, c)` and `(c, r)` share a slot, for all integers |
| SymmetricMatrices.ResolveIndexInStorage | Assets/SymmetricMatrix.cs:13-22 | for non-negative indices, the slot lies inside the `size(size+1)/2` cells exactly when both indices are below `size` |
| SymmetricMatrices.ResolveIndexInjective | Assets/SymmetricMatrix.cs:16-22 | for non-negative indices, two cells share a slot exactly when they are the same unordered pair |
| SymmetricMatrices.ResolveIndexSurjective | Assets/SymmetricMatrix.cs:13-22 | every slot of the storage is the slot of some lower-triangle cell `c <= r < size`: a bijection from unordered pairs onto the storage |
| SymmetricMatrices.ResolveIndex | Assets/SymmetricMatrix.cs:16-22 | the packed slot of the lower-triangle cell `(max, min)` (no contract of its own; `ResolveIndexSymmetric`, `ResolveIndexInStorage`, `ResolveIndexInjective` and `ResolveIndexSurjective` state its properties) |
| SymmetricMatrices.TriangleNumberNonnegative | Assets/SymmetricMatrix.cs:13 | `size(size+1)/2` is never negative, for any size, so the allocation never fails |
| SymmetricMatrices.SymmetricMatrix.constructor | Assets/SymmetricMatrix.cs:11-14 | keeps `size` and allocates `size(size+1)/2` zero cells |
| SymmetricMatrices.SymmetricMatrix.GetSymmetric | Assets/SymmetricMatrix.cs:26-27 | the getter returns the same value at `(r, c)` and `(c, r)` |
| SymmetricMatrices.SymmetricMatrix.SetIndexer | Assets/SymmetricMatrix.cs:29 | the indexer's setter always fails with NotImplemented and changes nothing |
| SymmetricMatrices.SymmetricMatrix.SetSymmetric | Assets/SymmetricMatrix.cs:32-34 | writes one storage cell and nothing else; afterwards both `(r, c)` and `(c, r)` read the value, and every other unordered pair keeps its value |
| SymmetricMatrices.SymmetricMatrix.Size | Assets/SymmetricMatrix.cs:38 | the stored size (no contract of its own) |
| SymmetricMatrices.SymmetricMatrix.Get | Assets/SymmetricMatrix.cs:24-27 | reads the slot `ResolveIndex(row, column)`, which lies in storage (no contract of its own; `GetSymmetric` and the `ResolveIndex` lemmas state its properties) |
| Matrices.Matrix.constructor | Assets/Matrix.cs:9-11 | a fresh `rows × columns` array of zeros, with `Rows == rows` and `Columns == columns` |
| Matrices.Matrix.FromArray | Assets/Matrix.cs:17-19 | the matrix keeps the caller's array itself, so writes through either are seen by both |
| Matrices.Matrix.Set | Assets/Matrix.cs:26-29 | afterwards the cell reads the value, and every other cell, including the transposed one, keeps its value |
| Matrices.Matrix.Rows | Assets/Matrix.cs:31 | the array's first dimension (no contract of its own) |
| Matrices.Matrix.Columns | Assets/Matrix.cs:32 | the array's second dimension (no contract of its own) |
| Matrices.Matrix.Get | Assets/Matrix.cs:21-27 | reads cell `(row, column)` of the array (no contract of its own; `Set` states how writes show through it) |
| Matrices.SquareMatrix.constructor | Assets/SquareMatrix.cs:7-8 | a fresh `size × size` matrix of zeros, square, with `Size == size` |
| Matrices.SquareMatrix.FromMatrix | Assets/SquareMatrix.cs:14 | the square matrix is its base matrix, which it keeps |
| Matrices.SquareMatrix.Size | Assets/SquareMatrix.cs:20 | the base matrix's row count (no contract of its own) |
| Matrices.NewSquareMatrix | Assets/SquareMatrix.cs:14-20 | succeeds exactly when the array has as many rows as columns, and otherwise fails with Argument; an accepted matrix keeps the caller's array and has `Size == Rows == Columns` |
| Vectors.Vector.constructor | Assets/Vector.cs:10-12 | a fresh array of `length` zeros, with `Length == length` |
| Vectors.Vector.FromArray | Assets/Vector.cs:14-16 | the vector keeps the caller's array itself, and `Length == data.Length` |
| Vectors.Vector.FromVector3 | Assets/Vector.cs:18 | a fresh array of exactly `[x, y, z]` |
| Vectors.Vector.Set | Assets/Vector.cs:26-29 | entry `i` becomes the value and no other entry changes |
| Vectors.Vector.Length | Assets/Vector.cs:25 | the array's length (no contract of its own) |
| Vectors.Vector.Get | Assets/Vector.cs:26-27 | reads entry `i` of the array (no contract of its own; `Set` states how writes show through it) |
| MatrixViews.Times | Assets/IMatrix.cs:25 | `c * m` has `m`'s shape, reads `m`'s storage, and has entry `c·m[r, col]` |
| MatrixViews.TimesRight | Assets/IMatrix.cs:26 | `m * c` has `m`'s shape and entry `m[r, col]·c` |
| MatrixViews.Divide | Assets/IMatrix.cs:27 | `m / c` has `m`'s shape and entry `m[r, col] / c` |
| MatrixViews.Plus | Assets/IMatrix.cs:29-32 | for operands of one shape, `a + b` has that shape, reads both operands' storage, and has entry `a[r, col] + b[r, col]` |
| MatrixViews.Minus | Assets/IMatrix.cs:34 | `a - b`, built as `a + -1·b`, has entry `a[r, col] - b[r, col]` |
| MatrixViews.WriteThroughSum | Assets/IMatrix.cs:29-32 | after a write to a dense operand, reading the sum view sees the new value |
| MatrixViews.Enumerate | Assets/IMatrix.cs:15-21 | yields `Rows·Columns` values in row-major order: the value at `row·Columns + column` is that entry |
| MatrixViews.Entry | Assets/IMatrix.cs:13 | the indexer's getter on any matrix: a stored entry, or a view's entry recomputed from its operands' current storage (no contract of its own; the operators' contracts state it per view) |
| MatrixViews.Rows | Assets/IMatrix.cs:11 | the row count of any matrix: the array's for a stored one, `Size` for a symmetric one (as Assets/ISquareMatrix.cs:10 defines it), the operand's for a view (no contract of its own; the `Times`, `Plus`, `Minus` and `Enumerate` rows state the shape of each view) |
| MatrixViews.Columns | Assets/IMatrix.cs:12 | the column count, in the same way (Assets/ISquareMatrix.cs:11 for a symmetric matrix; no contract of its own; the operator rows state it) |
| VectorViews.Times | Assets/IVector.cs:22 | `c * v` has `v`'s length, reads `v`'s storage, and has entry `c·v[i]` |
| VectorViews.TimesRight | Assets/IVector.cs:23 | `v * c` has entry `v[i]·c` |
| VectorViews.Divide | Assets/IVector.cs:24 | `v / c` has entry `v[i] / c` |
| VectorViews.Plus | Assets/IVector.cs:26-29 | for operands of one length, `a + b` has that length and entry `a[i] + b[i]` |
| VectorViews.Minus | Assets/IVector.cs:31 | `a - b`, built as `a + -1·b`, has entry `a[i] - b[i]` |
| VectorViews.WriteThroughSum | Assets/IVector.cs:26-29 | after a write to a dense operand, reading the sum view sees the new value |
| VectorViews.Enumerate | Assets/IVector.cs:14-18 | yields `Length` values in index order |
| VectorViews.Entry | Assets/IVector.cs:12 | the indexer's getter on any vector, recomputed from the operands' current storage (no contract of its own; the operators' contracts state it per view) |
| VectorViews.Length | Assets/IVector.cs:11 | the length of any vector: the array's for a stored one, the operand's for a view (no contract of its own; the `Times`, `Plus`, `Minus` and `Enumerate` rows state it) |

## Left out

- `ToCartesian`, `Vertices` and the static `icoNormals`/`tropicY` table (Assets/Lattice/IcoLattice.cs:87-166, 209-215): floating-point geometry (square roots, interpolation, normalisation).
- `ToIndex`, `Project` and the unary antipode on coordinates: the tests call them but their definitions are not part of this model. The antipode and chord-length tests are float-based.
- `Math.ColorScale`: Unity colour interpolation over floats.
- `Statics`, the noise generators, `IcoDebug`, `GridNode`, `Lattice` and `LatticeGrid`: float physics, randomness, Unity components, or plain copies of the enumerations modelled here.
- `MatrixView` and `VectorView`: the operators' results are modelled as expression values. The closure classes, their unseen bounds check and their missing setters are not part of this model.
- Writes through an operator's view: IMatrix and IVector declare a setter, but a view built by an operator has none, so the model offers no write on a view.
- The copy constructors `Matrix(IMatrix)`, `SquareMatrix(ISquareMatrix)` and `Vector(IVector)`, and both `ToString` methods: they rely on `Set` and `Row` extensions that are not part of this model.
- Indices of type `System.Index` counted from the end (`^k`): only plain non-negative offsets are modelled.
- `Math.FloorMod`, `Math.DivRem`, `PyramidSize` and the vertex formulas: C#'s 32-bit `int` overflow is not modelled, because integers are unbounded here. The formulas overflow only for lattices far beyond any practical size.
- Matrix and vector entries are `real`: single-precision rounding, infinities and NaN are not modelled.
- MatrixViews.Divide: requires `c != 0.0`, because `1 / 0f` is an infinity, which `real` does not have.
- VectorViews.Divide: requires `c != 0.0`, for the same reason.
- MatrixViews.Plus: requires equal shapes, which is what the source's `Debug.Assert` states. That assert is UnityEngine's, which only logs, so the source accepts any shapes. A second operand larger than the first gives no error: the view adds its leading block. Only a smaller second operand fails, and only when an entry outside it is read.
- VectorViews.Plus: requires equal lengths, which is what the source's `Debug.Assert` states. That assert only logs, so a longer second operand gives no error and the view adds its leading entries. Only a shorter one fails, and only when an entry past its end is read.
- IcoCoordinates.SubdividedCoordinate.Normalize: requires `faces > 0 && subdivisions > 0`. For a zero argument the source's `/` and `%` throw DivideByZeroException, and negative arguments give a result outside the ranges; neither is modelled. Its only caller, `PolarCoordinate.Normalize`, passes 6 or 5 faces and a ring length that the model proves is at least 1 whenever `subdivisions >= 1`.
- IcoCoordinates.PolarCoordinate.Normalize: requires `subdivisions >= 1`. For 0 the source throws DivideByZeroException in its first step, and negative values are not modelled. Every call in the source passes a positive count (the tests use 3), and a lattice exists only with `subdivisions >= 1`.
- IcoCoordinates.NormalizedPolar: requires `subdivisions >= 1`, for the same reason.
- Matrices.Matrix.constructor: takes `nat` sizes. A negative size throws `OverflowException` in .NET, which is not modelled.
- Vectors.Vector.constructor: takes a `nat` length, for the same reason.
- Matrices.SquareMatrix.constructor: takes a `nat` size, for the same reason.
- Out-of-range indexes: the getters and setters require in-range indexes. Those accesses would throw `IndexOutOfRangeException`.
- SymmetricMatrices.SymmetricMatrix.SetIndexer: does not take `row`/`column` range into account. The source throws before it reads them, and so does the model.
- SymmetricMatrices.SymmetricMatrix.constructor: accepts any size, as the source does. For a negative size, the storage may have slots but `Get` requires `0 <= row, column < size`, so no cell is readable through the model. The matrix views require `size >= 0`.
- Terrain.IcoGrid.constructor: the new slots hold an arbitrary value of `T`, standing for `default(T)`.
- Terrain.IcoGrid.Edges: reuses the lattice's loop methods. IcoGrid's inlined formulas are textually the lattice's:
  - `1 + 5·lat·(lat-1)/2` is `PyramidSize(lat)`;
  - `tropicsStart` is `northTropic`;
  - `start` is `southTropic`.
  It also emits the pairs before wrapping them in handles rather than interleaving the two.
- The enumerations (`PolarCoordinates`, `Edges`, `IntCube`, the matrix and vector enumerators) are modelled as methods that return the whole sequence. The laziness of C#'s `yield return` is not modelled.
- `PolarCoordinate.Normalize` does not always yield a canonical coordinate: a latitude that lands on a face border `(f, n)` after a fold stays there, and one more normalisation moves it to `(f + 1, 0)`. The model follows the code, and `NormalizeTwiceCanonical` states what happens.
- The `Debug.Assert` after the fold (Assets/Lattice/IcoLattice.cs:66) always holds, so the model has no step for it.
- The doc comment of the `Matrix` indexer says that it also sets the transposed cell; the code writes one cell only. The model follows the code: `Matrices.Matrix.Set` states that the transposed cell keeps its value.

## Findings

| source | as written | input that shows it | evidently intended | confidence | as-written member | corrected member |
|---|---|---|---|---|---|---|
| Assets/Math.cs:8-11 | for negative `a`, the truncating remainder plus `|b|`, which is `|b|` when `a` is a negative multiple of `b` | `FloorMod(-4, 4)` returns 4 | a floor remainder in `[0, |b|)`, here 0 | high; not executed | IntMath.FloorModNegativeMultiple | IntMath.FloorModCorrected |
| Assets/Math.cs:13-20 | on a negative remainder, decrements `q` and adds `|b|` to `rem`, which keeps `a == q·b + rem` only for `b > 0` | `DivRem(-1, -2)` returns `q = -1, rem = 1`, and `-1·-2 + 1 = 3 != -1` | Euclidean division: `q = 1, rem = 1` | high; not executed | IntMath.DivRemNegativeDivisor | IntMath.DivRemCorrected |
