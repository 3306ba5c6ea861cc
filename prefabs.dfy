/** Index and vertex data of the prefab meshes: the wireframe box, the
    wireframe grid plane and the solid plane. Coordinates are reals (the
    source computes them in single precision); the user transform applied
    afterwards and the mesh upload are not part of this model. */
module Prefabs {
  import opened Common
  import opened Vertex

  // ---------------------------------------------------------------------
  // Wireframe box

  /** The corners of a box centred on the origin, in the source's order. */
  function WireframeBoxVertices(width: real, height: real, depth: real): (r: seq<VertexPosition>)
    ensures |r| == 8
  {
    var x1, x2 := -0.5 * width, 0.5 * width;
    var y1, y2 := -0.5 * height, 0.5 * height;
    var z1, z2 := -0.5 * depth, 0.5 * depth;
    [VertexPosition(x1, y1, z1), VertexPosition(x1, y1, z2), VertexPosition(x1, y2, z1), VertexPosition(x1, y2, z2),
     VertexPosition(x2, y1, z1), VertexPosition(x2, y1, z2), VertexPosition(x2, y2, z1), VertexPosition(x2, y2, z2)]
  }

  /** Bit `b` (0, 1 or 2) of corner number `k`. */
  function Bit(k: nat, b: nat): bool
    requires b < 3
  {
    (k / [1, 2, 4][b]) % 2 == 1
  }

  function Side(size: real, upper: bool): real
  {
    if upper then 0.5 * size else -0.5 * size
  }

  /** Corner `k` is on the right when bit 2 of `k` is set, at the top when
      bit 1 is, at the front when bit 0 is. */
  function BoxCorner(width: real, height: real, depth: real, k: nat): VertexPosition
  {
    VertexPosition(Side(width, Bit(k, 2)), Side(height, Bit(k, 1)), Side(depth, Bit(k, 0)))
  }

  lemma BoxVerticesAreCorners(width: real, height: real, depth: real)
    ensures forall k :: 0 <= k < 8 ==> WireframeBoxVertices(width, height, depth)[k] == BoxCorner(width, height, depth, k)
  {
    forall k | 0 <= k < 8
      ensures WireframeBoxVertices(width, height, depth)[k] == BoxCorner(width, height, depth, k)
    {
      assert k == 0 || k == 1 || k == 2 || k == 3 || k == 4 || k == 5 || k == 6 || k == 7;
    }
  }

  /** The twelve edges as pairs of corner numbers: back to front, bottom to
      top, left to right. */
  const WireframeBoxIndices: seq<nat> :=
    [0, 1, 2, 3, 4, 5, 6, 7,
     0, 2, 1, 3, 4, 6, 5, 7,
     0, 4, 1, 5, 2, 6, 3, 7]

  /** The two ends of an edge differ in exactly one bit of their corner
      numbers. */
  predicate OneBitApart(a: nat, b: nat)
  {
    a < b && (b - a == 1 || b - a == 2 || b - a == 4) && !Bit(a, if b - a == 1 then 0 else if b - a == 2 then 1 else 2)
  }

  function EdgeOf(e: nat): (nat, nat)
    requires e < 12
  {
    (WireframeBoxIndices[2 * e], WireframeBoxIndices[2 * e + 1])
  }

  /** The position of a cube edge in the list, recovered from its ends. */
  function EdgeNumber(ends: (nat, nat)): int
  {
    var (a, b) := ends;
    if b - a == 1 then a / 2
    else if b - a == 2 then 4 + 2 * (a / 4) + a % 2
    else 8 + a
  }

  lemma WireframeBoxIndicesInRange()
    ensures |WireframeBoxIndices| == 24
    ensures forall k :: 0 <= k < 24 ==> WireframeBoxIndices[k] < 8
  {
  }

  /** Every index pair is an edge of the cube, and the list names each
      edge at one position only, so its twelve pairs are the twelve edges. */
  lemma WireframeBoxEdges()
    ensures forall e :: 0 <= e < 12 ==> OneBitApart(EdgeOf(e).0, EdgeOf(e).1) && EdgeNumber(EdgeOf(e)) == e
    ensures forall e, f :: 0 <= e < 12 && 0 <= f < 12 && EdgeOf(e) == EdgeOf(f) ==> e == f
  {
    var ix := WireframeBoxIndices;
    assert ix[0] == 0 && ix[1] == 1 && ix[2] == 2 && ix[3] == 3 && ix[4] == 4 && ix[5] == 5 && ix[6] == 6 && ix[7] == 7;
    assert ix[8] == 0 && ix[9] == 2 && ix[10] == 1 && ix[11] == 3 && ix[12] == 4 && ix[13] == 6 && ix[14] == 5 && ix[15] == 7;
    assert ix[16] == 0 && ix[17] == 4 && ix[18] == 1 && ix[19] == 5 && ix[20] == 2 && ix[21] == 6 && ix[22] == 3 && ix[23] == 7;
    forall e | 0 <= e < 12
      ensures OneBitApart(EdgeOf(e).0, EdgeOf(e).1) && EdgeNumber(EdgeOf(e)) == e
    {
      assert e == 0 || e == 1 || e == 2 || e == 3 || e == 4 || e == 5 || e == 6 || e == 7 || e == 8 || e == 9 || e == 10 || e == 11;
    }
  }

  // ---------------------------------------------------------------------
  // Wireframe plane

  /** `n` lines from `z1` to `z2`, the `i`-th at `x1 + i * spacing`. */
  function GridColumns(x1: real, spacing: real, z1: real, z2: real, n: nat): (r: seq<VertexPosition>)
    ensures |r| == 2 * n
  {
    if n == 0 then
      []
    else
      var x := x1 + (n - 1) as real * spacing;
      GridColumns(x1, spacing, z1, z2, n - 1) + [VertexPosition(x, 0.0, z1), VertexPosition(x, 0.0, z2)]
  }

  /** `n` lines from `x1` to `x2`, the `i`-th at `z1 + i * spacing`. */
  function GridRows(z1: real, spacing: real, x1: real, x2: real, n: nat): (r: seq<VertexPosition>)
    ensures |r| == 2 * n
  {
    if n == 0 then
      []
    else
      var z := z1 + (n - 1) as real * spacing;
      GridRows(z1, spacing, x1, x2, n - 1) + [VertexPosition(x1, 0.0, z), VertexPosition(x2, 0.0, z)]
  }

  /** Column `i` runs from (x, 0, z1) to (x, 0, z2) at x = x1 + i * spacing. */
  lemma {:induction false} GridColumnAt(x1: real, spacing: real, z1: real, z2: real, n: nat, i: nat)
    requires i < n
    ensures var r := GridColumns(x1, spacing, z1, z2, n);
      r[2 * i] == VertexPosition(x1 + i as real * spacing, 0.0, z1) &&
      r[2 * i + 1] == VertexPosition(x1 + i as real * spacing, 0.0, z2)
  {
    if i < n - 1 {
      GridColumnAt(x1, spacing, z1, z2, n - 1, i);
    }
  }

  /** Row `i` runs from (x1, 0, z) to (x2, 0, z) at z = z1 + i * spacing. */
  lemma {:induction false} GridRowAt(z1: real, spacing: real, x1: real, x2: real, n: nat, i: nat)
    requires i < n
    ensures var r := GridRows(z1, spacing, x1, x2, n);
      r[2 * i] == VertexPosition(x1, 0.0, z1 + i as real * spacing) &&
      r[2 * i + 1] == VertexPosition(x2, 0.0, z1 + i as real * spacing)
  {
    if i < n - 1 {
      GridRowAt(z1, spacing, x1, x2, n - 1, i);
    }
  }

  /** The line ends of a grid in the plane y = 0 over a `xSize` by `zSize`
      rectangle: `xSegments + 1` back-to-front lines, then `zSegments + 1`
      left-to-right lines. */
  function WireframePlaneVertices(xSize: real, zSize: real, xSegments: nat, zSegments: nat): (r: seq<VertexPosition>)
    requires xSegments >= 1 && zSegments >= 1
    ensures |r| == 2 * (xSegments + 1) + 2 * (zSegments + 1)
  {
    GridColumns(-0.5 * xSize, xSize / xSegments as real, -0.5 * zSize, 0.5 * zSize, xSegments + 1) +
    GridRows(-0.5 * zSize, zSize / zSegments as real, -0.5 * xSize, 0.5 * xSize, zSegments + 1)
  }

  /** The grid spans the rectangle: its first line starts at the back-left
      corner and its last column and last row end at the front-right one. */
  lemma WireframePlaneCloses(xSize: real, zSize: real, xSegments: nat, zSegments: nat)
    requires xSegments >= 1 && zSegments >= 1
    ensures var r := WireframePlaneVertices(xSize, zSize, xSegments, zSegments);
      var n := 2 * (xSegments + 1);
      r[0] == VertexPosition(-0.5 * xSize, 0.0, -0.5 * zSize) &&
      r[n - 1] == VertexPosition(0.5 * xSize, 0.0, 0.5 * zSize) &&
      r[|r| - 1] == VertexPosition(0.5 * xSize, 0.0, 0.5 * zSize)
  {
    var xSpacing := xSize / xSegments as real;
    var zSpacing := zSize / zSegments as real;
    var columns := GridColumns(-0.5 * xSize, xSpacing, -0.5 * zSize, 0.5 * zSize, xSegments + 1);
    var rows := GridRows(-0.5 * zSize, zSpacing, -0.5 * xSize, 0.5 * xSize, zSegments + 1);
    GridColumnAt(-0.5 * xSize, xSpacing, -0.5 * zSize, 0.5 * zSize, xSegments + 1, 0);
    GridColumnAt(-0.5 * xSize, xSpacing, -0.5 * zSize, 0.5 * zSize, xSegments + 1, xSegments);
    GridRowAt(-0.5 * zSize, zSpacing, -0.5 * xSize, 0.5 * xSize, zSegments + 1, zSegments);
    assert xSegments as real * xSpacing == xSize;
    assert zSegments as real * zSpacing == zSize;
    assert (columns + rows)[2 * xSegments + 1] == columns[2 * xSegments + 1];
    assert (columns + rows)[|columns + rows| - 1] == rows[2 * zSegments + 1];
  }

  /** Appends the line ends of `count` columns, one `push_back` per end. */
  method AppendColumns(vs: seq<VertexPosition>, x1: real, spacing: real, z1: real, z2: real, count: nat)
    returns (out: seq<VertexPosition>)
    ensures out == vs + GridColumns(x1, spacing, z1, z2, count)
  {
    var y := 0.0;
    out := vs;
    var i := 0;
    while i < count
      invariant 0 <= i <= count
      invariant out == vs + GridColumns(x1, spacing, z1, z2, i)
    {
      var x := x1 + i as real * spacing;
      ghost var columns := GridColumns(x1, spacing, z1, z2, i);
      assert GridColumns(x1, spacing, z1, z2, i + 1) == columns + [VertexPosition(x, y, z1), VertexPosition(x, y, z2)];
      out := out + [VertexPosition(x, y, z1)];
      out := out + [VertexPosition(x, y, z2)];
      assert out == vs + (columns + [VertexPosition(x, y, z1), VertexPosition(x, y, z2)]);
      i := i + 1;
    }
  }

  /** Appends the line ends of `count` rows. */
  method AppendRows(vs: seq<VertexPosition>, z1: real, spacing: real, x1: real, x2: real, count: nat)
    returns (out: seq<VertexPosition>)
    ensures out == vs + GridRows(z1, spacing, x1, x2, count)
  {
    var y := 0.0;
    out := vs;
    var i := 0;
    while i < count
      invariant 0 <= i <= count
      invariant out == vs + GridRows(z1, spacing, x1, x2, i)
    {
      var z := z1 + i as real * spacing;
      ghost var rows := GridRows(z1, spacing, x1, x2, i);
      assert GridRows(z1, spacing, x1, x2, i + 1) == rows + [VertexPosition(x1, y, z), VertexPosition(x2, y, z)];
      out := out + [VertexPosition(x1, y, z)];
      out := out + [VertexPosition(x2, y, z)];
      assert out == vs + (rows + [VertexPosition(x1, y, z), VertexPosition(x2, y, z)]);
      i := i + 1;
    }
  }

  /** Builds the grid's line list, or nothing when a segment count is below
      1. */
  method CreateWireframePlane(xSize: real, zSize: real, xSegments: int, zSegments: int)
    returns (verts: Option<seq<VertexPosition>>)
    ensures verts.None? <==> xSegments < 1 || zSegments < 1
    ensures verts.Some? ==> verts.value == WireframePlaneVertices(xSize, zSize, xSegments, zSegments)
  {
    if xSegments < 1 || zSegments < 1 {
      return None;
    }
    var x1, x2 := -0.5 * xSize, 0.5 * xSize;
    var z1, z2 := -0.5 * zSize, 0.5 * zSize;
    var xSpacing := xSize / xSegments as real;
    var zSpacing := zSize / zSegments as real;
    var vs := AppendColumns([], x1, xSpacing, z1, z2, xSegments + 1);
    vs := AppendRows(vs, z1, zSpacing, x1, x2, zSegments + 1);
    return Some(vs);
  }

  // ---------------------------------------------------------------------
  // Solid plane

  /** Column and row of vertex `k` in a grid `xSegments + 1` vertices wide. */
  function GridPos(xSegments: nat, k: nat): (nat, nat)
  {
    (k % (xSegments + 1), k / (xSegments + 1))
  }

  /** The vertex at column `i` and row `j` of the solid plane: in the plane
      y = 0, facing up, spaced evenly over the `xSize` by `zSize`
      rectangle. */
  function PlaneVertex(xSize: real, zSize: real, xSegments: nat, zSegments: nat, i: nat, j: nat): VertexPositionNormal
    requires xSegments >= 1 && zSegments >= 1
  {
    VertexPositionNormal(-0.5 * xSize + i as real * (xSize / xSegments as real), 0.0,
                         -0.5 * zSize + j as real * (zSize / zSegments as real), 0.0, 1.0, 0.0)
  }

  /** The grid reaches the far corner of the rectangle. */
  lemma PlaneVertexFarCorner(xSize: real, zSize: real, xSegments: nat, zSegments: nat)
    requires xSegments >= 1 && zSegments >= 1
    ensures PlaneVertex(xSize, zSize, xSegments, zSegments, xSegments, zSegments) ==
      VertexPositionNormal(0.5 * xSize, 0.0, 0.5 * zSize, 0.0, 1.0, 0.0)
  {
    assert xSegments as real * (xSize / xSegments as real) == xSize;
    assert zSegments as real * (zSize / zSegments as real) == zSize;
  }

  /** Fills the vertex buffer row by row, stepping the coordinates by one
      spacing per vertex. */
  method SolidPlaneVertices(xSize: real, zSize: real, xSegments: nat, zSegments: nat)
    returns (vertexData: array<VertexPositionNormal>)
    requires xSegments >= 1 && zSegments >= 1
    ensures fresh(vertexData) && vertexData.Length == (xSegments + 1) * (zSegments + 1)
    ensures forall k :: 0 <= k < vertexData.Length ==>
      vertexData[k] == PlaneVertex(xSize, zSize, xSegments, zSegments, GridPos(xSegments, k).0, GridPos(xSegments, k).1)
  {
    var numVertices := (xSegments + 1) * (zSegments + 1);
    vertexData := new VertexPositionNormal[numVertices](_ => VertexPositionNormal(0.0, 0.0, 0.0, 0.0, 0.0, 0.0));
    var zStep := zSize / zSegments as real;
    var p := 0;
    var z := -0.5 * zSize;
    var j := 0;
    while j <= zSegments
      invariant 0 <= j <= zSegments + 1 && p == (xSegments + 1) * j
      invariant z == -0.5 * zSize + j as real * zStep
      invariant forall k :: 0 <= k < p ==>
        vertexData[k] == PlaneVertex(xSize, zSize, xSegments, zSegments, GridPos(xSegments, k).0, GridPos(xSegments, k).1)
    {
      VertexRowFits(xSegments, zSegments, j);
      RowGridPos(xSegments, j, p);
      p := FillRow(vertexData, xSize, zSize, xSegments, zSegments, j, p, z);
      z := z + zStep;
      j := j + 1;
    }
  }

  lemma VertexRowFits(xSegments: nat, zSegments: nat, j: nat)
    requires j <= zSegments
    ensures (xSegments + 1) * j + xSegments + 1 == (xSegments + 1) * (j + 1) <= (xSegments + 1) * (zSegments + 1)
  {
    MulMono(j + 1, zSegments + 1, xSegments + 1);
  }

  /** The vertices of row `j` are the `xSegments + 1` from `(xSegments + 1) j`
      on. */
  lemma RowGridPos(xSegments: nat, j: nat, p0: nat)
    requires p0 == (xSegments + 1) * j
    ensures forall k :: p0 <= k <= p0 + xSegments ==> GridPos(xSegments, k) == (k - p0, j)
  {
    forall k | p0 <= k <= p0 + xSegments
      ensures GridPos(xSegments, k) == (k - p0, j)
    {
      DivModUnique(k, xSegments + 1, j, k - p0);
    }
  }

  /** Fills row `j` of the vertex buffer from position `p0`. */
  method FillRow(vertexData: array<VertexPositionNormal>, xSize: real, zSize: real, xSegments: nat, zSegments: nat,
                 j: nat, p0: nat, z: real) returns (p: nat)
    requires xSegments >= 1 && zSegments >= 1
    requires p0 + xSegments + 1 <= vertexData.Length
    requires z == -0.5 * zSize + j as real * (zSize / zSegments as real)
    modifies vertexData
    ensures p == p0 + xSegments + 1
    ensures forall k :: 0 <= k < p0 ==> vertexData[k] == old(vertexData[k])
    ensures forall k :: p0 <= k < p ==> vertexData[k] == PlaneVertex(xSize, zSize, xSegments, zSegments, k - p0, j)
  {
    var xStep := xSize / xSegments as real;
    var x := -0.5 * xSize;
    p := p0;
    var i := 0;
    while i <= xSegments
      invariant 0 <= i <= xSegments + 1 && p == p0 + i
      invariant x == -0.5 * xSize + i as real * xStep
      invariant forall k :: 0 <= k < p0 ==> vertexData[k] == old(vertexData[k])
      invariant forall k :: p0 <= k < p ==> vertexData[k] == PlaneVertex(xSize, zSize, xSegments, zSegments, k - p0, j)
    {
      vertexData[p] := VertexPositionNormal(x, 0.0, z, 0.0, 1.0, 0.0);
      p := p + 1;
      x := x + xStep;
      i := i + 1;
    }
  }

  /** The two triangles of cell (i, j): with `e` its back-left vertex, the
      first triangle turns through the front-left and front-right vertices,
      the second through the front-right and back-right ones. */
  function CellIndices(xSegments: nat, i: nat, j: nat): (r: seq<nat>)
    ensures |r| == 6
  {
    var e := (xSegments + 1) * j + i;
    [e, e + xSegments + 1, e + xSegments + 2, e, e + xSegments + 2, e + 1]
  }

  /** Vertex `e` of a cell is at (i, j), `e + 1` at (i + 1, j), and the
      next row's are at (i, j + 1) and (i + 1, j + 1). */
  lemma CellCorners(xSegments: nat, i: nat, j: nat)
    requires i < xSegments
    ensures var c := CellIndices(xSegments, i, j);
      GridPos(xSegments, c[0]) == (i, j) && GridPos(xSegments, c[1]) == (i, j + 1) &&
      GridPos(xSegments, c[2]) == (i + 1, j + 1) && GridPos(xSegments, c[5]) == (i + 1, j) &&
      c[3] == c[0] && c[4] == c[2]
  {
    var n := xSegments + 1;
    var e := n * j + i;
    DivModUnique(e, n, j, i);
    DivModUnique(e + 1, n, j, i + 1);
    DivModUnique(e + n, n, j + 1, i);
    DivModUnique(e + n + 1, n, j + 1, i + 1);
  }

  /** The cells 0 … i-1 of row `j`. */
  function RowIndices(xSegments: nat, j: nat, i: nat): (r: seq<nat>)
    ensures |r| == 6 * i
  {
    if i == 0 then [] else RowIndices(xSegments, j, i - 1) + CellIndices(xSegments, i - 1, j)
  }

  /** The rows 0 … j-1 of the index buffer. */
  function SolidPlaneIndices(xSegments: nat, j: nat): seq<nat>
  {
    if j == 0 then [] else SolidPlaneIndices(xSegments, j - 1) + RowIndices(xSegments, j - 1, xSegments)
  }

  lemma {:induction false} RowIndicesPrefix(xSegments: nat, j: nat, i: nat, m: nat)
    requires i <= m
    ensures RowIndices(xSegments, j, m)[..6 * i] == RowIndices(xSegments, j, i)
    decreases m
  {
    if i < m {
      RowIndicesPrefix(xSegments, j, i, m - 1);
    }
  }

  /** Six indices per cell, `xSegments` cells per row. */
  lemma {:induction false} SolidPlaneIndicesLength(xSegments: nat, j: nat)
    ensures |SolidPlaneIndices(xSegments, j)| == 6 * xSegments * j
  {
    if j > 0 {
      SolidPlaneIndicesLength(xSegments, j - 1);
    }
  }

  lemma {:induction false} SolidPlaneIndicesPrefix(xSegments: nat, j: nat, n: nat)
    requires j <= n
    ensures |SolidPlaneIndices(xSegments, j)| <= |SolidPlaneIndices(xSegments, n)|
    ensures SolidPlaneIndices(xSegments, n)[..|SolidPlaneIndices(xSegments, j)|] == SolidPlaneIndices(xSegments, j)
    decreases n
  {
    if j < n {
      SolidPlaneIndicesPrefix(xSegments, j, n - 1);
    }
  }

  /** Cell `i` of row `j` sits at position 6 i of the row. */
  lemma RowCell(xSegments: nat, j: nat, i: nat)
    requires i < xSegments
    ensures RowIndices(xSegments, j, xSegments)[6 * i .. 6 * i + 6] == CellIndices(xSegments, i, j)
  {
    var row := RowIndices(xSegments, j, xSegments);
    RowIndicesPrefix(xSegments, j, i + 1, xSegments);
    assert row[6 * i .. 6 * i + 6] == row[..6 * (i + 1)][6 * i ..];
  }

  /** Offsets of row `j` and of its cell `i` in the index buffer. */
  lemma CellOffsets(xSegments: nat, zSegments: nat, i: nat, j: nat)
    requires i < xSegments && j < zSegments
    ensures 6 * xSegments * (j + 1) == 6 * xSegments * j + 6 * xSegments <= 6 * xSegments * zSegments
    ensures 6 * (xSegments * j + i) == 6 * xSegments * j + 6 * i
  {
    MulMono(j + 1, zSegments, 6 * xSegments);
  }

  /** A slice of a row, read through the buffer that holds the row after
      `base` other indices. */
  lemma SliceOfRow(r: seq<nat>, upTo: nat, prefix: seq<nat>, row: seq<nat>, i: nat, cell: seq<nat>)
    requires upTo <= |r| && r[..upTo] == prefix + row
    requires 6 * i + 6 <= |row| && row[6 * i .. 6 * i + 6] == cell
    ensures |prefix| + 6 * i + 6 <= |r| && r[|prefix| + 6 * i .. |prefix| + 6 * i + 6] == cell
  {
    var base := |prefix|;
    assert r[base + 6 * i .. base + 6 * i + 6] == r[..upTo][base + 6 * i .. base + 6 * i + 6];
  }

  /** Cell (i, j) sits at position 6 (xSegments j + i) of the buffer. */
  lemma SolidPlaneCell(xSegments: nat, zSegments: nat, i: nat, j: nat)
    requires i < xSegments && j < zSegments
    ensures var r := SolidPlaneIndices(xSegments, zSegments);
      var at := 6 * (xSegments * j + i);
      at + 6 <= |r| && r[at .. at + 6] == CellIndices(xSegments, i, j)
  {
    CellOffsets(xSegments, zSegments, i, j);
    SolidPlaneIndicesLength(xSegments, j);
    CellAfterRows(xSegments, zSegments, i, j);
    RowCell(xSegments, j, i);
  }

  lemma {:induction false} CellAfterRows(xSegments: nat, zSegments: nat, i: nat, j: nat)
    requires i < xSegments && j < zSegments
    ensures var r := SolidPlaneIndices(xSegments, zSegments);
      var base := |SolidPlaneIndices(xSegments, j)|;
      base + 6 * i + 6 <= |r| &&
      r[base + 6 * i .. base + 6 * i + 6] == RowIndices(xSegments, j, xSegments)[6 * i .. 6 * i + 6]
  {
    RowsThroughPrefix(xSegments, zSegments, j);
    var row := RowIndices(xSegments, j, xSegments);
    SliceOfRow(SolidPlaneIndices(xSegments, zSegments), |SolidPlaneIndices(xSegments, j + 1)|,
               SolidPlaneIndices(xSegments, j), row, i, row[6 * i .. 6 * i + 6]);
  }

  /** Rows 0 … j of the buffer begin it. */
  lemma RowsThroughPrefix(xSegments: nat, zSegments: nat, j: nat)
    requires j < zSegments
    ensures |SolidPlaneIndices(xSegments, j + 1)| <= |SolidPlaneIndices(xSegments, zSegments)|
    ensures SolidPlaneIndices(xSegments, zSegments)[..|SolidPlaneIndices(xSegments, j + 1)|]
         == SolidPlaneIndices(xSegments, j) + RowIndices(xSegments, j, xSegments)
  {
    SolidPlaneIndicesPrefix(xSegments, j + 1, zSegments);
  }

  /** Every index names a vertex of the plane. */
  lemma {:induction false} SolidPlaneIndicesBelow(xSegments: nat, zSegments: nat, j: nat)
    requires j <= zSegments
    ensures forall k :: 0 <= k < |SolidPlaneIndices(xSegments, j)| ==>
      SolidPlaneIndices(xSegments, j)[k] < (xSegments + 1) * (zSegments + 1)
    decreases j
  {
    if j > 0 {
      SolidPlaneIndicesBelow(xSegments, zSegments, j - 1);
      RowIndicesBelow(xSegments, zSegments, j - 1, xSegments);
    }
  }

  lemma {:induction false} RowIndicesBelow(xSegments: nat, zSegments: nat, j: nat, i: nat)
    requires j < zSegments && i <= xSegments
    ensures forall k :: 0 <= k < |RowIndices(xSegments, j, i)| ==>
      RowIndices(xSegments, j, i)[k] < (xSegments + 1) * (zSegments + 1)
    decreases i
  {
    if i > 0 {
      RowIndicesBelow(xSegments, zSegments, j, i - 1);
      MulMono(j + 2, zSegments + 1, xSegments + 1);
      assert (xSegments + 1) * (j + 2) == (xSegments + 1) * j + 2 * xSegments + 2;
    }
  }

  /** Writes the two triangles of one cell through the index pointer. */
  method WriteCell(indexData: array<nat>, p: nat, e1: nat, e2: nat, e3: nat, e4: nat)
    requires p + 6 <= indexData.Length
    modifies indexData
    ensures indexData[..p + 6] == old(indexData[..p]) + [e1, e3, e4, e1, e4, e2]
  {
    indexData[p] := e1;
    indexData[p + 1] := e3;
    indexData[p + 2] := e4;
    indexData[p + 3] := e1;
    indexData[p + 4] := e4;
    indexData[p + 5] := e2;
  }

  /** Fills the index buffer cell by cell, row by row. */
  method SolidPlaneIndexBuffer(xSegments: nat, zSegments: nat) returns (indexData: array<nat>)
    requires xSegments >= 1 && zSegments >= 1
    ensures fresh(indexData)
    ensures indexData[..] == SolidPlaneIndices(xSegments, zSegments)
  {
    var numTriangles := 2 * xSegments * zSegments;
    var numElements := 3 * numTriangles;
    indexData := new nat[numElements];
    var p := 0;
    var j := 0;
    while j < zSegments
      invariant 0 <= j <= zSegments && p == 6 * xSegments * j
      invariant indexData.Length == 6 * xSegments * zSegments
      invariant indexData[..p] == SolidPlaneIndices(xSegments, j)
    {
      CellOffsets(xSegments, zSegments, 0, j);
      SolidPlaneIndicesLength(xSegments, j);
      p := WriteRow(indexData, xSegments, j, p);
      j := j + 1;
    }
    SolidPlaneIndicesLength(xSegments, zSegments);
    assert indexData[..] == indexData[..p];
  }

  /** Writes the cells of row `j` from position `p0` on. */
  method WriteRow(indexData: array<nat>, xSegments: nat, j: nat, p0: nat) returns (p: nat)
    requires p0 + 6 * xSegments <= indexData.Length
    modifies indexData
    ensures p == p0 + 6 * xSegments
    ensures indexData[..p] == old(indexData[..p0]) + RowIndices(xSegments, j, xSegments)
  {
    ghost var before := indexData[..p0];
    p := p0;
    var i := 0;
    while i < xSegments
      invariant 0 <= i <= xSegments && p == p0 + 6 * i
      invariant indexData[..p] == before + RowIndices(xSegments, j, i)
    {
      // the four corners of this square
      var e := (xSegments + 1) * j + i;
      var e1 := e;
      var e2 := e + 1;
      var e3 := e + xSegments + 1;
      var e4 := e + xSegments + 2;
      WriteCell(indexData, p, e1, e2, e3, e4);
      p := p + 6;
      i := i + 1;
    }
  }
}
