/** The planar grid that DeformableMesh.GeneratePlane builds: a row-major
    lattice of (w + 1) * (h + 1) vertices, their UV coordinates and six
    triangle indices per cell. `w` and `h` are the integer casts of the
    horizontal and vertical size.

    Two descriptions of each buffer are related here. The closed forms
    (Lattice, UvLattice, Triangles) say what entry k is, from k alone. The
    loop-order forms (GridOrder, GridQuads) say what the nested loops
    append, row after row; the Build methods are proved to produce those,
    and the Agree lemmas prove the two descriptions equal. */
module Grid {
  import opened Vectors

  // ---------------------------------------------------------------------
  // Closed forms

  /** `y` rows of `s` entries: s * y, spelled as repeated addition so that
      the running counters' arithmetic stays linear (see RowsProduct). */
  function Rows(s: nat, y: nat): nat {
    if y == 0 then 0 else Rows(s, y - 1) + s
  }

  /** Row-major position of lattice point (x, y) in a grid `w` cells wide,
      that is y * (w + 1) + x (see IndexIsRowMajor). */
  function Index(w: nat, x: int, y: nat): int {
    Rows(w + 1, y) + x
  }

  /** Row-major number of cell (x, y) in a grid `w` cells wide, that is
      y * w + x. */
  function Cell(w: nat, x: int, y: nat): int {
    Rows(w, y) + x
  }

  /** Vertex `k` sits in column k % (w + 1) and row k / (w + 1), at height 0. */
  function VertexAt(w: nat, k: nat): Vec3 {
    Vec3((k % (w + 1)) as real, 0.0, (k / (w + 1)) as real)
  }

  /** UV of vertex `k`: column over width and row over height, both in
      integer division, as the source divides two ints. */
  function UvAt(w: nat, h: nat, k: nat): Vec2
    requires 1 <= w && 1 <= h
  {
    Vec2(((k % (w + 1)) / w) as real, ((k / (w + 1)) / h) as real)
  }

  function Lattice(w: nat, h: nat): seq<Vec3> {
    seq((w + 1) * (h + 1), k requires 0 <= k => VertexAt(w, k))
  }

  function UvLattice(w: nat, h: nat): seq<Vec2>
    requires 1 <= w && 1 <= h
  {
    seq((w + 1) * (h + 1), k requires 0 <= k => UvAt(w, h, k))
  }

  /** The six indices of the cell whose first corner is vertex `v`: the
      triangles (v, v+w+1, v+1) and (v+1, v+w+1, v+w+2), which share the
      edge between v+1 and v+w+1. */
  function Quad(w: int, v: int): seq<int> {
    [v, v + w + 1, v + 1, v + 1, v + w + 1, v + w + 2]
  }

  /** Entry `j` of the triangle list: corner j % 6 of cell j / 6, cells
      numbered row-major with `w` cells per row. */
  function TriangleAt(w: nat, j: nat): int
    requires 1 <= w
  {
    var cell := j / 6;
    Quad(w, Index(w, cell % w, cell / w))[j % 6]
  }

  function Triangles(w: nat, h: nat): seq<int>
    requires 1 <= w
  {
    seq(w * h * 6, j requires 0 <= j => TriangleAt(w, j))
  }

  // ---------------------------------------------------------------------
  // Loop-order forms

  /** The vertex the loop body writes for column x of row y. */
  function Point(x: nat, y: nat): Vec3 {
    Vec3(x as real, 0.0, y as real)
  }

  /** The UV the loop body writes for column x of row y. */
  function UvOf(w: nat, h: nat): (nat, nat) -> Vec2
    requires 1 <= w && 1 <= h
  {
    (x: nat, y: nat) => Vec2((x / w) as real, (y / h) as real)
  }

  /** The first `n` entries of row `y`, in the order the inner loop writes them. */
  function RowOrder<T>(f: (nat, nat) -> T, y: nat, n: nat): seq<T> {
    if n == 0 then [] else RowOrder(f, y, n - 1) + [f(n - 1, y)]
  }

  /** The first `rows` rows of a lattice `cols` entries wide, in the order
      the outer loop writes them. */
  function GridOrder<T>(f: (nat, nat) -> T, cols: nat, rows: nat): seq<T> {
    if rows == 0 then [] else GridOrder(f, cols, rows - 1) + RowOrder(f, rows - 1, cols)
  }

  /** The first `n` cells of row `y`, in the order the inner loop emits them. */
  function RowQuads(w: nat, y: nat, n: nat): seq<int> {
    if n == 0 then [] else RowQuads(w, y, n - 1) + Quad(w, Index(w, n - 1, y))
  }

  /** The first `rows` rows of cells, in the order the outer loop emits them. */
  function GridQuads(w: nat, rows: nat): seq<int> {
    if rows == 0 then [] else GridQuads(w, rows - 1) + RowQuads(w, rows - 1, w)
  }

  // ---------------------------------------------------------------------
  // Arithmetic helpers

  lemma {:induction false} RowsProduct(s: nat, y: nat)
    ensures Rows(s, y) == s * y
  {
    if y > 0 {
      RowsProduct(s, y - 1);
    }
  }

  /** A lower row ends no later than a higher one starts. */
  lemma {:induction false} RowsBelow(s: nat, a: nat, b: nat)
    requires a < b
    ensures Rows(s, a) + s <= Rows(s, b)
  {
    if a + 1 < b {
      RowsBelow(s, a, b - 1);
    }
  }

  lemma NextRow(s: nat, y: nat)
    ensures Rows(s, y + 1) == Rows(s, y) + s
  {
  }

  lemma MulLe(a: int, b: int, c: int)
    requires 0 <= a <= b && 0 <= c
    ensures a * c <= b * c
  {
  }

  lemma DivUnit(x: int, n: int)
    requires 1 <= n && 0 <= x <= n
    ensures x / n == if x == n then 1 else 0
  {
  }

  /** Position k of a lattice `s` entries wide and `rows` high lies in
      column k % s of row k / s. */
  lemma RowOf(s: nat, rows: nat, k: nat)
    requires 1 <= s && k < s * rows
    ensures k % s < s && k / s < rows && k == Rows(s, k / s) + k % s
  {
    var y := k / s;
    if y >= rows {
      MulLe(rows, y, s);
    }
    RowsProduct(s, y);
  }

  /** Index and Cell are the row-major products they stand for. */
  lemma IndexIsRowMajor(w: nat, x: int, y: nat)
    ensures Index(w, x, y) == y * (w + 1) + x
    ensures Cell(w, x, y) == y * w + x
  {
    RowsProduct(w + 1, y);
    RowsProduct(w, y);
  }

  lemma IndexBelow(w: nat, h: nat, x: nat, y: nat)
    requires x <= w && y <= h
    ensures 0 <= Index(w, x, y) < (w + 1) * (h + 1)
  {
    RowsBelow(w + 1, y, h + 1);
    RowsProduct(w + 1, h + 1);
  }

  // ---------------------------------------------------------------------
  // Entries of the loop-order forms

  lemma {:induction false} RowOrderLength<T>(f: (nat, nat) -> T, y: nat, n: nat)
    ensures |RowOrder(f, y, n)| == n
  {
    if n > 0 {
      RowOrderLength(f, y, n - 1);
    }
  }

  lemma {:induction false} RowOrderEntry<T>(f: (nat, nat) -> T, y: nat, n: nat, x: nat)
    requires x < n
    ensures |RowOrder(f, y, n)| == n && RowOrder(f, y, n)[x] == f(x, y)
    decreases n
  {
    RowOrderLength(f, y, n - 1);
    if x < n - 1 {
      RowOrderEntry(f, y, n - 1, x);
    }
  }

  lemma {:induction false} GridOrderLength<T>(f: (nat, nat) -> T, cols: nat, rows: nat)
    ensures |GridOrder(f, cols, rows)| == Rows(cols, rows)
  {
    if rows > 0 {
      GridOrderLength(f, cols, rows - 1);
      RowOrderLength(f, rows - 1, cols);
    }
  }

  /** Entry (x, y) of the loop order sits at Rows(cols, y) + x. */
  lemma {:induction false} GridOrderEntry<T>(f: (nat, nat) -> T, cols: nat, rows: nat, x: nat, y: nat)
    requires x < cols && y < rows
    ensures Rows(cols, y) + x < |GridOrder(f, cols, rows)|
    ensures GridOrder(f, cols, rows)[Rows(cols, y) + x] == f(x, y)
    decreases rows
  {
    var front, back := GridOrder(f, cols, rows - 1), RowOrder(f, rows - 1, cols);
    assert GridOrder(f, cols, rows) == front + back;
    var p := Rows(cols, y) + x;
    if y < rows - 1 {
      GridOrderEntry(f, cols, rows - 1, x, y);
      assert (front + back)[p] == front[p];
    } else {
      GridOrderLength(f, cols, y);
      RowOrderEntry(f, y, cols, x);
      assert x < |back| && p == |front| + x;
      assert (front + back)[p] == back[x];
    }
  }

  lemma {:induction false} RowQuadsLength(w: nat, y: nat, n: nat)
    ensures |RowQuads(w, y, n)| == 6 * n
  {
    if n > 0 {
      RowQuadsLength(w, y, n - 1);
    }
  }

  lemma {:induction false} RowQuadsEntry(w: nat, y: nat, n: nat, x: nat, k: nat)
    requires x < n && k < 6
    ensures |RowQuads(w, y, n)| == 6 * n
    ensures RowQuads(w, y, n)[6 * x + k] == Quad(w, Index(w, x, y))[k]
    decreases n
  {
    var front, back := RowQuads(w, y, n - 1), Quad(w, Index(w, n - 1, y));
    assert RowQuads(w, y, n) == front + back;
    RowQuadsLength(w, y, n - 1);
    var p := 6 * x + k;
    if x < n - 1 {
      RowQuadsEntry(w, y, n - 1, x, k);
      assert (front + back)[p] == front[p];
    } else {
      assert p == |front| + k && (front + back)[p] == back[k];
    }
  }

  lemma {:induction false} GridQuadsLength(w: nat, rows: nat)
    ensures |GridQuads(w, rows)| == 6 * Rows(w, rows)
  {
    if rows > 0 {
      GridQuadsLength(w, rows - 1);
      RowQuadsLength(w, rows - 1, w);
    }
  }

  /** Corner k of cell (x, y) sits at 6 * Cell(w, x, y) + k of the loop order. */
  lemma {:induction false} GridQuadsEntry(w: nat, rows: nat, x: nat, y: nat, k: nat)
    requires x < w && y < rows && k < 6
    ensures 6 * Cell(w, x, y) + k < |GridQuads(w, rows)|
    ensures GridQuads(w, rows)[6 * Cell(w, x, y) + k] == Quad(w, Index(w, x, y))[k]
    decreases rows
  {
    var front, back := GridQuads(w, rows - 1), RowQuads(w, rows - 1, w);
    assert GridQuads(w, rows) == front + back;
    var p := 6 * Cell(w, x, y) + k;
    if y < rows - 1 {
      GridQuadsEntry(w, rows - 1, x, y, k);
      assert (front + back)[p] == front[p];
    } else {
      GridQuadsLength(w, y);
      RowQuadsEntry(w, y, w, x, k);
      var q := 6 * x + k;
      assert q < |back| && p == |front| + q;
      assert (front + back)[p] == back[q];
    }
  }

  // ---------------------------------------------------------------------
  // The loop orders are the closed forms

  lemma LatticeCoords(w: nat, h: nat, k: nat) returns (x: nat, y: nat)
    requires k < (w + 1) * (h + 1)
    ensures x <= w && y <= h && k == Rows(w + 1, y) + x
    ensures x == k % (w + 1) && y == k / (w + 1)
  {
    RowOf(w + 1, h + 1, k);
    x, y := k % (w + 1), k / (w + 1);
  }

  lemma LatticeAgree(w: nat, h: nat)
    ensures GridOrder(Point, w + 1, h + 1) == Lattice(w, h)
  {
    GridOrderLength(Point, w + 1, h + 1);
    RowsProduct(w + 1, h + 1);
    forall k | 0 <= k < (w + 1) * (h + 1)
      ensures GridOrder(Point, w + 1, h + 1)[k] == Lattice(w, h)[k]
    {
      var x, y := LatticeCoords(w, h, k);
      GridOrderEntry(Point, w + 1, h + 1, x, y);
    }
  }

  lemma UvAgree(w: nat, h: nat)
    requires 1 <= w && 1 <= h
    ensures GridOrder(UvOf(w, h), w + 1, h + 1) == UvLattice(w, h)
  {
    GridOrderLength(UvOf(w, h), w + 1, h + 1);
    RowsProduct(w + 1, h + 1);
    forall k | 0 <= k < (w + 1) * (h + 1)
      ensures GridOrder(UvOf(w, h), w + 1, h + 1)[k] == UvLattice(w, h)[k]
    {
      var x, y := LatticeCoords(w, h, k);
      GridOrderEntry(UvOf(w, h), w + 1, h + 1, x, y);
    }
  }

  /** Where entry j of the triangle list comes from: corner k of cell
      (x, y), at position 6 * Cell(w, x, y) + k. */
  lemma EntryCell(w: nat, h: nat, j: nat) returns (x: nat, y: nat, k: nat)
    requires 1 <= w && j < w * h * 6
    ensures x < w && y < h && k < 6 && j == 6 * Cell(w, x, y) + k
    ensures TriangleAt(w, j) == Quad(w, Index(w, x, y))[k]
  {
    var c := j / 6;
    assert c < w * h;
    RowOf(w, h, c);
    k, x, y := j % 6, c % w, c / w;
  }

  lemma TrianglesAgree(w: nat, h: nat)
    requires 1 <= w
    ensures GridQuads(w, h) == Triangles(w, h)
  {
    GridQuadsLength(w, h);
    RowsProduct(w, h);
    forall j | 0 <= j < w * h * 6
      ensures GridQuads(w, h)[j] == Triangles(w, h)[j]
    {
      var x, y, k := EntryCell(w, h, j);
      GridQuadsEntry(w, h, x, y, k);
    }
  }

  // ---------------------------------------------------------------------
  // Layout of the closed forms

  /** Vertex (x, y) of the lattice is the point (x, 0, y). */
  lemma LatticeLayout(w: nat, h: nat, x: nat, y: nat)
    requires x <= w && y <= h
    ensures 0 <= Index(w, x, y) < |Lattice(w, h)|
    ensures Lattice(w, h)[Index(w, x, y)] == Vec3(x as real, 0.0, y as real)
  {
    LatticeAgree(w, h);
    GridOrderEntry(Point, w + 1, h + 1, x, y);
  }

  /** A UV component is 1 on the last column (row) and 0 everywhere else,
      because the source divides integers. */
  lemma UvLayout(w: nat, h: nat, x: nat, y: nat)
    requires 1 <= w && 1 <= h && x <= w && y <= h
    ensures 0 <= Index(w, x, y) < |UvLattice(w, h)|
    ensures UvLattice(w, h)[Index(w, x, y)]
         == Vec2(if x == w then 1.0 else 0.0, if y == h then 1.0 else 0.0)
  {
    UvAgree(w, h);
    GridOrderEntry(UvOf(w, h), w + 1, h + 1, x, y);
    DivUnit(x, w);
    DivUnit(y, h);
  }

  /** The six entries of cell (x, y) start at 6 * Cell(w, x, y) and are the
      two triangles of that cell. */
  lemma TriangleLayout(w: nat, h: nat, x: nat, y: nat)
    requires 1 <= w && x < w && y < h
    ensures 6 * Cell(w, x, y) + 6 <= |Triangles(w, h)|
    ensures Triangles(w, h)[6 * Cell(w, x, y) .. 6 * Cell(w, x, y) + 6] == Quad(w, Index(w, x, y))
  {
    TrianglesAgree(w, h);
    var t := 6 * Cell(w, x, y);
    GridQuadsEntry(w, h, x, y, 5);
    forall k | 0 <= k < 6
      ensures Triangles(w, h)[t .. t + 6][k] == Quad(w, Index(w, x, y))[k]
    {
      GridQuadsEntry(w, h, x, y, k);
    }
  }

  /** The layout lemmas in the row-major arithmetic they stand for: vertex
      (x, y) at y * (w + 1) + x, and the six entries of cell (x, y) from
      6 * (y * w + x). */
  lemma VertexRowMajor(w: nat, h: nat, x: nat, y: nat)
    requires 1 <= w && 1 <= h && x <= w && y <= h
    ensures |Lattice(w, h)| == |UvLattice(w, h)| == (w + 1) * (h + 1)
    ensures y * (w + 1) + x < (w + 1) * (h + 1)
    ensures Lattice(w, h)[y * (w + 1) + x] == Vec3(x as real, 0.0, y as real)
    ensures UvLattice(w, h)[y * (w + 1) + x] == Vec2((x / w) as real, (y / h) as real)
  {
    IndexIsRowMajor(w, x, y);
    LatticeLayout(w, h, x, y);
    UvLayout(w, h, x, y);
    DivUnit(x, w);
    DivUnit(y, h);
  }

  lemma TriangleRowMajor(w: nat, h: nat, x: nat, y: nat)
    requires 1 <= w && x < w && y < h
    ensures |Triangles(w, h)| == w * h * 6
    ensures var t, v := 6 * (y * w + x), y * (w + 1) + x;
      t + 6 <= |Triangles(w, h)| && Triangles(w, h)[t .. t + 6] == [v, v + w + 1, v + 1, v + 1, v + w + 1, v + w + 2]
  {
    IndexIsRowMajor(w, x, y);
    TriangleLayout(w, h, x, y);
  }

  lemma QuadBelow(w: nat, h: nat, x: nat, y: nat)
    requires x < w && y < h
    ensures 0 <= Index(w, x, y) && Index(w, x, y) + w + 2 < (w + 1) * (h + 1)
  {
    IndexBelow(w, h, x + 1, y + 1);
    NextRow(w + 1, y);
  }

  /** Every triangle index names a vertex of the lattice. */
  lemma TriangleBounds(w: nat, h: nat, j: nat)
    requires 1 <= w && j < |Triangles(w, h)|
    ensures 0 <= Triangles(w, h)[j] < (w + 1) * (h + 1)
  {
    var x, y, k := EntryCell(w, h, j);
    var v := Index(w, x, y);
    QuadBelow(w, h, x, y);
    assert Triangles(w, h)[j] == Quad(w, v)[k];
    assert v <= Quad(w, v)[k] <= v + w + 2;
  }

  /** The first corner of cell (x, y) is (x, 0, y), and the other three
      are one step along x, along z, and along both. */
  lemma CellCorners(w: nat, h: nat, x: nat, y: nat)
    requires 1 <= w && x < w && y < h
    ensures 0 <= Index(w, x, y) && Index(w, x, y) + w + 2 < |Lattice(w, h)|
    ensures var L, v := Lattice(w, h), Index(w, x, y);
      && L[v] == Vec3(x as real, 0.0, y as real)
      && L[v + 1] == Vec3(L[v].x + 1.0, 0.0, L[v].z)
      && L[v + w + 1] == Vec3(L[v].x, 0.0, L[v].z + 1.0)
      && L[v + w + 2] == Vec3(L[v].x + 1.0, 0.0, L[v].z + 1.0)
  {
    NextRow(w + 1, y);
    LatticeLayout(w, h, x, y);
    LatticeLayout(w, h, x + 1, y);
    LatticeLayout(w, h, x, y + 1);
    LatticeLayout(w, h, x + 1, y + 1);
  }

  /** Before any deformation both triangles of every cell face +Y. */
  lemma CellFacesUp(w: nat, h: nat, x: nat, y: nat)
    requires 1 <= w && x < w && y < h
    ensures 0 <= Index(w, x, y) && Index(w, x, y) + w + 2 < |Lattice(w, h)|
    ensures var L, q := Lattice(w, h), Quad(w, Index(w, x, y));
      && Normal(L[q[0]], L[q[1]], L[q[2]]) == Vec3(0.0, 1.0, 0.0)
      && Normal(L[q[3]], L[q[4]], L[q[5]]) == Vec3(0.0, 1.0, 0.0)
  {
    CellCorners(w, h, x, y);
    QuadFacesUp(Lattice(w, h), w, Index(w, x, y));
  }

  /** The two triangles of a cell whose corners form a flat unit square
      face +Y, wherever the square sits in the vertex list. */
  lemma QuadFacesUp(L: seq<Vec3>, w: int, v: int)
    requires 0 <= v && 0 <= w && v + w + 2 < |L|
    requires L[v].y == 0.0
    requires L[v + 1] == Vec3(L[v].x + 1.0, 0.0, L[v].z)
    requires L[v + w + 1] == Vec3(L[v].x, 0.0, L[v].z + 1.0)
    requires L[v + w + 2] == Vec3(L[v].x + 1.0, 0.0, L[v].z + 1.0)
    ensures var q := Quad(w, v);
      && Normal(L[q[0]], L[q[1]], L[q[2]]) == Vec3(0.0, 1.0, 0.0)
      && Normal(L[q[3]], L[q[4]], L[q[5]]) == Vec3(0.0, 1.0, 0.0)
  {
    FlatCellNormals(L[v], L[v + 1], L[v + w + 1], L[v + w + 2]);
  }

  // ---------------------------------------------------------------------
  // The loops of GeneratePlane

  /** The vertex and UV buffers of GeneratePlane: (w + 1) * (h + 1)
      entries each. */
  method NewVertexBuffers(w: nat, h: nat) returns (vertices: array<Vec3>, uv: array<Vec2>)
    ensures fresh(vertices) && fresh(uv)
    ensures vertices.Length == uv.Length == Rows(w + 1, h + 1)
  {
    RowsProduct(w + 1, h + 1);
    vertices := new Vec3[(w + 1) * (h + 1)];
    uv := new Vec2[vertices.Length];
  }

  /** The nested loops that place every vertex and its UV, with the running
      counter `z`: row after row, x from 0 to w. */
  method BuildLattice(w: nat, h: nat) returns (vertices: array<Vec3>, uv: array<Vec2>)
    requires 1 <= w && 1 <= h
    ensures fresh(vertices) && fresh(uv)
    ensures vertices[..] == GridOrder(Point, w + 1, h + 1)
    ensures uv[..] == GridOrder(UvOf(w, h), w + 1, h + 1)
  {
    vertices, uv := NewVertexBuffers(w, h);
    var z, y := 0, 0;
    while y <= h
      invariant 0 <= y <= h + 1
      invariant z == Rows(w + 1, y) && z <= vertices.Length
      invariant vertices[..z] == GridOrder(Point, w + 1, y)
      invariant uv[..z] == GridOrder(UvOf(w, h), w + 1, y)
    {
      RowsBelow(w + 1, y, h + 1);
      z := FillRow(vertices, uv, w, h, y, z);
      NextRow(w + 1, y);
      y := y + 1;
    }
    assert vertices[..] == vertices[..z] && uv[..] == uv[..z];
  }

  /** The inner loop of BuildLattice: the points of row `y`, x from 0 to w. */
  method FillRow(vertices: array<Vec3>, uv: array<Vec2>, w: nat, h: nat, y: nat, z0: nat) returns (z: nat)
    requires 1 <= w && 1 <= h
    requires z0 + w + 1 <= vertices.Length == uv.Length
    modifies vertices, uv
    ensures z == z0 + w + 1
    ensures vertices[..z] == old(vertices[..z0]) + RowOrder(Point, y, w + 1)
    ensures uv[..z] == old(uv[..z0]) + RowOrder(UvOf(w, h), y, w + 1)
  {
    ghost var before, uvBefore := vertices[..z0], uv[..z0];
    z := z0;
    var x := 0;
    while x <= w
      invariant 0 <= x <= w + 1
      invariant z == z0 + x
      invariant vertices[..z] == before + RowOrder(Point, y, x)
      invariant uv[..z] == uvBefore + RowOrder(UvOf(w, h), y, x)
    {
      WritePoint(vertices, uv, w, h, x, y, z);
      assert before + RowOrder(Point, y, x + 1) == (before + RowOrder(Point, y, x)) + [Point(x, y)];
      assert uvBefore + RowOrder(UvOf(w, h), y, x + 1)
          == (uvBefore + RowOrder(UvOf(w, h), y, x)) + [UvOf(w, h)(x, y)];
      x, z := x + 1, z + 1;
    }
  }

  /** One pass of the inner loop body: point (x, y) and its UV go to slot
      `z`, and nothing before `z` is touched. */
  method WritePoint(vertices: array<Vec3>, uv: array<Vec2>, w: nat, h: nat, x: nat, y: nat, z: nat)
    requires 1 <= w && 1 <= h
    requires z < vertices.Length == uv.Length
    modifies vertices, uv
    ensures vertices[..z + 1] == old(vertices[..z]) + [Point(x, y)]
    ensures uv[..z + 1] == old(uv[..z]) + [UvOf(w, h)(x, y)]
  {
    vertices[z] := Vec3(x as real, 0.0, y as real);
    uv[z] := Vec2((x / w) as real, (y / h) as real);
    assert vertices[..z + 1] == vertices[..z] + [Point(x, y)];
  }

  /** The loop that makes the modified buffer an element-wise copy. */
  method CopyBuffer(source: array<Vec3>) returns (copy: array<Vec3>)
    ensures fresh(copy)
    ensures copy[..] == source[..]
  {
    copy := new Vec3[source.Length];
    for i := 0 to source.Length
      invariant forall k :: 0 <= k < i ==> copy[k] == source[k]
    {
      copy[i] := source[i];
    }
  }

  /** The index buffer of GeneratePlane: w * h * 6 entries, one run of six
      per cell. */
  method NewIndexBuffer(w: nat, h: nat) returns (triangles: array<int>)
    ensures fresh(triangles) && triangles.Length == 6 * Rows(w, h)
  {
    RowsProduct(w, h);
    triangles := new int[w * h * 6];
  }

  /** The nested loops that emit six indices per cell, with the running
      counters `t` (next free slot) and `v` (first corner of the cell). */
  method BuildTriangles(w: nat, h: nat) returns (triangles: array<int>)
    requires 1 <= w && 1 <= h
    ensures fresh(triangles)
    ensures triangles[..] == GridQuads(w, h)
  {
    triangles := NewIndexBuffer(w, h);
    var t: nat, v: nat, y := 0, 0, 0;
    while y < h
      invariant 0 <= y <= h
      invariant t == 6 * Rows(w, y) && v == Index(w, 0, y) && t <= triangles.Length
      invariant triangles[..t] == GridQuads(w, y)
    {
      RowsBelow(w, y, h);
      t, v := EmitRow(triangles, w, y, t, v);
      NextRow(w, y);
      NextRow(w + 1, y);
      y, v := y + 1, v + 1;
    }
    assert triangles[..] == triangles[..t];
  }

  /** The inner loop of BuildTriangles: the cells of row `y`, left to right. */
  method EmitRow(triangles: array<int>, w: nat, y: nat, t0: nat, v0: nat) returns (t: nat, v: nat)
    requires v0 == Index(w, 0, y) && t0 + 6 * w <= triangles.Length
    modifies triangles
    ensures t == t0 + 6 * w && v == v0 + w
    ensures triangles[..t] == old(triangles[..t0]) + RowQuads(w, y, w)
  {
    ghost var before := triangles[..t0];
    t, v := t0, v0;
    var x := 0;
    while x < w
      invariant 0 <= x <= w
      invariant t == t0 + 6 * x && v == Index(w, x, y)
      invariant triangles[..t] == before + RowQuads(w, y, x)
    {
      WriteQuad(triangles, t, w, v);
      assert before + RowQuads(w, y, x + 1) == (before + RowQuads(w, y, x)) + Quad(w, v);
      x, t, v := x + 1, t + 6, v + 1;
    }
  }

  /** One cell of the inner loop: its two triangles, in the order the
      six assignments write them, and nothing before position t touched. */
  method WriteQuad(triangles: array<int>, t: nat, w: int, v: int)
    requires t + 6 <= triangles.Length
    modifies triangles
    ensures triangles[..t + 6] == old(triangles[..t]) + Quad(w, v)
  {
    triangles[t] := v;
    triangles[t + 2] := v + 1;
    triangles[t + 3] := v + 1;
    triangles[t + 1] := v + w + 1;
    triangles[t + 4] := v + w + 1;
    triangles[t + 5] := v + w + 2;
    assert triangles[..t] == old(triangles[..t]);
  }
}
