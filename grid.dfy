/** The board of an N×N×N game, stored flat: the cell at (x, y, z) lives at index
    (z*N + y)*N + x, so ascending index order is the z, y, x order in which the
    game visits cells. */
module Grid {
  import opened Types

  function Cube(n: nat): nat { n * n * n }

  /** A board of side `size`; `cells` is the flat layout of the [z][y][x] grid. */
  datatype Board = Board(size: nat, cells: seq<Cell>) {
    predicate Valid() { 1 <= size && |cells| == Cube(size) }
  }

  predicate InBounds(n: int, c: Coord) {
    0 <= c.x < n && 0 <= c.y < n && 0 <= c.z < n
  }

  /** The coordinate stored at flat index `i`. */
  function CoordOf(n: nat, i: nat): Coord
    requires 1 <= n
  {
    Coord(i % n, (i / n) % n, i / n / n)
  }

  /** The flat index of an in-bounds coordinate; it lies in [0, N³). */
  function Idx(n: nat, c: Coord): (i: nat)
    requires InBounds(n, c)
    ensures i < Cube(n)
  {
    IdxRange(n, c.z, c.y, c.x);
    (c.z * n + c.y) * n + c.x
  }

  /** Distinct coordinates have distinct flat indices. */
  lemma IdxInjective(n: nat, c: Coord, d: Coord)
    requires InBounds(n, c) && InBounds(n, d)
    ensures Idx(n, c) == Idx(n, d) ==> c == d
  {
    IdxFacts(n, c);
    IdxFacts(n, d);
  }

  function Get(b: Board, c: Coord): Cell
    requires b.Valid() && InBounds(b.size, c)
  {
    b.cells[Idx(b.size, c)]
  }

  /** `b` with the cell at `c` replaced by `v`. */
  function Set(b: Board, c: Coord, v: Cell): (r: Board)
    requires b.Valid() && InBounds(b.size, c)
    ensures r.Valid() && r.size == b.size
    ensures Get(r, c) == v
    ensures forall d :: InBounds(b.size, d) && d != c ==> Get(r, d) == Get(b, d)
  {
    forall d | InBounds(b.size, d) { IdxInjective(b.size, c, d); }
    Board(b.size, b.cells[Idx(b.size, c) := v])
  }

  /** z, y, x lexicographic order on coordinates. */
  predicate LexLess(c: Coord, d: Coord) {
    c.z < d.z || (c.z == d.z && (c.y < d.y || (c.y == d.y && c.x < d.x)))
  }

  // ---------------------------------------------------------------------------
  // Arithmetic of the flat layout

  lemma MulLe(a: int, b: int, n: int)
    requires a <= b && 0 <= n
    ensures a * n <= b * n
  {
    var d := b - a;
    assert b * n == a * n + d * n;
    if d > 0 && n > 0 {
      assert d * n >= 0;
    }
  }

  lemma DivModUnique(a: int, q: int, r: int, n: int)
    requires 0 < n && 0 <= r < n && a == q * n + r
    ensures a / n == q && a % n == r
  {
    var q', r' := a / n, a % n;
    assert a == q' * n + r';
    if q' < q {
      MulLe(q' + 1, q, n);
      assert false;
    } else if q < q' {
      MulLe(q + 1, q', n);
      assert false;
    }
  }

  /** `a*n + r` against `b*n + s` compares lexicographically when both remainders are below n. */
  lemma LexMul(a: int, r: int, b: int, s: int, n: int)
    requires 0 < n && 0 <= r < n && 0 <= s < n
    ensures a * n + r < b * n + s <==> a < b || (a == b && r < s)
    ensures a * n + r == b * n + s <==> a == b && r == s
  {
    if a < b {
      MulLe(a + 1, b, n);
    } else if b < a {
      MulLe(b + 1, a, n);
    }
  }

  lemma IdxFacts(n: nat, c: Coord)
    requires InBounds(n, c)
    ensures 0 <= (c.z * n + c.y) * n + c.x < Cube(n)
    ensures CoordOf(n, (c.z * n + c.y) * n + c.x) == c
  {
    var q := c.z * n + c.y;
    IdxRange(n, c.z, c.y, c.x);
    DivModUnique(q * n + c.x, q, c.x, n);
    DivModUnique(q, c.z, c.y, n);
  }

  lemma IdxRange(n: nat, z: int, y: int, x: int)
    requires 0 <= x < n && 0 <= y < n && 0 <= z < n
    ensures 0 <= z * n + y < n * n
    ensures 0 <= (z * n + y) * n + x < Cube(n)
  {
    var q := z * n + y;
    MulLe(0, z, n);
    MulLe(z + 1, n, n);
    MulLe(0, q, n);
    MulLe(q + 1, n * n, n);
  }

  lemma DivBound(i: int, a: int, b: int)
    requires 0 <= i < a * b && 0 < b
    ensures 0 <= i / b < a
  {
    if i / b >= a {
      MulLe(a, i / b, b);
      assert false;
    }
  }

  /** Every flat index below N³ names an in-bounds coordinate, and Idx inverts CoordOf. */
  lemma CoordOfFacts(n: nat, i: nat)
    requires 1 <= n && i < Cube(n)
    ensures InBounds(n, CoordOf(n, i))
    ensures Idx(n, CoordOf(n, i)) == i
  {
    assert i < (n * n) * n;
    DivBound(i, n * n, n);
    var q := i / n;
    DivBound(q, n, n);
    var c := CoordOf(n, i);
    assert q == c.z * n + c.y;
    assert i == q * n + c.x;
    assert Idx(n, c) == (c.z * n + c.y) * n + c.x;
  }

  /** Flat index order is z, y, x lexicographic order. */
  lemma IdxOrder(n: nat, c: Coord, d: Coord)
    requires InBounds(n, c) && InBounds(n, d)
    ensures Idx(n, c) < Idx(n, d) <==> LexLess(c, d)
  {
    LexMul(c.z, c.y, d.z, d.y, n);
    LexMul(c.z * n + c.y, c.x, d.z * n + d.y, d.x, n);
  }

  /** Two boards of one size are equal when they agree at every coordinate. */
  lemma BoardExt(a: Board, b: Board)
    requires a.Valid() && b.Valid() && a.size == b.size
    requires forall c :: InBounds(a.size, c) ==> Get(a, c) == Get(b, c)
    ensures a == b
  {
    forall i | 0 <= i < |a.cells|
      ensures a.cells[i] == b.cells[i]
    {
      CoordOfFacts(a.size, i);
      assert Get(a, CoordOf(a.size, i)) == Get(b, CoordOf(a.size, i));
    }
  }
}
