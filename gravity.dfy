/** Gravity (applyGravity): in every (x, y) column the pieces fall to the bottom,
    keeping their bottom-to-top order, and the cells above them become empty. */
module Gravity {
  import opened Types
  import opened Grid
  import opened Rules

  // ---------------------------------------------------------------------------
  // Columns as sequences, bottom (z = 0) first

  /** The pieces of s, in order, without the empty cells. */
  function Pieces(s: seq<Cell>): (r: seq<Cell>)
    ensures |r| <= |s|
    ensures forall k :: 0 <= k < |r| ==> r[k] != Empty
  {
    if s == [] then []
    else Pieces(s[..|s| - 1]) + (if s[|s| - 1] != Empty then [s[|s| - 1]] else [])
  }

  function Empties(m: nat): seq<Cell> { seq(m, _ => Empty) }

  /** The column after pieces fall: the pieces at the bottom, empty cells above. */
  function Compact(s: seq<Cell>): seq<Cell> {
    Pieces(s) + Empties(|s| - |Pieces(s)|)
  }

  /** No empty cell lies directly below a piece. */
  ghost predicate Packed(s: seq<Cell>) {
    forall k :: 1 <= k < |s| && s[k] != Empty ==> s[k - 1] != Empty
  }

  lemma {:induction false} PiecesAppend(s: seq<Cell>, t: seq<Cell>)
    ensures Pieces(s + t) == Pieces(s) + Pieces(t)
    decreases |t|
  {
    if t == [] {
      assert s + t == s;
    } else {
      var t' := t[..|t| - 1];
      assert (s + t)[..|s + t| - 1] == s + t';
      PiecesAppend(s, t');
    }
  }

  lemma {:induction false} PiecesOfPieces(s: seq<Cell>)
    requires forall k :: 0 <= k < |s| ==> s[k] != Empty
    ensures Pieces(s) == s
    decreases |s|
  {
    if s != [] {
      PiecesOfPieces(s[..|s| - 1]);
    }
  }

  lemma {:induction false} PiecesOfEmpties(m: nat)
    ensures Pieces(Empties(m)) == []
  {
    if m > 0 {
      assert Empties(m)[..m - 1] == Empties(m - 1);
      PiecesOfEmpties(m - 1);
    }
  }

  /** Compacting keeps the length and the pieces, and leaves the column packed. */
  lemma CompactFacts(s: seq<Cell>)
    ensures |Compact(s)| == |s|
    ensures Pieces(Compact(s)) == Pieces(s)
    ensures Packed(Compact(s))
  {
    var p := Pieces(s);
    PiecesAppend(p, Empties(|s| - |p|));
    PiecesOfPieces(p);
    PiecesOfEmpties(|s| - |p|);
  }

  /** Inside a packed column every cell below a piece holds a piece. */
  lemma {:induction false} PackedBelow(s: seq<Cell>, i: nat, j: nat)
    requires Packed(s) && i <= j < |s| && s[j] != Empty
    ensures s[i] != Empty
    decreases j - i
  {
    if i < j {
      PackedBelow(s, i, j - 1);
    }
  }

  /** A packed column is left as it is. */
  lemma PackedIsCompact(s: seq<Cell>)
    requires Packed(s)
    ensures Compact(s) == s
  {
    var m := |s|;
    if exists k :: 0 <= k < |s| && s[k] == Empty {
      var k :| 0 <= k < |s| && s[k] == Empty;
      m := FirstEmpty(s, k);
    }
    forall j | m <= j < |s| ensures s[j] == Empty {
      if s[j] != Empty {
        PackedBelow(s, m, j);
      }
    }
    PiecesThenEmpties(s, m);
  }

  /** Pieces up to m and empty cells from m on: compacting changes nothing. */
  lemma PiecesThenEmpties(s: seq<Cell>, m: nat)
    requires m <= |s|
    requires forall i :: 0 <= i < m ==> s[i] != Empty
    requires forall j :: m <= j < |s| ==> s[j] == Empty
    ensures Compact(s) == s
  {
    assert s == s[..m] + s[m..];
    PiecesAppend(s[..m], s[m..]);
    PiecesOfPieces(s[..m]);
    assert s[m..] == Empties(|s| - m);
    PiecesOfEmpties(|s| - m);
  }

  /** The lowest empty cell at or below index k. */
  lemma {:induction false} FirstEmpty(s: seq<Cell>, k: nat) returns (m: nat)
    requires k < |s| && s[k] == Empty
    ensures m <= k && s[m] == Empty
    ensures forall i :: 0 <= i < m ==> s[i] != Empty
    decreases k
  {
    if exists i :: 0 <= i < k && s[i] == Empty {
      var i :| 0 <= i < k && s[i] == Empty;
      m := FirstEmpty(s, i);
    } else {
      m := k;
    }
  }

  /** Compacting twice is compacting once. */
  lemma CompactIdempotent(s: seq<Cell>)
    ensures Compact(Compact(s)) == Compact(s)
  {
    CompactFacts(s);
    PackedIsCompact(Compact(s));
  }

  // ---------------------------------------------------------------------------
  // The board after gravity

  /** The (x, y) column of b, bottom first. */
  function Column(b: Board, x: int, y: int): (col: seq<Cell>)
    requires b.Valid() && 0 <= x < b.size && 0 <= y < b.size
    ensures |col| == b.size
    ensures forall z :: 0 <= z < b.size ==> col[z] == Get(b, Coord(x, y, z))
  {
    seq(b.size, z requires 0 <= z < b.size => Get(b, Coord(x, y, z)))
  }

  function SettledCell(b: Board, i: nat): Cell
    requires b.Valid() && i < Cube(b.size)
  {
    CoordOfFacts(b.size, i);
    var c := CoordOf(b.size, i);
    CompactFacts(Column(b, c.x, c.y));
    Compact(Column(b, c.x, c.y))[c.z]
  }

  /** The board once every column is compacted. */
  function Settle(b: Board): (r: Board)
    requires b.Valid()
    ensures r.Valid() && r.size == b.size
  {
    Board(b.size, seq(Cube(b.size), i requires 0 <= i < Cube(b.size) => SettledCell(b, i)))
  }

  /** Cell (x, y, z) of the settled board is cell z of the compacted (x, y) column. */
  lemma SettleGet(b: Board, c: Coord)
    requires b.Valid() && InBounds(b.size, c)
    ensures |Compact(Column(b, c.x, c.y))| == b.size
    ensures Get(Settle(b), c) == Compact(Column(b, c.x, c.y))[c.z]
  {
    IdxFacts(b.size, c);
    CompactFacts(Column(b, c.x, c.y));
  }

  /** Every column of the settled board is the compacted column. */
  lemma SettleColumn(b: Board, x: int, y: int)
    requires b.Valid() && 0 <= x < b.size && 0 <= y < b.size
    ensures Column(Settle(b), x, y) == Compact(Column(b, x, y))
  {
    CompactFacts(Column(b, x, y));
    forall z | 0 <= z < b.size
      ensures Column(Settle(b), x, y)[z] == Compact(Column(b, x, y))[z]
    {
      SettleGet(b, Coord(x, y, z));
    }
  }

  /** Gravity keeps each column's bottom-to-top sequence of pieces. */
  lemma SettleKeepsPieces(b: Board, x: int, y: int)
    requires b.Valid() && 0 <= x < b.size && 0 <= y < b.size
    ensures Pieces(Column(Settle(b), x, y)) == Pieces(Column(b, x, y))
  {
    SettleColumn(b, x, y);
    CompactFacts(Column(b, x, y));
  }

  /** After gravity no piece floats. */
  lemma SettleIsSettled(b: Board)
    requires b.Valid()
    ensures Settled(Settle(b))
  {
    var r := Settle(b);
    forall c | InBounds(b.size, c) && 1 <= c.z && Get(r, c) != Empty
      ensures Get(r, Coord(c.x, c.y, c.z - 1)) != Empty
    {
      var col := Column(b, c.x, c.y);
      CompactFacts(col);
      SettleGet(b, c);
      SettleGet(b, Coord(c.x, c.y, c.z - 1));
    }
  }

  /** A board on which no piece floats is its own settled form. */
  lemma SettledFixed(b: Board)
    requires b.Valid() && Settled(b)
    ensures Settle(b) == b
  {
    forall c | InBounds(b.size, c) ensures Get(Settle(b), c) == Get(b, c) {
      var col := Column(b, c.x, c.y);
      forall k | 1 <= k < |col| && col[k] != Empty ensures col[k - 1] != Empty {
        assert Get(b, Coord(c.x, c.y, k)) != Empty;
      }
      PackedIsCompact(col);
      SettleGet(b, c);
    }
    BoardExt(Settle(b), b);
  }

  /** Applying gravity twice changes nothing more than applying it once. */
  lemma SettleIdempotent(b: Board)
    requires b.Valid()
    ensures Settle(Settle(b)) == Settle(b)
  {
    SettleIsSettled(b);
    SettledFixed(Settle(b));
  }

  // ---------------------------------------------------------------------------
  // Counting pieces column by column

  /** The pieces in columns k and later; column k is (k % N, k / N). */
  function PiecesFrom(b: Board, k: nat): nat
    requires b.Valid() && k <= b.size * b.size
    decreases b.size * b.size - k
  {
    if k == b.size * b.size then 0 else ColumnCount(b, k) + PiecesFrom(b, k + 1)
  }

  /** The number of pieces in column k. */
  function ColumnCount(b: Board, k: nat): nat
    requires b.Valid() && k < b.size * b.size
  {
    DivBound(k, b.size, b.size);
    |Pieces(Column(b, k % b.size, k / b.size))|
  }

  /** The number of pieces on the board. */
  function PieceCount(b: Board): nat
    requires b.Valid()
  {
    PiecesFrom(b, 0)
  }

  lemma {:induction false} SettleKeepsPiecesFrom(b: Board, k: nat)
    requires b.Valid() && k <= b.size * b.size
    ensures PiecesFrom(Settle(b), k) == PiecesFrom(b, k)
    decreases b.size * b.size - k
  {
    if k < b.size * b.size {
      DivBound(k, b.size, b.size);
      SettleKeepsPieces(b, k % b.size, k / b.size);
      assert ColumnCount(Settle(b), k) == ColumnCount(b, k);
      SettleKeepsPiecesFrom(b, k + 1);
    }
  }

  /** Gravity neither creates nor destroys pieces. */
  lemma SettleKeepsCount(b: Board)
    requires b.Valid()
    ensures PieceCount(Settle(b)) == PieceCount(b)
  {
    SettleKeepsPiecesFrom(b, 0);
  }

  /** Emptying cell z of a column removes at most one piece, and one exactly when
      the cell held a piece. */
  lemma {:induction false} PiecesClear(s: seq<Cell>, z: nat)
    requires z < |s|
    ensures |Pieces(s[z := Empty])| == |Pieces(s)| - (if s[z] != Empty then 1 else 0)
    decreases |s|
  {
    var s' := s[z := Empty];
    var n := |s|;
    if z == n - 1 {
      assert s'[..n - 1] == s[..n - 1];
    } else {
      assert s'[..n - 1] == s[..n - 1][z := Empty];
      PiecesClear(s[..n - 1], z);
    }
  }

  /** Emptying a cell touches only its own column. */
  lemma ClearColumns(b: Board, c: Coord, x: int, y: int)
    requires b.Valid() && InBounds(b.size, c) && 0 <= x < b.size && 0 <= y < b.size
    ensures Column(Set(b, c, Empty), x, y) ==
      if x == c.x && y == c.y then Column(b, x, y)[c.z := Empty] else Column(b, x, y)
  {
  }

  /** Column k is the column of c exactly when k == c.y * N + c.x. */
  lemma ColumnIndex(n: nat, k: nat, c: Coord)
    requires 1 <= n && InBounds(n, c)
    ensures c.y * n + c.x < n * n
    ensures (k % n == c.x && k / n == c.y) <==> k == c.y * n + c.x
  {
    IdxRange(n, c.y, c.x, 0);
    if k == c.y * n + c.x {
      DivModUnique(k, c.y, c.x, n);
    }
  }

  /** Emptying c changes the piece count of column k only when it is c's column. */
  lemma ClearColumnCount(b: Board, c: Coord, k: nat)
    requires b.Valid() && InBounds(b.size, c) && k < b.size * b.size
    ensures ColumnCount(Set(b, c, Empty), k) ==
      ColumnCount(b, k) - (if k == c.y * b.size + c.x && Get(b, c) != Empty then 1 else 0)
  {
    var n := b.size;
    DivBound(k, n, n);
    ColumnIndex(n, k, c);
    var x, y := k % n, k / n;
    ClearColumns(b, c, x, y);
    if x == c.x && y == c.y {
      PiecesClear(Column(b, x, y), c.z);
    }
  }

  lemma {:induction false} ClearPiecesFrom(b: Board, c: Coord, k: nat)
    requires b.Valid() && InBounds(b.size, c) && k <= b.size * b.size
    ensures PiecesFrom(Set(b, c, Empty), k) ==
      PiecesFrom(b, k) - (if k <= c.y * b.size + c.x && Get(b, c) != Empty then 1 else 0)
    decreases b.size * b.size - k
  {
    ColumnIndex(b.size, k, c);
    if k < b.size * b.size {
      ClearColumnCount(b, c, k);
      ClearPiecesFrom(b, c, k + 1);
    }
  }

  /** Emptying a cell removes its piece, if it had one, and nothing else. */
  lemma ClearCount(b: Board, c: Coord)
    requires b.Valid() && InBounds(b.size, c)
    ensures PieceCount(Set(b, c, Empty)) == PieceCount(b) - (if Get(b, c) != Empty then 1 else 0)
  {
    IdxRange(b.size, c.y, c.x, 0);
    ClearPiecesFrom(b, c, 0);
  }

  // ---------------------------------------------------------------------------
  // applyGravity, column by column on a copy of the cells

  /** applyGravity: copies the board and compacts every column in place; the
      result is the settled board (and the argument, a value, is untouched). */
  method ApplyGravity(b: Board) returns (r: Board)
    requires b.Valid()
    ensures r == Settle(b)
  {
    var n := b.size;
    var a := new Cell[|b.cells|](i requires 0 <= i < |b.cells| => b.cells[i]);
    assert a[..] == b.cells;
    var x := 0;
    while x < n
      invariant 0 <= x <= n && a.Length == Cube(n)
      invariant forall c :: InBounds(n, c) ==>
        a[Idx(n, c)] == if c.x < x then Get(Settle(b), c) else Get(b, c)
    {
      var y := 0;
      while y < n
        invariant 0 <= y <= n && a.Length == Cube(n)
        invariant forall c :: InBounds(n, c) ==>
          a[Idx(n, c)] == if c.x < x || (c.x == x && c.y < y) then Get(Settle(b), c) else Get(b, c)
      {
        ghost var before := a[..];
        CompactInPlace(a, n, x, y);
        ColumnUntouched(b, Board(n, before), x, y);
        forall c | InBounds(n, c) && c.x == x && c.y == y
          ensures a[Idx(n, c)] == Get(Settle(b), c)
        {
          SettleGet(b, c);
        }
        y := y + 1;
      }
      x := x + 1;
    }
    r := Board(n, a[..]);
    forall c | InBounds(n, c) ensures Get(r, c) == Get(Settle(b), c) {
    }
    BoardExt(r, Settle(b));
  }

  /** While column (x, y) is not yet processed it still holds b's column. */
  lemma ColumnUntouched(b: Board, w: Board, x: int, y: int)
    requires b.Valid() && w.Valid() && w.size == b.size
    requires 0 <= x < b.size && 0 <= y < b.size
    requires forall z :: 0 <= z < b.size ==> Get(w, Coord(x, y, z)) == Get(b, Coord(x, y, z))
    ensures Column(w, x, y) == Column(b, x, y)
  {
  }

  /** Compacts the (x, y) column of the flat cell array a of an n-board: the
      pieces are gathered bottom to top, the column is cleared, and the pieces
      are written back from the floor up. */
  method CompactInPlace(a: array<Cell>, n: nat, x: int, y: int)
    requires 1 <= n && a.Length == Cube(n) && 0 <= x < n && 0 <= y < n
    modifies a
    ensures forall c :: InBounds(n, c) ==>
      a[Idx(n, c)] == if c.x == x && c.y == y
        then Compact(Column(Board(n, old(a[..])), x, y))[c.z]
        else old(a[Idx(n, c)])
  {
    ghost var col := Column(Board(n, a[..]), x, y);
    var column := GatherColumn(a, n, x, y);
    CompactFacts(col);
    ClearColumn(a, n, x, y);
    FillColumn(a, n, x, y, column);
  }

  /** The pieces of column (x, y), bottom to top. */
  method GatherColumn(a: array<Cell>, n: nat, x: int, y: int) returns (column: seq<Cell>)
    requires 1 <= n && a.Length == Cube(n) && 0 <= x < n && 0 <= y < n
    ensures column == Pieces(Column(Board(n, a[..]), x, y))
  {
    ghost var col := Column(Board(n, a[..]), x, y);
    column := [];
    var z := 0;
    while z < n
      invariant 0 <= z <= n
      invariant column == Pieces(col[..z])
    {
      var v := a[Idx(n, Coord(x, y, z))];
      assert col[..z + 1][..z] == col[..z];
      column := column + if v != Empty then [v] else [];
      z := z + 1;
    }
    assert col[..n] == col;
  }

  /** Empties every cell of column (x, y). */
  method ClearColumn(a: array<Cell>, n: nat, x: int, y: int)
    requires 1 <= n && a.Length == Cube(n) && 0 <= x < n && 0 <= y < n
    modifies a
    ensures forall c :: InBounds(n, c) ==>
      a[Idx(n, c)] == if c.x == x && c.y == y then Empty else old(a[Idx(n, c)])
  {
    var z := 0;
    while z < n
      invariant 0 <= z <= n
      invariant forall c :: InBounds(n, c) ==>
        a[Idx(n, c)] == if c.x == x && c.y == y && c.z < z then Empty else old(a[Idx(n, c)])
    {
      var here := Coord(x, y, z);
      forall c | InBounds(n, c) { IdxInjective(n, c, here); }
      a[Idx(n, here)] := Empty;
      z := z + 1;
    }
  }

  /** Writes column[i] at height i of column (x, y), for every i. */
  method FillColumn(a: array<Cell>, n: nat, x: int, y: int, column: seq<Cell>)
    requires 1 <= n && a.Length == Cube(n) && 0 <= x < n && 0 <= y < n && |column| <= n
    modifies a
    ensures forall c :: InBounds(n, c) ==>
      a[Idx(n, c)] == if c.x == x && c.y == y && c.z < |column| then column[c.z] else old(a[Idx(n, c)])
  {
    var i := 0;
    while i < |column|
      invariant 0 <= i <= |column|
      invariant forall c :: InBounds(n, c) ==>
        a[Idx(n, c)] == if c.x == x && c.y == y && c.z < i then column[c.z] else old(a[Idx(n, c)])
    {
      var here := Coord(x, y, i);
      forall c | InBounds(n, c) { IdxInjective(n, c, here); }
      a[Idx(n, here)] := column[i];
      i := i + 1;
    }
  }
}
