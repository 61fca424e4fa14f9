/** Board queries of the rules engine: the empty board, the winner, fullness, the
    empty cells and move legality (createEmptyBoard, checkWinner, isBoardFull,
    getEmptyCells, isValidMove, getValidMoves). */
module Rules {
  import opened Types
  import opened Grid
  import opened Lines

  /** A fresh board of side n with every cell empty. */
  function EmptyBoard(n: nat): (b: Board)
    requires 1 <= n
    ensures b.Valid() && b.size == n
    ensures forall c :: InBounds(n, c) ==> Get(b, c) == Empty
  {
    Board(n, seq(Cube(n), _ => Empty))
  }

  // ---------------------------------------------------------------------------
  // Winner

  /** Every cell of line l holds p's piece. */
  ghost predicate Uniform(b: Board, l: Line, p: Player)
    requires b.Valid()
  {
    forall i :: 0 <= i < |l| ==> InBounds(b.size, l[i]) && Get(b, l[i]) == Filled(p)
  }

  /** The value of the line's first cell when it is a piece and every other cell
      equals it; Empty otherwise. */
  function LineOwner(b: Board, l: Line): Cell
    requires b.Valid() && WellFormed(b.size, l)
  {
    var first := Get(b, l[0]);
    if first == Empty then Empty
    else if forall i :: 1 <= i < |l| ==> Get(b, l[i]) == first then first
    else Empty
  }

  /** The line check reports p exactly when the whole line is p's. */
  lemma LineOwnerIsUniform(b: Board, l: Line, p: Player)
    requires b.Valid() && WellFormed(b.size, l)
    ensures LineOwner(b, l) == Filled(p) <==> Uniform(b, l, p)
    ensures LineOwner(b, l) == Empty ==> !Uniform(b, l, p)
  {
    if Uniform(b, l, p) {
      assert Get(b, l[0]) == Filled(p);
    }
  }

  /** Some line of ls is entirely p's. */
  ghost predicate HasUniform(b: Board, ls: seq<Line>, p: Player)
    requires b.Valid()
  {
    exists k :: 0 <= k < |ls| && Uniform(b, ls[k], p)
  }

  /** No line of ls before index k is entirely one player's. */
  ghost predicate NoneUniformBefore(b: Board, ls: seq<Line>, k: nat)
    requires b.Valid() && k <= |ls|
  {
    forall j :: 0 <= j < k ==> !Uniform(b, ls[j], X) && !Uniform(b, ls[j], O)
  }

  /** The first line of ls that is entirely one player's is entirely p's. */
  ghost predicate FirstUniform(b: Board, ls: seq<Line>, p: Player)
    requires b.Valid()
  {
    exists k :: 0 <= k < |ls| && Uniform(b, ls[k], p) && NoneUniformBefore(b, ls, k)
  }

  /** The owner of the first uniform line of ls at index k or later. */
  function WinnerFrom(b: Board, ls: seq<Line>, k: nat): Cell
    requires b.Valid() && forall k :: 0 <= k < |ls| ==> WellFormed(b.size, ls[k])
    requires k <= |ls|
    decreases |ls| - k
  {
    if k == |ls| then Empty
    else
      var owner := LineOwner(b, ls[k]);
      if owner != Empty then owner else WinnerFrom(b, ls, k + 1)
  }

  /** The scan from k reports the first uniform line at or after k, if any. */
  lemma {:induction false} WinnerFromSpec(b: Board, ls: seq<Line>, k: nat)
    requires b.Valid() && forall k :: 0 <= k < |ls| ==> WellFormed(b.size, ls[k])
    requires k <= |ls| && NoneUniformBefore(b, ls, k)
    ensures WinnerFrom(b, ls, k) == Empty <==> NoneUniformBefore(b, ls, |ls|)
    ensures WinnerFrom(b, ls, k) != Empty ==> FirstUniform(b, ls, WinnerFrom(b, ls, k).player)
    decreases |ls| - k
  {
    if k < |ls| {
      LineOwnerIsUniform(b, ls[k], X);
      LineOwnerIsUniform(b, ls[k], O);
      var owner := LineOwner(b, ls[k]);
      if owner != Empty {
        var p := owner.player;
        assert Uniform(b, ls[k], p);
        assert FirstUniform(b, ls, p);
        UniformLineStopsScan(b, ls, k, p);
      } else {
        assert NoneUniformBefore(b, ls, k + 1);
        WinnerFromSpec(b, ls, k + 1);
      }
    }
  }

  /** A uniform line at k means the lines up to the end are not all free of owners. */
  lemma UniformLineStopsScan(b: Board, ls: seq<Line>, k: nat, p: Player)
    requires b.Valid() && k < |ls| && Uniform(b, ls[k], p)
    ensures !NoneUniformBefore(b, ls, |ls|)
  {
    assert !(!Uniform(b, ls[k], X) && !Uniform(b, ls[k], O));
  }

  /** checkWinner: the owner of the first winning line, in generation order,
      that holds one player's pieces only. */
  function Winner(b: Board): Cell
    requires b.Valid()
  {
    LinesWellFormed(b.size);
    WinnerFrom(b, WinningLines(b.size), 0)
  }

  /** checkWinner reports nothing exactly when no winning line belongs to one
      player, and otherwise the owner of the first such line. */
  lemma WinnerSpec(b: Board)
    requires b.Valid()
    ensures Winner(b) == Empty <==> NoneUniformBefore(b, WinningLines(b.size), |WinningLines(b.size)|)
    ensures Winner(b) != Empty ==> FirstUniform(b, WinningLines(b.size), Winner(b).player)
  {
    LinesWellFormed(b.size);
    WinnerFromSpec(b, WinningLines(b.size), 0);
  }

  /** A board whose pieces all sit on at most two cells has no winner once the
      side is 3 or more: every winning line needs all of its N distinct cells. */
  lemma AtMostTwoPiecesNoWinner(b: Board, c0: Coord, c1: Coord)
    requires b.Valid() && 3 <= b.size
    requires forall c :: InBounds(b.size, c) && c != c0 && c != c1 ==> Get(b, c) == Empty
    ensures Winner(b) == Empty
  {
    var ls := WinningLines(b.size);
    LinesWellFormed(b.size);
    WinnerSpec(b);
    forall k, p | 0 <= k < |ls|
      ensures !Uniform(b, ls[k], p)
    {
      var l := ls[k];
      assert l[0] != l[1] && l[0] != l[2] && l[1] != l[2];
      assert Get(b, l[0]) == Empty || Get(b, l[1]) == Empty || Get(b, l[2]) == Empty;
    }
  }

  /** A fresh board has no winner. */
  lemma EmptyBoardNoWinner(n: nat)
    requires 1 <= n
    ensures Winner(EmptyBoard(n)) == Empty
  {
    var b := EmptyBoard(n);
    var ls := WinningLines(n);
    LinesWellFormed(n);
    WinnerSpec(b);
    forall k, p | 0 <= k < |ls|
      ensures !Uniform(b, ls[k], p)
    {
      assert Get(b, ls[k][0]) == Empty;
    }
  }

  // ---------------------------------------------------------------------------
  // Empty cells and fullness

  /** The empty cells at flat index i or later, in ascending index order. */
  function EmptyCellsFrom(b: Board, i: nat): seq<Coord>
    requires b.Valid() && i <= Cube(b.size)
    decreases Cube(b.size) - i
  {
    if i == Cube(b.size) then []
    else
      var rest := EmptyCellsFrom(b, i + 1);
      if b.cells[i] == Empty then [CoordOf(b.size, i)] + rest else rest
  }

  /** The scan from i lists exactly the empty cells at index i or later, by
      ascending index. */
  lemma {:induction false} EmptyCellsFromSpec(b: Board, i: nat)
    requires b.Valid() && i <= Cube(b.size)
    ensures forall k :: 0 <= k < |EmptyCellsFrom(b, i)| ==>
      var c := EmptyCellsFrom(b, i)[k];
      InBounds(b.size, c) && i <= Idx(b.size, c) && Get(b, c) == Empty
    ensures forall k, j :: 0 <= k < j < |EmptyCellsFrom(b, i)| ==>
      InBounds(b.size, EmptyCellsFrom(b, i)[k]) && InBounds(b.size, EmptyCellsFrom(b, i)[j]) &&
      Idx(b.size, EmptyCellsFrom(b, i)[k]) < Idx(b.size, EmptyCellsFrom(b, i)[j])
    ensures forall c :: InBounds(b.size, c) && i <= Idx(b.size, c) && Get(b, c) == Empty ==>
      c in EmptyCellsFrom(b, i)
    decreases Cube(b.size) - i
  {
    if i < Cube(b.size) {
      EmptyCellsFromSpec(b, i + 1);
      CoordOfFacts(b.size, i);
      var here := CoordOf(b.size, i);
      var rest := EmptyCellsFrom(b, i + 1);
      var r := EmptyCellsFrom(b, i);
      forall c | InBounds(b.size, c) && i <= Idx(b.size, c) && Get(b, c) == Empty
        ensures c in r
      {
        if Idx(b.size, c) == i {
          IdxInjective(b.size, c, here);
          assert r == [here] + rest;
        } else {
          assert c in rest;
        }
      }
    }
  }

  /** getEmptyCells: exactly the empty cells, each once, in ascending z, y, x order. */
  function EmptyCells(b: Board): (r: seq<Coord>)
    requires b.Valid()
    ensures forall k :: 0 <= k < |r| ==> InBounds(b.size, r[k]) && Get(b, r[k]) == Empty
    ensures forall c :: InBounds(b.size, c) && Get(b, c) == Empty ==> c in r
  {
    EmptyCellsFromSpec(b, 0);
    EmptyCellsFrom(b, 0)
  }

  /** The empty cells come in ascending z, y, x order. */
  lemma EmptyCellsAscending(b: Board)
    requires b.Valid()
    ensures Ascending(EmptyCells(b))
  {
    var r := EmptyCells(b);
    EmptyCellsFromSpec(b, 0);
    forall k, j | 0 <= k < j < |r| ensures LexLess(r[k], r[j]) {
      IdxOrder(b.size, r[k], r[j]);
    }
  }

  /** isBoardFull: no cell is empty. */
  predicate IsFull(b: Board)
    requires b.Valid()
  {
    forall i :: 0 <= i < |b.cells| ==> b.cells[i] != Empty
  }

  /** The board is full exactly when it has no empty cell to list. */
  lemma FullIffNoEmptyCells(b: Board)
    requires b.Valid()
    ensures IsFull(b) <==> EmptyCells(b) == []
  {
    if !IsFull(b) {
      var i :| 0 <= i < |b.cells| && b.cells[i] == Empty;
      CoordOfFacts(b.size, i);
      assert CoordOf(b.size, i) in EmptyCells(b);
    }
    if EmptyCells(b) != [] {
      var c := EmptyCells(b)[0];
      assert b.cells[Idx(b.size, c)] == Empty;
    }
  }

  lemma {:induction false} AllEmptyFrom(b: Board, i: nat)
    requires b.Valid() && i <= Cube(b.size)
    requires forall k :: 0 <= k < |b.cells| ==> b.cells[k] == Empty
    ensures |EmptyCellsFrom(b, i)| == Cube(b.size) - i
    decreases Cube(b.size) - i
  {
    if i < Cube(b.size) {
      AllEmptyFrom(b, i + 1);
    }
  }

  /** A fresh board lists all N³ cells as empty and is not full. */
  lemma EmptyBoardCells(n: nat)
    requires 1 <= n
    ensures |EmptyCells(EmptyBoard(n))| == Cube(n)
    ensures !IsFull(EmptyBoard(n))
  {
    AllEmptyFrom(EmptyBoard(n), 0);
    assert n * n * n >= 1 by { MulLe(1, n * n, n); MulLe(1, n, n); }
    assert EmptyBoard(n).cells[0] == Empty;
  }

  // ---------------------------------------------------------------------------
  // Legality

  /** isValidMove: on the board, on an empty cell, and in Gravity mode resting on
      the floor or on a piece. */
  predicate IsValidMove(b: Board, c: Coord, mode: Mode)
    requires b.Valid()
  {
    if !InBounds(b.size, c) then false
    else if Get(b, c) != Empty then false
    else if mode == Gravity then c.z == 0 || Get(b, Coord(c.x, c.y, c.z - 1)) != Empty
    else true
  }

  /** The four rules of legality, stated one by one. */
  lemma ValidMoveRules(b: Board, c: Coord, mode: Mode)
    requires b.Valid()
    ensures !InBounds(b.size, c) ==> !IsValidMove(b, c, mode)
    ensures InBounds(b.size, c) && Get(b, c) != Empty ==> !IsValidMove(b, c, mode)
    ensures InBounds(b.size, c) && mode == Standard ==> (IsValidMove(b, c, mode) <==> Get(b, c) == Empty)
    ensures InBounds(b.size, c) && Get(b, c) == Empty && mode == Gravity ==>
      (IsValidMove(b, c, mode) <==> c.z == 0 || Get(b, Coord(c.x, c.y, c.z - 1)) != Empty)
  {
  }

  /** Strictly ascending in z, y, x order. */
  ghost predicate Ascending(cs: seq<Coord>) {
    forall k, j :: 0 <= k < j < |cs| ==> LexLess(cs[k], cs[j])
  }

  /** The elements of cs that are legal moves, in their order. */
  function FilterValid(b: Board, cs: seq<Coord>, mode: Mode): (r: seq<Coord>)
    requires b.Valid()
    ensures forall c :: c in r <==> c in cs && IsValidMove(b, c, mode)
  {
    if cs == [] then []
    else
      var rest := FilterValid(b, cs[1..], mode);
      if IsValidMove(b, cs[0], mode) then [cs[0]] + rest else rest
  }

  /** Filtering keeps an ascending sequence ascending. */
  lemma {:induction false} FilterValidAscending(b: Board, cs: seq<Coord>, mode: Mode)
    requires b.Valid() && Ascending(cs)
    ensures Ascending(FilterValid(b, cs, mode))
  {
    if cs != [] {
      FilterValidAscending(b, cs[1..], mode);
      assert forall c :: c in cs[1..] ==> LexLess(cs[0], c);
    }
  }

  /** The head of an ascending sequence precedes every other element. */
  lemma AscendingHead(a: seq<Coord>, c: Coord)
    requires Ascending(a) && c in a
    ensures c == a[0] || LexLess(a[0], c)
  {
  }

  /** An ascending sequence is determined by its elements, so membership and
      order together pin down a filter's result. */
  lemma {:induction false} AscendingUnique(a: seq<Coord>, a': seq<Coord>)
    requires Ascending(a) && Ascending(a')
    requires forall c :: c in a <==> c in a'
    ensures a == a'
  {
    if a != [] {
      assert a[0] in a';
    }
    if a' != [] {
      assert a'[0] in a;
    }
    if a != [] && a' != [] {
      AscendingHead(a, a'[0]);
      AscendingHead(a', a[0]);
      assert a[0] == a'[0];
      forall c ensures c in a[1..] <==> c in a'[1..] {
        if c in a[1..] {
          var j :| 1 <= j < |a| && a[j] == c;
          assert c in a';
          assert c != a'[0];
        }
        if c in a'[1..] {
          var j :| 1 <= j < |a'| && a'[j] == c;
          assert c in a;
          assert c != a[0];
        }
      }
      AscendingUnique(a[1..], a'[1..]);
    }
  }

  /** getValidMoves: the legal moves, each once, in ascending z, y, x order. */
  function ValidMoves(b: Board, mode: Mode): (r: seq<Coord>)
    requires b.Valid()
    ensures forall c :: c in r <==> IsValidMove(b, c, mode)
    ensures forall k :: 0 <= k < |r| ==> InBounds(b.size, r[k]) && Get(b, r[k]) == Empty
  {
    var r := FilterValid(b, EmptyCells(b), mode);
    forall k | 0 <= k < |r| ensures InBounds(b.size, r[k]) && Get(b, r[k]) == Empty {
      assert r[k] in r;
    }
    r
  }

  /** In Standard mode the legal moves are the empty cells. */
  lemma StandardMovesAreEmptyCells(b: Board)
    requires b.Valid()
    ensures ValidMoves(b, Standard) == EmptyCells(b)
  {
    StandardFilter(b, EmptyCells(b));
  }

  /** The legal moves come in ascending z, y, x order. */
  lemma ValidMovesAscending(b: Board, mode: Mode)
    requires b.Valid()
    ensures Ascending(ValidMoves(b, mode))
  {
    EmptyCellsAscending(b);
    FilterValidAscending(b, EmptyCells(b), mode);
  }

  lemma {:induction false} StandardFilter(b: Board, cs: seq<Coord>)
    requires b.Valid()
    requires forall k :: 0 <= k < |cs| ==> InBounds(b.size, cs[k]) && Get(b, cs[k]) == Empty
    ensures FilterValid(b, cs, Standard) == cs
  {
    if cs != [] {
      StandardFilter(b, cs[1..]);
    }
  }

  /** The lowest empty cell of a column that has an empty cell at or below height z. */
  lemma {:induction false} SupportedBelow(b: Board, c: Coord)
    requires b.Valid() && InBounds(b.size, c) && Get(b, c) == Empty
    ensures exists d :: IsValidMove(b, d, Gravity) && d.x == c.x && d.y == c.y && d.z <= c.z
    decreases c.z
  {
    if c.z == 0 || Get(b, Coord(c.x, c.y, c.z - 1)) != Empty {
      assert IsValidMove(b, c, Gravity);
    } else {
      SupportedBelow(b, Coord(c.x, c.y, c.z - 1));
    }
  }

  /** A board that is not full always offers a legal move, in either mode. */
  lemma NotFullHasMoves(b: Board, mode: Mode)
    requires b.Valid() && !IsFull(b)
    ensures ValidMoves(b, mode) != []
  {
    var i :| 0 <= i < |b.cells| && b.cells[i] == Empty;
    CoordOfFacts(b.size, i);
    var c := CoordOf(b.size, i);
    if mode == Standard {
      assert IsValidMove(b, c, mode);
    } else {
      SupportedBelow(b, c);
      var d :| IsValidMove(b, d, Gravity) && d.x == c.x && d.y == c.y && d.z <= c.z;
      assert d in ValidMoves(b, mode);
    }
  }

  /** A full board offers no legal move. */
  lemma FullHasNoMoves(b: Board, mode: Mode)
    requires b.Valid() && IsFull(b)
    ensures ValidMoves(b, mode) == []
  {
    forall c ensures c !in ValidMoves(b, mode) {
      if InBounds(b.size, c) {
        assert b.cells[Idx(b.size, c)] != Empty;
      }
    }
  }

  // ---------------------------------------------------------------------------
  // Gravity settledness

  /** No piece floats: every piece above the floor has a piece below it. */
  ghost predicate Settled(b: Board)
    requires b.Valid()
  {
    forall c :: InBounds(b.size, c) && 1 <= c.z && Get(b, c) != Empty ==>
      Get(b, Coord(c.x, c.y, c.z - 1)) != Empty
  }

  /** Placing a piece on a cell that is legal in Gravity mode keeps a settled board settled. */
  lemma GravityMoveKeepsSettled(b: Board, c: Coord, p: Player)
    requires b.Valid() && Settled(b) && IsValidMove(b, c, Gravity)
    ensures Settled(Set(b, c, Filled(p)))
  {
    var b' := Set(b, c, Filled(p));
    forall d | InBounds(b.size, d) && 1 <= d.z && Get(b', d) != Empty
      ensures Get(b', Coord(d.x, d.y, d.z - 1)) != Empty
    {
      var below := Coord(d.x, d.y, d.z - 1);
      if d == c {
        assert Get(b, below) != Empty;
      } else {
        assert Get(b, d) != Empty;
        assert Get(b, below) != Empty;
        if below == c {
          assert false;
        }
      }
    }
  }
}
