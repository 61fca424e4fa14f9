/** The computer opponent: alpha-beta minimax over a working board that is
    changed in place (place, explode, recurse, undo), and getBestMove with its
    immediate-win and immediate-block checks in front of the search. */
module AlphaBeta {
  import opened Types
  import opened Grid
  import opened Rules
  import opened Explosions
  import opened PositionWeighting
  import opened Heuristic
  import opened Ordering

  const WinScore: int := 100000

  /** The piece the side to move places: X maximises, O minimises. */
  function Mover(isMax: bool): Player { if isMax then X else O }

  /** The best score a side starts its loop from. */
  function Initial(isMax: bool): Ext { if isMax then NegInf else PosInf }

  /** Every cell of an explosion is an occupied cell of the board. */
  lemma ExplosionOnBoard(b: Board, m: Coord)
    requires b.Valid() && InBounds(b.size, m)
    ensures forall x :: x in Explosion(b, m) ==> InBounds(b.size, x) && Get(b, x) != Empty
  {
    forall x | x in Explosion(b, m) ensures InBounds(b.size, x) && Get(b, x) != Empty {
      ExplosionOccupied(b, m, x);
    }
  }

  lemma ExplosionCellsInBounds(b: Board, m: Coord)
    requires b.Valid() && InBounds(b.size, m)
    ensures AllInBounds(b.size, Explosion(b, m))
  {
    var e := Explosion(b, m);
    ExplosionOnBoard(b, m);
    forall k | 0 <= k < |e| ensures InBounds(b.size, e[k]) {
      assert e[k] in e;
    }
  }

  /** b with every cell of cs set to v, one after the other. */
  function Fill(b: Board, cs: seq<Coord>, v: Cell): (r: Board)
    requires b.Valid() && AllInBounds(b.size, cs)
    ensures r.Valid() && r.size == b.size
  {
    if cs == [] then b else Set(Fill(b, cs[..|cs| - 1], v), cs[|cs| - 1], v)
  }

  /** After Fill, the cells of cs hold v and every other cell is unchanged. */
  lemma {:induction false} FillGet(b: Board, cs: seq<Coord>, v: Cell, c: Coord)
    requires b.Valid() && AllInBounds(b.size, cs) && InBounds(b.size, c)
    ensures Get(Fill(b, cs, v), c) == if c in cs then v else Get(b, c)
  {
    if cs != [] {
      var front := cs[..|cs| - 1];
      FillGet(b, front, v, c);
      assert cs == front + [cs[|cs| - 1]];
    }
  }

  // ---------------------------------------------------------------------------
  // The search, as functions of the board contents

  /** What a search returns: its score, the contents the working board is left
      with, and whether every explosion it undid held only the mover's pieces. */
  datatype Outcome = Outcome(score: Ext, cells: seq<Cell>, exact: bool)

  /** What a loop over moves returns: the best score, the move that first
      reached it, the board contents left behind and the exactness flag. */
  datatype Choice = Choice(score: Ext, cells: seq<Cell>, move: Option<Coord>, exact: bool)

  /** The moves searched from a position, heaviest first. */
  function OrderedMoves(b: Board, mode: Mode): (ms: seq<Coord>)
    requires b.Valid()
    ensures AllInBounds(b.size, ms)
    ensures forall c :: c in ms <==> c in ValidMoves(b, mode)
    ensures |ms| == |ValidMoves(b, mode)|
  {
    var moves := ValidMoves(b, mode);
    SortedMembers(b.size, Weights(b.size), moves);
    SortByWeight(b.size, Weights(b.size), moves)
  }

  /** Neither player owns a winning line. */
  predicate Undecided(b: Board)
    requires b.Valid()
  {
    Winner(b) != Filled(X) && Winner(b) != Filled(O)
  }

  /** minimax's result at a position: its score, the contents it leaves on the
      working board and its exactness flag. */
  function Search(n: nat, cells: seq<Cell>, depth: nat, alpha: Ext, beta: Ext, isMax: bool, mode: Mode): (r: Outcome)
    requires 1 <= n && |cells| == Cube(n)
    ensures |r.cells| == Cube(n)
    ensures r.score.Fin?
    decreases depth, 3, 0
  {
    var c := Visit(n, cells, depth, alpha, beta, isMax, mode);
    Outcome(c.score, c.cells, c.exact)
  }

  /** The search arriving at a position; a layer of its own, so that a caller
      reasoning about one search does not unfold the position below it. */
  function Visit(n: nat, cells: seq<Cell>, depth: nat, alpha: Ext, beta: Ext, isMax: bool, mode: Mode): (r: Choice)
    requires 1 <= n && |cells| == Cube(n)
    ensures |r.cells| == Cube(n)
    ensures r.score.Fin?
    decreases depth, 2, 1
  {
    Node(n, cells, depth, alpha, beta, isMax, mode)
  }

  /** minimax: a win scores 100000 plus the remaining depth for X and minus
      that for O, a full board 0, depth 0 the static evaluation; otherwise the
      alpha-beta loop over the ordered moves. */
  function Node(n: nat, cells: seq<Cell>, depth: nat, alpha: Ext, beta: Ext, isMax: bool, mode: Mode): (r: Choice)
    requires 1 <= n && |cells| == Cube(n)
    ensures |r.cells| == Cube(n)
    ensures r.score.Fin?
    decreases depth, 2, 0
  {
    var b := Board(n, cells);
    var winner := Winner(b);
    if winner == Filled(X) then Choice(Fin(WinScore + depth), cells, None, true)
    else if winner == Filled(O) then Choice(Fin(-WinScore - depth), cells, None, true)
    else if IsFull(b) then Choice(Fin(0), cells, None, true)
    else if depth == 0 then Choice(Fin(Evaluate(b)), cells, None, true)
    else
      NotFullHasMoves(b, mode);
      Loop(n, cells, OrderedMoves(b, mode), 0, depth, alpha, beta, isMax, mode, Initial(isMax), None, true)
  }

  /** The alpha-beta loop from the k-th move on: a strictly better score
      replaces the best one and its move, the window narrows on the mover's
      side, and the loop stops once beta <= alpha. */
  function Loop(n: nat, cells: seq<Cell>, moves: seq<Coord>, k: nat, depth: nat, alpha: Ext, beta: Ext,
                isMax: bool, mode: Mode, best: Ext, move: Option<Coord>, exact: bool): (r: Choice)
    requires 1 <= n && |cells| == Cube(n) && 1 <= depth && k <= |moves| && AllInBounds(n, moves)
    ensures |r.cells| == Cube(n)
    ensures r.move == move || (r.move.Some? && r.move.value in moves[k..])
    ensures best.Fin? || (best == Initial(isMax) && k < |moves|) ==> r.score.Fin?
    decreases depth, 1, |moves| - k
  {
    if k == |moves| then Choice(best, cells, move, exact)
    else
      var t := Try(n, cells, moves[k], depth, alpha, beta, isMax, mode);
      var better := if isMax then Less(best, t.score) else Less(t.score, best);
      var best' := if better then t.score else best;
      var move' := if better then Some(moves[k]) else move;
      var alpha' := if isMax then Max(alpha, t.score) else alpha;
      var beta' := if isMax then beta else Min(beta, t.score);
      if !Less(alpha', beta') then Choice(best', t.cells, move', exact && t.exact)
      else Loop(n, t.cells, moves, k + 1, depth, alpha', beta', isMax, mode, best', move', exact && t.exact)
  }

  /** The moves of ms from k on are empty cells. */
  ghost predicate EmptyFrom(n: nat, cells: seq<Cell>, ms: seq<Coord>, k: nat)
    requires |cells| == Cube(n) && AllInBounds(n, ms)
  {
    forall j :: k <= j < |ms| ==> cells[Idx(n, ms[j])] == Empty
  }

  /** The ordered moves are empty cells. */
  lemma OrderedMovesEmpty(b: Board, mode: Mode)
    requires b.Valid()
    ensures EmptyFrom(b.size, b.cells, OrderedMoves(b, mode), 0)
  {
    var ms := OrderedMoves(b, mode);
    forall j | 0 <= j < |ms| ensures b.cells[Idx(b.size, ms[j])] == Empty {
      assert ms[j] in ms;
    }
  }

  /** A move that keeps the occupancy leaves the later moves empty. */
  lemma EmptyFromNext(n: nat, cells: seq<Cell>, cells': seq<Cell>, ms: seq<Coord>, k: nat)
    requires |cells| == Cube(n) && |cells'| == Cube(n) && AllInBounds(n, ms) && k < |ms|
    ensures EmptyFrom(n, cells, ms, k) && Occupancy(cells') == Occupancy(cells) ==> EmptyFrom(n, cells', ms, k + 1)
  {
    if EmptyFrom(n, cells, ms, k) && Occupancy(cells') == Occupancy(cells) {
      forall j | k + 1 <= j < |ms| ensures cells'[Idx(n, ms[j])] == Empty {
        var i := Idx(n, ms[j]);
        assert Occupancy(cells')[i] == Occupancy(cells)[i];
      }
    }
  }

  /** The board after the mover's piece lands on m. */
  function Placed(n: nat, cells: seq<Cell>, m: Coord, isMax: bool): (b: Board)
    requires 1 <= n && |cells| == Cube(n) && InBounds(n, m)
    ensures b.Valid() && b.size == n
  {
    Set(Board(n, cells), m, Filled(Mover(isMax)))
  }

  /** The cells that the piece on m explodes. */
  function Exploded(n: nat, cells: seq<Cell>, m: Coord, isMax: bool): (e: seq<Coord>)
    requires 1 <= n && |cells| == Cube(n) && InBounds(n, m)
    ensures AllInBounds(n, e)
  {
    ExplosionCellsInBounds(Placed(n, cells, m, isMax), m);
    Explosion(Placed(n, cells, m, isMax), m)
  }

  /** The contents the reply is searched on. */
  function Cleared(n: nat, cells: seq<Cell>, m: Coord, isMax: bool): (r: seq<Cell>)
    requires 1 <= n && |cells| == Cube(n) && InBounds(n, m)
    ensures |r| == Cube(n)
  {
    Fill(Placed(n, cells, m, isMax), Exploded(n, cells, m, isMax), Empty).cells
  }

  /** The contents after the undo, given those the reply left behind. */
  function Undone(n: nat, after: seq<Cell>, m: Coord, p: Player, exploded: seq<Coord>): (r: seq<Cell>)
    requires 1 <= n && |after| == Cube(n) && InBounds(n, m) && AllInBounds(n, exploded)
    ensures |r| == Cube(n)
  {
    Set(Fill(Board(n, after), exploded, Filled(p)), m, Empty).cells
  }

  /** Every exploded cell held the mover's piece, and m was empty. */
  predicate CleanMove(n: nat, cells: seq<Cell>, m: Coord, isMax: bool)
    requires 1 <= n && |cells| == Cube(n) && InBounds(n, m)
  {
    var placed := Placed(n, cells, m, isMax);
    cells[Idx(n, m)] == Empty &&
    forall x :: x in Exploded(n, cells, m, isMax) ==> Get(placed, x) == Filled(Mover(isMax))
  }

  /** Which cells hold a piece. */
  function Occupancy(cells: seq<Cell>): seq<bool> {
    seq(|cells|, i requires 0 <= i < |cells| => cells[i] != Empty)
  }

  /** The undo writes the mover's piece back onto a cell the explosion cleared,
      so the cells that held a piece before the move hold one again, whatever
      the reply did in between as long as it kept the occupancy. */
  lemma UndoKeepsOccupancy(n: nat, cells: seq<Cell>, m: Coord, isMax: bool, after: seq<Cell>)
    requires 1 <= n && |cells| == Cube(n) && InBounds(n, m) && cells[Idx(n, m)] == Empty
    requires |after| == Cube(n) && Occupancy(after) == Occupancy(Cleared(n, cells, m, isMax))
    ensures Occupancy(Undone(n, after, m, Mover(isMax), Exploded(n, cells, m, isMax))) == Occupancy(cells)
  {
    var p := Mover(isMax);
    var placed := Placed(n, cells, m, isMax);
    var exploded := Exploded(n, cells, m, isMax);
    ExplosionOnBoard(placed, m);
    var cleared := Fill(placed, exploded, Empty);
    var restored := Set(Fill(Board(n, after), exploded, Filled(p)), m, Empty);
    forall i | 0 <= i < Cube(n) ensures (restored.cells[i] != Empty) == (cells[i] != Empty) {
      CoordOfFacts(n, i);
      var c := CoordOf(n, i);
      if c != m {
        FillGet(Board(n, after), exploded, Filled(p), c);
        FillGet(placed, exploded, Empty, c);
        assert Get(placed, c) == cells[i];
        if c !in exploded {
          assert Occupancy(after)[i] == Occupancy(cleared.cells)[i];
        }
      }
    }
  }

  /** When every exploded cell held the mover's piece and m was empty, undoing
      the move on the cleared board gives back the board before the move. */
  lemma UndoRestores(n: nat, cells: seq<Cell>, m: Coord, isMax: bool, after: seq<Cell>)
    requires 1 <= n && |cells| == Cube(n) && InBounds(n, m) && CleanMove(n, cells, m, isMax)
    requires after == Cleared(n, cells, m, isMax)
    ensures Undone(n, after, m, Mover(isMax), Exploded(n, cells, m, isMax)) == cells
  {
    var p := Mover(isMax);
    var placed := Placed(n, cells, m, isMax);
    var exploded := Exploded(n, cells, m, isMax);
    var cleared := Fill(placed, exploded, Empty);
    var restored := Set(Fill(Board(n, after), exploded, Filled(p)), m, Empty);
    forall c | InBounds(n, c) ensures Get(restored, c) == Get(Board(n, cells), c) {
      if c != m {
        FillGet(Board(n, after), exploded, Filled(p), c);
        FillGet(placed, exploded, Empty, c);
      }
    }
    BoardExt(restored, Board(n, cells));
  }

  /** The undo gives the board back exactly when the move was clean: a bracketed
      opposing piece that the explosion cleared comes back as the mover's. */
  lemma UndoExactIff(n: nat, cells: seq<Cell>, m: Coord, isMax: bool)
    requires 1 <= n && |cells| == Cube(n) && InBounds(n, m) && cells[Idx(n, m)] == Empty
    ensures Undone(n, Cleared(n, cells, m, isMax), m, Mover(isMax), Exploded(n, cells, m, isMax)) == cells
      <==> CleanMove(n, cells, m, isMax)
  {
    var p := Mover(isMax);
    var placed := Placed(n, cells, m, isMax);
    var exploded := Exploded(n, cells, m, isMax);
    var undone := Undone(n, Cleared(n, cells, m, isMax), m, p, exploded);
    if CleanMove(n, cells, m, isMax) {
      UndoRestores(n, cells, m, isMax, Cleared(n, cells, m, isMax));
    } else {
      var x :| x in exploded && Get(placed, x) != Filled(p);
      assert x != m;
      FillGet(Board(n, Cleared(n, cells, m, isMax)), exploded, Filled(p), x);
      assert undone[Idx(n, x)] == Filled(p);
    }
  }

  /** One move of the loop: place the mover's piece at m, clear what it
      explodes, search the reply one level shallower, then write the mover's
      piece back onto every exploded cell and empty m. */
  function Try(n: nat, cells: seq<Cell>, m: Coord, depth: nat, alpha: Ext, beta: Ext, isMax: bool, mode: Mode): (r: Outcome)
    requires 1 <= n && |cells| == Cube(n) && InBounds(n, m) && 1 <= depth
    ensures |r.cells| == Cube(n)
    ensures r.score.Fin?
    decreases depth, 0, 0
  {
    var sub := Search(n, Cleared(n, cells, m, isMax), depth - 1, alpha, beta, !isMax, mode);
    Outcome(sub.score, Undone(n, sub.cells, m, Mover(isMax), Exploded(n, cells, m, isMax)), sub.exact && CleanMove(n, cells, m, isMax))
  }

  // ---------------------------------------------------------------------------
  // What the undo gives back

  /** When no explosion in the searched tree took an opposing piece, the undo
      leaves the working board exactly as the search found it. */
  lemma {:induction false} SearchExact(n: nat, cells: seq<Cell>, depth: nat, alpha: Ext, beta: Ext, isMax: bool, mode: Mode)
    requires 1 <= n && |cells| == Cube(n)
    ensures var r := Search(n, cells, depth, alpha, beta, isMax, mode); r.exact ==> r.cells == cells
    decreases depth, 3, 0
  {
    NodeExact(n, cells, depth, alpha, beta, isMax, mode);
  }

  lemma {:induction false} NodeExact(n: nat, cells: seq<Cell>, depth: nat, alpha: Ext, beta: Ext, isMax: bool, mode: Mode)
    requires 1 <= n && |cells| == Cube(n)
    ensures var r := Node(n, cells, depth, alpha, beta, isMax, mode); r.exact ==> r.cells == cells
    decreases depth, 2, 0
  {
    var b := Board(n, cells);
    if Undecided(b) && !IsFull(b) && depth > 0 {
      LoopExact(n, cells, OrderedMoves(b, mode), 0, depth, alpha, beta, isMax, mode, Initial(isMax), None, true);
    }
  }

  lemma {:induction false} LoopExact(n: nat, cells: seq<Cell>, moves: seq<Coord>, k: nat, depth: nat, alpha: Ext, beta: Ext,
                                     isMax: bool, mode: Mode, best: Ext, move: Option<Coord>, exact: bool)
    requires 1 <= n && |cells| == Cube(n) && 1 <= depth && k <= |moves| && AllInBounds(n, moves)
    ensures var r := Loop(n, cells, moves, k, depth, alpha, beta, isMax, mode, best, move, exact);
      r.exact ==> exact && r.cells == cells
    decreases depth, 1, |moves| - k
  {
    if k < |moves| {
      var t := Try(n, cells, moves[k], depth, alpha, beta, isMax, mode);
      TryExact(n, cells, moves[k], depth, alpha, beta, isMax, mode);
      var better := if isMax then Less(best, t.score) else Less(t.score, best);
      var best' := if better then t.score else best;
      var move' := if better then Some(moves[k]) else move;
      var alpha' := if isMax then Max(alpha, t.score) else alpha;
      var beta' := if isMax then beta else Min(beta, t.score);
      if Less(alpha', beta') {
        LoopExact(n, t.cells, moves, k + 1, depth, alpha', beta', isMax, mode, best', move', exact && t.exact);
      }
    }
  }

  lemma {:induction false} TryExact(n: nat, cells: seq<Cell>, m: Coord, depth: nat, alpha: Ext, beta: Ext, isMax: bool, mode: Mode)
    requires 1 <= n && |cells| == Cube(n) && InBounds(n, m) && 1 <= depth
    ensures var r := Try(n, cells, m, depth, alpha, beta, isMax, mode); r.exact ==> r.cells == cells
    decreases depth, 0, 0
  {
    var cleared := Cleared(n, cells, m, isMax);
    var sub := Search(n, cleared, depth - 1, alpha, beta, !isMax, mode);
    TryIs(n, cells, m, depth, alpha, beta, isMax, mode, sub);
    if sub.exact && CleanMove(n, cells, m, isMax) {
      SearchExact(n, cleared, depth - 1, alpha, beta, !isMax, mode);
      UndoRestores(n, cells, m, isMax, sub.cells);
    }
  }

  /** The undo always gives back which cells hold a piece: an explosion only
      ever clears pieces, and the undo refills every cell it cleared. */
  lemma {:induction false} SearchKeepsOccupancy(n: nat, cells: seq<Cell>, depth: nat, alpha: Ext, beta: Ext, isMax: bool, mode: Mode)
    requires 1 <= n && |cells| == Cube(n)
    ensures Occupancy(Search(n, cells, depth, alpha, beta, isMax, mode).cells) == Occupancy(cells)
    decreases depth, 3, 0
  {
    NodeKeepsOccupancy(n, cells, depth, alpha, beta, isMax, mode);
  }

  lemma {:induction false} NodeKeepsOccupancy(n: nat, cells: seq<Cell>, depth: nat, alpha: Ext, beta: Ext, isMax: bool, mode: Mode)
    requires 1 <= n && |cells| == Cube(n)
    ensures Occupancy(Node(n, cells, depth, alpha, beta, isMax, mode).cells) == Occupancy(cells)
    decreases depth, 2, 0
  {
    var b := Board(n, cells);
    if Undecided(b) && !IsFull(b) && depth > 0 {
      OrderedMovesEmpty(b, mode);
      LoopKeepsOccupancy(n, cells, OrderedMoves(b, mode), 0, depth, alpha, beta, isMax, mode, Initial(isMax), None, true);
    }
  }

  lemma {:induction false} LoopKeepsOccupancy(n: nat, cells: seq<Cell>, moves: seq<Coord>, k: nat, depth: nat, alpha: Ext, beta: Ext,
                                              isMax: bool, mode: Mode, best: Ext, move: Option<Coord>, exact: bool)
    requires 1 <= n && |cells| == Cube(n) && 1 <= depth && k <= |moves| && AllInBounds(n, moves)
    requires EmptyFrom(n, cells, moves, k)
    ensures Occupancy(Loop(n, cells, moves, k, depth, alpha, beta, isMax, mode, best, move, exact).cells) == Occupancy(cells)
    decreases depth, 1, |moves| - k
  {
    if k < |moves| {
      var t := Try(n, cells, moves[k], depth, alpha, beta, isMax, mode);
      TryKeepsOccupancy(n, cells, moves[k], depth, alpha, beta, isMax, mode);
      EmptyFromNext(n, cells, t.cells, moves, k);
      var better := if isMax then Less(best, t.score) else Less(t.score, best);
      var best' := if better then t.score else best;
      var move' := if better then Some(moves[k]) else move;
      var alpha' := if isMax then Max(alpha, t.score) else alpha;
      var beta' := if isMax then beta else Min(beta, t.score);
      if Less(alpha', beta') {
        LoopKeepsOccupancy(n, t.cells, moves, k + 1, depth, alpha', beta', isMax, mode, best', move', exact && t.exact);
      }
    }
  }

  lemma {:induction false} TryKeepsOccupancy(n: nat, cells: seq<Cell>, m: Coord, depth: nat, alpha: Ext, beta: Ext, isMax: bool, mode: Mode)
    requires 1 <= n && |cells| == Cube(n) && InBounds(n, m) && 1 <= depth && cells[Idx(n, m)] == Empty
    ensures Occupancy(Try(n, cells, m, depth, alpha, beta, isMax, mode).cells) == Occupancy(cells)
    decreases depth, 0, 0
  {
    var cleared := Cleared(n, cells, m, isMax);
    var sub := Search(n, cleared, depth - 1, alpha, beta, !isMax, mode);
    SearchKeepsOccupancy(n, cleared, depth - 1, alpha, beta, !isMax, mode);
    TryIs(n, cells, m, depth, alpha, beta, isMax, mode, sub);
    UndoKeepsOccupancy(n, cells, m, isMax, sub.cells);
  }

  /** Try in terms of the reply's outcome. */
  lemma TryIs(n: nat, cells: seq<Cell>, m: Coord, depth: nat, alpha: Ext, beta: Ext, isMax: bool, mode: Mode, sub: Outcome)
    requires 1 <= n && |cells| == Cube(n) && InBounds(n, m) && 1 <= depth
    requires sub == Search(n, Cleared(n, cells, m, isMax), depth - 1, alpha, beta, !isMax, mode)
    ensures Try(n, cells, m, depth, alpha, beta, isMax, mode) ==
      Outcome(sub.score, Undone(n, sub.cells, m, Mover(isMax), Exploded(n, cells, m, isMax)), sub.exact && CleanMove(n, cells, m, isMax))
  {
  }

  // ---------------------------------------------------------------------------
  // minimax and getBestMove, in place on the working board

  /** minimax on the working board. */
  method Minimax(board: array<Cell>, n: nat, depth: nat, alpha: Ext, beta: Ext, isMax: bool, mode: Mode)
    returns (score: Ext)
    requires 1 <= n && board.Length == Cube(n)
    modifies board
    ensures score == Search(n, old(board[..]), depth, alpha, beta, isMax, mode).score
    ensures board[..] == Search(n, old(board[..]), depth, alpha, beta, isMax, mode).cells
    decreases depth, 3
  {
    var b := Board(n, board[..]);
    SearchScores(n, b.cells, depth, alpha, beta, isMax, mode);
    var winner := Winner(b);
    if winner == Filled(X) {
      return Fin(WinScore + depth);
    }
    if winner == Filled(O) {
      return Fin(-WinScore - depth);
    }
    if IsFull(b) {
      return Fin(0);
    }
    if depth == 0 {
      var e := EvaluateBoard(b);
      return Fin(e);
    }
    SearchLoops(n, b.cells, depth, alpha, beta, isMax, mode);
    var positionWeights := PositionWeights(n);
    var validMoves := ValidMoves(b, mode);
    SortedMembers(n, positionWeights, validMoves);
    validMoves := SortByWeight(n, positionWeights, validMoves);
    var bestMove;
    score, bestMove := SearchMoves(board, n, validMoves, depth, alpha, beta, isMax, mode);
  }

  /** The loop over the ordered moves, shared by minimax (which keeps only the
      score) and getBestMove (which keeps the move too). */
  method SearchMoves(board: array<Cell>, n: nat, moves: seq<Coord>, depth: nat, alpha: Ext, beta: Ext,
                     isMax: bool, mode: Mode)
    returns (best: Ext, bestMove: Option<Coord>)
    requires 1 <= n && board.Length == Cube(n) && 1 <= depth && AllInBounds(n, moves)
    modifies board
    ensures var c := Loop(n, old(board[..]), moves, 0, depth, alpha, beta, isMax, mode, Initial(isMax), None, true);
      best == c.score && bestMove == c.move && board[..] == c.cells
    decreases depth, 2
  {
    ghost var goal := Loop(n, board[..], moves, 0, depth, alpha, beta, isMax, mode, Initial(isMax), None, true);
    best := Initial(isMax);
    bestMove := None;
    var a, bt := alpha, beta;
    ghost var exact := true;
    var k := 0;
    while k < |moves|
      invariant k <= |moves|
      invariant Loop(n, board[..], moves, k, depth, a, bt, isMax, mode, best, bestMove, exact) == goal
      decreases |moves| - k
    {
      best, bestMove, a, bt, exact := SearchRound(board, n, moves, k, depth, a, bt, isMax, mode, best, bestMove, exact);
      if !Less(a, bt) {
        return;
      }
      k := k + 1;
    }
  }

  /** One round of the loop: search the k-th move, keep its score and move if
      the score is strictly better for the mover, and narrow the window on the
      mover's side. The loop from k is then done, or goes on from k + 1. */
  method SearchRound(board: array<Cell>, n: nat, moves: seq<Coord>, k: nat, depth: nat, alpha: Ext, beta: Ext,
                     isMax: bool, mode: Mode, best: Ext, bestMove: Option<Coord>, ghost exact: bool)
    returns (best': Ext, bestMove': Option<Coord>, alpha': Ext, beta': Ext, ghost exact': bool)
    requires 1 <= n && board.Length == Cube(n) && 1 <= depth && k < |moves| && AllInBounds(n, moves)
    modifies board
    ensures Loop(n, old(board[..]), moves, k, depth, alpha, beta, isMax, mode, best, bestMove, exact) ==
      if !Less(alpha', beta') then Choice(best', board[..], bestMove', exact')
      else Loop(n, board[..], moves, k + 1, depth, alpha', beta', isMax, mode, best', bestMove', exact')
    decreases depth, 1
  {
    ghost var t := Try(n, board[..], moves[k], depth, alpha, beta, isMax, mode);
    LoopStep(n, board[..], moves, k, depth, alpha, beta, isMax, mode, best, bestMove, exact);
    var score := TryMove(board, n, moves[k], depth, alpha, beta, isMax, mode);
    best', bestMove', alpha', beta' := best, bestMove, alpha, beta;
    if isMax {
      if Less(best, score) {
        best', bestMove' := score, Some(moves[k]);
      }
      alpha' := Max(alpha, score);
    } else {
      if Less(score, best) {
        best', bestMove' := score, Some(moves[k]);
      }
      beta' := Min(beta, score);
    }
    exact' := exact && t.exact;
  }

  /** One round of the loop. */
  lemma LoopStep(n: nat, cells: seq<Cell>, moves: seq<Coord>, k: nat, depth: nat, alpha: Ext, beta: Ext,
                 isMax: bool, mode: Mode, best: Ext, move: Option<Coord>, exact: bool)
    requires 1 <= n && |cells| == Cube(n) && 1 <= depth && k < |moves| && AllInBounds(n, moves)
    ensures var t := Try(n, cells, moves[k], depth, alpha, beta, isMax, mode);
      var better := if isMax then Less(best, t.score) else Less(t.score, best);
      var best' := if better then t.score else best;
      var move' := if better then Some(moves[k]) else move;
      var alpha' := if isMax then Max(alpha, t.score) else alpha;
      var beta' := if isMax then beta else Min(beta, t.score);
      Loop(n, cells, moves, k, depth, alpha, beta, isMax, mode, best, move, exact) ==
        if !Less(alpha', beta') then Choice(best', t.cells, move', exact && t.exact)
        else Loop(n, t.cells, moves, k + 1, depth, alpha', beta', isMax, mode, best', move', exact && t.exact)
  {
  }

  /** One move on the working board, undone as the source undoes it. */
  method TryMove(board: array<Cell>, n: nat, m: Coord, depth: nat, alpha: Ext, beta: Ext, isMax: bool, mode: Mode)
    returns (score: Ext)
    requires 1 <= n && board.Length == Cube(n) && InBounds(n, m) && 1 <= depth
    modifies board
    ensures var t := Try(n, old(board[..]), m, depth, alpha, beta, isMax, mode);
      Outcome(score, board[..], t.exact) == t
    decreases depth, 0
  {
    ghost var before := board[..];
    var exploded := MakeMove(board, n, m, isMax);
    ghost var cleared := board[..];
    score := Minimax(board, n, depth - 1, alpha, beta, !isMax, mode);
    ghost var searched := board[..];
    UndoMove(board, n, m, Mover(isMax), exploded);
    TryParts(n, before, m, depth, alpha, beta, isMax, mode, exploded, cleared, score, searched, board[..]);
  }

  /** Try, assembled from what the three steps of TryMove leave behind. */
  lemma TryParts(n: nat, cells: seq<Cell>, m: Coord, depth: nat, alpha: Ext, beta: Ext, isMax: bool, mode: Mode,
                 exploded: seq<Coord>, cleared: seq<Cell>, score: Ext, searched: seq<Cell>, undone: seq<Cell>)
    requires 1 <= n && |cells| == Cube(n) && InBounds(n, m) && 1 <= depth
    requires exploded == Exploded(n, cells, m, isMax) && cleared == Cleared(n, cells, m, isMax)
    requires score == Search(n, cleared, depth - 1, alpha, beta, !isMax, mode).score
    requires searched == Search(n, cleared, depth - 1, alpha, beta, !isMax, mode).cells
    requires undone == Undone(n, searched, m, Mover(isMax), exploded)
    ensures var t := Try(n, cells, m, depth, alpha, beta, isMax, mode);
      Outcome(score, undone, t.exact) == t
  {
  }

  /** Places the mover's piece at m and clears the cells it explodes. */
  method MakeMove(board: array<Cell>, n: nat, m: Coord, isMax: bool) returns (exploded: seq<Coord>)
    requires 1 <= n && board.Length == Cube(n) && InBounds(n, m)
    modifies board
    ensures exploded == Exploded(n, old(board[..]), m, isMax)
    ensures board[..] == Cleared(n, old(board[..]), m, isMax)
  {
    board[Idx(n, m)] := Filled(Mover(isMax));
    var placed := Board(n, board[..]);
    exploded := CheckExplosion(placed, m);
    ExplosionCellsInBounds(placed, m);
    FillArray(board, n, exploded, Empty);
  }

  /** Writes p's piece back onto every exploded cell, then empties m. */
  method UndoMove(board: array<Cell>, n: nat, m: Coord, p: Player, exploded: seq<Coord>)
    requires 1 <= n && board.Length == Cube(n) && InBounds(n, m) && AllInBounds(n, exploded)
    modifies board
    ensures board[..] == Undone(n, old(board[..]), m, p, exploded)
  {
    FillArray(board, n, exploded, Filled(p));
    board[Idx(n, m)] := Empty;
  }

  /** exploded.forEach(c => board[c] = v). */
  method FillArray(board: array<Cell>, n: nat, cs: seq<Coord>, v: Cell)
    requires 1 <= n && board.Length == Cube(n) && AllInBounds(n, cs)
    modifies board
    ensures board[..] == Fill(Board(n, old(board[..])), cs, v).cells
  {
    ghost var start := Board(n, board[..]);
    for j := 0 to |cs|
      invariant board[..] == Fill(start, cs[..j], v).cells
    {
      assert cs[..j + 1][..j] == cs[..j];
      board[Idx(n, cs[j])] := v;
    }
    assert cs[..|cs|] == cs;
  }

  // ---------------------------------------------------------------------------
  // getBestMove

  /** Placing p's piece at m completes a line for p. */
  predicate WinsWith(b: Board, m: Coord, p: Player)
    requires b.Valid() && InBounds(b.size, m)
  {
    Winner(Set(b, m, Filled(p))) == Filled(p)
  }

  /** The first move of ms that satisfies f. */
  function FirstWhere(ms: seq<Coord>, f: Coord -> bool): Option<Coord>
  {
    if ms == [] then None
    else if f(ms[0]) then Some(ms[0])
    else FirstWhere(ms[1..], f)
  }

  /** The first move of ms that wins at once for p. */
  function FirstWinning(b: Board, ms: seq<Coord>, p: Player): Option<Coord>
    requires b.Valid()
  {
    FirstWhere(ms, c => InBounds(b.size, c) && WinsWith(b, c, p))
  }

  /** getBestMove's answer: nothing without a legal move; else the first
      immediate win; else the first immediate block; else the move the root
      alpha-beta loop settles on, or the first ordered move if no score beat
      the starting sentinel. */
  function BestMove(b: Board, player: Player, mode: Mode, depth: nat): Option<Coord>
    requires b.Valid() && 1 <= depth
  {
    var moves := ValidMoves(b, mode);
    if moves == [] then None
    else
      var win := FirstWinning(b, moves, player);
      if win.Some? then win
      else
        var block := FirstWinning(b, moves, Opponent(player));
        if block.Some? then block
        else
          var sorted := OrderedMoves(b, mode);
          var isMax := player == X;
          var c := Loop(b.size, b.cells, sorted, 0, depth, NegInf, PosInf, isMax, mode, Initial(isMax), None, true);
          if c.move.Some? then c.move else Some(sorted[0])
  }

  /** getBestMove on a working copy of the board; the caller's board is a value
      and the copy is a fresh array, so the caller's board never changes. */
  method GetBestMove(b: Board, player: Player, mode: Mode, depth: nat) returns (move: Option<Coord>)
    requires b.Valid() && 1 <= depth
    ensures move == BestMove(b, player, mode, depth)
  {
    var size := b.size;
    var positionWeights := PositionWeights(size);
    var workingBoard := new Cell[|b.cells|](i requires 0 <= i < |b.cells| => b.cells[i]);
    assert workingBoard[..] == b.cells;
    var validMoves := ValidMoves(Board(size, workingBoard[..]), mode);
    if |validMoves| == 0 {
      return None;
    }
    var found := ScanForWin(workingBoard, b, validMoves, player, false);
    if found.Some? {
      return found;
    }
    var opponent := Opponent(player);
    found := ScanForWin(workingBoard, b, validMoves, opponent, true);
    if found.Some? {
      return found;
    }
    SortedMembers(size, positionWeights, validMoves);
    validMoves := SortByWeight(size, positionWeights, validMoves);
    var isMaximizing := player == X;
    var bestScore, bestMove := SearchMoves(workingBoard, size, validMoves, depth, NegInf, PosInf, isMaximizing, mode);
    if bestMove.Some? {
      return bestMove;
    }
    return Some(validMoves[0]);
  }

  /** The immediate-win loop (and, for the opponent, the block loop): place p
      at each move in turn, stop at the first that wins for p, undo otherwise.
      The win loop returns without undoing; the block loop (undoFound) undoes
      first. The working board keeps b's contents whenever nothing is found. */
  method ScanForWin(workingBoard: array<Cell>, b: Board, validMoves: seq<Coord>, p: Player, undoFound: bool)
    returns (found: Option<Coord>)
    requires b.Valid() && workingBoard.Length == |b.cells| && workingBoard[..] == b.cells
    requires forall k :: 0 <= k < |validMoves| ==> InBounds(b.size, validMoves[k]) && Get(b, validMoves[k]) == Empty
    modifies workingBoard
    ensures found == FirstWinning(b, validMoves, p)
    ensures found == None ==> workingBoard[..] == b.cells
  {
    var size := b.size;
    for k := 0 to |validMoves|
      invariant workingBoard[..] == b.cells
      invariant FirstWinning(b, validMoves, p) == FirstWinning(b, validMoves[k..], p)
    {
      var move := validMoves[k];
      assert validMoves[k..] == [move] + validMoves[k + 1..];
      workingBoard[Idx(size, move)] := Filled(p);
      assert workingBoard[..] == Set(b, move, Filled(p)).cells;
      if Winner(Board(size, workingBoard[..])) == Filled(p) {
        if undoFound {
          workingBoard[Idx(size, move)] := Empty;
        }
        return Some(move);
      }
      workingBoard[Idx(size, move)] := Empty;
      assert workingBoard[..] == b.cells[Idx(size, move) := Empty];
    }
    assert validMoves[|validMoves|..] == [];
    return None;
  }

  // ---------------------------------------------------------------------------
  // What minimax guarantees

  /** minimax's terminal scores. */
  lemma SearchScores(n: nat, cells: seq<Cell>, depth: nat, alpha: Ext, beta: Ext, isMax: bool, mode: Mode)
    requires 1 <= n && |cells| == Cube(n)
    ensures var b := Board(n, cells);
      var r := Search(n, cells, depth, alpha, beta, isMax, mode);
      (Winner(b) == Filled(X) ==> r.score == Fin(WinScore + depth) && r.cells == cells) &&
      (Winner(b) == Filled(O) ==> r.score == Fin(-WinScore - depth) && r.cells == cells) &&
      (Undecided(b) && IsFull(b) ==> r.score == Fin(0) && r.cells == cells) &&
      (Undecided(b) && !IsFull(b) && depth == 0 ==> r.score == Fin(Evaluate(b)) && r.cells == cells)
  {
    SearchIsNode(n, cells, depth, alpha, beta, isMax, mode);
  }

  /** A search is the node it visits. */
  lemma SearchIsNode(n: nat, cells: seq<Cell>, depth: nat, alpha: Ext, beta: Ext, isMax: bool, mode: Mode)
    requires 1 <= n && |cells| == Cube(n)
    ensures var c := Node(n, cells, depth, alpha, beta, isMax, mode);
      Search(n, cells, depth, alpha, beta, isMax, mode) == Outcome(c.score, c.cells, c.exact)
  {
  }

  /** A position that is not terminal is scored by the loop over its ordered moves. */
  lemma SearchLoops(n: nat, cells: seq<Cell>, depth: nat, alpha: Ext, beta: Ext, isMax: bool, mode: Mode)
    requires 1 <= n && |cells| == Cube(n) && 1 <= depth
    requires Undecided(Board(n, cells)) && !IsFull(Board(n, cells))
    ensures var c := Loop(n, cells, OrderedMoves(Board(n, cells), mode), 0, depth, alpha, beta, isMax, mode, Initial(isMax), None, true);
      Search(n, cells, depth, alpha, beta, isMax, mode) == Outcome(c.score, c.cells, c.exact)
  {
    SearchIsNode(n, cells, depth, alpha, beta, isMax, mode);
  }

  // ---------------------------------------------------------------------------
  // What getBestMove guarantees

  /** FirstWhere finds nothing exactly when no move of ms satisfies f, and
      otherwise the earliest move that does. */
  lemma {:induction false} FirstWhereSpec(ms: seq<Coord>, f: Coord -> bool)
    ensures FirstWhere(ms, f) == None <==> forall k :: 0 <= k < |ms| ==> !f(ms[k])
    ensures FirstWhere(ms, f).Some? ==>
      exists i :: (0 <= i < |ms| && ms[i] == FirstWhere(ms, f).value &&
        f(ms[i]) && forall j :: 0 <= j < i ==> !f(ms[j]))
  {
    if ms != [] && !f(ms[0]) {
      FirstWhereSpec(ms[1..], f);
      if FirstWhere(ms, f).Some? {
        var i :| 0 <= i < |ms[1..]| && ms[1..][i] == FirstWhere(ms, f).value
          && f(ms[1..][i]) && forall j :: 0 <= j < i ==> !f(ms[1..][j]);
        assert ms[i + 1] == ms[1..][i];
        forall j | 0 <= j < i + 1 ensures !f(ms[j]) {
          if j > 0 {
            assert ms[j] == ms[1..][j - 1];
          }
        }
      }
      forall k | 0 <= k < |ms| && k > 0 ensures ms[k] == ms[1..][k - 1] {
      }
    }
  }

  /** Among the legal moves, FirstWhere finds nothing exactly when no legal
      move satisfies f, and otherwise a legal move that does, with no legal move
      earlier in z, y, x order that does. */
  lemma FirstLegal(b: Board, mode: Mode, f: Coord -> bool)
    requires b.Valid()
    ensures var r := FirstWhere(ValidMoves(b, mode), f);
      (r == None <==> forall c :: IsValidMove(b, c, mode) ==> !f(c)) &&
      (r.Some? ==> (IsValidMove(b, r.value, mode) && f(r.value) &&
         forall c :: IsValidMove(b, c, mode) && LexLess(c, r.value) ==> !f(c)))
  {
    var ms := ValidMoves(b, mode);
    FirstWhereSpec(ms, f);
    var r := FirstWhere(ms, f);
    forall c | IsValidMove(b, c, mode) ensures exists k :: 0 <= k < |ms| && ms[k] == c {
      assert c in ms;
    }
    if r.Some? {
      var i :| 0 <= i < |ms| && ms[i] == r.value && f(ms[i]) && forall j :: 0 <= j < i ==> !f(ms[j]);
      assert ms[i] in ms;
      forall c | IsValidMove(b, c, mode) && LexLess(c, r.value) ensures !f(c) {
        var k :| 0 <= k < |ms| && ms[k] == c;
        ValidMovesBefore(b, mode, k, i);
      }
    }
  }

  /** A legal move earlier in z, y, x order comes earlier in the list. */
  lemma ValidMovesBefore(b: Board, mode: Mode, k: nat, i: nat)
    requires b.Valid() && k < |ValidMoves(b, mode)| && i < |ValidMoves(b, mode)|
    requires LexLess(ValidMoves(b, mode)[k], ValidMoves(b, mode)[i])
    ensures k < i
  {
    ValidMovesAscending(b, mode);
  }

  /** The first winning move among the legal moves wins and no legal move
      earlier in z, y, x order does; there is none exactly when no legal move wins. */
  lemma FirstLegalWin(b: Board, mode: Mode, p: Player)
    requires b.Valid()
    ensures var r := FirstWinning(b, ValidMoves(b, mode), p);
      (r == None <==> forall c :: IsValidMove(b, c, mode) ==> !WinsWith(b, c, p)) &&
      (r.Some? ==> (IsValidMove(b, r.value, mode) && WinsWith(b, r.value, p) &&
         forall c :: IsValidMove(b, c, mode) && LexLess(c, r.value) ==> !WinsWith(b, c, p)))
  {
    FirstLegal(b, mode, c => InBounds(b.size, c) && WinsWith(b, c, p));
  }

  /** getBestMove returns nothing exactly when there is no legal move, and
      otherwise a legal move. */
  lemma BestMoveIsLegal(b: Board, player: Player, mode: Mode, depth: nat)
    requires b.Valid() && 1 <= depth
    ensures BestMove(b, player, mode, depth) == None <==> ValidMoves(b, mode) == []
    ensures BestMove(b, player, mode, depth).Some? ==> BestMove(b, player, mode, depth).value in ValidMoves(b, mode)
  {
    if ValidMoves(b, mode) != [] {
      FirstLegalWin(b, mode, player);
      FirstLegalWin(b, mode, Opponent(player));
      RootMoveLegal(b, player, mode, depth);
    }
  }

  /** The move the root loop settles on, or the first ordered move, is legal. */
  lemma RootMoveLegal(b: Board, player: Player, mode: Mode, depth: nat)
    requires b.Valid() && 1 <= depth && ValidMoves(b, mode) != []
    ensures var sorted := OrderedMoves(b, mode);
      var isMax := player == X;
      var c := Loop(b.size, b.cells, sorted, 0, depth, NegInf, PosInf, isMax, mode, Initial(isMax), None, true);
      (if c.move.Some? then c.move.value else sorted[0]) in ValidMoves(b, mode)
  {
    var sorted := OrderedMoves(b, mode);
    assert sorted[0] in sorted;
  }

  /** An immediate win is always taken, and it is the first one in z, y, x order. */
  lemma BestMoveTakesWin(b: Board, player: Player, mode: Mode, depth: nat, c: Coord)
    requires b.Valid() && 1 <= depth && IsValidMove(b, c, mode) && WinsWith(b, c, player)
    ensures var r := BestMove(b, player, mode, depth);
      r.Some? && IsValidMove(b, r.value, mode) && WinsWith(b, r.value, player) &&
      forall d :: IsValidMove(b, d, mode) && LexLess(d, r.value) ==> !WinsWith(b, d, player)
  {
    FirstLegalWin(b, mode, player);
    assert c in ValidMoves(b, mode);
  }

  /** Without an immediate win, an immediate win of the opponent is blocked,
      at the first such cell in z, y, x order. */
  lemma BestMoveBlocks(b: Board, player: Player, mode: Mode, depth: nat, c: Coord)
    requires b.Valid() && 1 <= depth
    requires forall d :: IsValidMove(b, d, mode) ==> !WinsWith(b, d, player)
    requires IsValidMove(b, c, mode) && WinsWith(b, c, Opponent(player))
    ensures var r := BestMove(b, player, mode, depth);
      r.Some? && IsValidMove(b, r.value, mode) && WinsWith(b, r.value, Opponent(player)) &&
      forall d :: IsValidMove(b, d, mode) && LexLess(d, r.value) ==> !WinsWith(b, d, Opponent(player))
  {
    FirstLegalWin(b, mode, player);
    FirstLegalWin(b, mode, Opponent(player));
    assert c in ValidMoves(b, mode);
  }
}
