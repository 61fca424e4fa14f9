/** The static evaluation of a position (evaluateBoard): material weighted by
    position, plus a score for every winning line still open to one player,
    plus a bonus for holding two or more strong threats. Positive favours X. */
module Heuristic {
  import opened Types
  import opened Grid
  import opened Lines
  import opened PositionWeighting

  const WinLineScore: int := 100000
  const ThreatScore: int := 1000
  const PotentialScore: int := 10
  const ForkBonus: int := 50000

  /** The signed weight of one cell: +w for X, -w for O, 0 when empty. */
  function CellScore(v: Cell, w: nat): int {
    match v
    case Empty => 0
    case Filled(X) => w
    case Filled(O) => -(w as int)
  }

  /** The material of the first i cells. */
  function Material(cells: seq<Cell>, w: seq<nat>, i: nat): int
    requires |w| == |cells| && i <= |cells|
  {
    if i == 0 then 0 else Material(cells, w, i - 1) + CellScore(cells[i - 1], w[i - 1])
  }

  /** How many of the first j cells of line l hold p's piece. */
  function CountIn(b: Board, l: Line, p: Player, j: nat): nat
    requires b.Valid() && j <= |l| && forall i :: 0 <= i < |l| ==> InBounds(b.size, l[i])
  {
    if j == 0 then 0 else CountIn(b, l, p, j - 1) + (if Get(b, l[j - 1]) == Filled(p) then 1 else 0)
  }

  /** The running line score and the two threat counters. */
  datatype Tally = Tally(score: int, xThreats: nat, oThreats: nat)

  /** What one line adds, given how many X and O pieces it holds on a board of
      side n: only a line with pieces of one player only scores. */
  function LineTally(t: Tally, xCount: nat, oCount: nat, n: nat): Tally {
    if xCount > 0 && oCount == 0 then
      if xCount == n then t.(score := t.score + WinLineScore)
      else if xCount == n - 1 then Tally(t.score + ThreatScore, t.xThreats + 1, t.oThreats)
      else t.(score := t.score + PotentialScore)
    else if oCount > 0 && xCount == 0 then
      if oCount == n then t.(score := t.score - WinLineScore)
      else if oCount == n - 1 then Tally(t.score - ThreatScore, t.xThreats, t.oThreats + 1)
      else t.(score := t.score - PotentialScore)
    else t
  }

  /** The tally over the first k lines of ls. */
  function TallyUpTo(b: Board, ls: seq<Line>, k: nat): Tally
    requires b.Valid() && k <= |ls| && forall j :: 0 <= j < |ls| ==> WellFormed(b.size, ls[j])
  {
    if k == 0 then Tally(0, 0, 0)
    else
      var l := ls[k - 1];
      LineTally(TallyUpTo(b, ls, k - 1), CountIn(b, l, X, |l|), CountIn(b, l, O, |l|), b.size)
  }

  function Forks(t: Tally): int {
    (if t.xThreats >= 2 then ForkBonus else 0) - (if t.oThreats >= 2 then ForkBonus else 0)
  }

  /** evaluateBoard's value. */
  function Evaluate(b: Board): int
    requires b.Valid()
  {
    LinesWellFormed(b.size);
    var t := TallyUpTo(b, WinningLines(b.size), |WinningLines(b.size)|);
    Material(b.cells, Weights(b.size), Cube(b.size)) + t.score + Forks(t)
  }

  // ---------------------------------------------------------------------------
  // evaluateBoard, with its loops

  /** evaluateBoard: the material loop (one loop over the flat index, in z, y, x
      order), then the loop over the winning lines with its counting loop, then
      the fork bonuses. */
  method EvaluateBoard(b: Board) returns (score: int)
    requires b.Valid()
    ensures score == Evaluate(b)
  {
    var size := b.size;
    var positionWeights := PositionWeights(size);
    score := MaterialLoop(b, positionWeights);
    LinesWellFormed(size);
    var t := LineLoop(b, WinningLines(size), score);
    score := t.score;
    if t.xThreats >= 2 {
      score := score + ForkBonus;
    }
    if t.oThreats >= 2 {
      score := score - ForkBonus;
    }
  }

  /** The material loop of evaluateBoard. */
  method MaterialLoop(b: Board, positionWeights: seq<nat>) returns (score: int)
    requires b.Valid() && |positionWeights| == |b.cells|
    ensures score == Material(b.cells, positionWeights, |b.cells|)
  {
    score := 0;
    for i := 0 to |b.cells|
      invariant score == Material(b.cells, positionWeights, i)
    {
      var cell := b.cells[i];
      if cell == Filled(X) {
        score := score + positionWeights[i];
      } else if cell == Filled(O) {
        score := score - positionWeights[i];
      }
    }
  }

  /** The line loop of evaluateBoard, starting from the material score. */
  method LineLoop(b: Board, winningLines: seq<Line>, material: int) returns (t: Tally)
    requires b.Valid() && forall j :: 0 <= j < |winningLines| ==> WellFormed(b.size, winningLines[j])
    ensures t == Shifted(TallyUpTo(b, winningLines, |winningLines|), material)
  {
    t := Tally(material, 0, 0);
    for k := 0 to |winningLines|
      invariant t == Shifted(TallyUpTo(b, winningLines, k), material)
    {
      var line := winningLines[k];
      var xCount, oCount := CountPieces(b, line);
      ShiftTally(TallyUpTo(b, winningLines, k), material, xCount, oCount, b.size);
      t := LineTally(t, xCount, oCount, b.size);
    }
  }

  /** The tally with s added to its score. */
  function Shifted(t: Tally, s: int): Tally { t.(score := s + t.score) }

  /** A line tally does not depend on the score it starts from. */
  lemma ShiftTally(t: Tally, s: int, xCount: nat, oCount: nat, n: nat)
    ensures LineTally(Shifted(t, s), xCount, oCount, n) == Shifted(LineTally(t, xCount, oCount, n), s)
  {
  }

  /** The numbers of X and O pieces on a line. */
  method CountPieces(b: Board, line: Line) returns (xCount: nat, oCount: nat)
    requires b.Valid() && WellFormed(b.size, line)
    ensures xCount == CountIn(b, line, X, |line|) && oCount == CountIn(b, line, O, |line|)
  {
    xCount, oCount := 0, 0;
    for j := 0 to |line|
      invariant xCount == CountIn(b, line, X, j) && oCount == CountIn(b, line, O, j)
    {
      var cell := Get(b, line[j]);
      if cell == Filled(X) {
        xCount := xCount + 1;
      } else if cell == Filled(O) {
        oCount := oCount + 1;
      }
    }
  }

  // ---------------------------------------------------------------------------
  // Antisymmetry

  function SwapCell(v: Cell): Cell {
    match v
    case Empty => Empty
    case Filled(p) => Filled(Opponent(p))
  }

  /** The board with every X and O exchanged. */
  function Swap(b: Board): (r: Board)
    requires b.Valid()
    ensures r.Valid() && r.size == b.size
    ensures forall c :: InBounds(b.size, c) ==> Get(r, c) == SwapCell(Get(b, c))
  {
    Board(b.size, seq(|b.cells|, i requires 0 <= i < |b.cells| => SwapCell(b.cells[i])))
  }

  lemma {:induction false} MaterialSwap(b: Board, w: seq<nat>, i: nat)
    requires b.Valid() && |w| == |b.cells| && i <= |b.cells|
    ensures Material(Swap(b).cells, w, i) == -Material(b.cells, w, i)
  {
    if i > 0 {
      MaterialSwap(b, w, i - 1);
    }
  }

  lemma {:induction false} CountSwap(b: Board, l: Line, p: Player, j: nat)
    requires b.Valid() && j <= |l| && forall i :: 0 <= i < |l| ==> InBounds(b.size, l[i])
    ensures CountIn(Swap(b), l, p, j) == CountIn(b, l, Opponent(p), j)
  {
    if j > 0 {
      CountSwap(b, l, p, j - 1);
      var v := Get(b, l[j - 1]);
      assert Get(Swap(b), l[j - 1]) == SwapCell(v);
    }
  }

  /** The tally mirrored: score negated and the threat counters exchanged. */
  function Mirror(t: Tally): Tally { Tally(-t.score, t.oThreats, t.xThreats) }

  lemma LineTallyMirror(t: Tally, xCount: nat, oCount: nat, n: nat)
    ensures LineTally(Mirror(t), oCount, xCount, n) == Mirror(LineTally(t, xCount, oCount, n))
  {
  }

  lemma {:induction false} TallySwap(b: Board, ls: seq<Line>, k: nat)
    requires b.Valid() && k <= |ls| && forall j :: 0 <= j < |ls| ==> WellFormed(b.size, ls[j])
    ensures TallyUpTo(Swap(b), ls, k) == Mirror(TallyUpTo(b, ls, k))
  {
    if k > 0 {
      TallySwap(b, ls, k - 1);
      var l := ls[k - 1];
      CountSwap(b, l, X, |l|);
      CountSwap(b, l, O, |l|);
      LineTallyMirror(TallyUpTo(b, ls, k - 1), CountIn(b, l, X, |l|), CountIn(b, l, O, |l|), b.size);
    }
  }

  /** Exchanging X and O everywhere negates the evaluation. */
  lemma EvaluateAntisymmetric(b: Board)
    requires b.Valid()
    ensures Evaluate(Swap(b)) == -Evaluate(b)
  {
    LinesWellFormed(b.size);
    var ls := WinningLines(b.size);
    MaterialSwap(b, Weights(b.size), Cube(b.size));
    TallySwap(b, ls, |ls|);
  }

  lemma {:induction false} MaterialZero(cells: seq<Cell>, w: seq<nat>, i: nat)
    requires |w| == |cells| && i <= |cells|
    requires forall j :: 0 <= j < |cells| ==> cells[j] == Empty
    ensures Material(cells, w, i) == 0
  {
    if i > 0 {
      MaterialZero(cells, w, i - 1);
    }
  }

  lemma {:induction false} CountZero(b: Board, l: Line, p: Player, j: nat)
    requires b.Valid() && j <= |l| && forall i :: 0 <= i < |l| ==> InBounds(b.size, l[i])
    requires forall i :: 0 <= i < |b.cells| ==> b.cells[i] == Empty
    ensures CountIn(b, l, p, j) == 0
  {
    if j > 0 {
      CountZero(b, l, p, j - 1);
    }
  }

  lemma {:induction false} TallyZero(b: Board, ls: seq<Line>, k: nat)
    requires b.Valid() && k <= |ls| && forall j :: 0 <= j < |ls| ==> WellFormed(b.size, ls[j])
    requires forall i :: 0 <= i < |b.cells| ==> b.cells[i] == Empty
    ensures TallyUpTo(b, ls, k) == Tally(0, 0, 0)
  {
    if k > 0 {
      TallyZero(b, ls, k - 1);
      CountZero(b, ls[k - 1], X, |ls[k - 1]|);
      CountZero(b, ls[k - 1], O, |ls[k - 1]|);
    }
  }

  /** A board without pieces evaluates to 0. */
  lemma EvaluateEmpty(b: Board)
    requires b.Valid() && forall i :: 0 <= i < |b.cells| ==> b.cells[i] == Empty
    ensures Evaluate(b) == 0
  {
    LinesWellFormed(b.size);
    MaterialZero(b.cells, Weights(b.size), Cube(b.size));
    TallyZero(b, WinningLines(b.size), |WinningLines(b.size)|);
  }
}
