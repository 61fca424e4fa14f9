/** Position weights (getPositionWeights): a cell's weight is the number of
    winning lines through it. */
module PositionWeighting {
  import opened Types
  import opened Grid
  import opened Lines

  /** How many lines of ls pass through c. */
  function LinesThrough(ls: seq<Line>, c: Coord): nat {
    if ls == [] then 0
    else LinesThrough(ls[..|ls| - 1], c) + (if c in ls[|ls| - 1] then 1 else 0)
  }

  /** The weight of every cell, by flat index. */
  function Weights(n: nat): (w: seq<nat>)
    requires 1 <= n
    ensures |w| == Cube(n)
  {
    seq(Cube(n), i requires 0 <= i < Cube(n) => LinesThrough(WinningLines(n), CoordOf(n, i)))
  }

  /** The weight stored for c counts the lines through c. */
  lemma WeightAt(n: nat, c: Coord)
    requires 1 <= n && InBounds(n, c)
    ensures Weights(n)[Idx(n, c)] == LinesThrough(WinningLines(n), c)
  {
    IdxFacts(n, c);
  }

  function Sum(s: seq<nat>): nat {
    if s == [] then 0 else Sum(s[..|s| - 1]) + s[|s| - 1]
  }

  lemma {:induction false} SumIncrement(s: seq<nat>, i: nat)
    requires i < |s|
    ensures Sum(s[i := s[i] + 1]) == Sum(s) + 1
    decreases |s|
  {
    var t := s[i := s[i] + 1];
    if i < |s| - 1 {
      assert t[..|t| - 1] == s[..|s| - 1][i := s[i] + 1];
      SumIncrement(s[..|s| - 1], i);
    } else {
      assert t[..|t| - 1] == s[..|s| - 1];
    }
  }

  lemma {:induction false} SumZeros(n: nat)
    ensures Sum(seq(n, _ => 0)) == 0
  {
    if n > 0 {
      assert seq(n, _ => 0)[..n - 1] == seq(n - 1, _ => 0);
      SumZeros(n - 1);
    }
  }

  /** getPositionWeights: every winning line adds one to each of its cells, so
      each cell ends with the number of lines through it and the weights add up
      to N times the number of lines. */
  method PositionWeights(n: nat) returns (w: seq<nat>)
    requires 1 <= n
    ensures w == Weights(n)
    ensures Sum(w) == n * LineCount(n)
  {
    var weights := new nat[Cube(n)](_ => 0);
    assert weights[..] == seq(Cube(n), _ => 0);
    SumZeros(Cube(n));
    var lines := WinningLines(n);
    LinesWellFormed(n);
    CountLines(weights, n, lines);
    LineCountIs(n);
    TotalLengthUniform(lines, n);
    w := weights[..];
    WeightsByCoord(n, w);
  }

  /** The loop over the lines: from all zeros, each cell ends with the
      number of lines through it, and the table sums to their total length. */
  method CountLines(weights: array<nat>, n: nat, lines: seq<Line>)
    requires 1 <= n && weights.Length == Cube(n) && forall k :: 0 <= k < |lines| ==> WellFormed(n, lines[k])
    requires forall i :: 0 <= i < weights.Length ==> weights[i] == 0
    requires Sum(weights[..]) == 0
    modifies weights
    ensures forall c :: InBounds(n, c) ==> weights[Idx(n, c)] == LinesThrough(lines, c)
    ensures Sum(weights[..]) == TotalLength(lines)
  {
    for k := 0 to |lines|
      invariant forall c :: InBounds(n, c) ==> weights[Idx(n, c)] == LinesThrough(lines[..k], c)
      invariant Sum(weights[..]) == TotalLength(lines[..k])
    {
      CountLine(weights, n, lines[k]);
      assert lines[..k + 1][..k] == lines[..k];
    }
    assert lines[..|lines|] == lines;
  }

  /** The total number of cells on the lines of ls, counted with repetition. */
  function TotalLength(ls: seq<Line>): nat {
    if ls == [] then 0 else TotalLength(ls[..|ls| - 1]) + |ls[|ls| - 1]|
  }

  lemma {:induction false} TotalLengthUniform(ls: seq<Line>, n: nat)
    requires forall k :: 0 <= k < |ls| ==> WellFormed(n, ls[k])
    ensures TotalLength(ls) == n * |ls|
  {
    if ls != [] {
      TotalLengthUniform(ls[..|ls| - 1], n);
      assert n * |ls| == n * (|ls| - 1) + n;
    }
  }

  /** A table that holds, at every coordinate, the number of lines through it
      is the weight table. */
  lemma WeightsByCoord(n: nat, w: seq<nat>)
    requires 1 <= n && |w| == Cube(n)
    requires forall c :: InBounds(n, c) ==> w[Idx(n, c)] == LinesThrough(WinningLines(n), c)
    ensures w == Weights(n)
  {
    forall i | 0 <= i < Cube(n) ensures w[i] == Weights(n)[i] {
      CoordOfFacts(n, i);
    }
  }

  /** Adds one to the weight of every cell of the line. */
  method CountLine(weights: array<nat>, n: nat, line: Line)
    requires 1 <= n && weights.Length == Cube(n) && WellFormed(n, line)
    modifies weights
    ensures forall c :: InBounds(n, c) ==>
      weights[Idx(n, c)] == old(weights[Idx(n, c)]) + (if c in line then 1 else 0)
    ensures Sum(weights[..]) == old(Sum(weights[..])) + |line|
  {
    for j := 0 to |line|
      invariant forall c :: InBounds(n, c) ==>
        weights[Idx(n, c)] == old(weights[Idx(n, c)]) + (if c in line[..j] then 1 else 0)
      invariant Sum(weights[..]) == old(Sum(weights[..])) + j
    {
      var cur := line[j];
      forall c | InBounds(n, c) { IdxInjective(n, c, cur); }
      assert cur !in line[..j];
      assert line[..j + 1] == line[..j] + [cur];
      SumIncrement(weights[..], Idx(n, cur));
      weights[Idx(n, cur)] := weights[Idx(n, cur)] + 1;
    }
    assert line[..|line|] == line;
  }
}
