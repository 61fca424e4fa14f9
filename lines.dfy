/** The winning lines of an N×N×N board (generateWinningLines): rows, columns,
    pillars, two diagonals in every slice of each of the three plane families,
    and the four space diagonals, in the order the game enumerates them. */
module Lines {
  import opened Types
  import opened Grid

  type Line = seq<Coord>

  /** One level of concatenation. */
  function Flatten<T>(ss: seq<seq<T>>): seq<T>
  {
    if ss == [] then [] else ss[0] + Flatten(ss[1..])
  }

  /** x varies; one line per (z, y), z outermost. */
  function Rows(n: nat): seq<Line> {
    Flatten(seq(n, z => seq(n, y => seq(n, x => Coord(x, y, z)))))
  }

  /** y varies; one line per (z, x), z outermost. */
  function Columns(n: nat): seq<Line> {
    Flatten(seq(n, z => seq(n, x => seq(n, y => Coord(x, y, z)))))
  }

  /** z varies; one line per (y, x), y outermost. */
  function Pillars(n: nat): seq<Line> {
    Flatten(seq(n, y => seq(n, x => seq(n, z => Coord(x, y, z)))))
  }

  /** The two diagonals of every layer z. */
  function XYDiagonals(n: nat): seq<Line> {
    Flatten(seq(n, z => [seq(n, i => Coord(i, i, z)), seq(n, i => Coord(i, n - 1 - i, z))]))
  }

  /** The two diagonals of every slice y. */
  function XZDiagonals(n: nat): seq<Line> {
    Flatten(seq(n, y => [seq(n, i => Coord(i, y, i)), seq(n, i => Coord(i, y, n - 1 - i))]))
  }

  /** The two diagonals of every slice x. */
  function YZDiagonals(n: nat): seq<Line> {
    Flatten(seq(n, x => [seq(n, i => Coord(x, i, i)), seq(n, i => Coord(x, i, n - 1 - i))]))
  }

  /** The four corner-to-corner diagonals of the cube. */
  function SpaceDiagonals(n: nat): seq<Line> {
    [ seq(n, i => Coord(i, i, i)),
      seq(n, i => Coord(i, i, n - 1 - i)),
      seq(n, i => Coord(i, n - 1 - i, i)),
      seq(n, i => Coord(i, n - 1 - i, n - 1 - i)) ]
  }

  /** Every winning line of a board of side n, in generation order. */
  function WinningLines(n: nat): seq<Line> {
    Rows(n) + Columns(n) + Pillars(n) + XYDiagonals(n) + XZDiagonals(n) + YZDiagonals(n)
      + SpaceDiagonals(n)
  }

  function LineCount(n: nat): nat { 3 * n * n + 6 * n + 4 }

  /** A line of a board of side n: n in-bounds cells, pairwise distinct. */
  ghost predicate WellFormed(n: nat, l: Line) {
    && |l| == n
    && (forall i :: 0 <= i < |l| ==> InBounds(n, l[i]))
    && (forall i, j :: 0 <= i < j < |l| ==> l[i] != l[j])
  }

  // ---------------------------------------------------------------------------
  // Flatten

  lemma {:induction false} FlattenLength<T>(ss: seq<seq<T>>, m: nat)
    requires forall i :: 0 <= i < |ss| ==> |ss[i]| == m
    ensures |Flatten(ss)| == |ss| * m
  {
    if ss != [] {
      FlattenLength(ss[1..], m);
      assert |Flatten(ss)| == m + (|ss| - 1) * m;
    }
  }

  lemma {:induction false} FlattenIn<T>(ss: seq<seq<T>>, x: T)
    ensures x in Flatten(ss) <==> exists i :: 0 <= i < |ss| && x in ss[i]
  {
    if ss != [] {
      FlattenIn(ss[1..], x);
      if x in Flatten(ss[1..]) {
        var i :| 0 <= i < |ss[1..]| && x in ss[1..][i];
        assert x in ss[i + 1];
      }
      if exists i :: 0 <= i < |ss| && x in ss[i] {
        var i :| 0 <= i < |ss| && x in ss[i];
        if i > 0 {
          assert x in ss[1..][i - 1];
        }
      }
    }
  }

  // ---------------------------------------------------------------------------
  // The promised shape of the line set

  lemma AxisFamilySizes(n: nat)
    ensures |Rows(n)| == n * n && |Columns(n)| == n * n && |Pillars(n)| == n * n
  {
    FlattenLength(seq(n, z => seq(n, y => seq(n, x => Coord(x, y, z)))), n);
    FlattenLength(seq(n, z => seq(n, x => seq(n, y => Coord(x, y, z)))), n);
    FlattenLength(seq(n, y => seq(n, x => seq(n, z => Coord(x, y, z)))), n);
  }

  lemma DiagonalFamilySizes(n: nat)
    ensures |XYDiagonals(n)| == 2 * n && |XZDiagonals(n)| == 2 * n && |YZDiagonals(n)| == 2 * n
  {
    FlattenLength(seq(n, z => [seq(n, i => Coord(i, i, z)), seq(n, i => Coord(i, n - 1 - i, z))]), 2);
    FlattenLength(seq(n, y => [seq(n, i => Coord(i, y, i)), seq(n, i => Coord(i, y, n - 1 - i))]), 2);
    FlattenLength(seq(n, x => [seq(n, i => Coord(x, i, i)), seq(n, i => Coord(x, i, n - 1 - i))]), 2);
  }

  /** There are 3N² axis-aligned lines, 6N face diagonals and 4 space diagonals. */
  lemma LineCountIs(n: nat)
    ensures |WinningLines(n)| == LineCount(n)
  {
    AxisFamilySizes(n);
    DiagonalFamilySizes(n);
    var sq := n * n;
    assert |WinningLines(n)| == 3 * sq + 6 * n + 4;
    assert 3 * n * n == 3 * sq;
  }

  lemma RowsWellFormed(n: nat, l: Line)
    requires l in Rows(n)
    ensures WellFormed(n, l)
  {
    var ss := seq(n, z => seq(n, y => seq(n, x => Coord(x, y, z))));
    FlattenIn(ss, l);
    var z :| 0 <= z < n && l in ss[z];
    var y :| 0 <= y < n && l == ss[z][y];
  }

  lemma ColumnsWellFormed(n: nat, l: Line)
    requires l in Columns(n)
    ensures WellFormed(n, l)
  {
    var ss := seq(n, z => seq(n, x => seq(n, y => Coord(x, y, z))));
    FlattenIn(ss, l);
    var z :| 0 <= z < n && l in ss[z];
    var x :| 0 <= x < n && l == ss[z][x];
  }

  lemma PillarsWellFormed(n: nat, l: Line)
    requires l in Pillars(n)
    ensures WellFormed(n, l)
  {
    var ss := seq(n, y => seq(n, x => seq(n, z => Coord(x, y, z))));
    FlattenIn(ss, l);
    var y :| 0 <= y < n && l in ss[y];
    var x :| 0 <= x < n && l == ss[y][x];
  }

  lemma XYDiagonalsWellFormed(n: nat, l: Line)
    requires l in XYDiagonals(n)
    ensures WellFormed(n, l)
  {
    var ss := seq(n, z => [seq(n, i => Coord(i, i, z)), seq(n, i => Coord(i, n - 1 - i, z))]);
    FlattenIn(ss, l);
    var z :| 0 <= z < n && l in ss[z];
  }

  lemma XZDiagonalsWellFormed(n: nat, l: Line)
    requires l in XZDiagonals(n)
    ensures WellFormed(n, l)
  {
    var ss := seq(n, y => [seq(n, i => Coord(i, y, i)), seq(n, i => Coord(i, y, n - 1 - i))]);
    FlattenIn(ss, l);
    var y :| 0 <= y < n && l in ss[y];
  }

  lemma YZDiagonalsWellFormed(n: nat, l: Line)
    requires l in YZDiagonals(n)
    ensures WellFormed(n, l)
  {
    var ss := seq(n, x => [seq(n, i => Coord(x, i, i)), seq(n, i => Coord(x, i, n - 1 - i))]);
    FlattenIn(ss, l);
    var x :| 0 <= x < n && l in ss[x];
  }

  lemma SpaceDiagonalsWellFormed(n: nat, l: Line)
    requires l in SpaceDiagonals(n)
    ensures WellFormed(n, l)
  {
  }

  /** Every winning line has length N, lies on the board and repeats no cell. */
  lemma LinesWellFormed(n: nat)
    ensures forall k :: 0 <= k < |WinningLines(n)| ==> WellFormed(n, WinningLines(n)[k])
  {
    forall k | 0 <= k < |WinningLines(n)|
      ensures WellFormed(n, WinningLines(n)[k])
    {
      var l := WinningLines(n)[k];
      assert l in WinningLines(n);
      if l in Rows(n) {
        RowsWellFormed(n, l);
      } else if l in Columns(n) {
        ColumnsWellFormed(n, l);
      } else if l in Pillars(n) {
        PillarsWellFormed(n, l);
      } else if l in XYDiagonals(n) {
        XYDiagonalsWellFormed(n, l);
      } else if l in XZDiagonals(n) {
        XZDiagonalsWellFormed(n, l);
      } else if l in YZDiagonals(n) {
        YZDiagonalsWellFormed(n, l);
      } else {
        SpaceDiagonalsWellFormed(n, l);
      }
    }
  }

  /** One winning line, well formed. */
  lemma LineWellFormed(n: nat, k: nat)
    requires k < |WinningLines(n)|
    ensures WellFormed(n, WinningLines(n)[k])
  {
    LinesWellFormed(n);
  }
}
