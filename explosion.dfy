/** Explosions: a maximal run of exactly three same-player pieces along one of 13
    directions explodes, together with any opposing piece directly beyond either
    end of the run (checkExplosion), and the whole-board scan that collects all
    such explosions while skipping cells already recorded (checkAllExplosions). */
module Explosions {
  import opened Types
  import opened Grid

  // ---------------------------------------------------------------------------
  // Directions and walks

  predicate NonZero(d: Coord) { d != Coord(0, 0, 0) }

  /** The 13 directions, one per opposite pair, in the order the game tries them. */
  function Directions(): (ds: seq<Coord>)
    ensures |ds| == 13
    ensures forall k :: 0 <= k < |ds| ==> NonZero(ds[k])
  {
    [ Coord(1, 0, 0), Coord(0, 1, 0), Coord(0, 0, 1),
      Coord(1, 1, 0), Coord(1, -1, 0),
      Coord(1, 0, 1), Coord(1, 0, -1),
      Coord(0, 1, 1), Coord(0, 1, -1),
      Coord(1, 1, 1), Coord(1, 1, -1), Coord(1, -1, 1), Coord(1, -1, -1) ]
  }

  /** The first nonzero component of d is positive: d stands for the pair {d, -d}. */
  predicate Canonical(d: Coord) {
    d.x > 0 || (d.x == 0 && (d.y > 0 || (d.y == 0 && d.z > 0)))
  }

  /** Every direction is the canonical one of its pair, so none is the reverse
      of another, and no direction is repeated. */
  lemma DirectionsDistinct()
    ensures forall k :: 0 <= k < 13 ==> Canonical(Directions()[k]) && !Canonical(Neg(Directions()[k]))
    ensures forall i, j :: 0 <= i < j < 13 ==> Directions()[i] != Directions()[j]
  {
    var ds := Directions();
    forall i | 0 <= i < 13 ensures forall j :: i < j < 13 ==> ds[i] != ds[j] {
    }
  }

  function Step(c: Coord, d: Coord): Coord { Coord(c.x + d.x, c.y + d.y, c.z + d.z) }

  function Neg(d: Coord): Coord { Coord(-d.x, -d.y, -d.z) }

  /** How many more steps along d can stay on an n-board: the distance to the
      edge in the first nonzero component of d. */
  function Span(n: nat, c: Coord, d: Coord): nat {
    var v :=
      if d.x != 0 then (if d.x > 0 then n - c.x else c.x + 1)
      else if d.y != 0 then (if d.y > 0 then n - c.y else c.y + 1)
      else (if d.z > 0 then n - c.z else c.z + 1);
    if v < 0 then 0 else v
  }

  /** The cells from c along d that are on the board and hold p's piece, up to
      the first that does not. */
  function RunFrom(b: Board, c: Coord, p: Player, d: Coord): seq<Coord>
    requires b.Valid() && NonZero(d)
    decreases Span(b.size, c, d)
  {
    if InBounds(b.size, c) && Get(b, c) == Filled(p) then [c] + RunFrom(b, Step(c, d), p, d)
    else []
  }

  /** The first cell from c along d that is off the board or not p's. */
  function RunEnd(b: Board, c: Coord, p: Player, d: Coord): Coord
    requires b.Valid() && NonZero(d)
    decreases Span(b.size, c, d)
  {
    if InBounds(b.size, c) && Get(b, c) == Filled(p) then RunEnd(b, Step(c, d), p, d)
    else c
  }

  /** The walk is the maximal run: consecutive steps along d, every cell p's, and
      the cell one step beyond it is off the board or not p's. */
  lemma {:induction false} RunFacts(b: Board, c: Coord, p: Player, d: Coord)
    requires b.Valid() && NonZero(d)
    ensures var r := RunFrom(b, c, p, d);
      && (forall i :: 0 <= i < |r| ==> InBounds(b.size, r[i]) && Get(b, r[i]) == Filled(p))
      && (r != [] ==> r[0] == c)
      && (forall i :: 0 <= i < |r| - 1 ==> r[i + 1] == Step(r[i], d))
      && RunEnd(b, c, p, d) == (if r == [] then c else Step(r[|r| - 1], d))
    ensures !(InBounds(b.size, RunEnd(b, c, p, d)) && Get(b, RunEnd(b, c, p, d)) == Filled(p))
    decreases Span(b.size, c, d)
  {
    if InBounds(b.size, c) && Get(b, c) == Filled(p) {
      RunFacts(b, Step(c, d), p, d);
      var rest := RunFrom(b, Step(c, d), p, d);
      var r := RunFrom(b, c, p, d);
      assert r == [c] + rest;
      if rest != [] {
        assert r[1] == Step(c, d);
        assert r[|r| - 1] == rest[|rest| - 1];
      }
    }
  }

  /** [c] when c is on the board and holds a piece other than p's. */
  function OpponentAt(b: Board, c: Coord, p: Player): seq<Coord>
    requires b.Valid()
  {
    if InBounds(b.size, c) && Get(b, c) != Empty && Get(b, c) != Filled(p) then [c] else []
  }

  /** The run through m along ±d: m, then the forward run, then the backward run. */
  function Line(b: Board, m: Coord, p: Player, d: Coord): seq<Coord>
    requires b.Valid() && NonZero(d)
  {
    [m] + RunFrom(b, Step(m, d), p, d) + RunFrom(b, Step(m, Neg(d)), p, Neg(d))
  }

  /** The opposing pieces directly beyond the forward end and the backward end. */
  function Bracket(b: Board, m: Coord, p: Player, d: Coord): seq<Coord>
    requires b.Valid() && NonZero(d)
  {
    OpponentAt(b, RunEnd(b, Step(m, d), p, d), p)
      + OpponentAt(b, RunEnd(b, Step(m, Neg(d)), p, Neg(d)), p)
  }

  /** What one direction adds: the run and its bracketing opponents when the run
      is exactly three long, nothing otherwise. */
  function Contribution(b: Board, m: Coord, p: Player, d: Coord): seq<Coord>
    requires b.Valid() && NonZero(d)
  {
    if |Line(b, m, p, d)| == 3 then Line(b, m, p, d) + Bracket(b, m, p, d) else []
  }

  /** The run through m starts at m and holds only p's pieces on the board. */
  lemma LineCells(b: Board, m: Coord, p: Player, d: Coord)
    requires b.Valid() && NonZero(d) && InBounds(b.size, m) && Get(b, m) == Filled(p)
    ensures var line := Line(b, m, p, d);
      && |line| == 1 + |RunFrom(b, Step(m, d), p, d)| + |RunFrom(b, Step(m, Neg(d)), p, Neg(d))|
      && line[0] == m
      && (forall i :: 0 <= i < |line| ==> InBounds(b.size, line[i]) && Get(b, line[i]) == Filled(p))
  {
    var fwd := RunFrom(b, Step(m, d), p, d);
    var bwd := RunFrom(b, Step(m, Neg(d)), p, Neg(d));
    RunFacts(b, Step(m, d), p, d);
    RunFacts(b, Step(m, Neg(d)), p, Neg(d));
    var line := Line(b, m, p, d);
    forall i | 0 <= i < |line| ensures InBounds(b.size, line[i]) && Get(b, line[i]) == Filled(p) {
      if i > 0 {
        if i - 1 < |fwd| {
          assert line[i] == fwd[i - 1];
        } else {
          assert line[i] == bwd[i - 1 - |fwd|];
        }
      }
    }
  }

  /** The bracketing cells are opposing pieces on the board, at most two. */
  lemma BracketCells(b: Board, m: Coord, p: Player, d: Coord)
    requires b.Valid() && NonZero(d)
    ensures var br := Bracket(b, m, p, d);
      && |br| <= 2
      && (forall i :: 0 <= i < |br| ==> InBounds(b.size, br[i]) && Get(b, br[i]) != Empty && Get(b, br[i]) != Filled(p))
  {
  }

  /** A direction contributes exactly when its run is three long; the run starts
      at m, its other cells are p's pieces on the board, and everything added
      beyond the run is an opposing piece on the board. */
  lemma ContributionFacts(b: Board, m: Coord, p: Player, d: Coord)
    requires b.Valid() && NonZero(d) && InBounds(b.size, m) && Get(b, m) == Filled(p)
    ensures var con := Contribution(b, m, p, d);
      && (con != [] <==> |RunFrom(b, Step(m, d), p, d)| + |RunFrom(b, Step(m, Neg(d)), p, Neg(d))| == 2)
      && (con != [] ==> 3 <= |con| <= 5 && con[0] == m)
      && (forall i :: 0 <= i < |con| ==> InBounds(b.size, con[i]) && Get(b, con[i]) != Empty)
      && (forall i :: 3 <= i < |con| ==> Get(b, con[i]) != Filled(p))
  {
    LineCells(b, m, p, d);
    BracketCells(b, m, p, d);
    var line := Line(b, m, p, d);
    var br := Bracket(b, m, p, d);
    if |line| == 3 {
      var con := line + br;
      forall i | 0 <= i < |con| ensures InBounds(b.size, con[i]) && Get(b, con[i]) != Empty {
        if i >= 3 {
          assert con[i] == br[i - 3];
        }
      }
      forall i | 3 <= i < |con| ensures Get(b, con[i]) != Filled(p) {
        assert con[i] == br[i - 3];
      }
    }
  }

  /** The contributions of the 13 directions from m, in the order tried. */
  function Contributions(b: Board, m: Coord, p: Player): (cs: seq<seq<Coord>>)
    requires b.Valid()
    ensures |cs| == 13
    ensures forall k :: 0 <= k < 13 ==> cs[k] == Contribution(b, m, p, Directions()[k])
  {
    var ds := Directions();
    seq(13, k requires 0 <= k < 13 => Contribution(b, m, p, ds[k]))
  }

  /** The concatenation of the first k sequences of cs. */
  function ConcatUpTo(cs: seq<seq<Coord>>, k: nat): seq<Coord>
    requires k <= |cs|
  {
    if k == 0 then [] else ConcatUpTo(cs, k - 1) + cs[k - 1]
  }

  lemma {:induction false} ConcatMembers(cs: seq<seq<Coord>>, k: nat, x: Coord)
    requires k <= |cs|
    ensures x in ConcatUpTo(cs, k) <==> exists j :: 0 <= j < k && x in cs[j]
  {
    if k > 0 {
      ConcatMembers(cs, k - 1, x);
    }
  }

  /** checkExplosion's answer: nothing for an empty cell, otherwise the
      contributions of all 13 directions, in order (a cell may appear twice). */
  function Explosion(b: Board, m: Coord): seq<Coord>
    requires b.Valid() && InBounds(b.size, m)
  {
    if Get(b, m) == Empty then []
    else
      var cs := Contributions(b, m, Get(b, m).player);
      ConcatUpTo(cs, |cs|)
  }

  /** An empty last-move cell yields nothing; otherwise a cell is in
      checkExplosion's answer exactly when one of the 13 directions contributes it. */
  lemma ExplosionMembers(b: Board, m: Coord, x: Coord)
    requires b.Valid() && InBounds(b.size, m)
    ensures Get(b, m) == Empty ==> Explosion(b, m) == []
    ensures Get(b, m) != Empty ==>
      (x in Explosion(b, m) <==>
        exists j :: 0 <= j < 13 && x in Contribution(b, m, Get(b, m).player, Directions()[j]))
  {
    if Get(b, m) != Empty {
      var cs := Contributions(b, m, Get(b, m).player);
      ConcatMembers(cs, 13, x);
      if x in Explosion(b, m) {
        var j :| 0 <= j < 13 && x in cs[j];
      }
    }
  }

  /** Empty neighbours are never exploded: every cell of checkExplosion's answer
      is an occupied cell of the board. */
  lemma ExplosionOccupied(b: Board, m: Coord, x: Coord)
    requires b.Valid() && InBounds(b.size, m) && x in Explosion(b, m)
    ensures InBounds(b.size, x) && Get(b, x) != Empty
  {
    var p := Get(b, m).player;
    ExplosionMembers(b, m, x);
    var j :| 0 <= j < 13 && x in Contribution(b, m, p, Directions()[j]);
    ContributionFacts(b, m, p, Directions()[j]);
  }

  /** The last move itself explodes whenever anything does. */
  lemma ExplosionHasAnchor(b: Board, m: Coord)
    requires b.Valid() && InBounds(b.size, m) && Explosion(b, m) != []
    ensures m in Explosion(b, m)
  {
    var p := Get(b, m).player;
    var e := Explosion(b, m);
    assert e[0] in e;
    ExplosionMembers(b, m, e[0]);
    var j :| 0 <= j < 13 && e[0] in Contribution(b, m, p, Directions()[j]);
    ContributionFacts(b, m, p, Directions()[j]);
    ExplosionMembers(b, m, m);
  }

  // ---------------------------------------------------------------------------
  // checkExplosion, with the cursor loops

  /** Appends to line the cells from start along d that hold p's piece, stopping
      at the first cell that is off the board or not p's, which it returns. */
  method Walk(b: Board, line: seq<Coord>, start: Coord, p: Player, d: Coord)
    returns (line': seq<Coord>, current: Coord)
    requires b.Valid() && NonZero(d)
    ensures line' == line + RunFrom(b, start, p, d)
    ensures current == RunEnd(b, start, p, d)
  {
    line' := line;
    current := start;
    while InBounds(b.size, current) && Get(b, current) == Filled(p)
      invariant line' + RunFrom(b, current, p, d) == line + RunFrom(b, start, p, d)
      invariant RunEnd(b, current, p, d) == RunEnd(b, start, p, d)
      decreases Span(b.size, current, d)
    {
      assert RunFrom(b, current, p, d) == [current] + RunFrom(b, Step(current, d), p, d);
      line' := line' + [current];
      current := Step(current, d);
    }
  }

  /** The opposing piece at current, if there is one. */
  method Beyond(b: Board, opponents: seq<Coord>, current: Coord, p: Player)
    returns (opponents': seq<Coord>)
    requires b.Valid()
    ensures opponents' == opponents + OpponentAt(b, current, p)
  {
    opponents' := opponents;
    if InBounds(b.size, current) {
      var cell := Get(b, current);
      if cell != Empty && cell != Filled(p) {
        opponents' := opponents' + [current];
      }
    }
  }

  /** One direction of the search around m: the run through m and the opposing
      pieces beyond its ends. */
  method ScanDirection(b: Board, m: Coord, p: Player, d: Coord)
    returns (line: seq<Coord>, opponents: seq<Coord>)
    requires b.Valid() && NonZero(d)
    ensures line == Line(b, m, p, d) && opponents == Bracket(b, m, p, d)
  {
    var current;
    line, current := Walk(b, [m], Step(m, d), p, d);
    opponents := Beyond(b, [], current, p);
    line, current := Walk(b, line, Step(m, Neg(d)), p, Neg(d));
    opponents := Beyond(b, opponents, current, p);
  }

  /** checkExplosion: the cells exploded by the piece at lastMove. */
  method CheckExplosion(b: Board, lastMove: Coord) returns (exploded: seq<Coord>)
    requires b.Valid() && InBounds(b.size, lastMove)
    ensures exploded == Explosion(b, lastMove)
  {
    var player := Get(b, lastMove);
    if player == Empty {
      return [];
    }
    ghost var cs := Contributions(b, lastMove, player.player);
    exploded := [];
    var directions := Directions();
    for k := 0 to 13
      invariant exploded == ConcatUpTo(cs, k)
    {
      var line, opponents := ScanDirection(b, lastMove, player.player, directions[k]);
      if |line| == 3 {
        exploded := exploded + line;
        exploded := exploded + opponents;
      }
    }
  }

  // ---------------------------------------------------------------------------
  // checkAllExplosions

  ghost predicate NoDup(s: seq<Coord>) {
    forall i, j :: 0 <= i < j < |s| ==> s[i] != s[j]
  }

  /** acc extended by the cells of cs it does not yet hold, in order. */
  function AddNew(acc: seq<Coord>, cs: seq<Coord>): seq<Coord>
    decreases |cs|
  {
    if cs == [] then acc
    else AddNew(if cs[0] in acc then acc else acc + [cs[0]], cs[1..])
  }

  /** Adding keeps acc as a prefix, adds exactly the cells of cs, and never
      introduces a duplicate. */
  lemma {:induction false} AddNewFacts(acc: seq<Coord>, cs: seq<Coord>)
    ensures |acc| <= |AddNew(acc, cs)| && AddNew(acc, cs)[..|acc|] == acc
    ensures forall x :: x in AddNew(acc, cs) <==> x in acc || x in cs
    ensures NoDup(acc) ==> NoDup(AddNew(acc, cs))
    decreases |cs|
  {
    if cs != [] {
      var acc' := if cs[0] in acc then acc else acc + [cs[0]];
      AddNewFacts(acc', cs[1..]);
      assert acc'[..|acc|] == acc;
      assert AddNew(acc, cs)[..|acc|] == AddNew(acc, cs)[..|acc'|][..|acc|];
      forall x ensures x in cs <==> x == cs[0] || x in cs[1..] {
        assert cs == [cs[0]] + cs[1..];
      }
    }
  }

  lemma {:induction false} AddNewAppend(acc: seq<Coord>, s: seq<Coord>, t: seq<Coord>)
    ensures AddNew(AddNew(acc, s), t) == AddNew(acc, s + t)
    decreases |s|
  {
    if s == [] {
      assert s + t == t;
    } else {
      var acc' := if s[0] in acc then acc else acc + [s[0]];
      AddNewAppend(acc', s[1..], t);
      assert (s + t)[0] == s[0];
      assert (s + t)[1..] == s[1..] + t;
    }
  }

  /** The record after adding the sequences cs[k..] in turn, starting from acc. */
  function AddEach(cs: seq<seq<Coord>>, k: nat, acc: seq<Coord>): seq<Coord>
    requires k <= |cs|
    decreases |cs| - k
  {
    if k == |cs| then acc else AddEach(cs, k + 1, AddNew(acc, cs[k]))
  }

  /** The scan's record after visiting flat indices i and later, starting from
      acc: empty anchors and anchors already recorded are skipped, and every
      other anchor adds the contributions of its 13 directions. */
  function ScanFrom(b: Board, i: nat, acc: seq<Coord>): seq<Coord>
    requires b.Valid() && i <= Cube(b.size)
    decreases Cube(b.size) - i
  {
    if i == Cube(b.size) then acc
    else ScanFrom(b, i + 1, ScanStep(b, i, acc))
  }

  /** The record after visiting flat index i. */
  function ScanStep(b: Board, i: nat, acc: seq<Coord>): seq<Coord>
    requires b.Valid() && i < Cube(b.size)
  {
    var c := CoordOf(b.size, i);
    var v := b.cells[i];
    if v == Empty || c in acc then acc else AddEach(Contributions(b, c, v.player), 0, acc)
  }

  /** checkAllExplosions' answer. */
  function AllExplosions(b: Board): seq<Coord>
    requires b.Valid()
  {
    ScanFrom(b, 0, [])
  }

  /** Records the cells of cs not yet checked, in order; `checked` mirrors the
      cells recorded so far. */
  method RecordNew(exploded: seq<Coord>, checked: set<Coord>, cs: seq<Coord>)
    returns (exploded': seq<Coord>, checked': set<Coord>)
    requires forall x :: x in checked <==> x in exploded
    ensures exploded' == AddNew(exploded, cs)
    ensures forall x :: x in checked' <==> x in exploded'
  {
    exploded', checked' := exploded, checked;
    for j := 0 to |cs|
      invariant AddNew(exploded', cs[j..]) == AddNew(exploded, cs)
      invariant forall x :: x in checked' <==> x in exploded'
    {
      assert cs[j..][0] == cs[j] && cs[j..][1..] == cs[j + 1..];
      if cs[j] !in checked' {
        exploded' := exploded' + [cs[j]];
        checked' := checked' + {cs[j]};
      }
    }
    assert cs[|cs|..] == [];
  }

  /** checkAllExplosions: every occupied cell not yet recorded is an anchor for
      the 13-direction search, and the cells of each run of exactly three and its
      bracketing opponents are recorded once, in discovery order. The z, y, x
      nested loops are one loop over the flat index, which visits cells in the
      same order. */
  method CheckAllExplosions(b: Board) returns (explodedCells: seq<Coord>)
    requires b.Valid()
    ensures explodedCells == AllExplosions(b)
  {
    var n := b.size;
    explodedCells := [];
    var checked: set<Coord> := {};
    for i := 0 to Cube(n)
      invariant ScanFrom(b, i, explodedCells) == AllExplosions(b)
      invariant forall x :: x in checked <==> x in explodedCells
    {
      var player := b.cells[i];
      var coord := CoordOf(n, i);
      if player == Empty || coord in checked {
        continue;
      }
      explodedCells, checked := ScanAnchor(b, coord, player.player, explodedCells, checked);
    }
  }

  /** The 13-direction search from one anchor inside checkAllExplosions: each run
      of exactly three records its cells, then its bracketing opponents. */
  method ScanAnchor(b: Board, coord: Coord, p: Player, exploded: seq<Coord>, checked: set<Coord>)
    returns (exploded': seq<Coord>, checked': set<Coord>)
    requires b.Valid()
    requires forall x :: x in checked <==> x in exploded
    ensures exploded' == AddEach(Contributions(b, coord, p), 0, exploded)
    ensures forall x :: x in checked' <==> x in exploded'
  {
    ghost var cs := Contributions(b, coord, p);
    exploded', checked' := exploded, checked;
    var directions := Directions();
    for k := 0 to 13
      invariant AddEach(cs, k, exploded') == AddEach(cs, 0, exploded)
      invariant forall x :: x in checked' <==> x in exploded'
    {
      var line, opponents := ScanDirection(b, coord, p, directions[k]);
      if |line| == 3 {
        ghost var before := exploded';
        exploded', checked' := RecordNew(exploded', checked', line);
        exploded', checked' := RecordNew(exploded', checked', opponents);
        AddNewAppend(before, line, opponents);
      }
    }
  }

  // ---------------------------------------------------------------------------
  // What the scan guarantees

  /** Cell x is exploded by the piece at some occupied anchor. */
  ghost predicate Explained(b: Board, x: Coord)
    requires b.Valid()
  {
    exists a :: InBounds(b.size, a) && Get(b, a) != Empty && x in Explosion(b, a)
  }

  /** Adding sequences in turn keeps what was recorded, adds exactly their
      cells, and introduces no duplicate. */
  lemma {:induction false} AddEachFacts(cs: seq<seq<Coord>>, k: nat, acc: seq<Coord>)
    requires k <= |cs|
    ensures forall x :: x in AddEach(cs, k, acc) <==> x in acc || exists j :: k <= j < |cs| && x in cs[j]
    ensures NoDup(acc) ==> NoDup(AddEach(cs, k, acc))
    decreases |cs| - k
  {
    if k < |cs| {
      AddNewFacts(acc, cs[k]);
      AddEachFacts(cs, k + 1, AddNew(acc, cs[k]));
    }
  }

  /** One visit keeps the record, adds only explained cells and never duplicates. */
  lemma ScanStepFacts(b: Board, i: nat, acc: seq<Coord>)
    requires b.Valid() && i < Cube(b.size)
    ensures forall x :: x in acc ==> x in ScanStep(b, i, acc)
    ensures forall x :: x in ScanStep(b, i, acc) ==> x in acc || Explained(b, x)
    ensures NoDup(acc) ==> NoDup(ScanStep(b, i, acc))
  {
    var c := CoordOf(b.size, i);
    CoordOfFacts(b.size, i);
    var v := b.cells[i];
    if v != Empty && c !in acc {
      var cs := Contributions(b, c, v.player);
      AddEachFacts(cs, 0, acc);
      forall x | x in ScanStep(b, i, acc) && x !in acc ensures Explained(b, x) {
        var j :| 0 <= j < 13 && x in cs[j];
        ExplosionMembers(b, c, x);
      }
    }
  }

  /** Visiting an anchor whose explosion is nonempty records it. */
  lemma ScanStepAnchor(b: Board, i: nat, acc: seq<Coord>)
    requires b.Valid() && i < Cube(b.size)
    ensures InBounds(b.size, CoordOf(b.size, i))
    ensures Explosion(b, CoordOf(b.size, i)) != [] ==> CoordOf(b.size, i) in ScanStep(b, i, acc)
  {
    var c := CoordOf(b.size, i);
    CoordOfFacts(b.size, i);
    var v := b.cells[i];
    if v != Empty && c !in acc && Explosion(b, c) != [] {
      var cs := Contributions(b, c, v.player);
      AddEachFacts(cs, 0, acc);
      ExplosionHasAnchor(b, c);
      ExplosionMembers(b, c, c);
      var j :| 0 <= j < 13 && c in Contribution(b, c, v.player, Directions()[j]);
      assert c in cs[j];
    }
  }

  lemma {:induction false} ScanFacts(b: Board, i: nat, acc: seq<Coord>)
    requires b.Valid() && i <= Cube(b.size)
    ensures forall x :: x in acc ==> x in ScanFrom(b, i, acc)
    ensures forall x :: x in ScanFrom(b, i, acc) ==> x in acc || Explained(b, x)
    ensures NoDup(acc) ==> NoDup(ScanFrom(b, i, acc))
    decreases Cube(b.size) - i
  {
    if i < Cube(b.size) {
      ScanStepFacts(b, i, acc);
      ScanFacts(b, i + 1, ScanStep(b, i, acc));
    }
  }

  /** An anchor at index i or later whose own explosion is nonempty is recorded. */
  lemma {:induction false} ScanFindsAnchor(b: Board, i: nat, acc: seq<Coord>, a: Coord)
    requires b.Valid() && i <= Cube(b.size) && InBounds(b.size, a)
    requires i <= Idx(b.size, a) && Explosion(b, a) != []
    ensures a in ScanFrom(b, i, acc)
    decreases Cube(b.size) - i
  {
    ScanStepAnchor(b, i, acc);
    CoordOfFacts(b.size, i);
    if i == Idx(b.size, a) {
      IdxInjective(b.size, a, CoordOf(b.size, i));
      ScanFacts(b, i + 1, ScanStep(b, i, acc));
    } else {
      ScanFindsAnchor(b, i + 1, ScanStep(b, i, acc), a);
    }
  }

  /** checkAllExplosions records each cell at most once; everything it records is
      an occupied cell that checkExplosion from some occupied anchor would return;
      and every occupied anchor whose own explosion is nonempty is recorded. */
  lemma AllExplosionsFacts(b: Board)
    requires b.Valid()
    ensures NoDup(AllExplosions(b))
    ensures forall x :: x in AllExplosions(b) ==> Explained(b, x)
    ensures forall x :: x in AllExplosions(b) ==> InBounds(b.size, x) && Get(b, x) != Empty
    ensures forall a :: InBounds(b.size, a) && Explosion(b, a) != [] ==> a in AllExplosions(b)
  {
    ScanFacts(b, 0, []);
    forall x | x in AllExplosions(b) ensures InBounds(b.size, x) && Get(b, x) != Empty {
      var a :| InBounds(b.size, a) && Get(b, a) != Empty && x in Explosion(b, a);
      ExplosionOccupied(b, a, x);
    }
    forall a | InBounds(b.size, a) && Explosion(b, a) != [] ensures a in AllExplosions(b) {
      ScanFindsAnchor(b, 0, [], a);
    }
  }

  /** The scan finds nothing exactly when no occupied cell explodes anything. */
  lemma AllExplosionsEmptyIff(b: Board)
    requires b.Valid()
    ensures AllExplosions(b) == [] <==> forall a :: InBounds(b.size, a) ==> Explosion(b, a) == []
  {
    AllExplosionsFacts(b);
    if AllExplosions(b) != [] {
      var x := AllExplosions(b)[0];
      assert Explained(b, x);
    }
  }
}
