/** The Gravity-mode chain reaction (processGravityCascade): clear the initial
    explosion, then repeat "apply gravity, scan the whole board, clear what the
    scan found" until a scan finds nothing. */
module Cascade {
  import opened Types
  import opened Grid
  import opened Rules
  import opened Gravity
  import opened Explosions

  /** The cells of cs, each once, in order of first appearance. */
  function Dedup(cs: seq<Coord>): seq<Coord> {
    AddNew([], cs)
  }

  /** b with every cell of cs emptied, the last one last. */
  function ClearList(b: Board, cs: seq<Coord>): (r: Board)
    requires b.Valid() && forall k :: 0 <= k < |cs| ==> InBounds(b.size, cs[k])
    ensures r.Valid() && r.size == b.size
    decreases |cs|
  {
    if cs == [] then b else Set(ClearList(b, cs[..|cs| - 1]), cs[|cs| - 1], Empty)
  }

  /** Clearing never adds a piece, and removes at least one when the first
      listed cell holds a piece. */
  lemma {:induction false} ClearListCount(b: Board, cs: seq<Coord>)
    requires b.Valid() && forall k :: 0 <= k < |cs| ==> InBounds(b.size, cs[k])
    ensures PieceCount(ClearList(b, cs)) <= PieceCount(b)
    ensures cs != [] && Get(b, cs[0]) != Empty ==> PieceCount(ClearList(b, cs)) < PieceCount(b)
    decreases |cs|
  {
    if cs != [] {
      var front := cs[..|cs| - 1];
      ClearListCount(b, front);
      ClearCount(ClearList(b, front), cs[|cs| - 1]);
      if |cs| > 1 {
        assert front[0] == cs[0];
      }
    }
  }

  /** Exactly the listed cells are emptied; every other cell is kept. */
  lemma {:induction false} ClearListGet(b: Board, cs: seq<Coord>, c: Coord)
    requires b.Valid() && forall k :: 0 <= k < |cs| ==> InBounds(b.size, cs[k])
    requires InBounds(b.size, c)
    ensures Get(ClearList(b, cs), c) == if c in cs then Empty else Get(b, c)
    decreases |cs|
  {
    if cs != [] {
      var front := cs[..|cs| - 1];
      ClearListGet(b, front, c);
      assert cs == front + [cs[|cs| - 1]];
    }
  }

  /** Empties every cell of cs, in order. */
  method ClearCells(b: Board, cs: seq<Coord>) returns (r: Board)
    requires b.Valid() && forall k :: 0 <= k < |cs| ==> InBounds(b.size, cs[k])
    ensures r.Valid() && r.size == b.size
    ensures r == ClearList(b, cs)
    ensures forall c :: InBounds(b.size, c) ==>
      Get(r, c) == if c in cs then Empty else Get(b, c)
    ensures PieceCount(r) <= PieceCount(b)
    ensures cs != [] && Get(b, cs[0]) != Empty ==> PieceCount(r) < PieceCount(b)
  {
    r := b;
    for j := 0 to |cs|
      invariant r == ClearList(b, cs[..j])
    {
      assert cs[..j + 1][..j] == cs[..j];
      r := Set(r, cs[j], Empty);
    }
    assert cs[..|cs|] == cs;
    ClearListCount(b, cs);
    forall c | InBounds(b.size, c) ensures Get(r, c) == if c in cs then Empty else Get(b, c) {
      ClearListGet(b, cs, c);
    }
  }

  /** What the cascade loop computes from a board bd and the cells recorded so
      far: apply gravity, scan the whole board, and either stop or clear what
      the scan found, record its new cells and go round again. It ends because
      a scan that finds anything finds an occupied cell first, and gravity
      keeps the piece count. */
  ghost function CascadeFrom(bd: Board, acc: seq<Coord>): (Board, seq<Coord>)
    requires bd.Valid()
    decreases PieceCount(bd)
  {
    var s := Settle(bd);
    var e := AllExplosions(s);
    if e == [] then (s, acc)
    else
      AllExplosionsFacts(s);
      SettleKeepsCount(bd);
      ClearListCount(s, e);
      CascadeFrom(ClearList(s, e), AddNew(acc, e))
  }

  /** The cascade ends on a settled board with no explosion anywhere, keeps the
      cells recorded before it as a prefix, records no cell twice and only cells
      of the board, and never adds a piece. */
  lemma {:induction false} CascadeFacts(bd: Board, acc: seq<Coord>, first: seq<Coord>)
    requires bd.Valid()
    requires |first| <= |acc| && acc[..|first|] == first && NoDup(acc)
    requires forall x :: x in acc ==> InBounds(bd.size, x)
    ensures var (r, all) := CascadeFrom(bd, acc);
      r.Valid() && r.size == bd.size && Settled(r) && AllExplosions(r) == [] &&
      PieceCount(r) <= PieceCount(bd) &&
      |first| <= |all| && all[..|first|] == first && NoDup(all) &&
      forall x :: x in all ==> InBounds(bd.size, x)
    decreases PieceCount(bd)
  {
    var s := Settle(bd);
    var e := AllExplosions(s);
    SettleIsSettled(bd);
    SettleKeepsCount(bd);
    AllExplosionsFacts(s);
    if e != [] {
      ClearListCount(s, e);
      RecordKeeps(acc, e, first, bd.size);
      CascadeFacts(ClearList(s, e), AddNew(acc, e), first);
    }
  }

  /** One round of the cascade: gravity, then either the end or a clear and a
      record of what the scan found, which removes at least one piece. */
  lemma CascadeStep(bd: Board, acc: seq<Coord>)
    requires bd.Valid()
    ensures var s := Settle(bd);
      var e := AllExplosions(s);
      PieceCount(s) == PieceCount(bd) &&
      (forall k :: 0 <= k < |e| ==> InBounds(s.size, e[k])) &&
      (e != [] ==> PieceCount(ClearList(s, e)) < PieceCount(bd)) &&
      CascadeFrom(bd, acc) ==
        if e == [] then (s, acc) else CascadeFrom(ClearList(s, e), AddNew(acc, e))
  {
    var s := Settle(bd);
    AllExplosionsFacts(s);
    SettleKeepsCount(bd);
    ClearListCount(s, AllExplosions(s));
  }

  /** What processGravityCascade promises about its result. */
  lemma CascadeResult(b: Board, initialExploded: seq<Coord>)
    requires b.Valid()
    requires forall k :: 0 <= k < |initialExploded| ==> InBounds(b.size, initialExploded[k])
    ensures var (board, allExploded) := CascadeFrom(ClearList(b, initialExploded), Dedup(initialExploded));
      var first := Dedup(initialExploded);
      board.Valid() && board.size == b.size && Settled(board) && AllExplosions(board) == [] &&
      (forall a :: InBounds(board.size, a) ==> Explosion(board, a) == []) &&
      |first| <= |allExploded| && allExploded[..|first|] == first && NoDup(allExploded) &&
      forall x :: x in allExploded ==> InBounds(b.size, x)
  {
    var first := Dedup(initialExploded);
    AddNewFacts([], initialExploded);
    CascadeFacts(ClearList(b, initialExploded), first, first);
    AllExplosionsEmptyIff(CascadeFrom(ClearList(b, initialExploded), first).0);
  }

  /** A settled board with no explosion is left as it is, with nothing recorded. */
  lemma CascadeAtRest(bd: Board, acc: seq<Coord>)
    requires bd.Valid() && Settled(bd) && AllExplosions(bd) == []
    ensures CascadeFrom(bd, acc) == (bd, acc)
  {
    SettledFixed(bd);
  }

  /** Recording more board cells keeps the record free of repeats, on the board,
      and starting with the same prefix. */
  lemma RecordKeeps(acc: seq<Coord>, cs: seq<Coord>, first: seq<Coord>, n: nat)
    requires |first| <= |acc| && acc[..|first|] == first && NoDup(acc)
    requires forall x :: x in acc ==> InBounds(n, x)
    requires forall x :: x in cs ==> InBounds(n, x)
    ensures var r := AddNew(acc, cs);
      |first| <= |r| && r[..|first|] == first && NoDup(r) && forall x :: x in r ==> InBounds(n, x)
  {
    AddNewFacts(acc, cs);
    var r := AddNew(acc, cs);
    assert r[..|first|] == r[..|acc|][..|first|];
  }

  /** processGravityCascade: the result is the cascade from the board with the
      initial cells cleared, having recorded the initial cells without repeats.
      So the returned board has no floating piece and no explosion anywhere, and
      allExploded starts with the initial cells, never repeats a cell and holds
      only cells of the board. */
  method ProcessGravityCascade(b: Board, initialExploded: seq<Coord>)
    returns (board: Board, allExploded: seq<Coord>)
    requires b.Valid()
    requires forall k :: 0 <= k < |initialExploded| ==> InBounds(b.size, initialExploded[k])
    ensures (board, allExploded) == CascadeFrom(ClearList(b, initialExploded), Dedup(initialExploded))
    ensures board.Valid() && board.size == b.size
    ensures Settled(board)
    ensures AllExplosions(board) == []
    ensures forall a :: InBounds(board.size, a) ==> Explosion(board, a) == []
    ensures |Dedup(initialExploded)| <= |allExploded|
    ensures allExploded[..|Dedup(initialExploded)|] == Dedup(initialExploded)
    ensures NoDup(allExploded)
    ensures forall x :: x in allExploded ==> InBounds(b.size, x)
  {
    var currentBoard := b;
    allExploded := [];
    var explodedSet: set<Coord> := {};
    allExploded, explodedSet := RecordNew(allExploded, explodedSet, initialExploded);
    currentBoard := ClearCells(currentBoard, initialExploded);
    ghost var goal := CascadeFrom(currentBoard, allExploded);

    var hasMoreExplosions := true;
    while hasMoreExplosions
      invariant currentBoard.Valid() && currentBoard.size == b.size
      invariant hasMoreExplosions ==> CascadeFrom(currentBoard, allExploded) == goal
      invariant !hasMoreExplosions ==> (currentBoard, allExploded) == goal
      invariant forall x :: x in explodedSet <==> x in allExploded
      decreases PieceCount(currentBoard) + if hasMoreExplosions then 1 else 0
    {
      CascadeStep(currentBoard, allExploded);
      currentBoard := ApplyGravity(currentBoard);
      var newExplosions := CheckAllExplosions(currentBoard);
      if |newExplosions| == 0 {
        hasMoreExplosions := false;
      } else {
        allExploded, explodedSet := RecordNew(allExploded, explodedSet, newExplosions);
        currentBoard := ClearCells(currentBoard, newExplosions);
      }
    }
    board := currentBoard;
    CascadeResult(b, initialExploded);
  }
}
