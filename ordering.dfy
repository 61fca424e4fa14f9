/** Search scores with the two infinite sentinels, and the move ordering used
    before every alpha-beta loop (highest position weight first). */
module Ordering {
  import opened Types
  import opened Grid

  /** A score of the search: an integer, or one of the sentinels -Infinity and
      +Infinity with which the best score and the alpha-beta window start. */
  datatype Ext = NegInf | Fin(v: int) | PosInf

  /** The strict order of the extended integers. */
  predicate Less(a: Ext, b: Ext) {
    if a == b then false
    else a.NegInf? || b.PosInf? || (a.Fin? && b.Fin? && a.v < b.v)
  }

  /** Less is a strict total order, extending the order of the integers. */
  lemma LessIsTotalOrder(a: Ext, b: Ext, c: Ext)
    ensures !Less(a, a)
    ensures Less(a, b) ==> !Less(b, a)
    ensures Less(a, b) && Less(b, c) ==> Less(a, c)
    ensures a != b ==> Less(a, b) || Less(b, a)
    ensures a.Fin? && b.Fin? ==> (Less(a, b) <==> a.v < b.v)
    ensures Less(NegInf, b) <==> b != NegInf
    ensures Less(a, PosInf) <==> a != PosInf
  {
  }

  /** Math.max on scores. */
  function Max(a: Ext, b: Ext): (r: Ext)
    ensures (r == a || r == b) && !Less(r, a) && !Less(r, b)
  {
    if Less(a, b) then b else a
  }

  /** Math.min on scores. */
  function Min(a: Ext, b: Ext): (r: Ext)
    ensures (r == a || r == b) && !Less(a, r) && !Less(b, r)
  {
    if Less(b, a) then b else a
  }

  // ---------------------------------------------------------------------------
  // Sorting moves by weight

  predicate AllInBounds(n: nat, cs: seq<Coord>) {
    forall k :: 0 <= k < |cs| ==> InBounds(n, cs[k])
  }

  /** s with m placed after every element whose key is at least m's. */
  function Insert(key: Coord -> nat, m: Coord, s: seq<Coord>): seq<Coord> {
    if s == [] then [m]
    else if key(s[0]) >= key(m) then [s[0]] + Insert(key, m, s[1..])
    else [m] + s
  }

  /** A stable insertion sort, largest key first: elements with equal keys keep
      their original order. */
  function SortBy(key: Coord -> nat, ms: seq<Coord>): seq<Coord> {
    if ms == [] then []
    else Insert(key, ms[|ms| - 1], SortBy(key, ms[..|ms| - 1]))
  }

  /** Keys never increase along s. */
  ghost predicate Descending(key: Coord -> nat, s: seq<Coord>) {
    forall i, j :: 0 <= i < j < |s| ==> key(s[i]) >= key(s[j])
  }

  /** Insert adds m to the elements of s. */
  lemma {:induction false} InsertPermutes(key: Coord -> nat, m: Coord, s: seq<Coord>)
    ensures multiset(Insert(key, m, s)) == multiset(s) + multiset{m}
  {
    if s != [] && key(s[0]) >= key(m) {
      InsertPermutes(key, m, s[1..]);
      assert s == [s[0]] + s[1..];
    }
  }

  lemma {:induction false} InsertDescending(key: Coord -> nat, m: Coord, s: seq<Coord>)
    requires Descending(key, s)
    ensures Descending(key, Insert(key, m, s))
  {
    if s != [] && key(s[0]) >= key(m) {
      InsertDescending(key, m, s[1..]);
      InsertPermutes(key, m, s[1..]);
      var t := Insert(key, m, s[1..]);
      forall x | x in multiset(t) ensures key(s[0]) >= key(x) {
        assert x in multiset(s[1..]) + multiset{m};
        if x != m {
          assert x in s[1..];
        }
      }
      forall j | 0 <= j < |t| ensures key(s[0]) >= key(t[j]) {
        assert t[j] in multiset(t);
      }
    }
  }

  /** The sort returns a permutation of its input, largest key first. */
  lemma {:induction false} SortBySorts(key: Coord -> nat, ms: seq<Coord>)
    ensures multiset(SortBy(key, ms)) == multiset(ms)
    ensures Descending(key, SortBy(key, ms))
  {
    if ms != [] {
      var front := ms[..|ms| - 1];
      SortBySorts(key, front);
      InsertPermutes(key, ms[|ms| - 1], SortBy(key, front));
      assert ms == front + [ms[|ms| - 1]];
      InsertDescending(key, ms[|ms| - 1], SortBy(key, front));
    }
  }

  /** The sorted sequence has the same members, and as many. */
  lemma SortByMembers(key: Coord -> nat, ms: seq<Coord>)
    ensures |SortBy(key, ms)| == |ms|
    ensures forall c :: c in SortBy(key, ms) <==> c in ms
  {
    var r := SortBy(key, ms);
    SortBySorts(key, ms);
    assert |multiset(r)| == |multiset(ms)|;
    forall c ensures c in r <==> c in ms {
      assert c in r <==> c in multiset(r);
      assert c in ms <==> c in multiset(ms);
    }
  }

  /** The elements of s whose key is k, in their order in s. */
  function WithKey(key: Coord -> nat, k: nat, s: seq<Coord>): seq<Coord> {
    if s == [] then []
    else (if key(s[0]) == k then [s[0]] else []) + WithKey(key, k, s[1..])
  }

  lemma {:induction false} WithKeyAppend(key: Coord -> nat, k: nat, a: seq<Coord>, b: seq<Coord>)
    ensures WithKey(key, k, a + b) == WithKey(key, k, a) + WithKey(key, k, b)
  {
    if a == [] {
      assert a + b == b;
    } else {
      var h := if key(a[0]) == k then [a[0]] else [];
      assert (a + b)[0] == a[0] && (a + b)[1..] == a[1..] + b;
      assert WithKey(key, k, a + b) == h + WithKey(key, k, a[1..] + b);
      WithKeyAppend(key, k, a[1..], b);
      assert h + (WithKey(key, k, a[1..]) + WithKey(key, k, b)) ==
        (h + WithKey(key, k, a[1..])) + WithKey(key, k, b);
    }
  }

  /** No element below key k: none has key k. */
  lemma {:induction false} WithKeyNone(key: Coord -> nat, k: nat, s: seq<Coord>)
    requires forall i :: 0 <= i < |s| ==> key(s[i]) < k
    ensures WithKey(key, k, s) == []
  {
    if s != [] {
      WithKeyNone(key, k, s[1..]);
    }
  }

  /** Inserting into a descending sequence puts m after every element with its
      own key. */
  lemma {:induction false} InsertStable(key: Coord -> nat, k: nat, m: Coord, s: seq<Coord>)
    requires Descending(key, s)
    ensures WithKey(key, k, Insert(key, m, s)) ==
      WithKey(key, k, s) + (if key(m) == k then [m] else [])
  {
    if s == [] {
    } else if key(s[0]) >= key(m) {
      InsertStable(key, k, m, s[1..]);
      WithKeyAppend(key, k, [s[0]], Insert(key, m, s[1..]));
    } else {
      WithKeyNone(key, key(m), s);
      WithKeyAppend(key, k, [m], s);
    }
  }

  lemma SortByDescending(key: Coord -> nat, ms: seq<Coord>)
    ensures Descending(key, SortBy(key, ms))
  {
    SortBySorts(key, ms);
  }

  /** The sort is stable: for every key, the elements with that key come out in
      the order they went in. */
  lemma {:induction false} SortByStable(key: Coord -> nat, k: nat, ms: seq<Coord>)
    ensures WithKey(key, k, SortBy(key, ms)) == WithKey(key, k, ms)
  {
    if ms != [] {
      var front := ms[..|ms| - 1];
      var last := ms[|ms| - 1];
      SortByStable(key, k, front);
      SortByDescending(key, front);
      InsertStable(key, k, last, SortBy(key, front));
      assert ms == front + [last];
      WithKeyAppend(key, k, front, [last]);
    }
  }

  /** The weight of a cell, read from the flat weight table w; a coordinate off
      the board, where no move lies, weighs 0. */
  function WeightKey(n: nat, w: seq<nat>): Coord -> nat {
    c => if |w| == Cube(n) && InBounds(n, c) then w[Idx(n, c)] else 0
  }

  /** The comparator (a, b) => weight(b) - weight(a) of a stable sort: heaviest
      first, equal weights in their original order. */
  function SortByWeight(n: nat, w: seq<nat>, ms: seq<Coord>): (r: seq<Coord>)
    requires AllInBounds(n, ms)
    ensures AllInBounds(n, r)
  {
    var r := SortBy(WeightKey(n, w), ms);
    SortByMembers(WeightKey(n, w), ms);
    assert forall k :: 0 <= k < |r| ==> r[k] in ms;
    r
  }

  /** The sort returns a permutation of the moves, each at least as heavy as
      every move after it. */
  lemma SortByWeightSorts(n: nat, w: seq<nat>, ms: seq<Coord>)
    requires |w| == Cube(n) && AllInBounds(n, ms)
    ensures var r := SortByWeight(n, w, ms);
      multiset(r) == multiset(ms) &&
      forall i, j :: 0 <= i < j < |r| ==> w[Idx(n, r[i])] >= w[Idx(n, r[j])]
  {
    var key := WeightKey(n, w);
    var r := SortByWeight(n, w, ms);
    SortBySorts(key, ms);
    forall i, j | 0 <= i < j < |r| ensures w[Idx(n, r[i])] >= w[Idx(n, r[j])] {
      assert key(r[i]) >= key(r[j]);
    }
  }

  /** Moves of equal weight stay in the order of the valid-move list. */
  lemma SortByWeightStable(n: nat, w: seq<nat>, ms: seq<Coord>, k: nat)
    requires AllInBounds(n, ms)
    ensures WithKey(WeightKey(n, w), k, SortByWeight(n, w, ms)) == WithKey(WeightKey(n, w), k, ms)
  {
    SortByStable(WeightKey(n, w), k, ms);
  }

  /** The sorted moves are the same moves: the same members and as many. */
  lemma SortedMembers(n: nat, w: seq<nat>, ms: seq<Coord>)
    requires AllInBounds(n, ms)
    ensures |SortByWeight(n, w, ms)| == |ms|
    ensures forall c :: c in SortByWeight(n, w, ms) <==> c in ms
  {
    SortByMembers(WeightKey(n, w), ms);
  }
}
