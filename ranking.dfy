/** Rank orders: the order in which the selector walks the objects when it looks at them
    from one reference object, and the reciprocal-rank denominator used along that walk. */
module Ranking {

  /** A distance matrix as the selectors index it: one row of n distances per object. */
  ghost predicate Square(dmx: seq<seq<real>>) {
    forall i :: 0 <= i < |dmx| ==> |dmx[i]| == |dmx|
  }

  /** The index column 0, 1, ..., n-1 that both selectors write next to a row of distances. */
  function Iota(n: nat): (r: seq<nat>)
    ensures |r| == n
    ensures forall p :: 0 <= p < n ==> r[p] == p
  {
    if n == 0 then [] else Iota(n - 1) + [n - 1]
  }

  /** The index column, read as a rank order, is one: every object sits at its own index. */
  lemma IotaOrder(n: nat)
    ensures IsOrder(Iota(n), n)
    ensures forall k :: 0 <= k < n ==> IndexOf(Iota(n), k) == k
  {
    var o := Iota(n);
    forall k | 0 <= k < n
      ensures k in o
    {
      assert o[k] == k;
    }
    forall k | 0 <= k < n
      ensures IndexOf(o, k) == k
    {
      IndexOfAt(o, n, k);
    }
  }

  /** Object `a` comes before object `b` when the objects are ranked by their distance in `row`:
      the smaller distance first, equal distances by the smaller index. */
  predicate Precedes(row: seq<real>, a: nat, b: nat)
    requires a < |row| && b < |row|
  {
    row[a] < row[b] || (row[a] == row[b] && a < b)
  }

  /** `o` lists every object 0..n-1 exactly once. */
  ghost predicate IsOrder(o: seq<nat>, n: nat) {
    && |o| == n
    && (forall p :: 0 <= p < n ==> o[p] < n)
    && (forall k :: 0 <= k < n ==> k in o)
    && (forall p, q :: 0 <= p < q < n ==> o[p] != o[q])
  }

  /** Every element of `o` is a valid object index for `row`, and `o` is ascending in the
      (distance, index) order. */
  ghost predicate RankedBy(row: seq<real>, o: seq<nat>) {
    && (forall p :: 0 <= p < |o| ==> o[p] < |row|)
    && (forall p, q :: 0 <= p < q < |o| ==> Precedes(row, o[p], o[q]))
  }

  /** The rank position of object `k` in the order `o`. */
  function IndexOf(o: seq<nat>, k: nat): (p: nat)
    requires k in o
    ensures p < |o| && o[p] == k
    ensures forall q :: 0 <= q < p ==> o[q] != k
  {
    if o[0] == k then 0 else 1 + IndexOf(o[1..], k)
  }

  lemma IndexOfAt(o: seq<nat>, n: nat, p: nat)
    requires IsOrder(o, n) && p < n
    ensures IndexOf(o, o[p]) == p
  {
  }

  /** The value of the running denominator `div` when the walk reaches rank position `p`:
      it starts at 2 and grows by 1 after every position except `skip`, which adds no rank credit. */
  function Div(skip: nat, p: nat): real
  {
    if p <= skip then (p + 2) as real else (p + 1) as real
  }

  /** Along the positions that do advance it, the denominator grows strictly, so it never
      repeats: the credited positions receive 1/2, 1/3, ... in walk order. */
  lemma DivIncreasing(skip: nat, p: nat, q: nat)
    requires p < q && p != skip && q != skip
    ensures 2.0 <= Div(skip, p) < Div(skip, q)
  {
  }

  /** Python's `sorted(tmp, key=lambda item: item[0])` on the index column: insertion of `x`
      into an already sorted list, in front of the first entry that is not closer. Inserting the
      earlier index in front of equal distances is what makes the sort stable. */
  function InsertByDistance(row: seq<real>, x: nat, s: seq<nat>): (r: seq<nat>)
    requires x < |row| && forall p :: 0 <= p < |s| ==> s[p] < |row|
    ensures |r| == |s| + 1
    ensures forall p :: 0 <= p < |r| ==> r[p] < |row|
  {
    if s == [] || row[x] <= row[s[0]] then [x] + s
    else
      [s[0]] + InsertByDistance(row, x, s[1..])
  }

  function SortByDistance(row: seq<real>, idx: seq<nat>): (r: seq<nat>)
    requires forall p :: 0 <= p < |idx| ==> idx[p] < |row|
    ensures |r| == |idx|
    ensures forall p :: 0 <= p < |r| ==> r[p] < |row|
  {
    if idx == [] then []
    else
      var rest := SortByDistance(row, idx[1..]);
      InsertByDistance(row, idx[0], rest)
  }

  /** Insertion adds `x` and loses nothing. */
  lemma {:induction false} InsertPerm(row: seq<real>, x: nat, s: seq<nat>)
    requires x < |row| && forall p :: 0 <= p < |s| ==> s[p] < |row|
    ensures multiset(InsertByDistance(row, x, s)) == multiset(s) + multiset{x}
  {
    if s != [] && row[x] > row[s[0]] {
      InsertPerm(row, x, s[1..]);
      assert s == [s[0]] + s[1..];
    }
  }

  /** The sort is a permutation of the indices it is given. */
  lemma {:induction false} SortPerm(row: seq<real>, idx: seq<nat>)
    requires forall p :: 0 <= p < |idx| ==> idx[p] < |row|
    ensures multiset(SortByDistance(row, idx)) == multiset(idx)
  {
    if idx != [] {
      var rest := SortByDistance(row, idx[1..]);
      SortPerm(row, idx[1..]);
      InsertPerm(row, idx[0], rest);
      assert idx == [idx[0]] + idx[1..];
    }
  }

  /** The rank order of all objects as seen from the reference whose distances are `row`:
      a permutation of 0..n-1, ascending by distance with ties in ascending index order. */
  function StableOrder(row: seq<real>): (o: seq<nat>)
    ensures IsOrder(o, |row|) && RankedBy(row, o)
  {
    SortIotaRanked(row);
    SortByDistance(row, Iota(|row|))
  }

  lemma {:induction false} InsertRanked(row: seq<real>, x: nat, s: seq<nat>)
    requires x < |row| && RankedBy(row, s)
    requires forall p :: 0 <= p < |s| ==> x < s[p]
    ensures RankedBy(row, InsertByDistance(row, x, s))
  {
    if s == [] || row[x] <= row[s[0]] {
      forall q | 0 <= q < |s|
        ensures Precedes(row, x, s[q])
      {
        if q > 0 {
          assert Precedes(row, s[0], s[q]);
        }
      }
      PrependRanked(row, x, s);
    } else {
      var t := InsertByDistance(row, x, s[1..]);
      InsertRanked(row, x, s[1..]);
      InsertPerm(row, x, s[1..]);
      forall q | 0 <= q < |t|
        ensures Precedes(row, s[0], t[q])
      {
        assert t[q] in multiset(t);
        assert t[q] == x || t[q] in s[1..];
      }
      PrependRanked(row, s[0], t);
    }
  }

  /** An object that precedes every entry of a ranked list can go in front of it. */
  lemma PrependRanked(row: seq<real>, a: nat, s: seq<nat>)
    requires a < |row| && RankedBy(row, s)
    requires forall q :: 0 <= q < |s| ==> Precedes(row, a, s[q])
    ensures RankedBy(row, [a] + s)
  {
    var r := [a] + s;
    forall p, q | 0 <= p < q < |r|
      ensures Precedes(row, r[p], r[q])
    {
      if p > 0 {
        assert r[p] == s[p - 1];
      }
    }
  }

  lemma {:induction false} SortRanked(row: seq<real>, idx: seq<nat>)
    requires forall p :: 0 <= p < |idx| ==> idx[p] < |row|
    requires forall p, q :: 0 <= p < q < |idx| ==> idx[p] < idx[q]
    ensures RankedBy(row, SortByDistance(row, idx))
  {
    if idx != [] {
      var rest := SortByDistance(row, idx[1..]);
      SortRanked(row, idx[1..]);
      SortPerm(row, idx[1..]);
      forall p | 0 <= p < |rest|
        ensures idx[0] < rest[p]
      {
        assert rest[p] in multiset(idx[1..]);
      }
      InsertRanked(row, idx[0], rest);
    }
  }

  /** The stable sort of the index column is a permutation of the objects, ascending by
      distance with ties in ascending index order. */
  lemma SortIotaRanked(row: seq<real>)
    ensures IsOrder(SortByDistance(row, Iota(|row|)), |row|)
    ensures RankedBy(row, SortByDistance(row, Iota(|row|)))
  {
    var n := |row|;
    var o := SortByDistance(row, Iota(n));
    SortRanked(row, Iota(n));
    SortPerm(row, Iota(n));
    forall k | 0 <= k < n
      ensures k in o
    {
      assert Iota(n)[k] == k;
      assert k in multiset(Iota(n));
    }
  }

  /** In a ranked permutation, an object that precedes another sits at an earlier rank position. */
  lemma RankedPositions(row: seq<real>, o: seq<nat>, a: nat, b: nat)
    requires IsOrder(o, |row|) && RankedBy(row, o)
    requires a < |row| && b < |row| && Precedes(row, a, b)
    ensures IndexOf(o, a) < IndexOf(o, b)
  {
  }
}
