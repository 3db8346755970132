/** The selection engine both selectors share, stated on values: the information vector built
    from the rank orders, the contribution removal after a pick, the first-maximum pick, the
    autostop count and the sequence of states the greedy loop goes through.

    A selector is described by its rank orders: `orders[i]` is the order in which it walks the
    objects when it looks at them from object `i`. */
module Greedy {
  import opened Ranking

  ghost predicate ValidOrders(orders: seq<seq<nat>>) {
    forall i :: 0 <= i < |orders| ==> IsOrder(orders[i], |orders|)
  }

  predicate Distinct(s: seq<nat>) {
    forall p, q :: 0 <= p < q < |s| ==> s[p] != s[q]
  }

  // ---------------------------------------------------------------------------------------
  // Building the information vector

  /** What reference row `i` has added to object `k` once the walk over the row's rank order
      `o` has covered positions 0..j-1. Position `i` of the walk (a rank position, compared with
      the row number) adds 1 to object `i` and nothing to the object sitting at that position;
      every other position p adds 1/Div(i, p) to the object sitting there. */
  function RowCredit(o: seq<nat>, i: nat, k: nat, j: nat): real
    requires k in o
  {
    (if i < j && k == i then 1.0 else 0.0)
    + (var p := IndexOf(o, k); if p < j && p != i then 1.0 / Div(i, p) else 0.0)
  }

  /** The score of object `k` once rows 0..m-1 have been walked completely. */
  function InfoEntry(orders: seq<seq<nat>>, k: nat, m: nat): real
    requires ValidOrders(orders) && k < |orders| && m <= |orders|
  {
    if m == 0 then 0.0
    else InfoEntry(orders, k, m - 1) + RowCredit(orders[m - 1], m - 1, k, |orders|)
  }

  /** The information vector once rows 0..m-1 have been walked. */
  function Built(orders: seq<seq<nat>>, m: nat): (v: seq<real>)
    requires ValidOrders(orders) && m <= |orders|
    ensures |v| == |orders|
  {
    seq(|orders|, k requires 0 <= k < |orders| => InfoEntry(orders, k, m))
  }

  /** The information vector after the build: every row walked. */
  function InfoSpec(orders: seq<seq<nat>>): (v: seq<real>)
    requires ValidOrders(orders)
    ensures |v| == |orders|
  {
    Built(orders, |orders|)
  }

  /** The information vector while the build walks row `i`: rows 0..i-1 complete and positions
      0..j-1 of row `i` walked. */
  function Partial(orders: seq<seq<nat>>, i: nat, j: nat): (v: seq<real>)
    requires ValidOrders(orders) && i < |orders|
    ensures |v| == |orders|
  {
    seq(|orders|, k requires 0 <= k < |orders| => InfoEntry(orders, k, i) + RowCredit(orders[i], i, k, j))
  }

  /** The object that position `j` of row `i` credits: object `i` itself at `j == i`, otherwise
      the object sitting at rank position `j`. */
  function Credited(o: seq<nat>, i: nat, j: nat): nat
    requires j < |o|
  {
    if j == i then i else o[j]
  }

  /** The amount position `j` of row `i` credits. */
  function Credit(i: nat, j: nat): real
  {
    if j == i then 1.0 else 1.0 / Div(i, j)
  }

  /** A row starts from the vector the previous rows left and ends in the vector with one more
      row walked. */
  lemma PartialEnds(orders: seq<seq<nat>>, i: nat)
    requires ValidOrders(orders) && i < |orders|
    ensures Partial(orders, i, 0) == Built(orders, i)
    ensures Partial(orders, i, |orders|) == Built(orders, i + 1)
  {
    var n := |orders|;
    var p, b := Partial(orders, i, 0), Built(orders, i);
    forall k | 0 <= k < n
      ensures p[k] == b[k]
    {
    }
    var q, c := Partial(orders, i, n), Built(orders, i + 1);
    forall k | 0 <= k < n
      ensures q[k] == c[k]
    {
    }
  }

  /** Walking one more position credits one object: `Credited(o, i, j)` gains `Credit(i, j)`. */
  lemma RowCreditStep(o: seq<nat>, n: nat, i: nat, k: nat, j: nat)
    requires IsOrder(o, n) && i < n && k < n && j < n
    ensures RowCredit(o, i, k, j + 1)
            == RowCredit(o, i, k, j) + (if k == Credited(o, i, j) then Credit(i, j) else 0.0)
  {
    IndexOfAt(o, n, j);
  }

  /** Walking position `j` of row `i` adds its credit to the credited object and changes no
      other score. */
  lemma PartialUpdate(orders: seq<seq<nat>>, i: nat, j: nat, x: nat, c: real)
    requires ValidOrders(orders) && i < |orders| && j < |orders|
    requires x == Credited(orders[i], i, j) && c == Credit(i, j)
    ensures x < |orders|
    ensures Partial(orders, i, j + 1) == Partial(orders, i, j)[x := Partial(orders, i, j)[x] + c]
  {
    var n := |orders|;
    var o := orders[i];
    var before, after := Partial(orders, i, j), Partial(orders, i, j + 1);
    var updated := before[x := before[x] + c];
    forall k | 0 <= k < n
      ensures after[k] == updated[k]
    {
      var e := InfoEntry(orders, k, i);
      RowCreditStep(o, n, i, k, j);
      assert after[k] == e + RowCredit(o, i, k, j + 1);
      assert before[k] == e + RowCredit(o, i, k, j);
    }
  }

  lemma {:induction false} BuiltZero(orders: seq<seq<nat>>)
    requires ValidOrders(orders)
    ensures Built(orders, 0) == seq(|orders|, _ => 0.0)
  {
  }

  /** The vector `v` after the build has walked positions 0..j-1 of row `i`, whose rank order is
      `o`: one credit added per position, in walk order. */
  function Walk(o: seq<nat>, i: nat, v: seq<real>, j: nat): (w: seq<real>)
    requires i < |o| && j <= |o| && |v| == |o|
    requires forall p :: 0 <= p < |o| ==> o[p] < |o|
    ensures |w| == |v|
  {
    if j == 0 then v
    else
      var w := Walk(o, i, v, j - 1);
      var x := Credited(o, i, j - 1);
      w[x := w[x] + Credit(i, j - 1)]
  }

  /** The vector the build holds after walking rows 0..m-1, starting from all zeros. */
  function Walked(orders: seq<seq<nat>>, m: nat): (v: seq<real>)
    requires ValidOrders(orders) && m <= |orders|
    ensures |v| == |orders|
  {
    if m == 0 then seq(|orders|, _ => 0.0)
    else Walk(orders[m - 1], m - 1, Walked(orders, m - 1), |orders|)
  }

  lemma {:induction false} WalkPartial(orders: seq<seq<nat>>, i: nat, j: nat)
    requires ValidOrders(orders) && i < |orders| && j <= |orders|
    ensures Walk(orders[i], i, Built(orders, i), j) == Partial(orders, i, j)
  {
    if j == 0 {
      PartialEnds(orders, i);
    } else {
      var p := j - 1;
      WalkPartial(orders, i, p);
      PartialUpdate(orders, i, p, Credited(orders[i], i, p), Credit(i, p));
    }
  }

  /** Walking the rows one credit at a time yields the closed form: after m rows, object k
      holds InfoEntry(orders, k, m). */
  lemma {:induction false} WalkedBuilt(orders: seq<seq<nat>>, m: nat)
    requires ValidOrders(orders) && m <= |orders|
    ensures Walked(orders, m) == Built(orders, m)
  {
    if m == 0 {
      BuiltZero(orders);
    } else {
      var i, n := m - 1, |orders|;
      var before := Walked(orders, i);
      WalkedBuilt(orders, i);
      WalkPartial(orders, i, n);
      PartialEnds(orders, i);
      assert Walked(orders, m) == Walk(orders[i], i, before, n);
      assert before == Built(orders, i);
      assert Walk(orders[i], i, before, n) == Partial(orders, i, n);
    }
  }

  lemma {:induction false} InfoEntryLowerBound(orders: seq<seq<nat>>, k: nat, m: nat)
    requires ValidOrders(orders) && k < |orders| && m <= |orders|
    ensures InfoEntry(orders, k, m) >= (if k < m then 1.0 else 0.0)
  {
    if m > 0 {
      InfoEntryLowerBound(orders, k, m - 1);
    }
  }

  /** Every score of a freshly built information vector is at least 1: row `k` gives object
      `k` its 1 and every other addition is positive. */
  lemma InfoAtLeastOne(orders: seq<seq<nat>>)
    requires ValidOrders(orders)
    ensures forall k :: 0 <= k < |orders| ==> InfoSpec(orders)[k] >= 1.0
  {
    forall k | 0 <= k < |orders|
      ensures InfoSpec(orders)[k] >= 1.0
    {
      InfoEntryLowerBound(orders, k, |orders|);
    }
  }

  function Sum(s: seq<real>): real
  {
    if s == [] then 0.0 else Sum(s[..|s| - 1]) + s[|s| - 1]
  }

  /** Adding `x` to one entry adds `x` to the sum. */
  lemma {:induction false} SumAdd(s: seq<real>, k: nat, x: real)
    requires k < |s|
    ensures Sum(s[k := s[k] + x]) == Sum(s) + x
  {
    var t := s[k := s[k] + x];
    if k == |s| - 1 {
      assert t[..|t| - 1] == s[..|s| - 1];
    } else {
      SumAdd(s[..|s| - 1], k, x);
      assert t[..|t| - 1] == s[..|s| - 1][k := s[k] + x];
    }
  }

  lemma {:induction false} SumZeros(n: nat)
    ensures Sum(seq(n, _ => 0.0)) == 0.0
  {
    if n > 0 {
      SumZeros(n - 1);
      assert seq(n, _ => 0.0)[..n - 1] == seq(n - 1, _ => 0.0);
    }
  }

  /** 1/2 + 1/3 + ... + 1/n. */
  function Harmonic(n: nat): real
  {
    if n < 2 then 0.0 else Harmonic(n - 1) + 1.0 / (n as real)
  }

  /** What one row has added to the sum of all scores after walking positions 0..j-1:
      the 1 of position `i` once it is passed, and 1/2 + 1/3 + ... for the positions credited. */
  function RowSum(i: nat, j: nat): real
  {
    (if i < j then 1.0 else 0.0) + (if j <= i then Harmonic(j + 1) else Harmonic(j))
  }

  /** Walking position `j` of row `i` adds that position's credit to the row's sum. */
  lemma RowSumStep(i: nat, j: nat)
    ensures RowSum(i, j + 1) == RowSum(i, j) + Credit(i, j)
  {
    if j < i {
      assert Harmonic(j + 2) == Harmonic(j + 1) + 1.0 / ((j + 2) as real);
    } else if j > i {
      assert Harmonic(j + 1) == Harmonic(j) + 1.0 / ((j + 1) as real);
    }
  }

  /** A row starts at 0 and, walked over all n positions, adds 1 + 1/2 + ... + 1/n. */
  lemma RowSumEnds(i: nat, n: nat)
    requires i < n
    ensures RowSum(i, 0) == 0.0 && RowSum(i, n) == 1.0 + Harmonic(n)
  {
  }

  /** What `m` complete rows of n positions add up to: `m` times 1 + 1/2 + ... + 1/n. */
  function Rows(m: nat, n: nat): real
  {
    if m == 0 then 0.0 else Rows(m - 1, n) + 1.0 + Harmonic(n)
  }

  lemma {:induction false} RowsProduct(m: nat, n: nat)
    ensures Rows(m, n) == m as real * (1.0 + Harmonic(n))
  {
    if m > 0 {
      RowsProduct(m - 1, n);
    }
  }

  /** The running total while row `i` is walked. */
  lemma {:induction false} PartialSum(orders: seq<seq<nat>>, i: nat, j: nat)
    requires ValidOrders(orders) && i < |orders| && j <= |orders|
    ensures Sum(Partial(orders, i, j)) == Sum(Built(orders, i)) + RowSum(i, j)
  {
    var base := Sum(Built(orders, i));
    if j == 0 {
      PartialEnds(orders, i);
      RowSumEnds(i, |orders|);
    } else {
      var p := j - 1;
      var before, after := Partial(orders, i, p), Partial(orders, i, p + 1);
      var x := Credited(orders[i], i, p);
      var c := Credit(i, p);
      PartialSum(orders, i, p);
      PartialUpdate(orders, i, p, x, c);
      assert after == before[x := before[x] + c];
      SumAdd(before, x, c);
      RowSumStep(i, p);
    }
  }

  /** The running total after `m` complete rows. */
  lemma {:induction false} BuiltSum(orders: seq<seq<nat>>, m: nat)
    requires ValidOrders(orders) && m <= |orders|
    ensures Sum(Built(orders, m)) == Rows(m, |orders|)
  {
    if m == 0 {
      BuiltZero(orders);
      SumZeros(|orders|);
    } else {
      var i, n := m - 1, |orders|;
      BuiltSum(orders, i);
      PartialSum(orders, i, n);
      PartialEnds(orders, i);
      RowSumEnds(i, n);
      assert Rows(i + 1, n) == Rows(i, n) + 1.0 + Harmonic(n);
    }
  }

  /** The scores of a freshly built vector add up to n rows of 1 + 1/2 + ... + 1/n each: every
      row hands out 1 and the reciprocal ranks 1/2, ..., 1/n once each. With RowsProduct this is
      the total n(1 + 1/2 + ... + 1/n). */
  lemma InfoSpecSum(orders: seq<seq<nat>>)
    requires ValidOrders(orders)
    ensures Sum(InfoSpec(orders)) == Rows(|orders|, |orders|)
  {
    BuiltSum(orders, |orders|);
  }


  // ---------------------------------------------------------------------------------------
  // Real arithmetic used below

  lemma ReciprocalOrder(a: real, b: real)
    requires 0.0 < a <= b
    ensures 1.0 / b <= 1.0 / a
    ensures a < b ==> 1.0 / b < 1.0 / a
  {
    var x, y := 1.0 / a, 1.0 / b;
    assert x * a == 1.0 && y * b == 1.0;
    assert x - y == (b - a) * x * y;
    assert x * y > 0.0;
  }

  lemma ScaleBounds(x: real, f: real, y: real)
    requires 0.0 <= f < 1.0 && y == x * f
    ensures 0.0 <= x ==> 0.0 <= y <= x
    ensures 0.0 < x && 0.0 < f ==> 0.0 < y < x
  {
    if 0.0 <= x {
      assert x * f <= x * 1.0;
    }
  }

  // ---------------------------------------------------------------------------------------
  // Removing the contribution of a picked object

  /** The multiplier applied to object `k` when the object `m` is picked, walking `m`'s rank
      order `o`: 0 for `m` itself, 1 - 1/div for every other object, with div running 2, 3, ...
      along the walk and not advanced at `m`'s own position. */
  function Factor(o: seq<nat>, m: nat, k: nat): (r: real)
    requires m in o && k in o
    requires forall p, q :: 0 <= p < q < |o| ==> o[p] != o[q]
    ensures k == m ==> r == 0.0
    ensures k != m ==> 0.5 <= r <= 1.0 - 1.0 / (|o| as real)
  {
    if k == m then 0.0
    else
      var d := Div(IndexOf(o, m), IndexOf(o, k));
      ReciprocalOrder(2.0, d);
      ReciprocalOrder(d, |o| as real);
      1.0 - 1.0 / d
  }

  /** The factor of the object at rank position `p` of the walk from `m`. */
  lemma FactorAt(o: seq<nat>, n: nat, m: nat, p: nat)
    requires IsOrder(o, n) && m < n && p < n
    ensures Factor(o, m, o[p]) == if o[p] == m then 0.0 else 1.0 - 1.0 / Div(IndexOf(o, m), p)
  {
    IndexOfAt(o, n, p);
  }

  /** The factors of all objects 0..n-1 for the pick `m`, listed by object index. */
  function Factors(o: seq<nat>, m: nat): (f: seq<real>)
    requires IsOrder(o, |o|) && m < |o|
    ensures |f| == |o| && f[m] == 0.0
    ensures forall k :: 0 <= k < |o| && k != m ==> 0.5 <= f[k] < 1.0
  {
    seq(|o|, k requires 0 <= k < |o| => Factor(o, m, k))
  }

  /** Every entry of `v` multiplied by the entry of `f` at the same index. */
  function Scaled(v: seq<real>, f: seq<real>): (w: seq<real>)
    requires |v| == |f|
    ensures |w| == |v|
  {
    seq(|v|, k requires 0 <= k < |v| => v[k] * f[k])
  }

  /** The information vector after picking `m`: every score multiplied by its factor. */
  function Decayed(orders: seq<seq<nat>>, v: seq<real>, m: nat): (w: seq<real>)
    requires ValidOrders(orders) && |v| == |orders| && m < |v|
    ensures |w| == |v| && w[m] == 0.0
  {
    Scaled(v, Factors(orders[m], m))
  }

  /** Removing the contribution of the pick `m` zeroes its score, keeps every non-negative
      score between 0 and its old value, and leaves every other positive score positive and
      strictly smaller. */
  lemma DecayBounds(orders: seq<seq<nat>>, v: seq<real>, m: nat)
    requires ValidOrders(orders) && |v| == |orders| && m < |v|
    ensures Decayed(orders, v, m)[m] == 0.0
    ensures forall k :: 0 <= k < |v| && 0.0 <= v[k] ==> 0.0 <= Decayed(orders, v, m)[k] <= v[k]
    ensures forall k :: 0 <= k < |v| && k != m && 0.0 < v[k] ==>
              0.0 < Decayed(orders, v, m)[k] < v[k]
  {
    forall k | 0 <= k < |v|
      ensures k == m ==> Decayed(orders, v, m)[k] == 0.0
      ensures 0.0 <= v[k] ==> 0.0 <= Decayed(orders, v, m)[k] <= v[k]
      ensures k != m && 0.0 < v[k] ==> 0.0 < Decayed(orders, v, m)[k] < v[k]
    {
      DecayAt(orders, v, m, k);
    }
  }

  lemma DecayAt(orders: seq<seq<nat>>, v: seq<real>, m: nat, k: nat)
    requires ValidOrders(orders) && |v| == |orders| && m < |v| && k < |v|
    ensures k == m ==> Decayed(orders, v, m)[k] == 0.0
    ensures 0.0 <= v[k] ==> 0.0 <= Decayed(orders, v, m)[k] <= v[k]
    ensures k != m && 0.0 < v[k] ==> 0.0 < Decayed(orders, v, m)[k] < v[k]
  {
    var x, f, y := v[k], Factor(orders[m], m, k), Decayed(orders, v, m)[k];
    assert y == x * f;
    ScaleBounds(x, f, y);
  }

  /** The further an object is ranked from the picked one, the less of its score it loses. */
  lemma DecayOrderedByRank(o: seq<nat>, n: nat, m: nat, a: nat, b: nat)
    requires IsOrder(o, n) && m < n && a < n && b < n && a != m && b != m
    requires IndexOf(o, a) < IndexOf(o, b)
    ensures Factor(o, m, a) < Factor(o, m, b)
  {
    var pm := IndexOf(o, m);
    DivIncreasing(pm, IndexOf(o, a), IndexOf(o, b));
    ReciprocalOrder(Div(pm, IndexOf(o, a)), Div(pm, IndexOf(o, b)));
  }

  // ---------------------------------------------------------------------------------------
  // Picking and stopping

  /** `r` is the lowest index holding the largest score. */
  ghost predicate IsFirstMax(v: seq<real>, r: nat) {
    && r < |v|
    && (forall j :: 0 <= j < |v| ==> v[j] <= v[r])
    && (forall j :: 0 <= j < r ==> v[j] < v[r])
  }

  /** The scan that keeps the first index seen with the largest score: it moves only on a
      strictly greater score. */
  function FirstMax(v: seq<real>): (r: nat)
    requires |v| > 0
    ensures IsFirstMax(v, r)
  {
    if |v| == 1 then 0
    else
      var r := FirstMax(v[..|v| - 1]);
      if v[|v| - 1] > v[r] then |v| - 1 else r
  }

  lemma FirstMaxUnique(v: seq<real>, a: nat, b: nat)
    requires IsFirstMax(v, a) && IsFirstMax(v, b)
    ensures a == b
  {
    assert v[a] == v[b];
  }

  /** How many scores are below 1. */
  function BelowOne(v: seq<real>): (c: nat)
    ensures c <= |v|
  {
    if v == [] then 0
    else BelowOne(v[..|v| - 1]) + (if v[|v| - 1] < 1.0 then 1 else 0)
  }

  /** The count is 0 exactly when every score is at least 1. */
  lemma {:induction false} BelowOneZero(v: seq<real>)
    ensures BelowOne(v) == 0 <==> forall k :: 0 <= k < |v| ==> v[k] >= 1.0
  {
    if v != [] {
      BelowOneZero(v[..|v| - 1]);
      assert forall k :: 0 <= k < |v| - 1 ==> v[..|v| - 1][k] == v[k];
    }
  }

  /** The autostop test after a pick: more scores have fallen below 1 than objects are listed. */
  predicate Stops(v: seq<real>, listed: nat)
  {
    BelowOne(v) > listed
  }

  /** The autostop test never succeeds before the first pick. */
  lemma InitialScoresNotBelowOne(orders: seq<seq<nat>>)
    requires ValidOrders(orders)
    ensures BelowOne(InfoSpec(orders)) == 0
  {
    InfoAtLeastOne(orders);
    BelowOneZero(InfoSpec(orders));
  }

  /** Once at least n objects are listed the autostop test can never succeed again, since at
      most n scores can be below 1. */
  lemma NoStopAfterExhaustion(v: seq<real>, listed: nat)
    requires listed >= |v|
    ensures !Stops(v, listed)
  {
  }

  // ---------------------------------------------------------------------------------------
  // The greedy loop

  /** The state of a run: the information vector and the objects picked so far, in order. */
  datatype Run = Run(info: seq<real>, picks: seq<nat>)

  /** One round: pick the first maximum, then remove its contribution. */
  function Step(orders: seq<seq<nat>>, r: Run): (next: Run)
    requires ValidOrders(orders) && |r.info| == |orders| > 0
    ensures |next.info| == |r.info| && |next.picks| == |r.picks| + 1
    ensures next.picks[..|r.picks|] == r.picks
  {
    var m := FirstMax(r.info);
    Run(Decayed(orders, r.info, m), r.picks + [m])
  }

  /** The state after `t` rounds from the scores `v`. */
  function Iterate(orders: seq<seq<nat>>, v: seq<real>, t: nat): (r: Run)
    requires ValidOrders(orders) && |v| == |orders| > 0
    ensures |r.info| == |v| && |r.picks| == t
    ensures forall q :: 0 <= q < t ==> r.picks[q] < |v|
  {
    if t == 0 then Run(v, [])
    else Step(orders, Iterate(orders, v, t - 1))
  }

  /** One more round keeps the picks made so far. */
  lemma IterateExtends(orders: seq<seq<nat>>, v: seq<real>, p: nat)
    requires ValidOrders(orders) && |v| == |orders| > 0
    ensures Iterate(orders, v, p + 1).picks[..p] == Iterate(orders, v, p).picks
  {
    assert Iterate(orders, v, p + 1) == Step(orders, Iterate(orders, v, p));
  }

  /** A longer run starts with the picks of a shorter one. */
  lemma {:induction false} IteratePrefix(orders: seq<seq<nat>>, v: seq<real>, s: nat, t: nat)
    requires ValidOrders(orders) && |v| == |orders| > 0 && s <= t
    ensures Iterate(orders, v, t).picks[..s] == Iterate(orders, v, s).picks
    decreases t
  {
    if s < t {
      var p := t - 1;
      IteratePrefix(orders, v, s, p);
      IterateExtends(orders, v, p);
      PrefixOfPrefix(Iterate(orders, v, t).picks, Iterate(orders, v, p).picks, Iterate(orders, v, s).picks, s, p);
    }
  }

  lemma PrefixOfPrefix(a: seq<nat>, b: seq<nat>, c: seq<nat>, s: nat, p: nat)
    requires s <= p <= |a| && a[..p] == b && b[..s] == c
    ensures a[..s] == c
  {
    assert a[..s] == a[..p][..s];
  }

  /** How many scores are positive. */
  function CountPositive(v: seq<real>): (c: nat)
    ensures c <= |v|
    ensures c == 0 <==> forall k :: 0 <= k < |v| ==> v[k] <= 0.0
  {
    if v == [] then 0
    else CountPositive(v[..|v| - 1]) + (if v[|v| - 1] > 0.0 then 1 else 0)
  }

  lemma {:induction false} CountPositiveSame(v: seq<real>, w: seq<real>)
    requires |v| == |w|
    requires forall k :: 0 <= k < |v| ==> (w[k] > 0.0 <==> v[k] > 0.0)
    ensures CountPositive(w) == CountPositive(v)
  {
    if v != [] {
      CountPositiveSame(v[..|v| - 1], w[..|w| - 1]);
    }
  }

  /** Turning exactly one positive score non-positive lowers the count by one. */
  lemma {:induction false} CountPositiveDrop(v: seq<real>, w: seq<real>, m: nat)
    requires |v| == |w| && m < |v| && v[m] > 0.0 && w[m] <= 0.0
    requires forall k :: 0 <= k < |v| && k != m ==> (w[k] > 0.0 <==> v[k] > 0.0)
    ensures CountPositive(w) == CountPositive(v) - 1
  {
    var n := |v|;
    var v', w' := v[..n - 1], w[..n - 1];
    assert CountPositive(v) == CountPositive(v') + (if v[n - 1] > 0.0 then 1 else 0);
    assert CountPositive(w) == CountPositive(w') + (if w[n - 1] > 0.0 then 1 else 0);
    if m == n - 1 {
      CountPositiveSame(v', w');
    } else {
      CountPositiveDrop(v', w', m);
    }
  }

  /** The bookkeeping a run from positive scores keeps: the picks are distinct, no score is
      negative, and an object's score is 0 exactly when it has been picked. */
  ghost predicate PickedAreZero(r: Run, n: nat) {
    && |r.info| == n
    && Distinct(r.picks)
    && (forall k :: 0 <= k < n ==> r.info[k] >= 0.0)
    && (forall k :: 0 <= k < n ==> (k in r.picks <==> r.info[k] == 0.0))
  }

  /** While some score is positive, the first maximum is positive, so it has not been picked. */
  lemma PickFresh(r: Run, n: nat)
    requires PickedAreZero(r, n) && n > 0 && CountPositive(r.info) > 0
    ensures FirstMax(r.info) !in r.picks && r.info[FirstMax(r.info)] > 0.0
  {
    var m := FirstMax(r.info);
    var k :| 0 <= k < n && r.info[k] > 0.0;
    assert r.info[m] >= r.info[k];
  }

  lemma AppendFresh(picks: seq<nat>, m: nat)
    requires Distinct(picks) && m !in picks
    ensures Distinct(picks + [m])
  {
    var s := picks + [m];
    forall p, q | 0 <= p < q < |s|
      ensures s[p] != s[q]
    {
      if q == |s| - 1 {
        assert s[p] in picks;
      }
    }
  }

  /** Scaling that zeroes the fresh pick `m`, keeps scores non-negative and keeps every other
      positive score positive, keeps the bookkeeping for the picks extended by `m`. */
  lemma ZeroesTrackPicks(v: seq<real>, w: seq<real>, picks: seq<nat>, m: nat)
    requires |w| == |v| && m < |v| && m !in picks && w[m] == 0.0
    requires forall k :: 0 <= k < |v| ==> v[k] >= 0.0 && (k in picks <==> v[k] == 0.0)
    requires forall k :: 0 <= k < |v| && 0.0 <= v[k] ==> 0.0 <= w[k] <= v[k]
    requires forall k :: 0 <= k < |v| && k != m && 0.0 < v[k] ==> 0.0 < w[k] < v[k]
    ensures forall j :: 0 <= j < |v| ==> w[j] >= 0.0 && (j in picks + [m] <==> w[j] == 0.0)
    ensures forall j :: 0 <= j < |v| && j != m ==> (w[j] > 0.0 <==> v[j] > 0.0)
  {
    forall j | 0 <= j < |v|
      ensures w[j] >= 0.0 && (j in picks + [m] <==> w[j] == 0.0)
    {
      assert j in picks + [m] <==> j in picks || j == m;
    }
  }

  /** While some score is positive, the next pick is an object not picked before, and the
      round keeps the bookkeeping with one positive score fewer. */
  lemma PickStep(orders: seq<seq<nat>>, r: Run)
    requires ValidOrders(orders) && |orders| > 0 && PickedAreZero(r, |orders|)
    requires CountPositive(r.info) > 0
    ensures FirstMax(r.info) !in r.picks
    ensures PickedAreZero(Step(orders, r), |orders|)
    ensures CountPositive(Step(orders, r).info) == CountPositive(r.info) - 1
  {
    var n, m := |orders|, FirstMax(r.info);
    PickFresh(r, n);
    var w := Decayed(orders, r.info, m);
    DecayBounds(orders, r.info, m);
    AppendFresh(r.picks, m);
    ZeroesTrackPicks(r.info, w, r.picks, m);
    CountPositiveDrop(r.info, w, m);
    assert Step(orders, r) == Run(w, r.picks + [m]);
  }

  lemma {:induction false} CountAllPositive(v: seq<real>)
    requires forall k :: 0 <= k < |v| ==> v[k] > 0.0
    ensures CountPositive(v) == |v|
  {
    if v != [] {
      CountAllPositive(v[..|v| - 1]);
    }
  }

  /** Started from positive scores, the first n picks are distinct: a picked object's score
      is 0 from then on, and every object not yet picked keeps a positive score. */
  lemma {:induction false} IterateDistinct(orders: seq<seq<nat>>, v: seq<real>, t: nat)
    requires ValidOrders(orders) && |v| == |orders| > 0
    requires forall k :: 0 <= k < |v| ==> v[k] > 0.0
    requires t <= |v|
    ensures PickedAreZero(Iterate(orders, v, t), |v|)
    ensures CountPositive(Iterate(orders, v, t).info) == |v| - t
  {
    if t == 0 {
      CountAllPositive(v);
    } else {
      var p := t - 1;
      var prev := Iterate(orders, v, p);
      IterateDistinct(orders, v, p);
      PickStep(orders, prev);
      assert Iterate(orders, v, t) == Step(orders, prev);
    }
  }

  /** From an all-zero vector the scan stays on object 0 and the vector stays all zero. */
  lemma ZeroStep(orders: seq<seq<nat>>, v: seq<real>)
    requires ValidOrders(orders) && |v| == |orders| > 0
    requires forall k :: 0 <= k < |v| ==> v[k] == 0.0
    ensures FirstMax(v) == 0
    ensures forall k :: 0 <= k < |v| ==> Decayed(orders, v, 0)[k] == 0.0
  {
    var m := FirstMax(v);
    assert v[0] == v[m];
    DecayBounds(orders, v, 0);
  }

  /** After n picks from positive scores every object has been picked once and every score
      is 0. */
  lemma AllPickedAfterN(orders: seq<seq<nat>>, v: seq<real>)
    requires ValidOrders(orders) && |v| == |orders| > 0
    requires forall k :: 0 <= k < |v| ==> v[k] > 0.0
    ensures forall k :: 0 <= k < |v| ==> Iterate(orders, v, |v|).info[k] == 0.0
    ensures forall k :: 0 <= k < |v| ==> k in Iterate(orders, v, |v|).picks
  {
    IterateDistinct(orders, v, |v|);
  }

  /** From then on every score stays 0 and every further pick is object 0 again. */
  lemma {:induction false} IterateExhausted(orders: seq<seq<nat>>, v: seq<real>, t: nat)
    requires ValidOrders(orders) && |v| == |orders| > 0
    requires forall k :: 0 <= k < |v| ==> v[k] > 0.0
    requires t >= |v|
    ensures forall k :: 0 <= k < |v| ==> Iterate(orders, v, t).info[k] == 0.0
    ensures forall q :: |v| <= q < t ==> Iterate(orders, v, t).picks[q] == 0
    decreases t
  {
    var n := |v|;
    if t == n {
      AllPickedAfterN(orders, v);
    } else {
      IterateExhausted(orders, v, t - 1);
      var prev := Iterate(orders, v, t - 1);
      ZeroStep(orders, prev.info);
      assert Iterate(orders, v, t) == Step(orders, prev);
    }
  }

  /** More than n picks from positive scores repeat an object: pick n is object 0, which was
      already picked among the first n. */
  lemma RepeatBeyondExhaustion(orders: seq<seq<nat>>, v: seq<real>, t: nat)
    requires ValidOrders(orders) && |v| == |orders| > 0
    requires forall k :: 0 <= k < |v| ==> v[k] > 0.0
    requires t > |v|
    ensures !Distinct(Iterate(orders, v, t).picks)
  {
    var n := |v|;
    var first, picks := Iterate(orders, v, n).picks, Iterate(orders, v, t).picks;
    AllPickedAfterN(orders, v);
    assert 0 in first;
    var p :| 0 <= p < n && first[p] == 0;
    IteratePrefix(orders, v, n, t);
    assert picks[p] == first[p];
    IterateExhausted(orders, v, t);
    assert picks[n] == 0;
  }

  // ---------------------------------------------------------------------------------------
  // Stopping

  function Min(a: int, b: int): int {
    if a <= b then a else b
  }

  /** The stop test of `select` after round t, on the scores v it leaves and the number of
      objects listed. With a target count, ks.py (`capped`) stops once the list holds every
      object or at least the target, and mdc.py once t rounds reach the target; under autostop
      both stop once more scores are below 1 than objects are listed, or once the `fuel` rounds
      the model allows are used up. */
  predicate Halts(capped: bool, nobjects: int, v: seq<real>, listed: nat, t: nat, fuel: nat): (h: bool)
    ensures h && nobjects <= 0 && t < fuel ==> listed < |v|
  {
    if nobjects > 0 then
      if capped then listed == |v| || listed >= nobjects else t >= nobjects
    else Stops(v, listed) || t >= fuel
  }

  /** Whether `select` leaves its loop after round t (t >= 1) of a run that started from the
      scores v0 with c0 objects already listed. */
  ghost predicate SelectHalts(orders: seq<seq<nat>>, capped: bool, nobjects: int, v0: seq<real>, c0: nat, t: nat, fuel: nat)
    requires ValidOrders(orders) && |v0| == |orders| > 0
  {
    Halts(capped, nobjects, Iterate(orders, v0, t).info, c0 + t, t, fuel)
  }

  /** The first round t' >= t whose stop test succeeds: the round after which `select`
      returns, when it has got through rounds 1..t-1 without stopping. */
  ghost function FirstHalt(orders: seq<seq<nat>>, capped: bool, nobjects: int, v0: seq<real>, c0: nat, fuel: nat, t: nat): (s: nat)
    requires ValidOrders(orders) && |v0| == |orders| > 0
    ensures t <= s
    decreases if nobjects > 0 then nobjects - t else fuel - t
  {
    if SelectHalts(orders, capped, nobjects, v0, c0, t, fuel) then t
    else FirstHalt(orders, capped, nobjects, v0, c0, fuel, t + 1)
  }

  /** The round FirstHalt names does stop, and none of the rounds before it from t on does. */
  lemma {:induction false} FirstHaltIsFirst(orders: seq<seq<nat>>, capped: bool, nobjects: int, v0: seq<real>, c0: nat, fuel: nat, t: nat)
    requires ValidOrders(orders) && |v0| == |orders| > 0
    ensures t <= FirstHalt(orders, capped, nobjects, v0, c0, fuel, t)
    ensures SelectHalts(orders, capped, nobjects, v0, c0, FirstHalt(orders, capped, nobjects, v0, c0, fuel, t), fuel)
    ensures forall s :: t <= s < FirstHalt(orders, capped, nobjects, v0, c0, fuel, t) ==>
              !SelectHalts(orders, capped, nobjects, v0, c0, s, fuel)
    decreases if nobjects > 0 then nobjects - t else fuel - t
  {
    var f := FirstHalt(orders, capped, nobjects, v0, c0, fuel, t);
    if !SelectHalts(orders, capped, nobjects, v0, c0, t, fuel) {
      var g := FirstHalt(orders, capped, nobjects, v0, c0, fuel, t + 1);
      FirstHaltIsFirst(orders, capped, nobjects, v0, c0, fuel, t + 1);
      assert f == g;
      forall s | t <= s < f
        ensures !SelectHalts(orders, capped, nobjects, v0, c0, s, fuel)
      {
        if s != t {
          assert t + 1 <= s < g;
        }
      }
    }
  }

  /** With a fixed count, the capped loop of ks.py stops after min(nobjects, n) rounds,
      whatever the scores. */
  lemma CappedFixedCount(orders: seq<seq<nat>>, nobjects: int, v0: seq<real>, steps: nat, fuel: nat)
    requires ValidOrders(orders) && |v0| == |orders| > 0 && nobjects > 0
    requires steps == FirstHalt(orders, true, nobjects, v0, 0, fuel, 1)
    ensures steps == Min(nobjects, |orders|)
  {
    var k := Min(nobjects, |orders|);
    FirstHaltIsFirst(orders, true, nobjects, v0, 0, fuel, 1);
    assert Halts(true, nobjects, Iterate(orders, v0, steps).info, steps, steps, fuel);
    assert SelectHalts(orders, true, nobjects, v0, 0, k, fuel) by {
      assert Halts(true, nobjects, Iterate(orders, v0, k).info, k, k, fuel);
    }
  }

  /** With a fixed count, the uncapped loop of mdc.py runs exactly nobjects rounds, however
      many objects there are and whatever the list held before. */
  lemma UncappedFixedCount(orders: seq<seq<nat>>, nobjects: int, v0: seq<real>, c0: nat, steps: nat, fuel: nat)
    requires ValidOrders(orders) && |v0| == |orders| > 0 && nobjects > 0
    requires steps == FirstHalt(orders, false, nobjects, v0, c0, fuel, 1)
    ensures steps == nobjects
  {
    FirstHaltIsFirst(orders, false, nobjects, v0, c0, fuel, 1);
    assert Halts(false, nobjects, Iterate(orders, v0, steps).info, c0 + steps, steps, fuel);
    assert SelectHalts(orders, false, nobjects, v0, c0, nobjects, fuel) by {
      assert Halts(false, nobjects, Iterate(orders, v0, nobjects).info, c0 + nobjects, nobjects, fuel);
    }
  }

  /** Under autostop, a run from the built scores that its own test stopped (rather than the
      fuel bound) stopped before n rounds, so all its picks are distinct objects. */
  lemma AutostopDistinct(orders: seq<seq<nat>>, capped: bool, nobjects: int, fuel: nat, steps: nat)
    requires ValidOrders(orders) && |orders| > 0 && nobjects <= 0
    requires steps == FirstHalt(orders, capped, nobjects, InfoSpec(orders), 0, fuel, 1)
    requires steps < fuel
    ensures steps < |orders|
    ensures Distinct(Iterate(orders, InfoSpec(orders), steps).picks)
  {
    var v0 := InfoSpec(orders);
    FirstHaltIsFirst(orders, capped, nobjects, v0, 0, fuel, 1);
    assert Halts(capped, nobjects, Iterate(orders, v0, steps).info, steps, steps, fuel);
    InfoAtLeastOne(orders);
    IterateDistinct(orders, v0, steps);
  }
}
