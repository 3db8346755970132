/** optobj/mdc.py: the Most Descriptive Compound selector. Its `tmp` buffer is sorted with
    numpy's `sort(axis=0)`, which sorts the distance column and the index column each on its
    own, so the index column stays 0..n-1 and every row is walked in index order, whatever the
    distances. */
module Mdc {
  import opened Ranking
  import opened Greedy

  // ---------------------------------------------------------------------------------------
  // One column of `tmp` and its in-place sort

  predicate SortedColumn(s: seq<real>) {
    forall p, q :: 0 <= p < q < |s| ==> s[p] <= s[q]
  }

  /** The index column as filled: entry j holds j. */
  function IndexColumn(n: nat): (s: seq<real>)
    ensures |s| == n && forall j :: 0 <= j < n ==> s[j] == j as real
  {
    seq(n, j requires 0 <= j < n => j as real)
  }

  /** `tmp.sort(axis=0)` on one column: an ascending sort in place (an insertion sort here;
      numpy's algorithm is not part of this model, only its result). */
  method SortColumn(a: array<real>)
    modifies a
    ensures SortedColumn(a[..]) && multiset(a[..]) == multiset(old(a[..]))
  {
    for i := 0 to a.Length
      invariant SortedColumn(a[..i])
      invariant multiset(a[..]) == multiset(old(a[..]))
    {
      SinkLast(a, i);
    }
    assert a[..a.Length] == a[..];
  }

  /** Entry `j` of `s[..i + 1]` is on its way down: apart from it that prefix is sorted, and it
      is no larger than anything after it. */
  ghost predicate Sinking(s: seq<real>, i: nat, j: nat) {
    && j <= i < |s|
    && (forall p, q :: 0 <= p < q <= i && p != j && q != j ==> s[p] <= s[q])
    && (forall q :: j < q <= i ==> s[j] <= s[q])
    && (0 < j < i ==> s[j - 1] <= s[j + 1])
  }

  /** Exchanging two neighbours keeps the same entries. */
  function Swap(s: seq<real>, j: nat): (r: seq<real>)
    requires 0 < j < |s|
    ensures multiset(r) == multiset(s)
    ensures |r| == |s| && r[j - 1] == s[j] && r[j] == s[j - 1]
    ensures forall p :: 0 <= p < |s| && p != j - 1 && p != j ==> r[p] == s[p]
  {
    s[j - 1 := s[j]][j := s[j - 1]]
  }

  lemma SinkStep(s: seq<real>, i: nat, j: nat)
    requires Sinking(s, i, j) && 0 < j && s[j - 1] > s[j]
    ensures Sinking(Swap(s, j), i, j - 1)
  {
  }

  lemma SinkDone(s: seq<real>, i: nat, j: nat)
    requires Sinking(s, i, j) && (j == 0 || s[j - 1] <= s[j])
    ensures SortedColumn(s[..i + 1])
  {
  }

  /** Move entry `i` down past every larger entry before it. */
  method SinkLast(a: array<real>, i: nat)
    requires i < a.Length && SortedColumn(a[..i])
    modifies a
    ensures SortedColumn(a[..i + 1]) && multiset(a[..]) == multiset(old(a[..]))
    ensures a[i + 1..] == old(a[i + 1..])
  {
    var j: nat := i;
    while j > 0 && a[j - 1] > a[j]
      invariant Sinking(a[..], i, j)
      invariant multiset(a[..]) == multiset(old(a[..]))
      invariant a[i + 1..] == old(a[i + 1..])
      decreases j
    {
      ghost var s := a[..];
      SinkStep(s, i, j);
      a[j - 1], a[j] := a[j], a[j - 1];
      assert a[..] == Swap(s, j);
      j := j - 1;
    }
    SinkDone(a[..], i, j);
  }

  /** Sorting the index column gives it back unchanged: the only ascending arrangement of
      0..n-1 is 0..n-1. */
  lemma {:induction false} SortedIndexColumn(s: seq<real>, n: nat)
    requires |s| == n && SortedColumn(s) && multiset(s) == multiset(IndexColumn(n))
    ensures s == IndexColumn(n)
  {
    if n > 0 {
      var col, top := IndexColumn(n), (n - 1) as real;
      var init, rest := s[..n - 1], IndexColumn(n - 1);
      assert col[n - 1] == top;
      assert top in multiset(s);
      assert s[n - 1] in multiset(col);
      assert s[n - 1] == top;
      assert s == init + [top];
      assert col == rest + [top];
      assert multiset(init) == multiset(s) - multiset{top};
      assert multiset(rest) == multiset(col) - multiset{top};
      SortedIndexColumn(init, n - 1);
    }
  }

  // ---------------------------------------------------------------------------------------
  // The rank orders mdc.py walks, and what they give

  /** Every row is walked in index order. */
  function ColumnOrders(n: nat): (orders: seq<seq<nat>>)
    ensures |orders| == n && ValidOrders(orders)
    ensures forall i :: 0 <= i < n ==> orders[i] == Iota(n)
  {
    IotaOrder(n);
    seq(n, _ => Iota(n))
  }

  /** The score of object k once rows 0..m-1 have been walked in index order: 1 from its own
      row, 1/(k+1) from each earlier row and 1/(k+2) from each later one. */
  function ColumnEntry(k: nat, m: nat): real {
    (if k < m then 1.0 else 0.0)
    + Min(m, k) as real / (k + 1) as real
    + (if m > k + 1 then m - k - 1 else 0) as real / (k + 2) as real
  }

  /** What row i adds to object k when walked in index order. */
  function ColumnCredit(i: nat, k: nat): real {
    if i == k then 1.0 else if i < k then 1.0 / (k + 1) as real else 1.0 / (k + 2) as real
  }

  lemma AddOne(a: nat, c: nat)
    requires c > 0
    ensures a as real / c as real + 1.0 / c as real == (a + 1) as real / c as real
  {
  }

  lemma ColumnEntryStep(k: nat, i: nat)
    ensures ColumnEntry(k, i + 1) == ColumnEntry(k, i) + ColumnCredit(i, k)
  {
    if i < k {
      AddOne(i, k + 1);
    } else if i > k {
      AddOne(i - k - 1, k + 2);
    }
  }

  lemma ColumnRowCredit(n: nat, i: nat, k: nat)
    requires i < n && k < n
    ensures RowCredit(ColumnOrders(n)[i], i, k, n) == ColumnCredit(i, k)
  {
    IotaOrder(n);
  }

  lemma {:induction false} ColumnEntryBuilt(n: nat, k: nat, m: nat)
    requires k < n && m <= n
    ensures InfoEntry(ColumnOrders(n), k, m) == ColumnEntry(k, m)
  {
    if m > 0 {
      var orders, i := ColumnOrders(n), m - 1;
      ColumnEntryBuilt(n, k, i);
      ColumnRowCredit(n, i, k);
      ColumnEntryStep(k, i);
      assert InfoEntry(orders, k, m) == InfoEntry(orders, k, i) + RowCredit(orders[i], i, k, n);
    }
  }

  /** The information vector mdc.py builds depends on n alone:
      info[k] = 1 + (n-1-k)/(k+2) + k/(k+1). */
  lemma MdcInfoClosedForm(n: nat, k: nat)
    requires k < n
    ensures InfoSpec(ColumnOrders(n))[k]
            == 1.0 + (n - 1 - k) as real / (k + 2) as real + k as real / (k + 1) as real
  {
    ColumnEntryBuilt(n, k, n);
  }

  /** On two objects mdc.py scores both 1.5, whatever the distances, so its first pick is
      object 0. */
  lemma MdcTwoObjectsExample()
    ensures InfoSpec(ColumnOrders(2)) == [1.5, 1.5]
    ensures FirstMax(InfoSpec(ColumnOrders(2))) == 0
  {
    var v := InfoSpec(ColumnOrders(2));
    MdcInfoClosedForm(2, 0);
    MdcInfoClosedForm(2, 1);
    assert v == [1.5, 1.5];
    assert IsFirstMax(v, 0);
    FirstMaxUnique(v, FirstMax(v), 0);
  }

  /** Removing the contribution of object m multiplies object j by 1 - 1/(j+2) below m and by
      1 - 1/(j+1) above it, whatever the distances. */
  lemma MdcFactorClosedForm(n: nat, m: nat, j: nat)
    requires m < n && j < n
    ensures Factor(ColumnOrders(n)[m], m, j)
            == if j == m then 0.0
               else if j < m then 1.0 - 1.0 / (j + 2) as real
               else 1.0 - 1.0 / (j + 1) as real
  {
    IotaOrder(n);
  }

  /** With a fixed count mdc.py returns exactly nobjects picks; the first min(nobjects, n) of
      them are distinct, and asking for more than n objects repeats one. */
  lemma MdcFixedCount(n: nat, nobjects: int, steps: nat, fuel: nat)
    requires n > 0 && nobjects > 0
    requires steps == FirstHalt(ColumnOrders(n), false, nobjects, InfoSpec(ColumnOrders(n)), 0, fuel, 1)
    ensures steps == nobjects
    ensures Distinct(Iterate(ColumnOrders(n), InfoSpec(ColumnOrders(n)), steps).picks[..Min(nobjects, n)])
    ensures nobjects > n ==> !Distinct(Iterate(ColumnOrders(n), InfoSpec(ColumnOrders(n)), steps).picks)
  {
    var orders := ColumnOrders(n);
    var v0 := InfoSpec(orders);
    var k := Min(nobjects, n);
    UncappedFixedCount(orders, nobjects, v0, 0, steps, fuel);
    InfoAtLeastOne(orders);
    IterateDistinct(orders, v0, k);
    IteratePrefix(orders, v0, k, steps);
    if nobjects > n {
      RepeatBeyondExhaustion(orders, v0, steps);
    }
  }

  // ---------------------------------------------------------------------------------------
  // The selector

  class MDC {
    const nobjects: int
    /** The metric name handed to `pdist`; distances are computed outside this model. */
    const metric: string
    var dmx: seq<seq<real>>
    var info: array<real>
    /** `mdcids`: the picks of the last `select`. */
    var ids: seq<nat>

    ghost predicate Valid()
      reads this
    {
      && Square(dmx)
      && info.Length == |dmx|
      && (forall q :: 0 <= q < |ids| ==> ids[q] < |dmx|)
    }

    /** `__init__`: no matrix, no scores and no picks yet. */
    constructor (nobjects: int, metric: string)
      ensures Valid() && this.nobjects == nobjects && this.metric == metric
      ensures dmx == [] && info.Length == 0 && ids == []
    {
      this.nobjects := nobjects;
      this.metric := metric;
      dmx := [];
      info := new real[0];
      ids := [];
    }

    /** `select`, from the distance matrix `pdist` and `squareform` would produce: reset the
        picks, build the scores, then pick the first maximum, remove its contribution and test
        the stop condition, again and again. The autostop branch of mdc.py has no bound on its
        rounds; here it stops after at most `fuel` rounds (at least one). */
    method Select(d: seq<seq<real>>, fuel: nat) returns (r: seq<nat>, ghost steps: nat)
      requires Square(d) && |d| > 0
      modifies this
      ensures Valid() && dmx == d && r == ids && fresh(info)
      ensures info[..] == Iterate(ColumnOrders(|d|), InfoSpec(ColumnOrders(|d|)), steps).info
      ensures ids == Iterate(ColumnOrders(|d|), InfoSpec(ColumnOrders(|d|)), steps).picks
      ensures steps == FirstHalt(ColumnOrders(|d|), false, nobjects, InfoSpec(ColumnOrders(|d|)), 0, fuel, 1)
      ensures nobjects > 0 ==> |r| == nobjects && Distinct(r[..Min(nobjects, |d|)])
      ensures nobjects > |d| ==> !Distinct(r)
      ensures nobjects <= 0 && steps < fuel ==> |r| < |d| && Distinct(r)
    {
      ids := [];
      dmx := d;
      var row := |d|;
      info := new real[row](_ => 0.0);
      BuildInfoVector();
      ghost var orders := ColumnOrders(row);
      ghost var v0 := info[..];
      var nmdc := Rounds(orders, v0, [], fuel);
      steps := nmdc;
      r := ids;
      if nobjects > 0 {
        MdcFixedCount(row, nobjects, steps, fuel);
      }
      if nobjects <= 0 && steps < fuel {
        AutostopDistinct(orders, false, nobjects, fuel, steps);
      }
    }

    /** The loop of `select`, from the built scores v0 and the list ids0. */
    method Rounds(ghost orders: seq<seq<nat>>, ghost v0: seq<real>, ghost ids0: seq<nat>, fuel: nat)
      returns (nmdc: nat)
      requires Valid() && |dmx| > 0 && orders == ColumnOrders(|dmx|)
      requires info[..] == v0 && ids == ids0
      modifies this`ids, info
      ensures Valid() && nmdc >= 1
      ensures info[..] == Iterate(orders, v0, nmdc).info
      ensures ids == ids0 + Iterate(orders, v0, nmdc).picks
      ensures nmdc == FirstHalt(orders, false, nobjects, v0, |ids0|, fuel, 1)
    {
      nmdc := 0;
      var stopcondition := true;
      while stopcondition
        invariant Valid()
        invariant info[..] == Iterate(orders, v0, nmdc).info
        invariant ids == ids0 + Iterate(orders, v0, nmdc).picks
        invariant stopcondition ==> FirstHalt(orders, false, nobjects, v0, |ids0|, fuel, 1)
                                        == FirstHalt(orders, false, nobjects, v0, |ids0|, fuel, nmdc + 1)
        invariant !stopcondition ==> nmdc >= 1 && FirstHalt(orders, false, nobjects, v0, |ids0|, fuel, 1) == nmdc
        decreases stopcondition, if nobjects > 0 then nobjects - nmdc else fuel - nmdc
      {
        ghost var prev := Iterate(orders, v0, nmdc);
        Round(orders, prev, ids0);
        assert Step(orders, prev) == Iterate(orders, v0, nmdc + 1);
        nmdc := nmdc + 1;
        var stop := StopTest(nmdc, fuel);
        assert stop == SelectHalts(orders, false, nobjects, v0, |ids0|, nmdc, fuel);
        assert !stop ==> if nobjects > 0 then nmdc < nobjects else nmdc < fuel;
        stopcondition := !stop;
      }
    }

    /** The body of the loop of `select` up to the stop test: the scan for the first maximum,
        the append to `mdcids` and `_rm_mdc_contrib`. From the scores of a run state, with that
        state's picks at the end of the list, it leaves the next state of the run. */
    method Round(ghost orders: seq<seq<nat>>, ghost prev: Run, ghost ids0: seq<nat>)
      requires Valid() && |dmx| > 0 && orders == ColumnOrders(|dmx|)
      requires info[..] == prev.info && ids == ids0 + prev.picks
      modifies this`ids, info
      ensures Valid()
      ensures info[..] == Step(orders, prev).info
      ensures ids == ids0 + Step(orders, prev).picks
    {
      var mdc := PickFirstMax();
      ids := ids + [mdc];
      assert ids == ids0 + (prev.picks + [mdc]);
      RmMdcContrib();
      assert info[..] == Decayed(orders, prev.info, mdc);
    }

    /** The scan at the top of the loop of `select`: from index 0 on, move only to a strictly
        larger score. */
    method PickFirstMax() returns (mdc: nat)
      requires Valid() && |dmx| > 0
      ensures mdc == FirstMax(info[..])
    {
      var dist := info[0];
      mdc := 0;
      for i := 0 to info.Length
        invariant mdc < info.Length && mdc <= i && dist == info[mdc]
        invariant forall p :: 0 <= p < i ==> info[p] <= dist
        invariant forall p :: 0 <= p < mdc ==> info[p] < dist
      {
        if info[i] > dist {
          dist := info[i];
          mdc := i;
        }
      }
      FirstMaxUnique(info[..], mdc, FirstMax(info[..]));
    }

    /** The stop test at the bottom of the loop of `select`, after `nmdc` picks: with a target
        count, stop once it is reached; under autostop, count the scores below 1 and stop once
        there are more of them than picks, or once the `fuel` rounds are used up. */
    method StopTest(nmdc: nat, fuel: nat) returns (stop: bool)
      requires Valid()
      ensures stop == Halts(false, nobjects, info[..], |ids|, nmdc, fuel)
    {
      if nobjects > 0 {
        if nmdc < nobjects {
          stop := false;
        } else {
          stop := true;
        }
      } else {
        var cc := 0;
        for k := 0 to info.Length
          invariant cc == BelowOne(info[..k])
        {
          assert info[..k + 1][..k] == info[..k];
          if info[k] < 1.0 {
            cc := cc + 1;
          }
        }
        assert info[..info.Length] == info[..];
        stop := cc > |ids| || nmdc >= fuel;
      }
    }

    /** `_build_infovector`: for every row, fill `tmp` with the row's distances and the indices,
        sort both columns, then walk the index column; position j adds 1 to object i when
        j == i and 1/div to the object named at position j otherwise. */
    method BuildInfoVector()
      requires Valid() && info[..] == seq(|dmx|, _ => 0.0)
      modifies info
      ensures info[..] == InfoSpec(ColumnOrders(|dmx|))
    {
      var row := |dmx|;
      ghost var orders := ColumnOrders(row);
      var dist := new real[row](_ => 0.0);
      var idx := new real[row](_ => 0.0);
      for i := 0 to row
        invariant info[..] == Walked(orders, i)
      {
        FillColumns(dist, idx, dmx[i]);
        SortColumn(dist);
        SortColumn(idx);
        SortedIndexColumn(idx[..], row);
        ghost var before := info[..];
        CreditRow(info, idx, i);
        assert Walked(orders, i + 1) == Walk(orders[i], i, before, row);
      }
      WalkedBuilt(orders, row);
    }

    /** `_rm_mdc_contrib`: fill `tmp` from the row of the last pick, sort both columns, give the
        pick factor 0 and every other object 1 - 1/div in the order of the index column, then
        multiply each score by its factor. */
    method RmMdcContrib()
      requires Valid() && |ids| > 0
      modifies info
      ensures info[..] == Decayed(ColumnOrders(|dmx|), old(info[..]), ids[|ids| - 1])
    {
      var mdc := ids[|ids| - 1];
      var rank := ColumnFactors(dmx[mdc], mdc);
      ScaleBy(info, rank);
      assert Factors(ColumnOrders(|dmx|)[mdc], mdc) == rank[..];
    }
  }

  /** The first two loops of `_rm_mdc_contrib`: fill `tmp` from the row of the pick `mdc`,
      sort both columns, then walk the index column for the factors. */
  method ColumnFactors(drow: seq<real>, mdc: nat) returns (rank: array<real>)
    requires mdc < |drow|
    ensures fresh(rank) && rank[..] == Factors(ColumnOrders(|drow|)[mdc], mdc)
  {
    var row := |drow|;
    var dist := new real[row](_ => 0.0);
    var idx := new real[row](_ => 0.0);
    rank := new real[row](_ => 0.0);
    FillColumns(dist, idx, drow);
    SortColumn(dist);
    SortColumn(idx);
    SortedIndexColumn(idx[..], row);
    RankColumn(idx, rank, mdc);
  }

  /** The last loop of `_rm_mdc_contrib`: multiply every score by its factor. */
  method ScaleBy(info: array<real>, rank: array<real>)
    requires info.Length == rank.Length && info != rank
    modifies info
    ensures info[..] == Scaled(old(info[..]), rank[..])
  {
    ghost var before := info[..];
    for i := 0 to info.Length
      invariant forall k :: 0 <= k < i ==> info[k] == before[k] * rank[k]
      invariant forall k :: i <= k < info.Length ==> info[k] == before[k]
    {
      info[i] := info[i] * rank[i];
    }
    assert forall k :: 0 <= k < info.Length ==> Scaled(before, rank[..])[k] == before[k] * rank[k];
  }

  /** The loop that fills `tmp`: the distances of one row and the indices 0..n-1. */
  method FillColumns(dist: array<real>, idx: array<real>, drow: seq<real>)
    requires dist.Length == idx.Length == |drow| && dist != idx
    modifies dist, idx
    ensures dist[..] == drow && idx[..] == IndexColumn(|drow|)
  {
    for j := 0 to |drow|
      invariant forall p :: 0 <= p < j ==> dist[p] == drow[p] && idx[p] == p as real
    {
      dist[j] := drow[j];
      idx[j] := j as real;
    }
  }

  /** The crediting loop of `_build_infovector` for row i, over the sorted index column. */
  method CreditRow(info: array<real>, idx: array<real>, i: nat)
    requires info.Length == idx.Length && i < info.Length && info != idx
    requires idx[..] == IndexColumn(idx.Length)
    modifies info
    ensures info[..] == Walk(Iota(info.Length), i, old(info[..]), info.Length)
  {
    var row := info.Length;
    ghost var o := Iota(row);
    var div := 2.0;
    for j := 0 to row
      invariant div == Div(i, j)
      invariant info[..] == Walk(o, i, old(info[..]), j)
    {
      if j == i {
        info[j] := info[j] + 1.0;
      } else {
        var k := idx[j].Floor;
        assert k == o[j];
        info[k] := info[k] + 1.0 / div;
        div := div + 1.0;
      }
    }
  }

  /** The middle loop of `_rm_mdc_contrib`: walk the sorted index column, giving `mdc` factor 0
      and every other object 1 - 1/div, with div advanced after every object but `mdc`. */
  method RankColumn(idx: array<real>, rank: array<real>, mdc: nat)
    requires idx.Length == rank.Length && mdc < idx.Length && idx != rank
    requires idx[..] == IndexColumn(idx.Length)
    modifies rank
    ensures rank[..] == Factors(ColumnOrders(idx.Length)[mdc], mdc)
  {
    var row := idx.Length;
    ghost var o := Iota(row);
    IotaOrder(row);
    var div := 2.0;
    for i := 0 to row
      invariant div == Div(mdc, i)
      invariant forall k :: 0 <= k < i ==> rank[k] == Factor(o, mdc, k)
    {
      var j := idx[i].Floor;
      assert j == o[i] == i;
      FactorAt(o, row, mdc, i);
      if j == mdc {
        rank[j] := 0.0;
      } else {
        rank[j] := 1.0 - 1.0 / div;
        div := div + 1.0;
      }
    }
    assert ColumnOrders(row)[mdc] == o;
    assert rank[..] == Factors(o, mdc);
  }
}
