/** optobj/ks.py: the selector over a given square distance matrix, ranking the objects seen
    from each reference object with a stable sort on distance. */
module Ks {
  import opened Ranking
  import opened Greedy

  /** The rank orders ks.py walks: from each object, all objects sorted by distance with
      Python's stable `sorted`, so equal distances keep ascending index order. */
  function KsOrders(dmx: seq<seq<real>>): (orders: seq<seq<nat>>)
    requires Square(dmx)
    ensures |orders| == |dmx| && ValidOrders(orders)
  {
    seq(|dmx|, i requires 0 <= i < |dmx| => StableOrder(dmx[i]))
  }

  /** With a fixed count, a fresh selector stops after min(nobjects, n) rounds, and the picks
      of those rounds are distinct objects. */
  lemma FixedCountDistinct(orders: seq<seq<nat>>, nobjects: int, steps: nat, fuel: nat)
    requires ValidOrders(orders) && |orders| > 0 && nobjects > 0
    requires steps == FirstHalt(orders, true, nobjects, InfoSpec(orders), 0, fuel, 1)
    ensures steps == Min(nobjects, |orders|)
    ensures Distinct(Iterate(orders, InfoSpec(orders), steps).picks)
  {
    var v0 := InfoSpec(orders);
    CappedFixedCount(orders, nobjects, v0, steps, fuel);
    InfoAtLeastOne(orders);
    IterateDistinct(orders, v0, steps);
  }

  class KS {
    const dmx: seq<seq<real>>
    const nobjects: int
    var info: array<real>
    /** The selection list. ks.py initialises it as `ksids` in `__init__`, while `_appendnext`
        and `select` append to and return `mdcids`, which is never initialised, and `getnext`
        and `kslist` read `ksids`. The model keeps a single list, empty after construction. */
    var ids: seq<nat>

    ghost predicate Valid()
      reads this
    {
      && Square(dmx)
      && info.Length == |dmx|
      && (forall q :: 0 <= q < |ids| ==> ids[q] < |dmx|)
    }

    /** A selector that has been built and has not picked anything yet. */
    ghost predicate Unused()
      reads this, info
      requires Valid()
    {
      ids == [] && info[..] == InfoSpec(KsOrders(dmx))
    }

    constructor (dmx: seq<seq<real>>, nobjects: int)
      requires Square(dmx)
      ensures Valid() && Unused() && fresh(info)
      ensures this.dmx == dmx && this.nobjects == nobjects
    {
      this.dmx := dmx;
      this.nobjects := nobjects;
      info := new real[0];
      ids := [];
      new;
      BuildInfoVector();
      ids := [];
    }

    /** `_build_infovector`: every row walks its rank order; rank position `j` adds 1 to
        object `i` when `j == i` and 1/div to the object at position `j` otherwise. */
    method BuildInfoVector()
      requires Square(dmx)
      modifies this
      ensures fresh(info) && info.Length == |dmx| && ids == old(ids)
      ensures info[..] == InfoSpec(KsOrders(dmx))
    {
      var row := |dmx|;
      info := new real[row](_ => 0.0);
      var orders := KsOrders(dmx);
      assert info[..] == Walked(orders, 0);
      WalkRows(info, orders);
      WalkedBuilt(orders, row);
    }

    /** `_appendnext`: scan the scores from index 1 on, moving only to a strictly larger score,
        and append the index found. */
    method AppendNext()
      requires Valid() && |dmx| > 0
      modifies this`ids
      ensures Valid() && ids == old(ids) + [FirstMax(info[..])]
    {
      var dist := info[0];
      var mdc := 0;
      for i := 1 to info.Length
        invariant mdc < i && dist == info[mdc]
        invariant IsFirstMax(info[..i], mdc)
      {
        if info[i] > dist {
          dist := info[i];
          mdc := i;
        }
      }
      assert info[..info.Length] == info[..];
      FirstMaxUnique(info[..], mdc, FirstMax(info[..]));
      ids := ids + [mdc];
    }

    /** `_rm_mdc_contrib`: walk the rank order of the last picked object, give it factor 0 and
        every other object 1 - 1/div, then multiply each score by its factor. */
    method RmMdcContrib()
      requires Valid() && |ids| > 0
      modifies info
      ensures info[..] == Decayed(KsOrders(dmx), old(info[..]), ids[|ids| - 1])
    {
      ghost var before := info[..];
      var mdc := ids[|ids| - 1];
      var tmp := StableOrder(dmx[mdc]);
      ghost var orders := KsOrders(dmx);
      assert tmp == orders[mdc];
      var rank := RankFactors(tmp, mdc);
      ApplyRank(rank);
      assert info[..] == Scaled(before, Factors(tmp, mdc));
      assert Decayed(orders, before, mdc) == Scaled(before, Factors(tmp, mdc));
      assert before == old(info[..]) && mdc == ids[|ids| - 1];
      assert info[..] == Decayed(orders, before, mdc);
    }

    /** The last loop of `_rm_mdc_contrib`: multiply every score by its factor. */
    method ApplyRank(rank: array<real>)
      requires info.Length == rank.Length && info != rank
      modifies info
      ensures info[..] == Scaled(old(info[..]), rank[..])
    {
      ghost var before := info[..];
      for i := 0 to info.Length
        invariant forall k :: 0 <= k < i ==> info[k] == before[k] * rank[k]
        invariant forall k :: i <= k < info.Length ==> info[k] == before[k]
      {
        info[i] := info[i] * rank[i];
      }
      assert forall k :: 0 <= k < info.Length ==> Scaled(before, rank[..])[k] == before[k] * rank[k];
    }

    /** The two calls every pass of the loop of `select` starts with: `_appendnext`, then
        `_rm_mdc_contrib`. From the scores of a run state, with that state's picks at the end of
        the list, the pass leaves the next state of the run. */
    method Round(ghost orders: seq<seq<nat>>, ghost prev: Run, ghost ids0: seq<nat>)
      requires Valid() && |dmx| > 0 && orders == KsOrders(dmx)
      requires info[..] == prev.info && ids == ids0 + prev.picks
      modifies this`ids, info
      ensures Valid()
      ensures info[..] == Step(orders, prev).info
      ensures ids == ids0 + Step(orders, prev).picks
    {
      AppendNext();
      ghost var m := ids[|ids| - 1];
      assert m == FirstMax(prev.info) && ids == ids0 + (prev.picks + [m]);
      RmMdcContrib();
      assert info[..] == Decayed(orders, prev.info, m);
    }

    /** The loop of `select` that counts the scores below 1. */
    method CountBelowOne() returns (ncheck: nat)
      requires Valid()
      ensures ncheck == BelowOne(info[..])
    {
      ncheck := 0;
      for k := 0 to info.Length
        invariant ncheck == BelowOne(info[..k])
      {
        assert info[..k + 1][..k] == info[..k];
        if info[k] < 1.0 {
          ncheck := ncheck + 1;
        }
      }
      assert info[..info.Length] == info[..];
    }

    /** The stop test at the end of a round of `select`: with a fixed count, stop when every
        object or `nobjects` objects are listed; with autostop, when more scores are below 1 than
        objects are listed, or when the fuel is spent. */
    method StopTest(rounds: nat, fuel: nat) returns (stop: bool)
      requires Valid()
      ensures stop == Halts(true, nobjects, info[..], |ids|, rounds, fuel)
    {
      if nobjects > 0 {
        if |ids| == |dmx| {
          stop := true;
        } else if |ids| < nobjects {
          stop := false;
        } else {
          stop := true;
        }
      } else {
        var ncheck := CountBelowOne();
        stop := ncheck > |ids| || rounds >= fuel;
      }
    }

    /** `select`: pick, remove the contribution, test the stop condition, and again. The list is
        not reset, so picks made by `getnext` before stay at its front. The autostop branch of
        ks.py has no bound on its rounds; here it stops after at most `fuel` rounds (at least one). */
    method Select(fuel: nat) returns (r: seq<nat>, ghost steps: nat)
      requires Valid() && |dmx| > 0
      modifies this`ids, info
      ensures Valid() && r == ids && steps >= 1
      ensures info[..] == Iterate(KsOrders(dmx), old(info[..]), steps).info
      ensures ids == old(ids) + Iterate(KsOrders(dmx), old(info[..]), steps).picks
      ensures steps == FirstHalt(KsOrders(dmx), true, nobjects, old(info[..]), |old(ids)|, fuel, 1)
      ensures old(Unused()) && nobjects > 0 ==> |r| == Min(nobjects, |dmx|) && Distinct(r)
      ensures old(Unused()) && nobjects <= 0 && steps < fuel ==> |r| < |dmx| && Distinct(r)
    {
      ghost var orders := KsOrders(dmx);
      ghost var v0 := info[..];
      ghost var ids0 := ids;
      ghost var unused := Unused();
      var rounds := Rounds(orders, v0, ids0, fuel);
      steps := rounds;
      r := ids;
      if unused && nobjects > 0 {
        assert |ids0| == 0 && v0 == InfoSpec(orders);
        FixedCountDistinct(orders, nobjects, steps, fuel);
      }
      if unused && nobjects <= 0 && steps < fuel {
        assert |ids0| == 0 && v0 == InfoSpec(orders);
        AutostopDistinct(orders, true, nobjects, fuel, steps);
      }
    }

    /** The loop of `select`, run from the scores v0 and the list ids0. */
    method Rounds(ghost orders: seq<seq<nat>>, ghost v0: seq<real>, ghost ids0: seq<nat>, fuel: nat)
      returns (rounds: nat)
      requires Valid() && |dmx| > 0 && orders == KsOrders(dmx)
      requires info[..] == v0 && ids == ids0
      modifies this`ids, info
      ensures Valid() && rounds >= 1
      ensures info[..] == Iterate(orders, v0, rounds).info
      ensures ids == ids0 + Iterate(orders, v0, rounds).picks
      ensures rounds == FirstHalt(orders, true, nobjects, v0, |ids0|, fuel, 1)
    {
      rounds := 0;
      var stopcondition := true;
      while stopcondition
        invariant Valid()
        invariant info[..] == Iterate(orders, v0, rounds).info
        invariant ids == ids0 + Iterate(orders, v0, rounds).picks
        invariant stopcondition ==> FirstHalt(orders, true, nobjects, v0, |ids0|, fuel, 1)
                                        == FirstHalt(orders, true, nobjects, v0, |ids0|, fuel, rounds + 1)
        invariant !stopcondition ==> rounds >= 1 && FirstHalt(orders, true, nobjects, v0, |ids0|, fuel, 1) == rounds
        decreases stopcondition, if nobjects > 0 then nobjects - |ids| else fuel - rounds
      {
        ghost var prev := Iterate(orders, v0, rounds);
        Round(orders, prev, ids0);
        assert Step(orders, prev) == Iterate(orders, v0, rounds + 1);
        rounds := rounds + 1;
        var stop := StopTest(rounds, fuel);
        assert stop == SelectHalts(orders, true, nobjects, v0, |ids0|, rounds, fuel);
        stopcondition := !stop;
      }
    }

    /** `getnext`: append the next pick without removing its contribution. */
    method GetNext() returns (next: nat)
      requires Valid() && |dmx| > 0
      modifies this`ids
      ensures Valid() && next == FirstMax(info[..]) && ids == old(ids) + [next]
    {
      AppendNext();
      next := ids[|ids| - 1];
    }

    /** `kslist`: the selection list, every entry an object index. */
    function KsList(): (r: seq<nat>)
      reads this
      requires Valid()
      ensures r == ids && forall q :: 0 <= q < |r| ==> r[q] < |dmx|
    {
      ids
    }
  }

  /** The row loop of `_build_infovector` on the vector `info`, from all zeros, given the rank
      order of every row. */
  method WalkRows(info: array<real>, orders: seq<seq<nat>>)
    requires ValidOrders(orders) && info.Length == |orders| && info[..] == Walked(orders, 0)
    modifies info
    ensures info[..] == Walked(orders, |orders|)
  {
    var row := |orders|;
    for i := 0 to row
      invariant info[..] == Walked(orders, i)
    {
      var tmp := orders[i];
      ghost var before := info[..];
      WalkRow(info, tmp, i);
      assert Walked(orders, i + 1) == Walk(tmp, i, before, row);
    }
  }

  /** The body of the row loop of `_build_infovector`: walk the rank order `tmp` of row `i`
      with div starting at 2; position `i` adds 1 to object `i`, every other position adds
      1/div to the object sitting there and advances div. */
  method WalkRow(info: array<real>, tmp: seq<nat>, i: nat)
    requires i < |tmp| && info.Length == |tmp|
    requires forall p :: 0 <= p < |tmp| ==> tmp[p] < |tmp|
    modifies info
    ensures info[..] == Walk(tmp, i, old(info[..]), |tmp|)
  {
    var row := |tmp|;
    var div := 2.0;
    for j := 0 to row
      invariant div == Div(i, j)
      invariant info[..] == Walk(tmp, i, old(info[..]), j)
    {
      if j == i {
        info[j] := info[j] + 1.0;
      } else {
        var k := tmp[j];
        info[k] := info[k] + 1.0 / div;
        div := div + 1.0;
      }
    }
  }

  /** The middle loop of `_rm_mdc_contrib`: walk the rank order `tmp` of the picked object
      `mdc`, giving it factor 0 and every other object 1 - 1/div, with div starting at 2 and
      advanced after every object but `mdc`. The factors are stored by object index. */
  method RankFactors(tmp: seq<nat>, mdc: nat) returns (rank: array<real>)
    requires IsOrder(tmp, |tmp|) && mdc < |tmp|
    ensures fresh(rank) && rank[..] == Factors(tmp, mdc)
  {
    var row := |tmp|;
    ghost var pm := IndexOf(tmp, mdc);
    rank := new real[row](_ => 0.0);
    var div := 2.0;
    for i := 0 to row
      invariant div == Div(pm, i)
      invariant forall k :: 0 <= k < row && IndexOf(tmp, k) < i ==> rank[k] == Factor(tmp, mdc, k)
    {
      var j := tmp[i];
      IndexOfAt(tmp, row, i);
      FactorAt(tmp, row, mdc, i);
      assert (j == mdc) == (i == pm);
      if j == mdc {
        rank[j] := 0.0;
      } else {
        rank[j] := 1.0 - 1.0 / div;
        div := div + 1.0;
      }
    }
    assert rank[..] == Factors(tmp, mdc);
  }

  /** `getnext` leaves the scores as they are, so two calls in a row hand out the same object. */
  method GetNextTwice(ks: KS) returns (a: nat, b: nat)
    requires ks.Valid() && |ks.dmx| > 0
    modifies ks`ids
    ensures a == b && ks.ids == old(ks.ids) + [a, b]
  {
    a := ks.GetNext();
    b := ks.GetNext();
  }

  /** Removing the contribution of `m` takes more from the objects nearer to `m`: of two other
      objects, the one first in (distance, index) order from `m` keeps the smaller factor. */
  lemma KsDecayMonotone(dmx: seq<seq<real>>, m: nat, a: nat, b: nat)
    requires Square(dmx) && m < |dmx| && a < |dmx| && b < |dmx| && a != m && b != m
    requires Precedes(dmx[m], a, b)
    ensures Factor(KsOrders(dmx)[m], m, a) < Factor(KsOrders(dmx)[m], m, b)
  {
    var orders := KsOrders(dmx);
    RankedPositions(dmx[m], orders[m], a, b);
    DecayOrderedByRank(orders[m], |dmx|, m, a, b);
  }

  /** On the symmetric two-object matrix, row 0 ranks object 0 first and row 1 object 1. */
  lemma SymmetricOrders()
    ensures KsOrders([[0.0, 1.0], [1.0, 0.0]]) == [[0, 1], [1, 0]]
  {
    var dmx := [[0.0, 1.0], [1.0, 0.0]];
    assert Iota(2) == [0, 1];
    assert StableOrder(dmx[0]) == [0, 1] by {
      assert SortByDistance(dmx[0], [1]) == [1];
      assert InsertByDistance(dmx[0], 0, [1]) == [0, 1];
    }
    assert StableOrder(dmx[1]) == [1, 0] by {
      assert SortByDistance(dmx[1], [1]) == [1];
      assert InsertByDistance(dmx[1], 0, []) == [0];
      assert InsertByDistance(dmx[1], 0, [1]) == [1, 0];
    }
  }

  /** Self-credit follows rank position, not identity. On the symmetric two-object matrix,
      row 1 ranks object 1 first, so its position 1 (object 0) is the self-credit position and
      credits object 1 once more: the scores are [1, 2], not [1.5, 1.5], and the first pick is
      object 1. */
  lemma KsSelfCreditExample()
    ensures InfoSpec(KsOrders([[0.0, 1.0], [1.0, 0.0]])) == [1.0, 2.0]
    ensures FirstMax(InfoSpec(KsOrders([[0.0, 1.0], [1.0, 0.0]]))) == 1
  {
    SymmetricOrders();
    var orders: seq<seq<nat>> := [[0, 1], [1, 0]];
    assert IndexOf(orders[0], 1) == 1 && IndexOf(orders[1], 0) == 1;
    // Row 0 credits object 0 with 1 and object 1 with 1/2; row 1 credits object 1 with 1 (its
    // self-credit) and again with 1/2 (its rank-0 entry), and object 0 (at rank 1) with nothing.
    assert RowCredit(orders[0], 0, 0, 2) == 1.0 && RowCredit(orders[0], 0, 1, 2) == 0.5;
    assert RowCredit(orders[1], 1, 0, 2) == 0.0 && RowCredit(orders[1], 1, 1, 2) == 1.5;
    assert InfoEntry(orders, 0, 1) == InfoEntry(orders, 0, 0) + RowCredit(orders[0], 0, 0, 2);
    assert InfoEntry(orders, 1, 1) == InfoEntry(orders, 1, 0) + RowCredit(orders[0], 0, 1, 2);
    assert InfoEntry(orders, 0, 2) == InfoEntry(orders, 0, 1) + RowCredit(orders[1], 1, 0, 2);
    assert InfoEntry(orders, 1, 2) == InfoEntry(orders, 1, 1) + RowCredit(orders[1], 1, 1, 2);
    var v := InfoSpec(orders);
    assert v == [1.0, 2.0];
    assert IsFirstMax(v, 1);
    FirstMaxUnique(v, FirstMax(v), 1);
  }
}
