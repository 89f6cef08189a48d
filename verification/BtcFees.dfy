/** The fee estimate for Bitcoin: positions in the sorted mempool, clamped to at least 2. */
module BtcFees {
  import opened Sorting

  datatype Positions = Positions(fastest: int, fast: int, medium: int, slow: int, slowest: int)

  /** The positions looked up in a mempool of this size; a small mempool does not look up the slowest. */
  function PositionsFor(memPoolSize: nat): Positions
    requires memPoolSize > 0
  {
    if memPoolSize <= 2000 then
      Positions(memPoolSize / 100 * 5, memPoolSize / 100 * 30, memPoolSize / 100 * 50, memPoolSize / 100 * 80, 0)
    else
      Positions(100, 500, 2000, memPoolSize / 100 * 70, memPoolSize / 100 * 90)
  }

  /** Every position is an index of the mempool, and the faster speeds look no further back. */
  lemma PositionsInRange(n: nat)
    requires n > 0
    ensures var p := PositionsFor(n);
            && 0 <= p.fastest <= p.fast <= p.medium < n
            && p.fast <= p.slow < n && 0 <= p.slowest < n
            && (if n <= 2000 then p.medium <= p.slow else p.slow <= p.slowest)
  {
  }

  function AtLeast2(v: int): int { if v < 2 then 2 else v }

  /** The looked-up values before the final comparisons. */
  function Looked(fees: seq<int>): EstimationSpeeds {
    if fees == [] then EstimationSpeeds(2, 2, 3, 5, 10)
    else
      PositionsInRange(|fees|);
      var p := PositionsFor(|fees|);
      EstimationSpeeds(
        if |fees| <= 2000 then 2 else AtLeast2(fees[p.slowest]),
        AtLeast2(fees[p.slow]), fees[p.medium], fees[p.fast], fees[p.fastest])
  }

  /** Each speed is raised to the next slower one, as that one was looked up. */
  function Raised(v: EstimationSpeeds): EstimationSpeeds {
    EstimationSpeeds(
      v.verySlow,
      if v.verySlow > v.slow then v.verySlow else v.slow,
      if v.slow > v.medium then v.slow else v.medium,
      if v.medium > v.fast then v.medium else v.fast,
      if v.fast > v.veryFast then v.fast else v.veryFast)
  }

  function Speeds(fees: seq<int>): EstimationSpeeds { Raised(Looked(fees)) }

  /** The Bitcoin branch of getFeeRate. The result depends on the mempool only through its sorted fees. */
  method GetFeeRate(mempool: map<string, int>) returns (sp: EstimationSpeeds)
    ensures exists fees :: SortedFees(fees, mempool)
    ensures forall fees :: SortedFees(fees, mempool) ==> |fees| == |mempool| && sp == Speeds(fees)
  {
    var mp := SortedMempool(mempool);
    ghost var fees := Values(mp, Fee());
    var slowestValue, slowValue, mediumValue, fastValue, fastestValue := 0, 0, 0, 0, 0;
    var memPoolSize := |mp|;
    if memPoolSize > 0 { PositionsInRange(memPoolSize); }
    if memPoolSize <= 2000 && memPoolSize > 0 {
      var fastestPosition := memPoolSize / 100 * 5;
      var fastPosition := memPoolSize / 100 * 30;
      var mediumPosition := memPoolSize / 100 * 50;
      var slowPosition := memPoolSize / 100 * 80;
      slowestValue := 2;
      slowValue := mp[slowPosition].value;
      if slowValue < 2 {
        slowValue := 2;
      }
      mediumValue := mp[mediumPosition].value;
      fastValue := mp[fastPosition].value;
      fastestValue := mp[fastestPosition].value;
    } else if memPoolSize == 0 {
      slowestValue, slowValue, mediumValue, fastValue, fastestValue := 2, 2, 3, 5, 10;
    } else {
      var fastestPosition, fastPosition, mediumPosition := 100, 500, 2000;
      var slowPosition := memPoolSize / 100 * 70;
      var slowestPosition := memPoolSize / 100 * 90;
      slowestValue := mp[slowestPosition].value;
      if slowestValue < 2 {
        slowestValue := 2;
      }
      slowValue := mp[slowPosition].value;
      if slowValue < 2 {
        slowValue := 2;
      }
      mediumValue := mp[mediumPosition].value;
      fastValue := mp[fastPosition].value;
      fastestValue := mp[fastestPosition].value;
    }
    assert Looked(fees) == EstimationSpeeds(slowestValue, slowValue, mediumValue, fastValue, fastestValue);
    sp := RaiseFaster(slowestValue, slowValue, mediumValue, fastValue, fastestValue);
  }

  /** The end of the branch: a speed that looks slower than the next slower one is raised to it. */
  method RaiseFaster(slowest: int, slow: int, medium: int, fast: int, fastest: int) returns (sp: EstimationSpeeds)
    ensures sp == Raised(EstimationSpeeds(slowest, slow, medium, fast, fastest))
  {
    var slowValue, mediumValue, fastValue, fastestValue := slow, medium, fast, fastest;
    if fastValue > fastestValue {
      fastestValue := fastValue;
    }
    if mediumValue > fastValue {
      fastValue := mediumValue;
    }
    if slowValue > mediumValue {
      mediumValue := slowValue;
    }
    if slowest > slowValue {
      slowValue := slowest;
    }
    sp := EstimationSpeeds(slowest, slowValue, mediumValue, fastValue, fastestValue);
  }

  // ---------------------------------------------------------------- what the estimate promises

  ghost predicate NonDecreasing(sp: EstimationSpeeds) {
    sp.verySlow <= sp.slow <= sp.medium <= sp.fast <= sp.veryFast
  }

  /** The slower speeds are never below 2. */
  lemma SlowSpeedsAtLeast2(fees: seq<int>)
    ensures Speeds(fees).verySlow >= 2 && Speeds(fees).slow >= 2 && Speeds(fees).medium >= 2
  {
  }

  /** The five speeds are ordered exactly when the mempool is empty or the fee at the fast position is
      at least 2. */
  lemma OrderedIff(fees: seq<int>)
    requires Descending(fees)
    ensures NonDecreasing(Speeds(fees)) <==>
            fees == [] || (0 <= PositionsFor(|fees|).fast < |fees| && fees[PositionsFor(|fees|).fast] >= 2)
  {
    if fees != [] {
      PositionsInRange(|fees|);
      var p := PositionsFor(|fees|);
      NoFurtherIsNoLess(fees, p.fastest, p.fast);
      NoFurtherIsNoLess(fees, p.fast, p.medium);
      NoFurtherIsNoLess(fees, p.fast, p.slow);
      if |fees| <= 2000 {
        NoFurtherIsNoLess(fees, p.medium, p.slow);
      } else {
        NoFurtherIsNoLess(fees, p.slow, p.slowest);
      }
    }
  }

  lemma NoFurtherIsNoLess(fees: seq<int>, i: int, j: int)
    requires Descending(fees) && 0 <= i <= j < |fees|
    ensures fees[i] >= fees[j]
  {
  }

  function CountAbove(fees: seq<int>, v: int): nat {
    if fees == [] then 0 else CountAbove(fees[..|fees| - 1], v) + (if fees[|fees| - 1] > v then 1 else 0)
  }

  lemma {:induction false} FewAbove(fees: seq<int>, p: nat, v: int)
    requires Descending(fees) && (p < |fees| ==> fees[p] <= v)
    ensures CountAbove(fees, v) <= p
  {
    if |fees| > p {
      FewAbove(fees[..|fees| - 1], p, v);
    } else {
      CountAtMost(fees, v);
    }
  }

  lemma {:induction false} CountAtMost(fees: seq<int>, v: int)
    ensures CountAbove(fees, v) <= |fees|
  {
    if fees != [] { CountAtMost(fees[..|fees| - 1], v); }
  }

  /** At most as many waiting transactions as the fastest position pay more than VeryFast. */
  lemma VeryFastIsNearTheFront(fees: seq<int>)
    requires Descending(fees) && fees != []
    ensures CountAbove(fees, Speeds(fees).veryFast) <= PositionsFor(|fees|).fastest
  {
    PositionsInRange(|fees|);
    FewAbove(fees, PositionsFor(|fees|).fastest, Speeds(fees).veryFast);
  }

  // ---------------------------------------------------------------- which fees the speeds are

  function CountAtLeast(fees: seq<int>, v: int): nat {
    if fees == [] then 0 else CountAtLeast(fees[..|fees| - 1], v) + (if fees[|fees| - 1] >= v then 1 else 0)
  }

  /** v is a fee that at most p fees exceed, and that more than p fees reach. */
  ghost predicate Ranked(fees: seq<int>, p: int, v: int) {
    CountAbove(fees, v) <= p < CountAtLeast(fees, v)
  }

  lemma {:induction false} EnoughAtLeast(fees: seq<int>, p: nat, v: int)
    requires Descending(fees) && p < |fees| && fees[p] >= v
    ensures CountAtLeast(fees, v) > p
  {
    var n := |fees| - 1;
    if p < n {
      EnoughAtLeast(fees[..n], p, v);
    } else {
      AllAtLeast(fees, v);
    }
  }

  lemma {:induction false} AllAtLeast(fees: seq<int>, v: int)
    requires forall i :: 0 <= i < |fees| ==> fees[i] >= v
    ensures CountAtLeast(fees, v) == |fees|
  {
    if fees != [] { AllAtLeast(fees[..|fees| - 1], v); }
  }

  lemma {:induction false} FewAtLeast(fees: seq<int>, p: nat, v: int)
    requires Descending(fees) && (p < |fees| ==> fees[p] < v)
    ensures CountAtLeast(fees, v) <= p
  {
    if |fees| > p {
      FewAtLeast(fees[..|fees| - 1], p, v);
    } else {
      AtLeastAtMost(fees, v);
    }
  }

  lemma {:induction false} AtLeastAtMost(fees: seq<int>, v: int)
    ensures CountAtLeast(fees, v) <= |fees|
  {
    if fees != [] { AtLeastAtMost(fees[..|fees| - 1], v); }
  }

  lemma {:induction false} ManyAbove(fees: seq<int>, p: nat, v: int)
    requires Descending(fees) && p < |fees| && fees[p] > v
    ensures CountAbove(fees, v) > p
  {
    var n := |fees| - 1;
    if p < n {
      ManyAbove(fees[..n], p, v);
    } else {
      AllAbove(fees, v);
    }
  }

  lemma {:induction false} AllAbove(fees: seq<int>, v: int)
    requires forall i :: 0 <= i < |fees| ==> fees[i] > v
    ensures CountAbove(fees, v) == |fees|
  {
    if fees != [] { AllAbove(fees[..|fees| - 1], v); }
  }

  /** In a descending list the fee of rank p is the one at position p. */
  lemma RankedIff(fees: seq<int>, p: nat, v: int)
    requires Descending(fees) && p < |fees|
    ensures Ranked(fees, p, v) <==> fees[p] == v
  {
    if fees[p] == v {
      FewAbove(fees, p, v);
      EnoughAtLeast(fees, p, v);
    } else if fees[p] > v {
      ManyAbove(fees, p, v);
    } else {
      FewAtLeast(fees, p, v);
    }
  }

  function Max(a: int, b: int): int { if a < b then b else a }

  /** The speeds of an empty mempool. */
  lemma SpeedsOfNothing()
    ensures Speeds([]) == EstimationSpeeds(2, 2, 3, 5, 10)
  {
  }

  /** The speeds of up to 2000 transactions: VeryFast and Fast are the fees of ranks 5% and 30%, Medium and Slow
      those of 50% and 80% but at least 2, and VerySlow is 2. Percentages are of the full hundreds. */
  lemma SpeedsOfSmallMempool(fees: seq<int>, veryFast: int, fast: int, medium: int, slow: int)
    requires Descending(fees) && 0 < |fees| <= 2000
    requires Ranked(fees, |fees| / 100 * 5, veryFast) && Ranked(fees, |fees| / 100 * 30, fast)
    requires Ranked(fees, |fees| / 100 * 50, medium) && Ranked(fees, |fees| / 100 * 80, slow)
    ensures Speeds(fees).verySlow == 2 && Speeds(fees).slow == Max(2, slow) && Speeds(fees).medium == Max(2, medium)
    ensures Speeds(fees).fast == fast && Speeds(fees).veryFast == veryFast
  {
    var n := |fees|;
    PositionsInRange(n);
    RankedIff(fees, n / 100 * 5, veryFast);
    RankedIff(fees, n / 100 * 30, fast);
    RankedIff(fees, n / 100 * 50, medium);
    RankedIff(fees, n / 100 * 80, slow);
  }

  /** The speeds of more than 2000 transactions: VeryFast and Fast are the fees of ranks 100 and 500, Slow and
      VerySlow those of 70% and 90% but at least 2, and Medium is that of rank 2000, but neither below 2 nor below
      the fee of rank 70%. */
  lemma SpeedsOfLargeMempool(fees: seq<int>, veryFast: int, fast: int, medium: int, slow: int, slowest: int)
    requires Descending(fees) && |fees| > 2000
    requires Ranked(fees, 100, veryFast) && Ranked(fees, 500, fast) && Ranked(fees, 2000, medium)
    requires Ranked(fees, |fees| / 100 * 70, slow) && Ranked(fees, |fees| / 100 * 90, slowest)
    ensures Speeds(fees).verySlow == Max(2, slowest) && Speeds(fees).slow == Max(2, slow)
    ensures Speeds(fees).medium == Max(Max(2, slow), medium)
    ensures Speeds(fees).fast == fast && Speeds(fees).veryFast == veryFast
  {
    var n := |fees|;
    PositionsInRange(n);
    RankedIff(fees, 100, veryFast);
    RankedIff(fees, 500, fast);
    RankedIff(fees, 2000, medium);
    RankedIff(fees, n / 100 * 70, slow);
    RankedIff(fees, n / 100 * 90, slowest);
  }

  /** Every rank has a fee, so the two statements above speak of all mempools. */
  lemma RankExists(fees: seq<int>, p: nat)
    requires Descending(fees) && p < |fees|
    ensures exists v :: Ranked(fees, p, v)
  {
    RankedIff(fees, p, fees[p]);
  }

  /** At most as many fees as the medium position exceed Medium, and more reach it when it is above Slow. */
  lemma MediumIsInTheMiddle(fees: seq<int>)
    requires Descending(fees) && fees != []
    ensures var p := if |fees| <= 2000 then |fees| / 100 * 50 else 2000;
            && CountAbove(fees, Speeds(fees).medium) <= p
            && (Speeds(fees).medium > Speeds(fees).slow ==> CountAtLeast(fees, Speeds(fees).medium) > p)
  {
    PositionsInRange(|fees|);
    var p := if |fees| <= 2000 then |fees| / 100 * 50 else 2000;
    FewAbove(fees, p, Speeds(fees).medium);
    if Speeds(fees).medium > Speeds(fees).slow { EnoughAtLeast(fees, p, Speeds(fees).medium); }
  }
}
