/** The fee estimate for Ethereum: averages of consecutive slices of the sorted mempool. */
module EthFees {
  import opened Sorting
  import opened MachineIntegers

  const GWEI := 1_000_000_000

  // ---------------------------------------------------------------- averages

  function Sum(fees: seq<int>): int {
    if fees == [] then 0 else Sum(fees[..|fees| - 1]) + fees[|fees| - 1]
  }

  /** Integer division of Go: towards zero. */
  function TruncDiv(a: int, b: int): int
    requires b > 0
  {
    if a >= 0 then a / b else -((-a) / b)
  }

  function Average(fees: seq<int>): int
    requires fees != []
  {
    TruncDiv(Signed64(Sum(fees)), |fees|)
  }

  method ComputeAverage(fees: seq<int>) returns (avg: int)
    requires fees != []
    ensures avg == Average(fees)
  {
    var total := 0;
    for i := 0 to |fees|
      invariant total == Signed64(Sum(fees[..i]))
    {
      assert fees[..i + 1][..i] == fees[..i];
      Signed64Add(Sum(fees[..i]), fees[i]);
      total := Signed64(total + fees[i]);
    }
    assert fees[..|fees|] == fees;
    avg := TruncDiv(total, |fees|);
  }

  // ---------------------------------------------------------------- quantiles

  /** A quantile within one of the exact rational: n/10 and 9n/40. */
  ghost predicate NearQuantiles(n: nat, first: int, share: int) {
    -10 <= 10 * first - n <= 10 && -40 <= 40 * share - 9 * n <= 40
  }

  /** Any rounding of the products by less than a tenth truncates to a quantile within one; a single
      precision product of at most 1399 is far more precise. */
  lemma RoundedProductsAreNear(n: nat, tenth: real, share: real)
    requires n < 1400
    requires -0.01 < tenth - n as real / 10.0 < 0.01
    requires -0.01 < share - n as real * 9.0 / 40.0 < 0.01
    ensures NearQuantiles(n, tenth.Floor, share.Floor)
  {
    assert tenth.Floor as real <= tenth < tenth.Floor as real + 1.0;
    assert share.Floor as real <= share < share.Floor as real + 1.0;
    assert (10 * tenth.Floor) as real < n as real + 0.1;
    assert (10 * tenth.Floor) as real > n as real - 10.1;
    assert (40 * share.Floor) as real < (9 * n) as real + 0.4;
    assert (40 * share.Floor) as real > (9 * n) as real - 40.4;
  }

  method FetchQuantile(size: nat, first: int, share: int) returns (qs: seq<int>)
    ensures qs == [first, share, 2 * share, 4 * share, size - 1]
  {
    var quantile := share;
    qs := [first, quantile];
    var i := 0;
    while i < 2
      invariant 0 <= i <= 2
      invariant i == 0 ==> quantile == share && qs == [first, share]
      invariant i == 1 ==> quantile == 2 * share && qs == [first, share, 2 * share]
      invariant i == 2 ==> qs == [first, share, 2 * share, 4 * share]
    {
      quantile := quantile + quantile;
      qs := qs + [quantile];
      i := i + 1;
    }
    qs := qs + [size - 1];
  }

  // ---------------------------------------------------------------- the estimate

  /** Where the slices end: VeryFast, Fast, Medium, Slow, VerySlow. */
  datatype Cuts = Cuts(c0: int, c1: int, c2: int, c3: int, c4: int)

  predicate Averaged(n: nat) { n > 1400 || 100 < n < 1400 }

  function CutsFor(n: nat, first: int, share: int): Cuts
    requires Averaged(n)
  {
    if n > 1400 then Cuts(100, 400, 700, 1000, 1300) else Cuts(first, share, 2 * share, 4 * share, n)
  }

  /** For every mempool size the slices are non-empty, consecutive and in range; below 1400 they are the
      whole mempool. */
  lemma SlicesInRange(n: nat, first: int, share: int)
    requires Averaged(n) && NearQuantiles(n, first, share)
    ensures var c := CutsFor(n, first, share);
            0 < c.c0 < c.c1 < c.c2 < c.c3 < c.c4 <= n && (n < 1400 ==> c.c4 == n)
  {
  }

  function Speeds(fees: seq<int>, first: int, share: int): EstimationSpeeds
    requires NearQuantiles(|fees|, first, share)
  {
    if Averaged(|fees|) then
      SlicesInRange(|fees|, first, share);
      var c := CutsFor(|fees|, first, share);
      EstimationSpeeds(Average(fees[c.c3..c.c4]), Average(fees[c.c2..c.c3]), Average(fees[c.c1..c.c2]),
                       Average(fees[c.c0..c.c1]), Average(fees[..c.c0]))
    else EstimationSpeeds(9 * GWEI, 10 * GWEI, 14 * GWEI, 20 * GWEI, 25 * GWEI)
  }

  method AverageSlices(fees: seq<int>, c: Cuts) returns (sp: EstimationSpeeds)
    requires 0 < c.c0 < c.c1 < c.c2 < c.c3 < c.c4 <= |fees|
    ensures sp == EstimationSpeeds(Average(fees[c.c3..c.c4]), Average(fees[c.c2..c.c3]), Average(fees[c.c1..c.c2]),
                                   Average(fees[c.c0..c.c1]), Average(fees[..c.c0]))
  {
    var veryFast := ComputeAverage(fees[..c.c0]);
    var fast := ComputeAverage(fees[c.c0..c.c1]);
    var medium := ComputeAverage(fees[c.c1..c.c2]);
    var slow := ComputeAverage(fees[c.c2..c.c3]);
    var verySlow := ComputeAverage(fees[c.c3..c.c4]);
    sp := EstimationSpeeds(verySlow, slow, medium, fast, veryFast);
  }

  /** fetchMempool. `first` and `share` are the two truncated single precision products. */
  method FetchMempool(mempool: map<string, int>, first: int, share: int) returns (sp: EstimationSpeeds)
    requires NearQuantiles(|mempool|, first, share)
    ensures exists fees :: SortedFees(fees, mempool)
    ensures forall fees :: SortedFees(fees, mempool) ==> |fees| == |mempool| && sp == Speeds(fees, first, share)
  {
    var records := SortedMempool(mempool);
    sp := Estimate(Values(records, Fee()), first, share);
  }

  /** fetchMempool after sorting. */
  method Estimate(fees: seq<int>, first: int, share: int) returns (sp: EstimationSpeeds)
    requires NearQuantiles(|fees|, first, share)
    ensures sp == Speeds(fees, first, share)
  {
    if |fees| > 1400 {
      sp := AverageSlices(fees, Cuts(100, 400, 700, 1000, 1300));
      return;
    } else if |fees| < 1400 && |fees| > 100 {
      var quantile := FetchQuantile(|fees|, first, share);
      SlicesInRange(|fees|, first, share);
      sp := AverageSlices(fees, Cuts(quantile[0], quantile[1], quantile[2], quantile[3], |fees|));
      return;
    }
    sp := EstimationSpeeds(9 * GWEI, 10 * GWEI, 14 * GWEI, 20 * GWEI, 25 * GWEI);
  }

  // ---------------------------------------------------------------- the slices partition a middle-sized mempool

  lemma SlicesPartition(fees: seq<int>, first: int, share: int)
    requires NearQuantiles(|fees|, first, share) && 100 < |fees| < 1400
    ensures var c := CutsFor(|fees|, first, share);
            0 < c.c0 < c.c1 < c.c2 < c.c3 < c.c4 == |fees|
            && fees == fees[..c.c0] + fees[c.c0..c.c1] + fees[c.c1..c.c2] + fees[c.c2..c.c3] + fees[c.c3..]
  {
    SlicesInRange(|fees|, first, share);
  }

  // ---------------------------------------------------------------- ordered averages

  lemma {:induction false} SumBounds(fees: seq<int>, lo: int, hi: int)
    requires forall i :: 0 <= i < |fees| ==> lo <= fees[i] <= hi
    ensures lo * |fees| <= Sum(fees) <= hi * |fees|
  {
    if fees != [] {
      SumBounds(fees[..|fees| - 1], lo, hi);
      assert lo * |fees| == lo * (|fees| - 1) + lo;
      assert hi * |fees| == hi * (|fees| - 1) + hi;
    }
  }

  lemma MulMonotone(x: int, y: int, n: int)
    requires x <= y && n > 0
    ensures x * n <= y * n
  {
  }

  lemma DivBetween(a: nat, n: int, lo: int, hi: int)
    requires n > 0 && lo * n <= a <= hi * n
    ensures lo <= a / n <= hi
  {
    var q := a / n;
    assert q * n <= a < q * n + n;
    if q < lo { MulMonotone(q + 1, lo, n); }
    if q > hi { MulMonotone(hi + 1, q, n); }
  }

  /** A truncated quotient stays between integer bounds of the exact one. */
  lemma TruncDivBetween(a: int, n: int, lo: int, hi: int)
    requires n > 0 && lo * n <= a <= hi * n
    ensures lo <= TruncDiv(a, n) <= hi
  {
    if a >= 0 {
      DivBetween(a, n, lo, hi);
    } else {
      assert -hi * n <= -a <= -lo * n;
      DivBetween(-a, n, -hi, -lo);
    }
  }

  /** The exact sum of the fees is a signed 64-bit number. */
  ghost predicate Fits(fees: seq<int>) { -0x8000_0000_0000_0000 <= Sum(fees) < 0x8000_0000_0000_0000 }

  ghost function TrueAverage(fees: seq<int>): int
    requires fees != []
  {
    TruncDiv(Sum(fees), |fees|)
  }

  lemma AverageBetween(fees: seq<int>, lo: int, hi: int)
    requires fees != [] && Fits(fees)
    requires forall i :: 0 <= i < |fees| ==> lo <= fees[i] <= hi
    ensures lo <= Average(fees) <= hi
  {
    SumBounds(fees, lo, hi);
    TruncDivBetween(Sum(fees), |fees|, lo, hi);
  }

  lemma SlicesDescend(fees: seq<int>, a: int, b: int, c: int)
    requires Descending(fees) && 0 <= a < b < c <= |fees| && Fits(fees[a..b]) && Fits(fees[b..c])
    ensures Average(fees[a..b]) >= Average(fees[b..c])
  {
    AverageBetween(fees[a..b], fees[b], fees[a]);
    AverageBetween(fees[b..c], fees[c - 1], fees[b]);
  }

  ghost predicate Ordered(sp: EstimationSpeeds) {
    sp.veryFast >= sp.fast >= sp.medium >= sp.slow >= sp.verySlow
  }

  /** The sum of every slice fits 64 bits. */
  ghost predicate SlicesFit(fees: seq<int>, first: int, share: int)
    requires NearQuantiles(|fees|, first, share) && Averaged(|fees|)
  {
    SlicesInRange(|fees|, first, share);
    var c := CutsFor(|fees|, first, share);
    && Fits(fees[..c.c0])
    && Fits(fees[c.c0..c.c1])
    && Fits(fees[c.c1..c.c2])
    && Fits(fees[c.c2..c.c3])
    && Fits(fees[c.c3..c.c4])
  }

  /** The speeds are ordered for every mempool whose slice sums fit 64 bits, and for one that is not averaged. */
  lemma SpeedsOrdered(fees: seq<int>, first: int, share: int)
    requires NearQuantiles(|fees|, first, share) && Descending(fees)
    requires Averaged(|fees|) ==> SlicesFit(fees, first, share)
    ensures Ordered(Speeds(fees, first, share))
  {
    if Averaged(|fees|) {
      SlicesInRange(|fees|, first, share);
      var c := CutsFor(|fees|, first, share);
      assert fees[..c.c0] == fees[0..c.c0];
      SlicesDescend(fees, 0, c.c0, c.c1);
      SlicesDescend(fees, c.c0, c.c1, c.c2);
      SlicesDescend(fees, c.c1, c.c2, c.c3);
      SlicesDescend(fees, c.c2, c.c3, c.c4);
    }
  }

  // ---------------------------------------------------------------- when the speeds are the true averages

  ghost function TrueSpeeds(fees: seq<int>, first: int, share: int): EstimationSpeeds
    requires NearQuantiles(|fees|, first, share) && Averaged(|fees|)
  {
    SlicesInRange(|fees|, first, share);
    var c := CutsFor(|fees|, first, share);
    EstimationSpeeds(TrueAverage(fees[c.c3..c.c4]), TrueAverage(fees[c.c2..c.c3]), TrueAverage(fees[c.c1..c.c2]),
                     TrueAverage(fees[c.c0..c.c1]), TrueAverage(fees[..c.c0]))
  }

  lemma TruncDivApart(a: int, b: int, n: int)
    requires n > 0 && a - b >= 2 * n
    ensures TruncDiv(a, n) > TruncDiv(b, n)
  {
    TruncDivNear(a, n);
    TruncDivNear(b, n);
    var x, y := TruncDiv(a, n), TruncDiv(b, n);
    if x <= y { MulMonotone(x, y, n); }
  }

  lemma TruncDivNear(a: int, n: int)
    requires n > 0
    ensures a - n < TruncDiv(a, n) * n < a + n
  {
  }

  /** A wrapped sum is off by at least 2^64, too much for a slice of up to 2^63 fees to divide away. */
  lemma AverageIsTrueIff(fees: seq<int>)
    requires 0 < |fees| <= 0x8000_0000_0000_0000
    ensures Average(fees) == TrueAverage(fees) <==> Fits(fees)
  {
    var exact, wrapped := Sum(fees), Signed64(Sum(fees));
    if exact - wrapped >= 0x1_0000_0000_0000_0000 { TruncDivApart(exact, wrapped, |fees|); }
    if wrapped - exact >= 0x1_0000_0000_0000_0000 { TruncDivApart(wrapped, exact, |fees|); }
  }

  /** The five speeds are the true averages of the slices exactly when the sum of every slice fits 64 bits. */
  lemma SpeedsAreTrueIff(fees: seq<int>, first: int, share: int)
    requires NearQuantiles(|fees|, first, share) && Averaged(|fees|)
    ensures Speeds(fees, first, share) == TrueSpeeds(fees, first, share) <==> SlicesFit(fees, first, share)
  {
    SlicesInRange(|fees|, first, share);
    var c := CutsFor(|fees|, first, share);
    AverageIsTrueIff(fees[..c.c0]);
    AverageIsTrueIff(fees[c.c0..c.c1]);
    AverageIsTrueIff(fees[c.c1..c.c2]);
    AverageIsTrueIff(fees[c.c2..c.c3]);
    AverageIsTrueIff(fees[c.c3..c.c4]);
  }

  /** Fees below this bound cannot overflow the sum of a slice. */
  const FEE_BOUND := 0x8000_0000_0000_0000 / 1400

  ghost predicate Bounded(fees: seq<int>) {
    forall i :: 0 <= i < |fees| ==> -FEE_BOUND < fees[i] < FEE_BOUND
  }

  lemma BoundedFits(fees: seq<int>)
    requires |fees| <= 1400 && Bounded(fees)
    ensures Fits(fees)
  {
    SumBounds(fees, -FEE_BOUND + 1, FEE_BOUND - 1);
    assert (FEE_BOUND - 1) * |fees| <= (FEE_BOUND - 1) * 1400 < 0x8000_0000_0000_0000;
    assert (-FEE_BOUND + 1) * |fees| >= (-FEE_BOUND + 1) * 1400 > -0x8000_0000_0000_0000;
  }

  /** Realistic fees, below some six million gwei, are always estimated by true and ordered averages. */
  lemma BoundedSlicesFit(fees: seq<int>, first: int, share: int)
    requires NearQuantiles(|fees|, first, share) && Averaged(|fees|) && Bounded(fees)
    ensures SlicesFit(fees, first, share)
  {
    SlicesInRange(|fees|, first, share);
    var c := CutsFor(|fees|, first, share);
    assert fees[..c.c0] == fees[0..c.c0];
    BoundedSlice(fees, 0, c.c0);
    BoundedSlice(fees, c.c0, c.c1);
    BoundedSlice(fees, c.c1, c.c2);
    BoundedSlice(fees, c.c2, c.c3);
    BoundedSlice(fees, c.c3, c.c4);
  }

  lemma BoundedSlice(fees: seq<int>, a: int, b: int)
    requires Bounded(fees) && 0 <= a <= b <= |fees| && b - a <= 1400
    ensures Fits(fees[a..b])
  {
    BoundedFits(fees[a..b]);
  }

  // ---------------------------------------------------------------- when a sum does not fit

  lemma {:induction false} SumOfEqual(fees: seq<int>, v: int)
    requires forall i :: 0 <= i < |fees| ==> fees[i] == v
    ensures Sum(fees) == v * |fees|
  {
    SumBounds(fees, v, v);
  }

  /** 101 equal fees of 2^62 wei: the sum of the ten fastest wraps to a negative number. */
  lemma OverflowBreaksTheOrder()
    ensures var fees := seq(101, i => 0x4000_0000_0000_0000);
            NearQuantiles(101, 10, 22) && Descending(fees) && !Ordered(Speeds(fees, 10, 22))
  {
    var v := 0x4000_0000_0000_0000;
    var fees := seq(101, i => v);
    SumOfEqual(fees[..10], v);
    SumOfEqual(fees[88..101], v);
    assert Average(fees[..10]) < 0;
    assert Average(fees[88..101]) > 0;
  }

  /** A sum that does not fit may leave the order intact: 100 fees whose sum wraps to a positive number, and
      nothing else above zero. */
  lemma OverflowMayKeepTheOrder()
    ensures var fees := seq(1401, i => if i < 100 then 230584300921369396 else 0);
            NearQuantiles(1401, 140, 315) && Descending(fees) && !SlicesFit(fees, 140, 315)
              && Ordered(Speeds(fees, 140, 315))
  {
    var v := 230584300921369396;
    var fees := seq(1401, i => if i < 100 then v else 0);
    SumOfEqual(fees[..100], v);
    SumOfEqual(fees[100..400], 0);
    SumOfEqual(fees[400..700], 0);
    SumOfEqual(fees[700..1000], 0);
    SumOfEqual(fees[1000..1300], 0);
  }

  // ---------------------------------------------------------------- the slices as numbers

  /** Above 1400 transactions the speeds are the averages of the first 100 and of the next four times 300. */
  lemma SpeedsOfLargeMempool(fees: seq<int>, first: int, share: int)
    requires NearQuantiles(|fees|, first, share) && |fees| > 1400
    ensures Speeds(fees, first, share).veryFast == Average(fees[..100])
    ensures Speeds(fees, first, share).fast == Average(fees[100..400])
    ensures Speeds(fees, first, share).medium == Average(fees[400..700])
    ensures Speeds(fees, first, share).slow == Average(fees[700..1000])
    ensures Speeds(fees, first, share).verySlow == Average(fees[1000..1300])
  {
  }

  /** Between 101 and 1399 they are the averages of the slices cut at the first product and at one, two and four
      times the second; the last slice goes to the end. */
  lemma SpeedsOfMiddleMempool(fees: seq<int>, first: int, share: int)
    requires NearQuantiles(|fees|, first, share) && 100 < |fees| < 1400
    ensures 0 < first < share && 4 * share < |fees|
    ensures Speeds(fees, first, share).veryFast == Average(fees[..first])
    ensures Speeds(fees, first, share).fast == Average(fees[first..share])
    ensures Speeds(fees, first, share).medium == Average(fees[share..2 * share])
    ensures Speeds(fees, first, share).slow == Average(fees[2 * share..4 * share])
    ensures Speeds(fees, first, share).verySlow == Average(fees[4 * share..])
  {
    assert fees[4 * share..] == fees[4 * share..|fees|];
  }

  /** Up to 100 transactions, and for exactly 1400, the speeds are fixed: 9, 10, 14, 20 and 25 gwei. */
  lemma SpeedsOfOtherMempools(fees: seq<int>, first: int, share: int)
    requires NearQuantiles(|fees|, first, share) && (|fees| <= 100 || |fees| == 1400)
    ensures Speeds(fees, first, share)
         == EstimationSpeeds(9_000_000_000, 10_000_000_000, 14_000_000_000, 20_000_000_000, 25_000_000_000)
  {
  }

  /** Averages are rounded towards zero. */
  lemma TruncatesTowardsZero(a: int, n: int)
    requires n > 0
    ensures a >= 0 ==> 0 <= TruncDiv(a, n) * n <= a < TruncDiv(a, n) * n + n
    ensures a <= 0 ==> TruncDiv(a, n) * n - n < a <= TruncDiv(a, n) * n <= 0
  {
    if a >= 0 {
      Quotient(a, n, a / n);
    } else {
      Quotient(-a, n, (-a) / n);
      NegatedProduct((-a) / n, n);
    }
  }

  lemma Quotient(a: nat, n: int, q: int)
    requires n > 0 && q == a / n
    ensures 0 <= q * n <= a < q * n + n
  {
    assert a == q * n + a % n;
    MulMonotone(0, q, n);
  }

  lemma NegatedProduct(q: int, n: int)
    ensures (-q) * n == -(q * n)
  {
  }
}
