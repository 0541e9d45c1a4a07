/** The review dashboard: counts by rating bucket and their rounded percentages. */
module Dashboard {
  import opened Wrappers
  import opened RealArithmetic
  import opened ReviewService

  // ---------- The reviews counted ----------

  /** `startDate` and `endDate` are days; the query looks at dates only if it is given both. */
  datatype StatsParams = StatsParams(entity: string, startDate: Option<int>, endDate: Option<int>)

  predicate Counted(review: Review, params: StatsParams) {
    && review.externalType == (if params.entity == "rider" then CAPTAIN else RIDER)
    && (params.startDate.Some? && params.endDate.Some? ==>
          params.startDate.value <= review.createdOn <= params.endDate.value)
  }

  /** The dashboard of riders shows what captains (2) wrote, any other what riders (1) wrote; with both dates
    given, from the first day to the last. */
  predicate Shown(review: Review, params: StatsParams) {
    && (params.entity == "rider" ==> review.externalType == 2)
    && (params.entity != "rider" ==> review.externalType == 1)
    && (params.startDate.None? || params.endDate.None?
        || (review.createdOn >= params.startDate.value && review.createdOn <= params.endDate.value))
  }

  lemma CountedIsShown(review: Review, params: StatsParams)
    ensures Counted(review, params) <==> Shown(review, params)
  {
  }

  // ---------- Buckets ----------

  datatype Counts = Counts(poor: nat, average: nat, good: nat, best: nat, excelent: nat)

  function Total(c: Counts): nat {
    c.poor + c.average + c.good + c.best + c.excelent
  }

  function Put(c: Counts, r: real): Counts {
    if 0.5 <= r < 1.5 then c.(poor := c.poor + 1)
    else if 1.5 <= r < 2.5 then c.(average := c.average + 1)
    else if 2.5 <= r < 3.5 then c.(good := c.good + 1)
    else if 3.5 <= r < 4.5 then c.(best := c.best + 1)
    else if r >= 4.5 then c.(excelent := c.excelent + 1)
    else c
  }

  /** The counts the query makes over the stored reviews; a missing rating is in no bucket. */
  function CountBuckets(reviews: seq<Review>, params: StatsParams): Counts {
    if reviews == [] then Counts(0, 0, 0, 0, 0)
    else
      var c, last := CountBuckets(reviews[..|reviews| - 1], params), reviews[|reviews| - 1];
      if Counted(last, params) && last.rating.Some? then Put(c, last.rating.value) else c
  }

  /** The positions of the reviews counted whose rating is at least `lo` and, if there is a `hi`, below it. */
  function Bucket(reviews: seq<Review>, params: StatsParams, lo: real, hi: Option<real>): set<nat> {
    set i: nat | i < |reviews| && Shown(reviews[i], params) && Between(reviews[i].rating, lo, hi)
  }

  predicate Between(rating: Option<real>, lo: real, hi: Option<real>) {
    rating.Some? && lo <= rating.value && (hi.Some? ==> rating.value < hi.value)
  }

  lemma BucketStep(reviews: seq<Review>, params: StatsParams, lo: real, hi: Option<real>)
    requires reviews != []
    ensures var front, last := reviews[..|reviews| - 1], reviews[|reviews| - 1];
            |Bucket(reviews, params, lo, hi)| == |Bucket(front, params, lo, hi)|
                                                 + if Shown(last, params) && Between(last.rating, lo, hi) then 1 else 0
  {
    var front, n := reviews[..|reviews| - 1], |reviews| - 1;
    assert Bucket(reviews, params, lo, hi) - {n} == Bucket(front, params, lo, hi);
  }

  /** Each count is the number of reviews in its bucket, and together they leave out exactly the reviews rated
    below one half, or not at all. */
  lemma {:induction false} CountsAreBuckets(reviews: seq<Review>, params: StatsParams)
    ensures var c := CountBuckets(reviews, params);
            && c.poor == |Bucket(reviews, params, 0.5, Some(1.5))|
            && c.average == |Bucket(reviews, params, 1.5, Some(2.5))|
            && c.good == |Bucket(reviews, params, 2.5, Some(3.5))|
            && c.best == |Bucket(reviews, params, 3.5, Some(4.5))|
            && c.excelent == |Bucket(reviews, params, 4.5, None)|
            && Total(c) == |Bucket(reviews, params, 0.5, None)|
    decreases |reviews|
  {
    hide Bucket, Counted, Shown;
    if reviews == [] {
      EmptyBuckets(params);
    } else {
      CountsAreBuckets(reviews[..|reviews| - 1], params);
      CountedIsShown(reviews[|reviews| - 1], params);
      BucketStep(reviews, params, 0.5, Some(1.5));
      BucketStep(reviews, params, 1.5, Some(2.5));
      BucketStep(reviews, params, 2.5, Some(3.5));
      BucketStep(reviews, params, 3.5, Some(4.5));
      BucketStep(reviews, params, 4.5, None);
      BucketStep(reviews, params, 0.5, None);
    }
  }

  lemma EmptyBuckets(params: StatsParams)
    ensures forall lo, hi :: Bucket([], params, lo, hi) == {}
  {
  }

  // ---------- Percentages ----------

  /** JavaScript's `Number.EPSILON`, two to the power of -52. */
  const EPSILON := 1.0 / 4503599627370496.0

  /** `Math.round`: to the nearest whole number, halves up. */
  function Round(x: real): int {
    (x + 0.5).Floor
  }

  function RoundupDecimals(value: real): real {
    Round((value + EPSILON) * 100.0) as real / 100.0
  }

  function CalculatePercentage(value: nat, total: nat): real
    requires total > 0
  {
    RoundupDecimals(value as real / total as real * 100.0)
  }

  function WholePercentage(value: nat, total: nat): int
    requires total > 0
  {
    Round(CalculatePercentage(value, total))
  }

  lemma RoundError(x: real)
    ensures x - 0.5 < Round(x) as real <= x + 0.5
  {
  }

  lemma RoundupError(x: real)
    ensures x + EPSILON - 0.005 < RoundupDecimals(x) <= x + EPSILON + 0.005
  {
    RoundError((x + EPSILON) * 100.0);
  }

  /** A percentage rounded twice is off by little more than one half. */
  lemma PercentageError(value: nat, total: nat)
    requires total > 0
    ensures var exact := value as real / total as real * 100.0;
            exact - 0.505 < WholePercentage(value, total) as real < exact + 0.506
  {
    hide RoundupDecimals;
    var exact := value as real / total as real * 100.0;
    RoundupError(exact);
    RoundError(RoundupDecimals(exact));
  }

  /** The whole number nearest to a real, the larger of two. */
  predicate IsNearest(n: int, x: real) {
    n as real - 0.5 <= x < n as real + 0.5
  }

  /** The percentage is rounded twice: a hair above the exact one to hundredths, and these to a whole number. */
  ghost predicate IsPercentage(p: int, value: nat, total: nat)
    requires total > 0
  {
    RoundedTwice(p, (value as real / total as real * 100.0 + EPSILON) * 100.0)
  }

  ghost predicate RoundedTwice(p: int, x: real) {
    exists hundredths: int :: IsNearest(hundredths, x) && IsNearest(p, hundredths as real / 100.0)
  }

  lemma PercentageExactly(value: nat, total: nat, p: int)
    requires total > 0
    ensures p == WholePercentage(value, total) <==> IsPercentage(p, value, total)
  {
    var x := (value as real / total as real * 100.0 + EPSILON) * 100.0;
    hide RoundedTwice, Round;
    RoundedTwiceExactly(p, x);
    assert CalculatePercentage(value, total) == Round(x) as real / 100.0;
  }

  lemma RoundedTwiceExactly(p: int, x: real)
    ensures RoundedTwice(p, x) <==> p == Round(Round(x) as real / 100.0)
  {
    hide IsNearest, Round;
    var hundredths := Round(x);
    RoundIsNearest(x);
    RoundIsNearest(hundredths as real / 100.0);
    assert IsNearest(hundredths, x);
  }

  lemma RoundIsNearest(x: real)
    ensures forall n: int :: IsNearest(n, x) <==> n == Round(x)
  {
  }

  lemma SharesAddUp(c: Counts, total: real)
    requires total == Total(c) as real > 0.0
    ensures c.poor as real / total * 100.0 + c.average as real / total * 100.0 + c.good as real / total * 100.0
            + c.best as real / total * 100.0 + c.excelent as real / total * 100.0 == 100.0
  {
    hide Times;
    var a, b, d, e, f :=
      c.poor as real / total, c.average as real / total, c.good as real / total,
      c.best as real / total, c.excelent as real / total;
    Quotient(c.poor as real, total);
    Quotient(c.average as real, total);
    Quotient(c.good as real, total);
    Quotient(c.best as real, total);
    Quotient(c.excelent as real, total);
    var ab, abd, abde, all := a + b, a + b + d, a + b + d + e, a + b + d + e + f;
    TimesSum(total, a, b, ab);
    TimesSum(total, ab, d, abd);
    TimesSum(total, abd, e, abde);
    TimesSum(total, abde, f, all);
    TimesOne(total);
    CancelEq(total, all, 1.0);
  }

  /** For any counts the five percentages add up to between 98 and 102. */
  lemma PercentagesAddUp(c: Counts)
    requires Total(c) > 0
    ensures 98 <= WholePercentage(c.poor, Total(c)) + WholePercentage(c.average, Total(c))
                  + WholePercentage(c.good, Total(c)) + WholePercentage(c.best, Total(c))
                  + WholePercentage(c.excelent, Total(c)) <= 102
  {
    hide WholePercentage;
    var total := Total(c);
    SharesAddUp(c, total as real);
    PercentageError(c.poor, total);
    PercentageError(c.average, total);
    PercentageError(c.good, total);
    PercentageError(c.best, total);
    PercentageError(c.excelent, total);
  }

  /** Both ends occur: 26, 26, 26, 26 and 146 reviews give 98 percent, 53, 53, 53, 53 and 288 give 102. */
  lemma BothEndsOccur()
    ensures 4 * WholePercentage(26, 250) + WholePercentage(146, 250) == 98
    ensures 4 * WholePercentage(53, 500) + WholePercentage(288, 500) == 102
    ensures Total(Counts(26, 26, 26, 26, 146)) == 250 && Total(Counts(53, 53, 53, 53, 288)) == 500
  {
  }

  datatype Response = Response(total: nat, percentage: Option<Percentages>, count: Counts)

  datatype Percentages = Percentages(excelent: int, best: int, good: int, average: int, poor: int)

  lemma TotalIs(c: Counts)
    ensures Total(c) == c.excelent + c.best + c.average + c.poor + c.good
  {
  }

  /** With no review in any bucket the percentages are not numbers; otherwise they add up to about a hundred. */
  method GetTotalReviewsForDash(reviews: seq<Review>, params: StatsParams) returns (response: Response)
    ensures response.total == |Bucket(reviews, params, 0.5, None)|
    ensures response.count.poor == |Bucket(reviews, params, 0.5, Some(1.5))|
    ensures response.count.average == |Bucket(reviews, params, 1.5, Some(2.5))|
    ensures response.count.good == |Bucket(reviews, params, 2.5, Some(3.5))|
    ensures response.count.best == |Bucket(reviews, params, 3.5, Some(4.5))|
    ensures response.count.excelent == |Bucket(reviews, params, 4.5, None)|
    ensures response.percentage.Some? <==> response.total > 0
    ensures response.percentage.Some? ==>
      var p := response.percentage.value;
      && IsPercentage(p.excelent, response.count.excelent, response.total)
      && IsPercentage(p.best, response.count.best, response.total)
      && IsPercentage(p.good, response.count.good, response.total)
      && IsPercentage(p.average, response.count.average, response.total)
      && IsPercentage(p.poor, response.count.poor, response.total)
      && 98 <= p.excelent + p.best + p.good + p.average + p.poor <= 102
  {
    hide WholePercentage, CountBuckets, Bucket, Total, IsPercentage;
    var counts := CountBuckets(reviews, params);
    CountsAreBuckets(reviews, params);
    var total := counts.excelent + counts.best + counts.average + counts.poor + counts.good;
    TotalIs(counts);
    if total > 0 {
      PercentagesAddUp(counts);
      forall value: nat ensures IsPercentage(WholePercentage(value, total), value, total) {
        PercentageExactly(value, total, WholePercentage(value, total));
      }
      var excelentP := WholePercentage(counts.excelent, total);
      var bestP := WholePercentage(counts.best, total);
      var goodP := WholePercentage(counts.good, total);
      var averageP := WholePercentage(counts.average, total);
      var poorP := WholePercentage(counts.poor, total);
      response := Response(total, Some(Percentages(excelentP, bestP, goodP, averageP, poorP)), counts);
    } else {
      response := Response(total, None, counts);
    }
  }
}
