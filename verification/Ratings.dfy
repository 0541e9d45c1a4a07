/** The running rating of a user: a mean folded in review by review and rounded to hundredths each time.
  Ratings are exact reals. */
module Ratings {
  import opened Wrappers
  import opened RealArithmetic

  /** `Math.round(x * 100) / 100`; halves round up. */
  function Round2(x: real): real {
    (100.0 * x + 0.5).Floor as real / 100.0
  }

  predicate WholeHundredth(x: real) {
    100.0 * x == (100.0 * x).Floor as real
  }

  datatype Meta = Meta(rating: real, reviewCount: nat)

  /** The mean of `n` ratings, worked out from their mean `s`, with one more rating added. */
  function MeanWith(s: real, n: real, r: real): real
    requires n >= 0.0
  {
    (s * n + r) / (n + 1.0)
  }

  /** The rating record after one more review: the first rating is stored as it is, later ones are folded in. */
  function Rated(meta: Option<Meta>, r: real): Meta {
    match meta
    case None => Meta(r, 1)
    case Some(m) => Meta(Round2(MeanWith(m.rating, m.reviewCount as real, r)), m.reviewCount + 1)
  }

  function Folded(ratings: seq<real>): Option<Meta> {
    if ratings == [] then None
    else Some(Rated(Folded(ratings[..|ratings| - 1]), ratings[|ratings| - 1]))
  }

  function Sum(ratings: seq<real>): real {
    if ratings == [] then 0.0 else Sum(ratings[..|ratings| - 1]) + ratings[|ratings| - 1]
  }

  // ---------- Rounding ----------

  lemma RoundingError(x: real)
    ensures -0.005 < Round2(x) - x <= 0.005
    ensures WholeHundredth(Round2(x))
  {
    var k := (100.0 * x + 0.5).Floor;
    assert 100.0 * Round2(x) == k as real;
  }

  lemma RoundingIsMonotone(x: real, y: real)
    requires x <= y
    ensures Round2(x) <= Round2(y)
  {
    assert (100.0 * x + 0.5).Floor <= (100.0 * y + 0.5).Floor;
  }

  lemma RoundingKeepsHundredths(x: real)
    requires WholeHundredth(x)
    ensures Round2(x) == x
  {
    assert (100.0 * x + 0.5).Floor == (100.0 * x).Floor;
  }

  /** Rounding gives a whole hundredth back exactly from the half-open interval around it. */
  lemma RoundsTo(x: real, s: real)
    requires WholeHundredth(s)
    ensures Round2(x) == s <==> -0.005 <= x - s < 0.005
  {
    var k := (100.0 * s).Floor;
    assert 100.0 * s == k as real;
    assert (100.0 * x + 0.5).Floor == k <==> k as real <= 100.0 * x + 0.5 < k as real + 1.0;
  }

  // ---------- Count, range and drift ----------

  /** The stored count is the number of reviews folded in. */
  lemma {:induction false} CountIsNumberOfReviews(ratings: seq<real>)
    ensures Folded(ratings).None? <==> ratings == []
    ensures Folded(ratings).Some? ==> Folded(ratings).value.reviewCount == |ratings|
    decreases |ratings|
  {
    if ratings != [] {
      CountIsNumberOfReviews(ratings[..|ratings| - 1]);
    }
  }

  /** The mean as a plain equation between numbers: `count` times it is the new total. */
  lemma MeanTimes(s: real, n: real, r: real, count: real, mean: real)
    requires n >= 0.0 && count == n + 1.0 && mean == MeanWith(s, n, r)
    ensures Times(count, mean) == Times(n, s) + r
  {
    Quotient(s * n + r, count);
  }

  lemma MeanWithin(s: real, n: real, r: real, count: real, mean: real, lo: real, hi: real)
    requires n >= 0.0 && count == n + 1.0 && mean == MeanWith(s, n, r) && lo <= s <= hi && lo <= r <= hi
    ensures lo <= mean <= hi
  {
    hide MeanWith, Times;
    MeanTimes(s, n, r, count, mean);
    Scale(n, lo, s);
    Scale(n, s, hi);
    PlusOne(n, count, lo);
    PlusOne(n, count, hi);
    CancelLe(count, lo, mean);
    CancelLe(count, mean, hi);
  }

  /** Whole-hundredth bounds on all ratings are bounds on the stored one. */
  lemma {:induction false} RatingStaysInRange(ratings: seq<real>, lo: real, hi: real)
    requires ratings != [] && WholeHundredth(lo) && WholeHundredth(hi)
    requires forall i :: 0 <= i < |ratings| ==> lo <= ratings[i] <= hi
    ensures lo <= Folded(ratings).value.rating <= hi
    decreases |ratings|
  {
    hide MeanWith, Round2, WholeHundredth;
    var front, r := ratings[..|ratings| - 1], ratings[|ratings| - 1];
    if front != [] {
      RatingStaysInRange(front, lo, hi);
      var m := Folded(front).value;
      var n := m.reviewCount as real;
      var mean := MeanWith(m.rating, n, r);
      MeanWithin(m.rating, n, r, n + 1.0, mean, lo, hi);
      RoundingIsMonotone(lo, mean);
      RoundingIsMonotone(mean, hi);
      RoundingKeepsHundredths(lo);
      RoundingKeepsHundredths(hi);
    }
  }

  /** The bound on how far the stored rating times `n` may be off the sum of `n` ratings: half a hundredth for
    each review folded in, the first excepted, times the number of reviews by then. */
  function DriftBound(n: real): real {
    0.005 * (n * (n + 1.0) / 2.0 - 1.0)
  }

  predicate WithinDrift(rating: real, n: real, sum: real) {
    Abs(Times(n, rating) - sum) <= DriftBound(n)
  }

  lemma DriftBoundStep(n: real, count: real)
    requires count == n + 1.0
    ensures DriftBound(count) == DriftBound(n) + Times(count, 0.005)
  {
    PlusOne(n, count, count + 1.0);
    assert n * (count + 1.0) == n * count + n;
  }

  /** One more review: the total gains the rating, and rounding adds at most half a hundredth for each review. */
  lemma DriftStep(s: real, n: real, r: real, sum: real, count: real, mean: real, rounded: real)
    requires n >= 1.0 && count == n + 1.0 && mean == MeanWith(s, n, r) && rounded == Round2(mean)
    requires WithinDrift(s, n, sum)
    ensures WithinDrift(rounded, count, sum + r)
  {
    hide Round2, DriftBound, MeanWith, Times;
    MeanTimes(s, n, r, count, mean);
    RoundingError(mean);
    var d := rounded - mean;
    Distribute(count, rounded, mean, d);
    Scale(count, d, 0.005);
    Scale(count, -0.005, d);
    TimesNegative(count);
    DriftBoundStep(n, count);
  }

  lemma TimesNegative(count: real)
    ensures Times(count, -0.005) == -Times(count, 0.005)
  {
  }

  /** After n reviews the stored rating times n is off the true sum by at most 0.005 * (n(n+1)/2 - 1). */
  lemma {:induction false} SumDrift(ratings: seq<real>)
    requires ratings != []
    ensures Folded(ratings).Some?
    ensures WithinDrift(Folded(ratings).value.rating, |ratings| as real, Sum(ratings))
    decreases |ratings|
  {
    hide Round2, MeanWith, WithinDrift;
    var front, r := ratings[..|ratings| - 1], ratings[|ratings| - 1];
    if front == [] {
      FirstDrift(ratings);
    } else {
      SumDrift(front);
      CountIsNumberOfReviews(front);
      var m, n, sum := Folded(front).value, |front| as real, Sum(front);
      var mean := MeanWith(m.rating, n, r);
      DriftStep(m.rating, n, r, sum, n + 1.0, mean, Round2(mean));
    }
  }

  lemma FirstDrift(ratings: seq<real>)
    requires |ratings| == 1
    ensures Folded(ratings).Some?
    ensures WithinDrift(Folded(ratings).value.rating, 1.0, Sum(ratings))
  {
    assert ratings[..0] == [];
    assert Sum(ratings) == Sum([]) + ratings[0];
  }

  /** The stored rating is off the true mean by at most 0.005 * ((n + 1)/2 - 1/n). */
  lemma RatingDrift(ratings: seq<real>)
    requires ratings != []
    ensures var n := |ratings| as real;
            && Folded(ratings).Some?
            && Abs(Folded(ratings).value.rating - Sum(ratings) / n) <= 0.005 * ((n + 1.0) / 2.0 - 1.0 / n)
  {
    hide WithinDrift;
    SumDrift(ratings);
    DivideBound(|ratings| as real, Folded(ratings).value.rating, Sum(ratings));
  }

  lemma DriftBoundTimes(n: real, b: real)
    requires n > 0.0 && b == 0.005 * ((n + 1.0) / 2.0 - 1.0 / n)
    ensures Times(n, b) == DriftBound(n)
  {
    var half, inverse := (n + 1.0) / 2.0, 1.0 / n;
    Quotient(1.0, n);
    var d := half - inverse;
    Distribute(n, half, inverse, d);
    assert n * half == n * (n + 1.0) / 2.0;
    assert n * b == 0.005 * (n * d);
  }

  lemma DivideBound(n: real, s: real, sum: real)
    requires n >= 1.0 && WithinDrift(s, n, sum)
    ensures Abs(s - sum / n) <= 0.005 * ((n + 1.0) / 2.0 - 1.0 / n)
  {
    hide DriftBound, Times;
    var mean, b := sum / n, 0.005 * ((n + 1.0) / 2.0 - 1.0 / n);
    Quotient(sum, n);
    DriftBoundTimes(n, b);
    var above, below := s - mean, mean - s;
    Distribute(n, s, mean, above);
    Distribute(n, mean, s, below);
    CancelLe(n, above, b);
    CancelLe(n, below, b);
  }

  // ---------- Ratings that no longer move ----------

  /** The review would move the mean by less than half a hundredth, or by just half a hundredth down. */
  predicate TooSmall(m: Meta, r: real) {
    var count := (m.reviewCount + 1) as real;
    -0.005 * count <= r - m.rating < 0.005 * count
  }

  /** A stored rating ignores a review exactly when it is a whole hundredth and the review moves the mean by
    too little. */
  lemma UnmovedExactly(m: Meta, r: real)
    ensures Rated(Some(m), r).rating == m.rating <==> WholeHundredth(m.rating) && TooSmall(m, r)
  {
    hide MeanWith, Round2, WholeHundredth;
    var n := m.reviewCount as real;
    var count, mean := n + 1.0, MeanWith(m.rating, n, r);
    assert (m.reviewCount + 1) as real == count;
    RoundingError(mean);
    if WholeHundredth(m.rating) {
      MeanShift(m.rating, n, r, count, mean);
      RoundsTo(mean, m.rating);
      CompareQuotient(r - m.rating, count, -0.005);
      CompareQuotient(r - m.rating, count, 0.005);
    }
  }

  lemma MeanShift(s: real, n: real, r: real, count: real, mean: real)
    requires n >= 0.0 && count == n + 1.0 && mean == MeanWith(s, n, r)
    ensures mean - s == (r - s) / count
  {
    hide MeanWith, Times;
    MeanTimes(s, n, r, count, mean);
    PlusOne(n, count, s);
    var shift, quotient := mean - s, (r - s) / count;
    Distribute(count, mean, s, shift);
    Quotient(r - s, count);
    CancelEq(count, shift, quotient);
  }

  function Repeat(meta: Meta, r: real, k: nat): Meta {
    if k == 0 then meta else Rated(Some(Repeat(meta, r, k - 1)), r)
  }

  lemma {:induction false} UnmovedRepeat(m: Meta, r: real, k: nat)
    requires WholeHundredth(m.rating) && TooSmall(m, r)
    ensures Repeat(m, r, k) == Meta(m.rating, m.reviewCount + k)
  {
    hide Rated, WholeHundredth;
    if k > 0 {
      UnmovedRepeat(m, r, k - 1);
      var before := Repeat(m, r, k - 1);
      assert TooSmall(before, r);
      UnmovedExactly(before, r);
      CountGrows(before, r);
    }
  }

  lemma CountGrows(m: Meta, r: real)
    ensures Rated(Some(m), r).reviewCount == m.reviewCount + 1
  {
  }

  /** A rating that ignores one review ignores every further review of the same kind: rounding at each step
    keeps it away from the mean for good. */
  lemma UnmovedForeverExactly(m: Meta, r: real)
    ensures (forall k: nat :: Repeat(m, r, k) == Meta(m.rating, m.reviewCount + k))
       <==> WholeHundredth(m.rating) && TooSmall(m, r)
  {
    hide Rated, WholeHundredth, TooSmall;
    UnmovedExactly(m, r);
    if WholeHundredth(m.rating) && TooSmall(m, r) {
      forall k: nat ensures Repeat(m, r, k) == Meta(m.rating, m.reviewCount + k) {
        UnmovedRepeat(m, r, k);
      }
    } else {
      RepeatOnce(m, r, 1);
    }
  }

  lemma RepeatOnce(m: Meta, r: real, once: nat)
    requires once == 1
    ensures Repeat(m, r, once) == Rated(Some(m), r)
  {
    assert Repeat(m, r, 0) == m;
  }

  function Copies(r: real, k: nat): seq<real> {
    seq(k, i => r)
  }

  lemma {:induction false} FoldedCopies(ratings: seq<real>, r: real, k: nat)
    requires ratings != []
    ensures Folded(ratings).Some?
    ensures Folded(ratings + Copies(r, k)) == Some(Repeat(Folded(ratings).value, r, k))
  {
    hide Rated;
    var all := ratings + Copies(r, k);
    if k == 0 {
      assert all == ratings;
    } else {
      FoldedCopies(ratings, r, k - 1);
      assert all[..|all| - 1] == ratings + Copies(r, k - 1);
    }
  }

  /** Reviews that agree on a whole hundredth are stored as that. */
  lemma FoldedAlike(x: real, n: nat)
    requires WholeHundredth(x) && n > 0
    ensures Folded(Copies(x, n)) == Some(Meta(x, n))
  {
    hide Rated, WholeHundredth;
    FoldedFirst(x);
    FoldedCopies([x], x, n - 1);
    UnmovedRepeat(Meta(x, 1), x, n - 1);
    assert Copies(x, n) == [x] + Copies(x, n - 1);
  }

  lemma FoldedFirst(x: real)
    ensures Folded([x]) == Some(Meta(x, 1))
  {
    assert [x][..0] == [];
  }

  /** After `n` reviews that agree, no number of other ratings moves the stored one exactly when the next
    review, on its own, is too small. */
  lemma StuckExactly(x: real, n: nat, r: real)
    requires WholeHundredth(x) && n > 0
    ensures (forall k: nat :: Folded(Copies(x, n) + Copies(r, k)) == Some(Meta(x, n + k)))
       <==> TooSmall(Meta(x, n), r)
  {
    hide Rated, WholeHundredth, TooSmall;
    var m := Meta(x, n);
    FoldedAlike(x, n);
    UnmovedForeverExactly(m, r);
    if TooSmall(m, r) {
      forall k: nat ensures Folded(Copies(x, n) + Copies(r, k)) == Some(Meta(x, n + k)) {
        FoldedCopies(Copies(x, n), r, k);
        assert Repeat(m, r, k) == Meta(x, n + k);
      }
    } else {
      var k: nat :| Repeat(m, r, k) != Meta(x, n + k);
      FoldedCopies(Copies(x, n), r, k);
      assert Folded(Copies(x, n) + Copies(r, k)) != Some(Meta(x, n + k));
    }
  }

  /** After 400 reviews of 3 stars no number of 5-star reviews moves the rating; for 1-star reviews 399 are
    enough. */
  lemma StuckAtThree(n: nat)
    requires n > 0
    ensures (forall k: nat :: Folded(Copies(3.0, n) + Copies(5.0, k)) == Some(Meta(3.0, n + k))) <==> n >= 400
    ensures (forall k: nat :: Folded(Copies(3.0, n) + Copies(1.0, k)) == Some(Meta(3.0, n + k))) <==> n >= 399
  {
    assert WholeHundredth(3.0);
    StuckExactly(3.0, n, 5.0);
    StuckExactly(3.0, n, 1.0);
  }
}
