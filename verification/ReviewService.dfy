/** `createReview`: each review is stored, and folded into the rating record of the user it is about. */
module ReviewService {
  import opened Wrappers
  import opened Ratings
  import opened RealArithmetic

  const RIDER := 1
  const CAPTAIN := 2

  /** `externalType` says who wrote the review; a missing rating counts as 0 in the mean. `createdOn` is a
    day. */
  datatype Review = Review(
    externalIdFor: int, externalIdBy: int, externalType: int, rating: Option<real>, createdOn: int)

  function Points(review: Review): real {
    if review.rating.Some? then review.rating.value else 0.0
  }

  /** The kind of user a review is about: a rider's review is about a captain, any other about a rider. */
  function AboutType(review: Review): int {
    if review.externalType == RIDER then CAPTAIN else RIDER
  }

  /** The user a review is about. */
  function About(review: Review): (int, int) {
    (review.externalIdFor, AboutType(review))
  }

  type Metas = map<(int, int), Meta>

  function Reviewed(metas: Metas, review: Review): Metas {
    metas[About(review) := Rated(Get(metas, About(review)), Points(review))]
  }

  function Replay(reviews: seq<Review>): Metas {
    if reviews == [] then map[] else Reviewed(Replay(reviews[..|reviews| - 1]), reviews[|reviews| - 1])
  }

  // ---------- What the reviews say ----------

  /** The review is about this user: a captain (2) is reviewed by riders (1), a rider by everyone else. */
  predicate IsAbout(review: Review, id: int, kind: int) {
    review.externalIdFor == id && kind == (if review.externalType == 1 then 2 else 1)
  }

  /** The positions of the reviews about a user. */
  function Positions(reviews: seq<Review>, id: int, kind: int): set<nat> {
    set i: nat | i < |reviews| && IsAbout(reviews[i], id, kind)
  }

  /** The ratings given to one user, in order; a missing one is a zero. */
  function RatingsOf(reviews: seq<Review>, id: int, kind: int): seq<real> {
    if reviews == [] then []
    else
      var front, last := RatingsOf(reviews[..|reviews| - 1], id, kind), reviews[|reviews| - 1];
      if !IsAbout(last, id, kind) then front
      else front + [if last.rating == None then 0.0 else last.rating.value]
  }

  lemma {:induction false} RatingsAreAtPositions(reviews: seq<Review>, id: int, kind: int)
    ensures |RatingsOf(reviews, id, kind)| == |Positions(reviews, id, kind)|
    decreases |reviews|
  {
    if reviews != [] {
      var front, n := reviews[..|reviews| - 1], |reviews| - 1;
      RatingsAreAtPositions(front, id, kind);
      assert Positions(reviews, id, kind)
          == Positions(front, id, kind) + if IsAbout(reviews[n], id, kind) then {n} else {};
    }
  }

  /** After any reviews, each user's record is the fold of that user's own ratings. */
  lemma {:induction false} RecordIsFold(reviews: seq<Review>, id: int, kind: int)
    ensures Get(Replay(reviews), (id, kind)) == Folded(RatingsOf(reviews, id, kind))
    decreases |reviews|
  {
    hide Rated;
    if reviews != [] {
      var front, last := reviews[..|reviews| - 1], reviews[|reviews| - 1];
      RecordIsFold(front, id, kind);
      var ratings := RatingsOf(front, id, kind);
      assert (ratings + [Points(last)])[..|ratings|] == ratings;
    }
  }

  /** What a user's record says after any reviews: it exists exactly when some review is about the user, and
    holds how many there are, and their mean up to the drift. */
  lemma RecordOfUser(reviews: seq<Review>, id: int, kind: int)
    ensures (id, kind) in Replay(reviews) <==> RatingsOf(reviews, id, kind) != []
    ensures (id, kind) in Replay(reviews) <==> exists i: nat :: i < |reviews| && IsAbout(reviews[i], id, kind)
    ensures (id, kind) in Replay(reviews) ==>
      var ratings := RatingsOf(reviews, id, kind);
      var n := |ratings| as real;
      && Replay(reviews)[(id, kind)].reviewCount == |ratings| == |Positions(reviews, id, kind)|
      && Abs(Replay(reviews)[(id, kind)].rating - Sum(ratings) / n) <= 0.005 * ((n + 1.0) / 2.0 - 1.0 / n)
  {
    hide Folded, Sum, Replay, RatingsOf;
    var ratings := RatingsOf(reviews, id, kind);
    RecordIsFold(reviews, id, kind);
    CountIsNumberOfReviews(ratings);
    RatingsAreAtPositions(reviews, id, kind);
    if ratings != [] {
      RatingDrift(ratings);
      var i :| i in Positions(reviews, id, kind);
    }
    if i: nat :| i < |reviews| && IsAbout(reviews[i], id, kind) {
      assert i in Positions(reviews, id, kind);
    }
  }

  /** Rider 7 gives captain 5 four stars: it is the captain who has a record. */
  lemma CaptainIsRated()
    ensures var metas := Replay([Review(5, 7, 1, Some(4.0), 0)]);
            Get(metas, (5, 2)) == Some(Meta(4.0, 1)) && (7, 1) !in metas && (7, 2) !in metas
  {
    var review := Review(5, 7, 1, Some(4.0), 0);
    assert [review][..0] == [];
    assert Replay([review]) == Reviewed(map[], review);
  }

  class Service {
    var reviews: seq<Review>
    var metas: Metas

    constructor ()
      ensures reviews == [] && metas == Replay([])
    {
      reviews, metas := [], map[];
    }

    /** Keeps the records the replay of the stored reviews. */
    method CreateReview(review: Review)
      modifies this
      ensures reviews == old(reviews) + [review]
      ensures metas == Reviewed(old(metas), review)
      ensures old(metas) == Replay(old(reviews)) ==> metas == Replay(reviews)
    {
      hide Round2;
      reviews := reviews + [review];
      var metaExternalType;
      if review.externalType == RIDER {
        metaExternalType := CAPTAIN;
      } else {
        metaExternalType := RIDER;
      }
      var key := (review.externalIdFor, metaExternalType);
      if key in metas {
        var reviewMeta := metas[key];
        var newReviewCount := reviewMeta.reviewCount + 1;
        var newRating :=
          (reviewMeta.rating * reviewMeta.reviewCount as real + Points(review)) / newReviewCount as real;
        assert newReviewCount as real == reviewMeta.reviewCount as real + 1.0;
        assert newRating == MeanWith(reviewMeta.rating, reviewMeta.reviewCount as real, Points(review));
        reviewMeta := reviewMeta.(reviewCount := newReviewCount);
        reviewMeta := reviewMeta.(rating := Round2(newRating));
        metas := metas[key := reviewMeta];
      } else {
        metas := metas[key := Meta(Points(review), 1)];
      }
      assert reviews[..|reviews| - 1] == old(reviews);
    }
  }
}
