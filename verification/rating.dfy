/** The derived rating of a title: no value when it has no reviews, otherwise the exact
    mean of their scores. It is never stored; every read recomputes it. */
module Rating {
  import opened Common
  import opened Models

  /** `title.reviews`: the ids of the reviews of title `t`. */
  function ReviewsOf(reviews: map<ReviewId, Review>, t: TitleId): (ids: set<ReviewId>)
    ensures forall v :: v in ids <==> v in reviews && reviews[v].title == t
  {
    set v | v in reviews && reviews[v].title == t
  }

  /** The sum of the scores of the reviews `ids`. */
  ghost function ScoreSum(reviews: map<ReviewId, Review>, ids: set<ReviewId>): int
    requires ids <= reviews.Keys
    decreases ids
  {
    if ids == {} then 0
    else
      var k :| k in ids;
      reviews[k].score + ScoreSum(reviews, ids - {k})
  }

  /** The sum does not depend on which review is taken out first. */
  lemma {:induction false} ScoreSumRemove(reviews: map<ReviewId, Review>, ids: set<ReviewId>, k: ReviewId)
    requires ids <= reviews.Keys && k in ids
    ensures ScoreSum(reviews, ids) == reviews[k].score + ScoreSum(reviews, ids - {k})
    decreases ids
  {
    var j :| j in ids && ScoreSum(reviews, ids) == reviews[j].score + ScoreSum(reviews, ids - {j});
    if j != k {
      ScoreSumRemove(reviews, ids - {j}, k);
      ScoreSumRemove(reviews, ids - {k}, j);
      assert ids - {j} - {k} == ids - {k} - {j};
    }
  }

  /** With every score in 1..10, the sum of n scores lies in n..10n. */
  lemma {:induction false} ScoreSumBounds(reviews: map<ReviewId, Review>, ids: set<ReviewId>)
    requires ids <= reviews.Keys
    requires forall v :: v in ids ==> ValidScore(reviews[v].score)
    ensures MIN_SCORE * |ids| <= ScoreSum(reviews, ids) <= MAX_SCORE * |ids|
    decreases ids
  {
    if ids != {} {
      var k :| k in ids;
      ScoreSumRemove(reviews, ids, k);
      ScoreSumBounds(reviews, ids - {k});
    }
  }

  /** `get_rating`: `None` when the title has no review, otherwise sum / count. */
  ghost function Rating(s: Store, t: TitleId): Option<real> {
    var ids := ReviewsOf(s.reviews, t);
    if ids == {} then None
    else Some(ScoreSum(s.reviews, ids) as real / |ids| as real)
  }

  lemma MeanBounds(sum: int, n: nat)
    requires n > 0 && MIN_SCORE * n <= sum <= MAX_SCORE * n
    ensures MIN_SCORE as real <= sum as real / n as real <= MAX_SCORE as real
  {
    var d := n as real;
    var lo := MIN_SCORE as real;
    var hi := MAX_SCORE as real;
    assert lo * d <= sum as real <= hi * d;
    ScaledQuotient(lo, d);
    ScaledQuotient(hi, d);
    DivideMonotone(lo * d, sum as real, d);
    DivideMonotone(sum as real, hi * d, d);
  }

  lemma ScaledQuotient(c: real, d: real)
    requires d > 0.0
    ensures (c * d) / d == c
  {
  }

  lemma DivideMonotone(a: real, b: real, d: real)
    requires d > 0.0 && a <= b
    ensures a / d <= b / d
  {
    assert b / d - a / d == (b - a) / d;
  }

  /** The rating is absent exactly when no review names the title, and in a valid store a
      present rating lies between the lowest and the highest score. */
  lemma RatingSpec(s: Store, t: TitleId)
    requires ValidStore(s)
    ensures Rating(s, t).None? <==> forall v :: v in s.reviews ==> s.reviews[v].title != t
    ensures Rating(s, t).Some? ==> MIN_SCORE as real <= Rating(s, t).value <= MAX_SCORE as real
  {
    var ids := ReviewsOf(s.reviews, t);
    if ids != {} {
      ScoreSumBounds(s.reviews, ids);
      MeanBounds(ScoreSum(s.reviews, ids), |ids|);
    }
  }

  /** A newly inserted review joins exactly its own title's review set. */
  lemma ReviewsOfAfterInsert(s: Store, review: Review)
    requires InsertReview(s, review).Ok?
    ensures var (s', id) := InsertReview(s, review).value;
      && id !in ReviewsOf(s.reviews, review.title)
      && ReviewsOf(s'.reviews, review.title) == ReviewsOf(s.reviews, review.title) + {id}
  {
  }

  /** A newly inserted review adds one to its title's count and its score to the sum. */
  lemma RatingAfterInsert(s: Store, review: Review)
    requires InsertReview(s, review).Ok?
    ensures var (s', id) := InsertReview(s, review).value;
      && ReviewsOf(s'.reviews, review.title) == ReviewsOf(s.reviews, review.title) + {id}
      && |ReviewsOf(s'.reviews, review.title)| == |ReviewsOf(s.reviews, review.title)| + 1
      && ScoreSum(s'.reviews, ReviewsOf(s'.reviews, review.title))
         == ScoreSum(s.reviews, ReviewsOf(s.reviews, review.title)) + review.score
  {
    var (s', id) := InsertReview(s, review).value;
    ReviewsOfAfterInsert(s, review);
    var before := ReviewsOf(s.reviews, review.title);
    var after := ReviewsOf(s'.reviews, review.title);
    assert after - {id} == before;
    ScoreSumRemove(s'.reviews, after, id);
    ScoreSumFrame(s.reviews, s'.reviews, before);
  }

  /** Inserting a review of one title leaves the rating of every other title unchanged. */
  lemma RatingOfOtherTitleUnchanged(s: Store, review: Review, t: TitleId)
    requires InsertReview(s, review).Ok? && t != review.title
    ensures Rating(InsertReview(s, review).value.0, t) == Rating(s, t)
  {
    var s' := InsertReview(s, review).value.0;
    var before := ReviewsOf(s.reviews, t);
    assert ReviewsOf(s'.reviews, t) == before;
    ScoreSumFrame(s.reviews, s'.reviews, before);
  }

  /** The sum over `ids` only reads the reviews in `ids`. */
  lemma {:induction false} ScoreSumFrame(a: map<ReviewId, Review>, b: map<ReviewId, Review>, ids: set<ReviewId>)
    requires ids <= a.Keys && ids <= b.Keys
    requires forall v :: v in ids ==> a[v] == b[v]
    ensures ScoreSum(a, ids) == ScoreSum(b, ids)
    decreases ids
  {
    if ids != {} {
      var k :| k in ids;
      ScoreSumRemove(a, ids, k);
      ScoreSumRemove(b, ids, k);
      ScoreSumFrame(a, b, ids - {k});
    }
  }

  /** `get_rating` computed by one pass over the title's reviews. */
  method GetRating(s: Store, t: TitleId) returns (r: Option<real>)
    ensures r == Rating(s, t)
    ensures r.None? <==> forall v :: v in s.reviews ==> s.reviews[v].title != t
  {
    var ids := ReviewsOf(s.reviews, t);
    if ids == {} {
      return None;
    }
    var total := 0;
    var remaining := ids;
    while remaining != {}
      invariant remaining <= ids
      invariant total + ScoreSum(s.reviews, remaining) == ScoreSum(s.reviews, ids)
      decreases remaining
    {
      var k :| k in remaining;
      ScoreSumRemove(s.reviews, remaining, k);
      total := total + s.reviews[k].score;
      remaining := remaining - {k};
    }
    return Some(total as real / |ids| as real);
  }
}
