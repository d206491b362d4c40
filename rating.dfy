/**
 * The rating aggregate shown on book cards, on the book page and on the profile page:
 * the mean of a book's star ratings and their number, with the mean defined as 0 when
 * there are no ratings. Means are exact reals rather than JavaScript numbers.
 */
module Rating {

  import opened Records

  /** The sum of the ratings, added up from the left starting at 0. */
  function Sum(ratings: seq<int>): int
  {
    if ratings == [] then 0 else Sum(ratings[..|ratings| - 1]) + ratings[|ratings| - 1]
  }

  /** The aggregate attached to a book: its mean rating and its number of reviews. */
  datatype Summary = Summary(average: real, count: nat)

  /** Mean and count of a list of ratings; the mean of no ratings is 0, not a division by zero. */
  function Aggregate(ratings: seq<int>): (s: Summary)
    ensures s.count == |ratings|
    ensures s.count == 0 ==> s.average == 0.0
    ensures s.count > 0 ==> s.average * (s.count as real) == Sum(ratings) as real
  {
    if |ratings| > 0 then Summary(Sum(ratings) as real / |ratings| as real, |ratings|)
    else Summary(0.0, 0)
  }

  /**
   * The aggregate computed from a per-book review query whose result may be missing: a
   * missing result reads as a book with no reviews, so both mean and count are 0.
   */
  function AggregateFetched(fetched: Option<seq<int>>): (s: Summary)
    ensures s.count == if fetched.Some? then |fetched.value| else 0
    ensures s.count == 0 ==> s.average == 0.0
    ensures s.count > 0 ==> s.average * (s.count as real) == Sum(fetched.value) as real
  {
    match fetched
    case None => Summary(0.0, 0)
    case Some(ratings) => Aggregate(ratings)
  }

  lemma {:induction false} SumAppend(a: seq<int>, b: seq<int>)
    ensures Sum(a + b) == Sum(a) + Sum(b)
  {
    if b == [] {
      assert a + b == a;
    } else {
      var b' := b[..|b| - 1];
      assert (a + b)[..|a + b| - 1] == a + b';
      SumAppend(a, b');
    }
  }

  /** Ratings within [lo, hi] add up to between lo and hi times their number. */
  lemma {:induction false} SumBounds(ratings: seq<int>, lo: int, hi: int)
    requires forall i :: 0 <= i < |ratings| ==> lo <= ratings[i] <= hi
    ensures lo * |ratings| <= Sum(ratings) <= hi * |ratings|
  {
    if ratings != [] {
      var init := ratings[..|ratings| - 1];
      assert forall i :: 0 <= i < |init| ==> init[i] == ratings[i];
      SumBounds(init, lo, hi);
      assert lo * |ratings| == lo * |init| + lo;
      assert hi * |ratings| == hi * |init| + hi;
    }
  }

  /** A product with a positive factor has the sign of the other factor. */
  lemma NonNegativeFactor(x: real, n: real)
    requires n > 0.0 && x * n >= 0.0
    ensures x >= 0.0
  {
  }

  /** With every rating a star count from 1 to 5, a non-empty mean lies between 1 and 5. */
  lemma AverageWithinStars(ratings: seq<int>)
    requires forall i :: 0 <= i < |ratings| ==> 1 <= ratings[i] <= 5
    ensures var s := Aggregate(ratings);
      0.0 <= s.average <= 5.0 && (s.count > 0 ==> 1.0 <= s.average)
  {
    SumBounds(ratings, 1, 5);
    var s := Aggregate(ratings);
    if s.count > 0 {
      var n := s.count as real;
      assert s.average * n == Sum(ratings) as real;
      NonNegativeFactor(s.average - 1.0, n);
      NonNegativeFactor(5.0 - s.average, n);
    }
  }

  /** The aggregate depends only on which ratings there are, not on the order they come in. */
  lemma {:induction false} SumPermutation(a: seq<int>, b: seq<int>)
    requires multiset(a) == multiset(b)
    ensures Sum(a) == Sum(b)
    decreases |a|
  {
    if a != [] {
      var x := a[|a| - 1];
      assert x in multiset(b);
      var k :| 0 <= k < |b| && b[k] == x;
      var a' := a[..|a| - 1];
      var b' := b[..k] + b[k + 1..];
      assert a == a' + [x];
      assert b == b[..k] + [x] + b[k + 1..];
      assert multiset(a) == multiset(a') + multiset{x};
      assert multiset(b) == multiset(b[..k]) + multiset{x} + multiset(b[k + 1..]);
      assert multiset(b') == multiset(b[..k]) + multiset(b[k + 1..]);
      assert multiset(a') == multiset(a) - multiset{x};
      assert multiset(b') == multiset(b) - multiset{x};
      SumPermutation(a', b');
      SumAppend(b[..k] + [x], b[k + 1..]);
      SumAppend(b[..k], [x]);
      SumAppend(b[..k], b[k + 1..]);
      assert Sum([x]) == x by {
        assert [x][..0] == [];
      }
    } else {
      assert |b| == |multiset(b)| == 0;
    }
  }

  lemma AggregateIgnoresOrder(a: seq<int>, b: seq<int>)
    requires multiset(a) == multiset(b)
    ensures Aggregate(a) == Aggregate(b)
  {
    SumPermutation(a, b);
    assert |a| == |multiset(a)| == |multiset(b)| == |b|;
  }

  /** Reviews rated 5, 4 and 3 give a mean of 4.0 over 3 reviews. */
  lemma ThreeReviewsExample()
    ensures Aggregate([5, 4, 3]) == Summary(4.0, 3)
  {
    assert [5, 4, 3][..2] == [5, 4];
    assert [5, 4][..1] == [5];
    assert [5][..0] == [];
  }
}
