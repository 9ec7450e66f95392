/**
 The testimonials section: each review card draws five stars, the j-th
 (from 0) filled when `j < rating` and empty otherwise.
 */
module Testimonials {

  /** One review (the `Review` record). */
  datatype Review = Review(name: string, role: string, text: string, rating: int)

  const Reviews: seq<Review> := [
    Review("Sarah Jenkins", "Food Critic",
           "The best espresso in the city, bar none. The atmosphere is sophisticated yet warm.", 5),
    Review("Marcus Chen", "Regular Guest",
           "I come here every morning for my Flat White. The baristas are true artists.", 5),
    Review("Elena Rodriguez", "Designer",
           "A perfect place to work or meet friends. The Honey Lavender Latte is a must-try!", 4)
  ]

  /** The number of star glyphs on every card. */
  const StarCount: nat := 5

  /** The stars of a card, left to right: true for a filled star. */
  function Stars(rating: int): (r: seq<bool>)
    ensures |r| == StarCount
    ensures forall i, j :: 0 <= i <= j < |r| && r[j] ==> r[i]
    ensures 0 <= rating <= StarCount as int ==> r[..rating] == Repeat(true, rating)
  {
    seq(StarCount, j => j < rating)
  }

  function Repeat(b: bool, n: nat): (r: seq<bool>)
    ensures |r| == n
    ensures forall i :: 0 <= i < n ==> r[i] == b
  {
    seq(n, _ => b)
  }

  /** The number of filled stars in `stars`. */
  function Filled(stars: seq<bool>): nat
    decreases |stars|
  {
    if stars == [] then 0 else (if stars[0] then 1 else 0) + Filled(stars[1..])
  }

  lemma {:induction false} FilledConcat(a: seq<bool>, b: seq<bool>)
    ensures Filled(a + b) == Filled(a) + Filled(b)
    decreases |a|
  {
    if a == [] {
      assert a + b == b;
    } else {
      assert (a + b)[1..] == a[1..] + b;
      FilledConcat(a[1..], b);
    }
  }

  lemma {:induction false} FilledRepeat(b: bool, n: nat)
    ensures Filled(Repeat(b, n)) == if b then n else 0
    decreases n
  {
    if n > 0 {
      assert Repeat(b, n)[1..] == Repeat(b, n - 1);
      FilledRepeat(b, n - 1);
    }
  }

  /** `rating` clamped to the range of the five stars. */
  function Clamp(rating: int): (k: nat)
    ensures k <= StarCount
  {
    if rating < 0 then 0 else if rating > StarCount as int then StarCount else rating
  }

  /** The filled stars come first: as many as the rating (clamped to 0..5), then the
      empty ones; so a rating of 0..5 fills exactly that many of the five. */
  lemma StarsLayout(rating: int)
    ensures Stars(rating) == Repeat(true, Clamp(rating)) + Repeat(false, StarCount - Clamp(rating))
    ensures Filled(Stars(rating)) == Clamp(rating)
    ensures 0 <= rating <= StarCount as int ==>
              Filled(Stars(rating)) == rating && StarCount - Filled(Stars(rating)) == StarCount - rating
  {
    var k := Clamp(rating);
    assert Stars(rating) == Repeat(true, k) + Repeat(false, StarCount - k);
    FilledConcat(Repeat(true, k), Repeat(false, StarCount - k));
    FilledRepeat(true, k);
    FilledRepeat(false, StarCount - k);
  }

  /** Every review shows as many filled stars as its rating; the third (rating 4)
      shows four filled stars and one empty one. */
  lemma ReviewStars(i: nat)
    requires i < |Reviews|
    ensures Filled(Stars(Reviews[i].rating)) == Reviews[i].rating
    ensures i == 2 ==> Stars(Reviews[i].rating) == [true, true, true, true, false]
  {
    StarsLayout(Reviews[i].rating);
  }
}
