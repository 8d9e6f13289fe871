/** The five-star display (src/components/StarRating.tsx): star `n`, for
    `n` from 1 to 5, is filled when `n <= value`. */
module StarRating {
  const StarCount: nat := 5

  /** Entry `i` says whether star `i + 1` is filled. */
  function Stars(value: real): seq<bool>
  {
    seq(StarCount, i requires 0 <= i < StarCount => (i + 1) as real <= value)
  }

  function CountFilled(stars: seq<bool>): nat
  {
    if |stars| == 0 then 0 else (if stars[0] then 1 else 0) + CountFilled(stars[1..])
  }

  /** How many stars are filled: the whole part of `value`, clamped to 0..5. */
  function FilledFor(value: real): (k: nat)
    ensures k <= StarCount
    ensures value < 1.0 ==> k == 0
    ensures value >= 5.0 ==> k == StarCount
    ensures 0 < k ==> k as real <= value
    ensures k < StarCount ==> value < (k + 1) as real
  {
    if value < 1.0 then 0 else if value >= 5.0 then StarCount else value.Floor
  }

  /** Star `n` is filled exactly when `n` is at most the filled count, so the
      filled stars form the prefix 1..k. */
  lemma StarsArePrefix(value: real)
    ensures |Stars(value)| == StarCount
    ensures forall i :: 0 <= i < StarCount ==> (Stars(value)[i] <==> i < FilledFor(value))
  {
  }

  lemma {:induction false} CountPrefix(stars: seq<bool>, k: nat)
    requires k <= |stars|
    requires forall i :: 0 <= i < |stars| ==> (stars[i] <==> i < k)
    ensures CountFilled(stars) == k
    decreases |stars|
  {
    if |stars| > 0 {
      var rest := stars[1..];
      if k == 0 {
        CountPrefix(rest, 0);
      } else {
        CountPrefix(rest, k - 1);
      }
    }
  }

  /** The number of filled stars is `FilledFor(value)`. */
  lemma FilledStarsCount(value: real)
    ensures CountFilled(Stars(value)) == FilledFor(value)
  {
    StarsArePrefix(value);
    CountPrefix(Stars(value), FilledFor(value));
  }

  /** A higher rating never fills fewer stars, and fills every star that a
      lower one fills. */
  lemma StarsMonotone(v: real, w: real)
    requires v <= w
    ensures CountFilled(Stars(v)) <= CountFilled(Stars(w))
    ensures forall i :: 0 <= i < StarCount ==> Stars(v)[i] ==> Stars(w)[i]
  {
    FilledStarsCount(v);
    FilledStarsCount(w);
  }
}
