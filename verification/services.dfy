/** The services section's testimonial marquee: the reviews are split into
    two rows, the first taking the larger half. */
module Services {
  import opened Common

  /** `firstRow` and `secondRow`. */
  function SplitRows<T>(reviews: seq<T>): (rows: (seq<T>, seq<T>))
  {
    var half := CeilDiv(|reviews|, 2);
    (Slice(reviews, 0, half), Slice(reviews, half, |reviews|))
  }

  /** The two rows together are the reviews in order; the first row holds
      `ceil(n/2)` of them, so it is as long as the second or one longer,
      and no reviews give two empty rows. */
  lemma {:induction false} SplitRowsSpec<T>(reviews: seq<T>)
    ensures var (first, second) := SplitRows(reviews);
            && first + second == reviews
            && |first| == CeilDiv(|reviews|, 2)
            && (|first| - |second| == 0 || |first| - |second| == 1)
            && (reviews == [] ==> first == [] && second == [])
  {
    var n := |reviews|;
    var half := CeilDiv(n, 2);
    assert half <= n;
    SliceNatural(reviews, 0, half);
    SliceNatural(reviews, half, n);
    assert reviews[..half] + reviews[half..] == reviews;
  }
}
