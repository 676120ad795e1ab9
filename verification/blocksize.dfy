/** The block size handed to the adaptive threshold. The trackbar may stand
    on any value from 0 to 31, but the filter needs an odd block size, so an
    even reading is bumped up by one. The filter also needs a size above 1,
    which the rule does not ensure: positions 0 and 1 both give 1. Python's
    `%` floors and Dafny's is Euclidean; for the divisor 2 both give 0 or 1
    for every integer, so the parity test reads the same. */
module BlockSize {

  /** The trackbar's range is 0 to this value. */
  const TrackbarMax: int := 31
  /** The trackbar's position when the window opens. */
  const TrackbarInitial: int := 11

  predicate IsOdd(v: int)
  {
    v % 2 == 1
  }

  function Normalize(v: int): (r: int)
    ensures IsOdd(r)
    ensures IsOdd(v) ==> r == v
    ensures !IsOdd(v) ==> r == v + 1
  {
    if v % 2 == 0 then v + 1 else v
  }

  /** Normalizing never lowers the value and raises it by at most one. */
  lemma NormalizeBounds(v: int)
    ensures v <= Normalize(v) <= v + 1
  {
  }

  /** Normalizing an already normalized value changes nothing. */
  lemma NormalizeIdempotent(v: int)
    ensures Normalize(Normalize(v)) == Normalize(v)
  {
  }

  /** Every trackbar position yields an odd block size from 1 to 31; the
      initial position 11 is used as it is. */
  lemma NormalizeTrackbar(v: int)
    requires 0 <= v <= TrackbarMax
    ensures 1 <= Normalize(v) <= TrackbarMax
    ensures Normalize(TrackbarInitial) == TrackbarInitial
  {
  }

  /** Exactly the two lowest trackbar positions give the block size 1,
      which is too small for the adaptive filter; every other position
      gives a size of at least 3. */
  lemma TooSmallPositions(v: int)
    requires 0 <= v <= TrackbarMax
    ensures Normalize(v) > 1 <==> v >= 2
    ensures v <= 1 ==> Normalize(v) == 1
    ensures v >= 2 ==> Normalize(v) >= 3
  {
  }
}
