/**
 * The JPEG quality search of `adjust_jpeg_quality`.
 *
 * The encoder is abstracted to a function from a JPEG quality to the number of
 * bytes the (fixed) frame encodes to at that quality. The target size, given in
 * kilobytes by the caller, is taken here as a byte count: for an integer target
 * `size / 1024 < target` holds exactly when `size < target * 1024`.
 */
module QualitySearch {
  import opened Wrappers

  /** The quality of the first attempt, and the value returned when every attempt fails. */
  const DefaultQuality: int := 85
  /** How much the quality is lowered after a failed attempt. */
  const QualityStep: int := 5
  /** The default number of attempts, as used by the frame extractor. */
  const DefaultMaxIterations: int := 10

  /** Encoded byte length of one frame as a function of the JPEG quality. */
  type Encoder = int -> nat

  /** The quality used on attempt `j` (counting from 0). */
  function QualityAt(j: nat): int
  {
    DefaultQuality - QualityStep * j
  }

  /** How many passes `range(maxIterations)` makes: none for a non-positive bound. */
  function Budget(maxIterations: int): (b: nat)
    ensures b == 0 <==> maxIterations <= 0
    ensures maxIterations >= 0 ==> b == maxIterations
  {
    if maxIterations < 0 then 0 else maxIterations
  }

  /** An attempt succeeds when the encoded size is strictly below the target. */
  predicate Fits(enc: Encoder, targetBytes: int, quality: int)
  {
    enc(quality) < targetBytes
  }

  /** The first `n` qualities of the search schedule, built one attempt at a time. */
  function Schedule(n: nat): (s: seq<int>)
    ensures |s| == n
    ensures n > 0 ==> s[0] == DefaultQuality
    ensures forall k :: 0 <= k < n ==> s[k] == QualityAt(k)
    ensures forall k :: 0 < k < n ==> s[k] == s[k - 1] - QualityStep
  {
    if n == 0 then [] else Schedule(n - 1) + [QualityAt(n - 1)]
  }

  /**
   * The index of the first successful attempt at or after `from` and before
   * `budget`, or `None` when every one of those attempts fails.
   */
  function FirstFit(enc: Encoder, targetBytes: int, from: nat, budget: nat): (r: Option<nat>)
    ensures r.Some? ==> from <= r.value < budget && Fits(enc, targetBytes, QualityAt(r.value))
    ensures r.Some? ==> forall k :: from <= k < r.value ==> !Fits(enc, targetBytes, QualityAt(k))
    ensures r.None? ==> forall k :: from <= k < budget ==> !Fits(enc, targetBytes, QualityAt(k))
    decreases budget - from
  {
    if from >= budget then None
    else if Fits(enc, targetBytes, QualityAt(from)) then Some(from)
    else FirstFit(enc, targetBytes, from + 1, budget)
  }

  /** The quality the search returns: the first fitting one, else the default. */
  function Chosen(enc: Encoder, targetBytes: int, maxIterations: int): int
  {
    match FirstFit(enc, targetBytes, 0, Budget(maxIterations))
    case Some(j) => QualityAt(j)
    case None => DefaultQuality
  }

  /** The qualities the search encodes at, in order (one diagnostic line each). */
  function Attempts(enc: Encoder, targetBytes: int, maxIterations: int): seq<int>
  {
    match FirstFit(enc, targetBytes, 0, Budget(maxIterations))
    case Some(j) => Schedule(j + 1)
    case None => Schedule(Budget(maxIterations))
  }

  /**
   * `adjust_jpeg_quality`: starting at 85, encode; return the quality as soon
   * as the encoded size is below the target, otherwise lower it by 5; after
   * `maxIterations` failed attempts return 85. `tried` is the sequence of
   * qualities encoded at, which the source reports one diagnostic line each.
   */
  method AdjustJpegQuality(enc: Encoder, targetBytes: int, maxIterations: int)
    returns (quality: int, tried: seq<int>)
    ensures quality == Chosen(enc, targetBytes, maxIterations)
    ensures tried == Attempts(enc, targetBytes, maxIterations)
  {
    var current := DefaultQuality;
    var n := 0;
    tried := [];
    while n < maxIterations
      invariant 0 <= n <= Budget(maxIterations)
      invariant current == QualityAt(n)
      invariant tried == Schedule(n)
      invariant FirstFit(enc, targetBytes, 0, Budget(maxIterations))
             == FirstFit(enc, targetBytes, n, Budget(maxIterations))
    {
      var size := enc(current);
      tried := tried + [current];
      if size < targetBytes {
        return current, tried;
      }
      current := current - QualityStep;
      n := n + 1;
    }
    quality := DefaultQuality;
  }

  /** When the first encoding already fits, the search stops there with 85. */
  lemma FirstAttemptFits(enc: Encoder, targetBytes: int, maxIterations: int)
    requires maxIterations >= 1
    requires enc(DefaultQuality) < targetBytes
    ensures Chosen(enc, targetBytes, maxIterations) == DefaultQuality
    ensures Attempts(enc, targetBytes, maxIterations) == [DefaultQuality]
  {
  }

  /**
   * The attempts follow the schedule 85, 80, 75, ..., stop at the first
   * success and never exceed the budget; every attempt but the last fails.
   */
  lemma AttemptsFollowSchedule(enc: Encoder, targetBytes: int, maxIterations: int)
    ensures var a := Attempts(enc, targetBytes, maxIterations);
      |a| <= Budget(maxIterations)
      && (maxIterations >= 1 ==> |a| >= 1)
      && (forall k :: 0 <= k < |a| ==> a[k] == QualityAt(k))
      && (forall k :: 0 <= k < |a| - 1 ==> !Fits(enc, targetBytes, a[k]))
  {
  }

  /**
   * First fit: a quality other than the default fallback was returned from
   * inside the loop, so it fits, it is the last quality tried, and every
   * earlier attempt failed; conversely, the first fitting attempt within the
   * budget is the one returned.
   */
  lemma ChosenIsFirstFit(enc: Encoder, targetBytes: int, maxIterations: int, j: nat)
    requires j < Budget(maxIterations)
    requires Fits(enc, targetBytes, QualityAt(j))
    requires forall k :: 0 <= k < j ==> !Fits(enc, targetBytes, QualityAt(k))
    ensures Chosen(enc, targetBytes, maxIterations) == QualityAt(j)
    ensures Attempts(enc, targetBytes, maxIterations) == Schedule(j + 1)
  {
  }

  /** A returned quality fits the target unless the search fell back to the default. */
  lemma ChosenFitsOrIsDefault(enc: Encoder, targetBytes: int, maxIterations: int)
    ensures var q := Chosen(enc, targetBytes, maxIterations);
      var a := Attempts(enc, targetBytes, maxIterations);
      (Fits(enc, targetBytes, q) && |a| >= 1 && q == a[|a| - 1])
      || (q == DefaultQuality && |a| == Budget(maxIterations)
          && forall k :: 0 <= k < |a| ==> !Fits(enc, targetBytes, a[k]))
  {
  }

  /**
   * Exhaustion: when no attempt within the budget fits, every scheduled
   * quality is tried and the result is 85, not the last (lowest) quality
   * tried; when there was at least one attempt, the returned 85 is already
   * known not to meet the target.
   */
  lemma ExhaustedFallsBackToDefault(enc: Encoder, targetBytes: int, maxIterations: int)
    requires forall j: nat :: j < Budget(maxIterations) ==> !Fits(enc, targetBytes, QualityAt(j))
    ensures Chosen(enc, targetBytes, maxIterations) == DefaultQuality
    ensures Attempts(enc, targetBytes, maxIterations) == Schedule(Budget(maxIterations))
    ensures maxIterations >= 1 ==> !Fits(enc, targetBytes, Chosen(enc, targetBytes, maxIterations))
    ensures maxIterations >= 2 ==>
      Chosen(enc, targetBytes, maxIterations) > QualityAt(Budget(maxIterations) - 1)
  {
  }

  /**
   * The result is always `85 - 5*j` for an attempt index `j` below the
   * budget (just 85 when the budget is empty).
   */
  lemma ChosenIsScheduledQuality(enc: Encoder, targetBytes: int, maxIterations: int)
    ensures var q := Chosen(enc, targetBytes, maxIterations);
      q <= DefaultQuality && (DefaultQuality - q) % QualityStep == 0
      && (maxIterations >= 1 ==> q >= QualityAt(maxIterations - 1))
      && (maxIterations <= 0 ==> q == DefaultQuality)
  {
  }

  /** With the default ten attempts the result lies in {40, 45, ..., 85}. */
  lemma DefaultBudgetRange(enc: Encoder, targetBytes: int)
    ensures Chosen(enc, targetBytes, DefaultMaxIterations)
      in {40, 45, 50, 55, 60, 65, 70, 75, 80, 85}
  {
  }
}
