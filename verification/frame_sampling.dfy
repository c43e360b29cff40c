/**
 * The sampling loop of `extract_frames`.
 *
 * The floating-point quantities are taken as given integers: `frameLimit` is
 * `int(fps * duration)`, the exclusive end of the frame-index range, and
 * `intervalFrames` is `int(fps * interval)`, the sampling interval truncated
 * to whole frames. Frame reads become a predicate on the frame index, and the
 * encoder of the resized frame at each index an `Encoder`.
 */
module FrameSampling {
  import opened QualitySearch

  /** One output file: the frame index it was sampled at and the JPEG quality it was written with. */
  datatype Output = Output(index: int, quality: int)

  /** `max(int(fps * interval), 1)`: the interval in frames, never below one. */
  function FrameStep(intervalFrames: int): (step: nat)
    ensures step >= 1
    ensures step >= intervalFrames
    ensures step == intervalFrames || step == 1
  {
    if intervalFrames >= 1 then intervalFrames else 1
  }

  /** `range(start, stop, step)` for a positive step, one element at a time. */
  function Range(start: int, stop: int, step: nat): seq<int>
    requires step >= 1
    decreases stop - start
  {
    if start >= stop then [] else [start] + Range(start + step, stop, step)
  }

  /** The number of values in `range(0, n, step)`, one step at a time. */
  function CeilDiv(n: int, step: nat): nat
    requires step >= 1
    decreases n
  {
    if n <= 0 then 0 else 1 + CeilDiv(n - step, step)
  }

  /** `CeilDiv(n, step)` is ceil(n / step): the least `c` with `n <= c * step`. */
  lemma {:induction false} CeilDivBounds(n: int, step: nat)
    requires step >= 1
    ensures n <= 0 ==> CeilDiv(n, step) == 0
    ensures n > 0 ==> (CeilDiv(n, step) - 1) * step < n <= CeilDiv(n, step) * step
    decreases n
  {
    if n > 0 {
      var c := CeilDiv(n - step, step);
      CeilDivBounds(n - step, step);
      assert (c + 1) * step == c * step + step;
    }
  }

  /** Multiplying by a positive step preserves strict order. */
  lemma MulStrictMono(a: int, b: int, step: nat)
    requires step >= 1
    requires a < b
    ensures a * step < b * step
  {
  }

  /** The range holds `start, start + step, ...` below `stop`: ceil((stop - start) / step) of them. */
  lemma {:induction false} RangeShape(start: int, stop: int, step: nat)
    requires step >= 1
    ensures |Range(start, stop, step)| == CeilDiv(stop - start, step)
    ensures forall k :: 0 <= k < |Range(start, stop, step)| ==>
      Range(start, stop, step)[k] == start + k * step
    decreases stop - start
  {
    if start < stop {
      var rest := Range(start + step, stop, step);
      RangeShape(start + step, stop, step);
      assert Range(start, stop, step) == [start] + rest;
      forall k | 1 <= k < |Range(start, stop, step)|
        ensures Range(start, stop, step)[k] == start + k * step
      {
        assert Range(start, stop, step)[k] == rest[k - 1];
        assert start + step + (k - 1) * step == start + k * step;
      }
    }
  }

  /** Every element of `range(0, n, step)` is a multiple of the step inside `[0, n)`. */
  lemma SampledIsMultiple(n: int, step: nat, k: int)
    requires step >= 1
    requires 0 <= k < |Range(0, n, step)|
    ensures var x := Range(0, n, step)[k]; 0 <= x < n && x % step == 0
  {
    RangeShape(0, n, step);
    CeilDivBounds(n, step);
    var c := CeilDiv(n, step);
    var x := Range(0, n, step)[k];
    assert x == k * step;
    if k < c - 1 {
      MulStrictMono(k, c - 1, step);
    }
    if k > 0 {
      MulStrictMono(0, k, step);
    }
    DivModUnique(x, step, k, 0);
  }

  /** Every multiple of the step inside `[0, n)` is an element of `range(0, n, step)`. */
  lemma MultipleIsSampled(n: int, step: nat, x: int)
    requires step >= 1
    requires 0 <= x < n && x % step == 0
    ensures x in Range(0, n, step)
  {
    var r := Range(0, n, step);
    RangeShape(0, n, step);
    CeilDivBounds(n, step);
    var c := CeilDiv(n, step);
    var k := x / step;
    assert x == k * step;
    assert k >= 0 by {
      if k < 0 {
        MulStrictMono(k, 0, step);
      }
    }
    if k >= c {
      if k > c {
        MulStrictMono(c, k, step);
      }
      assert false;
    }
    assert r[k] == x;
  }

  /** An index is sampled exactly when it is a multiple of the step inside `[0, n)`. */
  lemma SampledIndexMembership(n: int, step: nat, x: int)
    requires step >= 1
    ensures x in Range(0, n, step) <==> 0 <= x < n && x % step == 0
  {
    var r := Range(0, n, step);
    if x in r {
      var k :| 0 <= k < |r| && r[k] == x;
      SampledIsMultiple(n, step, k);
    }
    if 0 <= x < n && x % step == 0 {
      MultipleIsSampled(n, step, x);
    }
  }

  /** The only multiple of `step` strictly between `-step` and `step` is 0. */
  lemma SmallMultipleIsZero(d: int, step: nat)
    requires step >= 1
    requires 0 < d * step + step && d * step < step
    ensures d == 0
  {
  }

  /** Euclidean division by a positive step is determined by quotient and remainder. */
  lemma DivModUnique(x: int, step: nat, q: int, rem: int)
    requires step >= 1
    requires 0 <= rem < step
    requires x == q * step + rem
    ensures x / step == q && x % step == rem
  {
    var q', rem' := x / step, x % step;
    assert x == q' * step + rem';
    assert (q - q') * step == rem' - rem;
    SmallMultipleIsZero(q - q', step);
  }

  /**
   * The sampling schedule of `extract_frames`: 0, step, 2*step, ..., strictly
   * increasing, all inside `[0, frameLimit)`, ceil(frameLimit / step) of them,
   * where step is never below one.
   */
  lemma SampleSchedule(frameLimit: int, intervalFrames: int)
    ensures var step := FrameStep(intervalFrames);
      var r := Range(0, frameLimit, step);
      |r| == CeilDiv(frameLimit, step)
      && (forall k :: 0 <= k < |r| ==> r[k] == k * step && 0 <= r[k] < frameLimit)
      && (forall a, b :: 0 <= a < b < |r| ==> r[a] < r[b])
  {
    var step := FrameStep(intervalFrames);
    var r := Range(0, frameLimit, step);
    RangeShape(0, frameLimit, step);
    forall k | 0 <= k < |r| ensures 0 <= r[k] < frameLimit {
      SampledIndexMembership(frameLimit, step, r[k]);
      if k > 0 {
        MulStrictMono(0, k, step);
      }
    }
    forall a, b | 0 <= a < b < |r| ensures r[a] < r[b] {
      MulStrictMono(a, b, step);
    }
  }

  /** The outputs written while processing `indices` in order: one per successful read. */
  function Written(indices: seq<int>, readOk: int -> bool, enc: int -> Encoder, targetBytes: int)
    : seq<Output>
  {
    if |indices| == 0 then []
    else
      var i := indices[|indices| - 1];
      Written(indices[..|indices| - 1], readOk, enc, targetBytes)
      + (if readOk(i) then [Output(i, Chosen(enc(i), targetBytes, DefaultMaxIterations))] else [])
  }

  /** The indices reported as unreadable while processing `indices` in order. */
  function Skipped(indices: seq<int>, readOk: int -> bool): seq<int>
  {
    if |indices| == 0 then []
    else
      var i := indices[|indices| - 1];
      Skipped(indices[..|indices| - 1], readOk) + (if readOk(i) then [] else [i])
  }

  /**
   * `extract_frames`' loop: for every sampled index, seek and read; on success
   * write the resized frame at the quality `adjust_jpeg_quality` picks, on
   * failure report the index and go on. Returns the files written, in order,
   * and the indices reported as unreadable.
   */
  method ExtractFrames(frameLimit: int, intervalFrames: int, readOk: int -> bool,
                       enc: int -> Encoder, targetBytes: int)
    returns (written: seq<Output>, skipped: seq<int>)
    ensures written == Written(Range(0, frameLimit, FrameStep(intervalFrames)), readOk, enc, targetBytes)
    ensures skipped == Skipped(Range(0, frameLimit, FrameStep(intervalFrames)), readOk)
  {
    var step := FrameStep(intervalFrames);
    var i := 0;
    ghost var done: seq<int> := [];
    written, skipped := [], [];
    while i < frameLimit
      invariant done + Range(i, frameLimit, step) == Range(0, frameLimit, step)
      invariant written == Written(done, readOk, enc, targetBytes)
      invariant skipped == Skipped(done, readOk)
      decreases frameLimit - i
    {
      if readOk(i) {
        var quality, _ := AdjustJpegQuality(enc(i), targetBytes, DefaultMaxIterations);
        written := written + [Output(i, quality)];
      } else {
        skipped := skipped + [i];
      }
      assert Range(i, frameLimit, step) == [i] + Range(i + step, frameLimit, step);
      assert (done + [i])[..|done + [i]| - 1] == done;
      done := done + [i];
      i := i + step;
    }
    assert Range(i, frameLimit, step) == [];
    assert done + [] == done;
  }

  /**
   * What processing `indices` produces: an output for exactly the indices whose
   * read succeeds, each with the quality the search picks for that frame; a
   * report for exactly the others; and every index accounted for once.
   */
  lemma {:induction false} WrittenExactly(indices: seq<int>, readOk: int -> bool,
                                         enc: int -> Encoder, targetBytes: int)
    ensures forall o :: o in Written(indices, readOk, enc, targetBytes) <==>
      o.index in indices && readOk(o.index)
      && o.quality == Chosen(enc(o.index), targetBytes, DefaultMaxIterations)
    ensures forall x :: x in Skipped(indices, readOk) <==> x in indices && !readOk(x)
    ensures |Written(indices, readOk, enc, targetBytes)| + |Skipped(indices, readOk)| == |indices|
  {
    if |indices| > 0 {
      var init := indices[..|indices| - 1];
      WrittenExactly(init, readOk, enc, targetBytes);
      assert indices == init + [indices[|indices| - 1]];
    }
  }

  /**
   * Processed in increasing index order, the outputs come out in increasing
   * index order and each unreadable index is reported once: no retry.
   */
  lemma {:induction false} WrittenOrdered(indices: seq<int>, readOk: int -> bool,
                                         enc: int -> Encoder, targetBytes: int)
    requires forall a, b :: 0 <= a < b < |indices| ==> indices[a] < indices[b]
    ensures var w := Written(indices, readOk, enc, targetBytes);
      forall a, b :: 0 <= a < b < |w| ==> w[a].index < w[b].index
    ensures var s := Skipped(indices, readOk);
      forall a, b :: 0 <= a < b < |s| ==> s[a] < s[b]
  {
    if |indices| > 0 {
      var init := indices[..|indices| - 1];
      var last := indices[|indices| - 1];
      WrittenOrdered(init, readOk, enc, targetBytes);
      WrittenExactly(init, readOk, enc, targetBytes);
      var w := Written(init, readOk, enc, targetBytes);
      var s := Skipped(init, readOk);
      forall a | 0 <= a < |w| ensures w[a].index < last {
        assert w[a] in w;
        var j :| 0 <= j < |init| && init[j] == w[a].index;
      }
      forall a | 0 <= a < |s| ensures s[a] < last {
        assert s[a] in s;
        var j :| 0 <= j < |init| && init[j] == s[a];
      }
    }
  }

  /**
   * The end-to-end statement about `extract_frames`: a file is written for
   * exactly the multiples of the step below `frameLimit` whose read succeeds,
   * with the quality the search returns for that frame, in increasing index
   * order; every other sampled index is reported once; together they account
   * for all ceil(frameLimit / step) sampled indices.
   */
  lemma ExtractionOutcome(frameLimit: int, intervalFrames: int, readOk: int -> bool,
                          enc: int -> Encoder, targetBytes: int)
    ensures var step := FrameStep(intervalFrames);
      var r := Range(0, frameLimit, step);
      var w := Written(r, readOk, enc, targetBytes);
      var s := Skipped(r, readOk);
      (forall o :: o in w <==>
        0 <= o.index < frameLimit && o.index % step == 0 && readOk(o.index)
        && o.quality == Chosen(enc(o.index), targetBytes, DefaultMaxIterations))
      && (forall x :: x in s <==> 0 <= x < frameLimit && x % step == 0 && !readOk(x))
      && (forall a, b :: 0 <= a < b < |w| ==> w[a].index < w[b].index)
      && (forall a, b :: 0 <= a < b < |s| ==> s[a] < s[b])
      && |w| + |s| == CeilDiv(frameLimit, step)
  {
    var step := FrameStep(intervalFrames);
    var r := Range(0, frameLimit, step);
    SampleSchedule(frameLimit, intervalFrames);
    WrittenExactly(r, readOk, enc, targetBytes);
    WrittenOrdered(r, readOk, enc, targetBytes);
    forall x ensures x in r <==> 0 <= x < frameLimit && x % step == 0 {
      SampledIndexMembership(frameLimit, step, x);
    }
  }

  /**
   * A 2-second clip at 10 frames per second sampled every 0.5 s: 20 frames,
   * an interval of 5 frames, and the indices 0, 5, 10, 15. At 25 frames per
   * second with the default 0.033 s interval, `int(0.825)` is 0 and every frame
   * is sampled.
   */
  lemma ScheduleExamples()
    ensures Range(0, 20, FrameStep(5)) == [0, 5, 10, 15]
    ensures FrameStep(0) == 1
  {
  }
}
