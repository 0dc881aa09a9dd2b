/**
 * The frame sampler and deduplicator (`extract_unique_frames`, app.py lines
 * 89-129) and the names it gives the frames it keeps (lines 94 and 119-120).
 *
 * Decoding, colour conversion, resizing, the structural-similarity score and
 * the writing of image files are library calls over pixel buffers; they are
 * modelled as the uninterpreted functions of a `Vision` value, and only the
 * loop's own decisions are modelled in full.
 */
module Sampler {
  import opened Wrappers
  import opened Text

  /** An opened (or unopenable) video: the reported frame rate and its frames in order. */
  datatype Video<F> = Video(isOpened: bool, reportedFps: real, frames: seq<F>)

  /**
   * The library computations the loop depends on. `signature` stands for the
   * grey-scale conversion and the 160x90 area resize (lines 106-107);
   * `similarity` for the structural-similarity call of line 113, whose data
   * range comes from its first argument, with `None` when that call raises.
   */
  datatype Vision<!F, !S> = Vision(signature: F -> S, similarity: (S, S) -> Option<real>)

  /** The tuning parameters `sample_rate`, `ssim_threshold` and `max_frames`. */
  datatype SamplerConfig = SamplerConfig(sampleRate: int, ssimThreshold: real, maxFrames: int)

  /** `RuntimeError("Cannot open video file.")`, and the `ZeroDivisionError` of a zero sample rate. */
  datatype SamplerError = CannotOpenVideo | ZeroSampleRate

  /** One entry of the returned list: the file name written and its timestamp in seconds. */
  datatype SavedFrame = SavedFrame(name: string, timestamp: nat)

  /** `cap.get(cv2.CAP_PROP_FPS) or 25.0`: a reported rate of zero falls back to 25. */
  function Fps(reported: real): (fps: real)
    requires reported >= 0.0
    ensures fps > 0.0
    ensures reported != 0.0 ==> fps == reported
    ensures reported == 0.0 ==> fps == 25.0
  {
    if reported == 0.0 then 25.0 else reported
  }

  /** `int(frame_idx / fps)`: the whole seconds of video that precede frame idx. */
  function Timestamp(idx: nat, fps: real): (ts: nat)
    requires fps > 0.0
    ensures ts as real * fps <= idx as real < (ts + 1) as real * fps
  {
    FloorOfQuotient(idx as real, fps);
    (idx as real / fps).Floor
  }

  /** A later frame never has an earlier timestamp. */
  lemma TimestampMonotone(i: nat, j: nat, fps: real)
    requires fps > 0.0 && i <= j
    ensures Timestamp(i, fps) <= Timestamp(j, fps)
  {
    assert i as real / fps <= j as real / fps;
  }

  /** The floor of x / fps brackets x between two consecutive multiples of fps. */
  lemma FloorOfQuotient(x: real, fps: real)
    requires x >= 0.0 && fps > 0.0
    ensures (x / fps).Floor >= 0
    ensures (x / fps).Floor as real * fps <= x < ((x / fps).Floor + 1) as real * fps
  {
    FloorBelow(x, fps);
    FloorAbove(x, fps);
  }

  lemma FloorBelow(x: real, fps: real)
    requires x >= 0.0 && fps > 0.0
    ensures (x / fps).Floor >= 0
    ensures (x / fps).Floor as real * fps <= x
  {
    var t := x / fps;
    var lo := t.Floor as real;
    assert lo <= t;
    MultiplyPreservesOrder(lo, t, fps);
    assert lo * fps <= t * fps;
    assert t * fps == x;
  }

  lemma FloorAbove(x: real, fps: real)
    requires x >= 0.0 && fps > 0.0
    ensures x < ((x / fps).Floor + 1) as real * fps
  {
    var t := x / fps;
    var f := t.Floor;
    var hi := (f + 1) as real;
    assert t < hi;
    MultiplyPreservesStrictOrder(t, hi, fps);
    assert t * fps < hi * fps;
    assert t * fps == x;
    assert x < hi * fps;
  }

  lemma MultiplyPreservesOrder(a: real, b: real, c: real)
    requires a <= b && c > 0.0
    ensures a * c <= b * c
  {
    assert b * c - a * c == (b - a) * c;
  }

  lemma MultiplyPreservesStrictOrder(a: real, b: real, c: real)
    requires a < b && c > 0.0
    ensures a * c < b * c
  {
    assert b * c - a * c == (b - a) * c;
  }

  /** `f"frame_{frame_idx:06d}_{timestamp}s.png"` */
  function FrameName(idx: nat, ts: nat): string
  {
    "frame_" + ZeroPad(Decimal(idx), 6) + "_" + Decimal(ts) + "s.png"
  }

  /** The list entry `(out_name, timestamp)` for frame idx. */
  function Entry(idx: nat, fps: real): SavedFrame
    requires fps > 0.0
  {
    SavedFrame(FrameName(idx, Timestamp(idx, fps)), Timestamp(idx, fps))
  }

  /**
   * Frame idx is looked at when `frame_idx % sample_rate` is zero. Python's
   * remainder takes the divisor's sign and Dafny's is never negative, but both
   * are zero exactly when the sample rate divides idx.
   */
  predicate IsCandidate(idx: nat, sampleRate: int)
  {
    sampleRate != 0 && idx % sampleRate == 0
  }

  /** The score used in the comparison: a failed similarity computation counts as 0.0. */
  function ScoreOrZero(score: Option<real>): real
  {
    match score
    case None => 0.0
    case Some(v) => v
  }

  /** The test of line 116: frame a is dissimilar enough from the last kept frame b. */
  predicate Differs<F, S>(vision: Vision<F, S>, threshold: real, frames: seq<F>, a: nat, b: nat)
  {
    && a < |frames| && b < |frames|
    && ScoreOrZero(vision.similarity(vision.signature(frames[a]), vision.signature(frames[b]))) < threshold
  }

  /**
   * The most frames the loop can keep: it checks `len(saved) >= max_frames`
   * only after a save, so a budget below one still keeps the first frame.
   */
  function Budget(maxFrames: int): (b: nat)
    ensures b >= 1 && (maxFrames >= 1 ==> b == maxFrames) && (maxFrames < 1 ==> b == 1)
  {
    if maxFrames >= 1 then maxFrames else 1
  }

  /** ks holds candidate indices below n, in strictly increasing order, starting at frame 0. */
  ghost predicate CandidatesInOrder(sampleRate: int, n: nat, ks: seq<nat>)
  {
    && (forall j | 0 <= j < |ks| :: ks[j] < n && IsCandidate(ks[j], sampleRate))
    && (forall j | 0 <= j < |ks| - 1 :: ks[j] < ks[j + 1])
    && (|ks| > 0 ==> ks[0] == 0)
  }

  /** Each kept frame after the first differs from the one kept before it. */
  ghost predicate EachDiffersFromPrevious<F, S>(vision: Vision<F, S>, threshold: real, frames: seq<F>, ks: seq<nat>)
  {
    forall j | 0 <= j < |ks| - 1 :: Differs(vision, threshold, frames, ks[j + 1], ks[j])
  }

  /** Every candidate strictly between two consecutive kept frames is similar to the earlier one. */
  ghost predicate SkippedBetweenAreSimilar<F, S>(vision: Vision<F, S>, cfg: SamplerConfig, frames: seq<F>, ks: seq<nat>)
  {
    forall j, k | 0 <= j < |ks| - 1 && ks[j] < k < ks[j + 1] && IsCandidate(k, cfg.sampleRate) ::
      !Differs(vision, cfg.ssimThreshold, frames, k, ks[j])
  }

  /** Every candidate after the last kept frame and below n is similar to it. */
  ghost predicate SkippedAfterAreSimilar<F, S>(vision: Vision<F, S>, cfg: SamplerConfig, frames: seq<F>, ks: seq<nat>, n: nat)
  {
    |ks| > 0 ==>
      forall k | ks[|ks| - 1] < k < n && IsCandidate(k, cfg.sampleRate) ::
        !Differs(vision, cfg.ssimThreshold, frames, k, ks[|ks| - 1])
  }

  /**
   * What it means for ks to be the indices of the kept frames, without
   * reference to the loop: ks lies within the budget, holds candidates only,
   * starts at frame 0 whenever there is a frame, and each kept frame after the
   * first is the first later candidate that differs from the one kept before
   * it; if the budget was not used up, no candidate after the last kept frame
   * differs from it.
   */
  ghost predicate RetentionChain<F, S>(vision: Vision<F, S>, cfg: SamplerConfig, frames: seq<F>, ks: seq<nat>)
  {
    && |ks| <= Budget(cfg.maxFrames)
    && CandidatesInOrder(cfg.sampleRate, |frames|, ks)
    && (|ks| > 0 <==> |frames| > 0)
    && EachDiffersFromPrevious(vision, cfg.ssimThreshold, frames, ks)
    && SkippedBetweenAreSimilar(vision, cfg, frames, ks)
    && (|ks| < Budget(cfg.maxFrames) ==> SkippedAfterAreSimilar(vision, cfg, frames, ks, |frames|))
  }

  /** Whether the loop keeps frame n, given the indices ks kept before it. */
  ghost predicate KeepsNext<F, S>(vision: Vision<F, S>, cfg: SamplerConfig, frames: seq<F>, ks: seq<nat>, n: nat)
  {
    IsCandidate(n, cfg.sampleRate) &&
      (ks == [] || Differs(vision, cfg.ssimThreshold, frames, n, ks[|ks| - 1]))
  }

  /**
   * What holds of the indices ks kept after looking at the first n frames:
   * the retention chain's conditions with n in place of the length of the
   * video and without the budget.
   */
  ghost predicate KeptSoFar<F, S>(vision: Vision<F, S>, cfg: SamplerConfig, frames: seq<F>, ks: seq<nat>, n: nat)
  {
    && n <= |frames|
    && CandidatesInOrder(cfg.sampleRate, n, ks)
    && (cfg.sampleRate != 0 ==> (|ks| > 0 <==> n > 0))
    && EachDiffersFromPrevious(vision, cfg.ssimThreshold, frames, ks)
    && SkippedBetweenAreSimilar(vision, cfg, frames, ks)
    && SkippedAfterAreSimilar(vision, cfg, frames, ks, n)
  }

  /** Before any frame is read nothing is kept. */
  lemma KeptSoFarStart<F, S>(vision: Vision<F, S>, cfg: SamplerConfig, frames: seq<F>)
    ensures KeptSoFar(vision, cfg, frames, [], 0)
  {
  }

  /** Appending a frame that differs from the last one kept keeps every kept frame different from its predecessor. */
  lemma DiffersGrow<F, S>(vision: Vision<F, S>, cfg: SamplerConfig, frames: seq<F>, ks: seq<nat>, m: nat)
    requires EachDiffersFromPrevious(vision, cfg.ssimThreshold, frames, ks)
    requires ks != [] ==> Differs(vision, cfg.ssimThreshold, frames, m, ks[|ks| - 1])
    ensures EachDiffersFromPrevious(vision, cfg.ssimThreshold, frames, ks + [m])
  {
    var ks' := ks + [m];
    forall j | 0 <= j < |ks'| - 1
      ensures Differs(vision, cfg.ssimThreshold, frames, ks'[j + 1], ks'[j])
    {
      if j + 1 < |ks| {
        assert ks'[j + 1] == ks[j + 1] && ks'[j] == ks[j];
      } else {
        assert ks'[j + 1] == m && ks'[j] == ks[|ks| - 1];
      }
    }
  }

  /** Appending a frame keeps the gaps similar when everything skipped before it was similar to the last one kept. */
  lemma SkipsBetweenGrow<F, S>(vision: Vision<F, S>, cfg: SamplerConfig, frames: seq<F>, ks: seq<nat>, m: nat)
    requires SkippedBetweenAreSimilar(vision, cfg, frames, ks)
    requires SkippedAfterAreSimilar(vision, cfg, frames, ks, m)
    ensures SkippedBetweenAreSimilar(vision, cfg, frames, ks + [m])
  {
    var ks' := ks + [m];
    forall j, k | 0 <= j < |ks'| - 1 && ks'[j] < k < ks'[j + 1] && IsCandidate(k, cfg.sampleRate)
      ensures !Differs(vision, cfg.ssimThreshold, frames, k, ks'[j])
    {
      if j + 1 < |ks| {
        assert ks'[j + 1] == ks[j + 1] && ks'[j] == ks[j];
      } else {
        assert ks'[j + 1] == m && ks'[j] == ks[|ks| - 1];
      }
    }
  }

  /** Appending a candidate above every kept index keeps the indices increasing candidates from frame 0. */
  lemma CandidatesGrow(sampleRate: int, ks: seq<nat>, n: nat)
    requires CandidatesInOrder(sampleRate, n, ks) && IsCandidate(n, sampleRate)
    requires ks == [] ==> n == 0
    ensures CandidatesInOrder(sampleRate, n + 1, ks + [n])
  {
    var ks' := ks + [n];
    assert forall j | 0 <= j < |ks| :: ks'[j] == ks[j];
  }

  /** The loop step that saves frame n. */
  lemma KeptSoFarGrow<F, S>(vision: Vision<F, S>, cfg: SamplerConfig, frames: seq<F>, ks: seq<nat>, n: nat)
    requires KeptSoFar(vision, cfg, frames, ks, n) && n < |frames|
    requires KeepsNext(vision, cfg, frames, ks, n)
    ensures KeptSoFar(vision, cfg, frames, ks + [n], n + 1)
  {
    CandidatesGrow(cfg.sampleRate, ks, n);
    DiffersGrow(vision, cfg, frames, ks, n);
    SkipsBetweenGrow(vision, cfg, frames, ks, n);
  }

  /** The loop step that passes over frame n. */
  lemma KeptSoFarStay<F, S>(vision: Vision<F, S>, cfg: SamplerConfig, frames: seq<F>, ks: seq<nat>, n: nat)
    requires KeptSoFar(vision, cfg, frames, ks, n) && n < |frames|
    requires !KeepsNext(vision, cfg, frames, ks, n)
    ensures KeptSoFar(vision, cfg, frames, ks, n + 1)
  {
  }

  /** Once the stream is exhausted, or the budget used up, what was kept is the retention chain. */
  lemma KeptSoFarIsChain<F, S>(vision: Vision<F, S>, cfg: SamplerConfig, frames: seq<F>, ks: seq<nat>, n: nat)
    requires KeptSoFar(vision, cfg, frames, ks, n) && (cfg.sampleRate != 0 || |frames| == 0)
    requires |ks| <= Budget(cfg.maxFrames)
    requires n == |frames| || (|ks| == Budget(cfg.maxFrames) && n > 0)
    ensures RetentionChain(vision, cfg, frames, ks)
  {
    assert CandidatesInOrder(cfg.sampleRate, |frames|, ks);
  }

  /** The list entries of the frames ks, in order. */
  function Entries(ks: seq<nat>, fps: real): (es: seq<SavedFrame>)
    requires fps > 0.0
    ensures |es| == |ks|
  {
    if ks == [] then [] else Entries(ks[..|ks| - 1], fps) + [Entry(ks[|ks| - 1], fps)]
  }

  /** Entries holds, at each position, the entry of the frame at that position of ks. */
  lemma {:induction false} EntriesAt(ks: seq<nat>, fps: real)
    requires fps > 0.0
    ensures forall j | 0 <= j < |ks| :: Entries(ks, fps)[j] == Entry(ks[j], fps)
  {
    if ks != [] {
      EntriesAt(ks[..|ks| - 1], fps);
    }
  }

  /** Saving one more frame appends its entry. */
  lemma {:induction false} EntriesAppend(ks: seq<nat>, idx: nat, fps: real)
    requires fps > 0.0
    ensures Entries(ks + [idx], fps) == Entries(ks, fps) + [Entry(idx, fps)]
  {
    assert (ks + [idx])[..|ks|] == ks;
  }

  /**
   * One pass of the read loop of lines 103-124 over frame n: a candidate is
   * compared with the signature of the last kept frame and saved when it is
   * the first one or dissimilar enough. kept says whether it was saved.
   */
  method ConsiderFrame<F, S>(frames: seq<F>, vision: Vision<F, S>, cfg: SamplerConfig, fps: real, n: nat,
                             saved: seq<SavedFrame>, ghost ks: seq<nat>, lastSmall: Option<S>)
    returns (kept: bool, saved': seq<SavedFrame>, ghost ks': seq<nat>, lastSmall': Option<S>)
    requires cfg.sampleRate != 0 && fps > 0.0 && n < |frames|
    requires saved == Entries(ks, fps) && KeptSoFar(vision, cfg, frames, ks, n)
    requires lastSmall.None? <==> ks == []
    requires ks != [] ==> lastSmall == Some(vision.signature(frames[ks[|ks| - 1]]))
    ensures kept <==> KeepsNext(vision, cfg, frames, ks, n)
    ensures ks' == if kept then ks + [n] else ks
    ensures !kept ==> saved' == saved && lastSmall' == lastSmall
    ensures kept ==> lastSmall' == Some(vision.signature(frames[n]))
    ensures saved' == Entries(ks', fps) && KeptSoFar(vision, cfg, frames, ks', n + 1)
    ensures lastSmall'.None? <==> ks' == []
    ensures ks' != [] ==> lastSmall' == Some(vision.signature(frames[ks'[|ks'| - 1]]))
  {
    kept, saved', ks', lastSmall' := false, saved, ks, lastSmall;
    if n % cfg.sampleRate == 0 {
      var small := vision.signature(frames[n]);
      // a similarity computation that raises counts as a score of 0.0
      kept := lastSmall.None? ||
        ScoreOrZero(vision.similarity(small, lastSmall.value)) < cfg.ssimThreshold;
      if kept {
        KeptSoFarGrow(vision, cfg, frames, ks, n);
        var timestamp := Timestamp(n, fps);
        EntriesAppend(ks, n, fps);
        saved' := saved + [SavedFrame(FrameName(n, timestamp), timestamp)];
        ks' := ks + [n];
        lastSmall' := Some(small);
        return;
      }
    }
    KeptSoFarStay(vision, cfg, frames, ks, n);
  }

  /**
   * `extract_unique_frames` once the video is open and the sample rate is
   * known to be non-zero: the read loop of lines 99-127. The ghost result ks
   * lists the indices of the frames kept, and saved holds, in the same
   * order, the name and timestamp of each of them.
   */
  method SampleFrames<F, S>(frames: seq<F>, vision: Vision<F, S>, cfg: SamplerConfig, fps: real)
    returns (saved: seq<SavedFrame>, ghost ks: seq<nat>)
    requires cfg.sampleRate != 0 && fps > 0.0
    ensures RetentionChain(vision, cfg, frames, ks)
    ensures saved == Entries(ks, fps)
  {
    ks := [];
    KeptSoFarStart(vision, cfg, frames);
    var frameIdx: nat := 0;
    saved := [];
    var lastSmall: Option<S> := None;
    while frameIdx < |frames|
      invariant frameIdx <= |frames|
      invariant |ks| < Budget(cfg.maxFrames)
      invariant saved == Entries(ks, fps)
      invariant KeptSoFar(vision, cfg, frames, ks, frameIdx)
      invariant lastSmall.None? <==> ks == []
      invariant ks != [] ==> lastSmall == Some(vision.signature(frames[ks[|ks| - 1]]))
    {
      var kept;
      kept, saved, ks, lastSmall := ConsiderFrame(frames, vision, cfg, fps, frameIdx, saved, ks, lastSmall);
      if kept && |saved| >= cfg.maxFrames {
        KeptSoFarIsChain(vision, cfg, frames, ks, frameIdx + 1);
        return;
      }
      frameIdx := frameIdx + 1;
    }
    KeptSoFarIsChain(vision, cfg, frames, ks, frameIdx);
  }

  /**
   * `extract_unique_frames`: an unopenable video and a zero sample rate with
   * a frame to read are errors; otherwise the frames kept are the retention
   * chain of the video and the list holds their names and timestamps in order.
   */
  method ExtractUniqueFrames<F, S>(video: Video<F>, vision: Vision<F, S>, cfg: SamplerConfig)
    returns (r: Result<seq<SavedFrame>, SamplerError>, ghost ks: seq<nat>)
    requires video.reportedFps >= 0.0
    ensures !video.isOpened ==> r == Failure(CannotOpenVideo)
    ensures video.isOpened && cfg.sampleRate == 0 && |video.frames| > 0 ==> r == Failure(ZeroSampleRate)
    ensures video.isOpened && (cfg.sampleRate != 0 || |video.frames| == 0) ==> r.Success?
    ensures r.Success? ==> RetentionChain(vision, cfg, video.frames, ks)
    ensures r.Success? ==> r.value == Entries(ks, Fps(video.reportedFps))
  {
    ks := [];
    if !video.isOpened {
      return Failure(CannotOpenVideo), ks;
    }
    var fps := Fps(video.reportedFps);
    // `frame_idx % sample_rate` raises on the first frame read when the rate is zero
    if cfg.sampleRate == 0 {
      if |video.frames| > 0 {
        return Failure(ZeroSampleRate), ks;
      }
      KeptSoFarStart(vision, cfg, video.frames);
      KeptSoFarIsChain(vision, cfg, video.frames, ks, 0);
      return Success([]), ks;
    }
    var saved;
    saved, ks := SampleFrames(video.frames, vision, cfg, fps);
    return Success(saved), ks;
  }

  // ---------------------------------------------------------------------
  // What the retention chain determines

  /** Two retention chains of the same video agree at every position both have. */
  lemma {:induction false} ChainsAgreeAt<F, S>(vision: Vision<F, S>, cfg: SamplerConfig, frames: seq<F>,
                                              ks1: seq<nat>, ks2: seq<nat>, j: nat)
    requires RetentionChain(vision, cfg, frames, ks1) && RetentionChain(vision, cfg, frames, ks2)
    requires j < |ks1| && j < |ks2|
    ensures ks1[j] == ks2[j]
  {
    if j > 0 {
      ChainsAgreeAt(vision, cfg, frames, ks1, ks2, j - 1);
      var p := ks1[j - 1];
      assert Differs(vision, cfg.ssimThreshold, frames, ks1[j], p);
      assert Differs(vision, cfg.ssimThreshold, frames, ks2[j], p);
    }
  }

  /** A retention chain cannot stop short of another one of the same video. */
  lemma ChainNotShorter<F, S>(vision: Vision<F, S>, cfg: SamplerConfig, frames: seq<F>, ks1: seq<nat>, ks2: seq<nat>)
    requires RetentionChain(vision, cfg, frames, ks1) && RetentionChain(vision, cfg, frames, ks2)
    ensures |ks1| >= |ks2|
  {
    if |ks1| < |ks2| {
      ChainsAgreeAt(vision, cfg, frames, ks1, ks2, |ks1| - 1);
      ChainStep(vision, cfg, frames, ks2, |ks1|);
    }
  }

  /** What a chain says about one kept frame after the first. */
  lemma ChainStep<F, S>(vision: Vision<F, S>, cfg: SamplerConfig, frames: seq<F>, ks: seq<nat>, m: nat)
    requires RetentionChain(vision, cfg, frames, ks) && 0 < m < |ks|
    ensures ks[m - 1] < ks[m] < |frames| && IsCandidate(ks[m], cfg.sampleRate)
    ensures Differs(vision, cfg.ssimThreshold, frames, ks[m], ks[m - 1])
  {
  }

  /**
   * The retention chain is a complete specification: a video, a vision and a
   * configuration admit exactly one chain, so the frames the loop keeps are
   * determined by the inputs.
   */
  lemma ChainUnique<F, S>(vision: Vision<F, S>, cfg: SamplerConfig, frames: seq<F>, ks1: seq<nat>, ks2: seq<nat>)
    requires RetentionChain(vision, cfg, frames, ks1) && RetentionChain(vision, cfg, frames, ks2)
    ensures ks1 == ks2
  {
    ChainNotShorter(vision, cfg, frames, ks1, ks2);
    ChainNotShorter(vision, cfg, frames, ks2, ks1);
    forall j | 0 <= j < |ks1|
      ensures ks1[j] == ks2[j]
    {
      ChainsAgreeAt(vision, cfg, frames, ks1, ks2, j);
    }
  }

  /** Every pair of kept frames, not only neighbours, is in index order. */
  lemma {:induction false} ChainIncreasing(sampleRate: int, n: nat, ks: seq<nat>, i: nat, j: nat)
    requires CandidatesInOrder(sampleRate, n, ks)
    requires i < j < |ks|
    ensures ks[i] < ks[j]
    decreases j - i
  {
    if i + 1 < j {
      ChainIncreasing(sampleRate, n, ks, i + 1, j);
    }
  }

  /** The timestamps in the returned list never go backwards. */
  lemma {:induction false} TimestampsNondecreasing<F, S>(vision: Vision<F, S>, cfg: SamplerConfig, frames: seq<F>, ks: seq<nat>, fps: real)
    requires fps > 0.0 && RetentionChain(vision, cfg, frames, ks)
    ensures forall i, j | 0 <= i < j < |ks| :: Entries(ks, fps)[i].timestamp <= Entries(ks, fps)[j].timestamp
  {
    EntriesAt(ks, fps);
    forall i, j | 0 <= i < j < |ks|
      ensures Entries(ks, fps)[i].timestamp <= Entries(ks, fps)[j].timestamp
    {
      ChainIncreasing(cfg.sampleRate, |frames|, ks, i, j);
      TimestampMonotone(ks[i], ks[j], fps);
    }
  }

  /**
   * When every comparison between two frames of the video scores at least the
   * threshold (a static shot), the first frame is the only one kept.
   */
  lemma StaticVideoKeepsOne<F, S>(vision: Vision<F, S>, cfg: SamplerConfig, frames: seq<F>, ks: seq<nat>)
    requires RetentionChain(vision, cfg, frames, ks) && |frames| > 0
    requires forall a, b | 0 <= a < |frames| && 0 <= b < |frames| :: !Differs(vision, cfg.ssimThreshold, frames, a, b)
    ensures ks == [0]
  {
    if |ks| > 1 {
      ChainStep(vision, cfg, frames, ks, 1);
    }
  }

  /** What a chain that stopped short of its budget says about a later candidate. */
  lemma ChainTail<F, S>(vision: Vision<F, S>, cfg: SamplerConfig, frames: seq<F>, ks: seq<nat>, k: nat)
    requires RetentionChain(vision, cfg, frames, ks) && 0 < |ks| < Budget(cfg.maxFrames)
    requires ks[|ks| - 1] < k < |frames| && IsCandidate(k, cfg.sampleRate)
    ensures !Differs(vision, cfg.ssimThreshold, frames, k, ks[|ks| - 1])
  {
  }

  /** With every frame a candidate and no two frames alike, the j-th frame kept is frame j. */
  lemma {:induction false} DistinctKeptInOrder<F, S>(vision: Vision<F, S>, cfg: SamplerConfig, frames: seq<F>, ks: seq<nat>, j: nat)
    requires RetentionChain(vision, cfg, frames, ks) && cfg.sampleRate == 1
    requires forall a, b | 0 <= a < |frames| && 0 <= b < |frames| && a != b :: Differs(vision, cfg.ssimThreshold, frames, a, b)
    requires j < |ks|
    ensures ks[j] == j
  {
    if j > 0 {
      DistinctKeptInOrder(vision, cfg, frames, ks, j - 1);
      ChainStep(vision, cfg, frames, ks, j);
      assert IsCandidate(j, cfg.sampleRate);
    }
  }

  /**
   * With a stride of one and no two frames alike, every frame is kept until
   * the budget runs out: the kept indices are 0, 1, 2, ... up to the smaller
   * of the budget and the number of frames.
   */
  lemma DistinctFramesAllKept<F, S>(vision: Vision<F, S>, cfg: SamplerConfig, frames: seq<F>, ks: seq<nat>)
    requires RetentionChain(vision, cfg, frames, ks) && cfg.sampleRate == 1
    requires forall a, b | 0 <= a < |frames| && 0 <= b < |frames| && a != b :: Differs(vision, cfg.ssimThreshold, frames, a, b)
    ensures |ks| == if Budget(cfg.maxFrames) < |frames| then Budget(cfg.maxFrames) else |frames|
    ensures forall j | 0 <= j < |ks| :: ks[j] == j
  {
    forall j | 0 <= j < |ks|
      ensures ks[j] == j
    {
      DistinctKeptInOrder(vision, cfg, frames, ks, j);
    }
    if |ks| > 0 {
      var m := |ks|;
      assert ks[m - 1] == m - 1;
      if m < Budget(cfg.maxFrames) && m < |frames| {
        ChainTail(vision, cfg, frames, ks, m);
      }
    }
  }

  // ---------------------------------------------------------------------
  // The threshold is not monotone

  /** Frame 1 scores 0.5 against frame 0, anything scores 0.9 against frame 1, and 0.1 otherwise. */
  function TableSimilarity(a: int, b: int): Option<real>
  {
    Some(if a == 1 && b == 0 then 0.5 else if b == 1 then 0.9 else 0.1)
  }

  function Identity(x: int): int { x }

  /** Frames that are their own signatures, compared by TableSimilarity. */
  function TableVision(): Vision<int, int>
  {
    Vision(Identity, TableSimilarity)
  }

  /**
   * Raising the threshold can shrink the result: on the frames 0, 1, 2, 3
   * with TableVision, a threshold of 0.4 keeps three frames (0, 2, 3) ...
   */
  lemma ThresholdLowKeepsThree()
    ensures RetentionChain(TableVision(), SamplerConfig(1, 0.4, 10), [0, 1, 2, 3], [0, 2, 3])
  {
    var v, cfg, frames, ks := TableVision(), SamplerConfig(1, 0.4, 10), [0, 1, 2, 3], [0, 2, 3];
    assert !Differs(v, 0.4, frames, 1, 0);
    assert Differs(v, 0.4, frames, 2, 0) && Differs(v, 0.4, frames, 3, 2);
    assert CandidatesInOrder(1, 4, ks);
    assert EachDiffersFromPrevious(v, 0.4, frames, ks);
    forall j, k | 0 <= j < |ks| - 1 && ks[j] < k < ks[j + 1] && IsCandidate(k, cfg.sampleRate)
      ensures !Differs(v, cfg.ssimThreshold, frames, k, ks[j])
    {
      assert j == 0 && k == 1;
    }
    assert SkippedAfterAreSimilar(v, cfg, frames, ks, 4);
  }

  /**
   * ... and a threshold of 0.6 keeps two (0, 1), because keeping frame 1
   * changes what every later frame is compared against. By ChainUnique these
   * are the only outcomes, so a stricter sameness test does not always keep
   * at least as many frames.
   */
  lemma ThresholdHighKeepsTwo()
    ensures RetentionChain(TableVision(), SamplerConfig(1, 0.6, 10), [0, 1, 2, 3], [0, 1])
  {
    var v, cfg, frames, ks := TableVision(), SamplerConfig(1, 0.6, 10), [0, 1, 2, 3], [0, 1];
    assert Differs(v, 0.6, frames, 1, 0);
    assert !Differs(v, 0.6, frames, 2, 1) && !Differs(v, 0.6, frames, 3, 1);
    assert CandidatesInOrder(1, 4, ks);
    assert EachDiffersFromPrevious(v, 0.6, frames, ks);
    assert SkippedBetweenAreSimilar(v, cfg, frames, ks);
    forall k | ks[|ks| - 1] < k < 4 && IsCandidate(k, cfg.sampleRate)
      ensures !Differs(v, cfg.ssimThreshold, frames, k, ks[|ks| - 1])
    {
      assert k == 2 || k == 3;
    }
  }
}
