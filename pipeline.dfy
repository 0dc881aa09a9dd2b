/**
 * How the two stages of `/process` fit together (app.py lines 192-198): the
 * frames `extract_unique_frames` writes are exactly the files
 * `convert_frames_to_pdf` reads back, so the file name is the only channel
 * from one to the other. These lemmas say what survives that channel: the
 * order of the pages and the time on each label.
 */
module Pipeline {
  import opened Wrappers
  import opened Text
  import opened Sampler
  import opened Assembler

  // ---------------------------------------------------------------------
  // The shape of a frame name

  /** The zero-padded index field of a frame name. */
  function IndexField(idx: nat): string
  {
    ZeroPad(Decimal(idx), 6)
  }

  /** `frame_<p>_<d>s.png`, for any two fields. */
  function Compose(p: string, d: string): string
  {
    "frame_" + p + "_" + d + "s.png"
  }

  lemma {:induction false} FrameNameIsComposed(idx: nat, ts: nat)
    ensures FrameName(idx, ts) == Compose(IndexField(idx), Decimal(ts))
    ensures |IndexField(idx)| >= 6 && IsDigits(IndexField(idx))
    ensures |Decimal(ts)| >= 1 && IsDigits(Decimal(ts)) && DigitsValue(Decimal(ts)) == ts
  {
    ZeroPadShape(Decimal(idx), 6);
    PaddedValue(idx, 6);
    DecimalIsNumeral(ts);
  }

  /** Where each part of `frame_<p>_<d>s.png` sits. */
  lemma ComposeLayout(p: string, d: string)
    ensures |Compose(p, d)| == 12 + |p| + |d|
    ensures forall k | 0 <= k < 5 :: Compose(p, d)[k] == "frame"[k]
    ensures Compose(p, d)[5] == '_'
    ensures forall k | 0 <= k < |p| :: Compose(p, d)[6 + k] == p[k]
    ensures Compose(p, d)[6 + |p|] == '_'
    ensures forall k | 0 <= k < |d| :: Compose(p, d)[7 + |p| + k] == d[k]
    ensures Compose(p, d)[7 + |p| + |d|..] == "s.png"
  {
  }

  /** Such a name passes the image-file filter (it ends in `.png`). */
  lemma ComposeIsImage(p: string, d: string)
    ensures IsImageName(Compose(p, d))
  {
    var n := Compose(p, d);
    var l := Lower(n);
    assert n == ("frame_" + p + "_" + d + "s") + ".png";
    assert l[|l| - 4..] == n[|n| - 4..];
  }

  /** Such a name, made of digit fields, holds no backslash. */
  lemma ComposeHasNoBackslash(p: string, d: string)
    requires IsDigits(p) && IsDigits(d)
    ensures forall k | 0 <= k < |Compose(p, d)| :: Compose(p, d)[k] != '\\'
  {
    ComposeLayout(p, d);
    var n := Compose(p, d);
    forall k | 0 <= k < |n| ensures n[k] != '\\' {
      if 6 <= k < 6 + |p| {
        assert n[k] == p[k - 6];
      } else if 7 + |p| <= k < 7 + |p| + |d| {
        assert n[k] == d[k - 7 - |p|];
      } else if 7 + |p| + |d| <= k {
        assert n[k] == "s.png"[k - 7 - |p| - |d|];
      }
    }
  }

  /** Every frame name passes the image-file filter. */
  lemma FrameNameIsImage(idx: nat, ts: nat)
    ensures IsImageName(FrameName(idx, ts))
  {
    FrameNameIsComposed(idx, ts);
    ComposeIsImage(IndexField(idx), Decimal(ts));
  }

  // ---------------------------------------------------------------------
  // The seconds survive the file name

  /** Up to the second underscore nothing matches: the digit run after the first one is followed by `_`, not `s`. */
  lemma NoMatchBeforeSeconds(p: string, d: string)
    requires IsDigits(p)
    ensures forall k | 0 <= k < 6 + |p| :: !MatchAt(Compose(p, d), k)
  {
    ComposeLayout(p, d);
    var n := Compose(p, d);
    forall k | 0 <= k < 6 + |p| ensures !MatchAt(n, k) {
      if k == 5 {
        assert DigitRunEnd(n, 6) == 6 + |p|;
      } else if 6 <= k {
        assert n[k] == p[k - 6];
      }
    }
  }

  /** After the second underscore come the digits of d and then `s`: the pattern matches there. */
  lemma MatchAtSeconds(p: string, d: string)
    requires IsDigits(d) && |d| >= 1
    ensures MatchAt(Compose(p, d), 6 + |p|)
    ensures Group(Compose(p, d), 6 + |p|) == d
  {
    ComposeLayout(p, d);
    var n := Compose(p, d);
    var i := 6 + |p|;
    assert n[i + 1 + |d|] == 's';
    assert DigitRunEnd(n, i + 1) == i + 1 + |d|;
    assert n[i + 1..i + 1 + |d|] == d;
  }

  /** The search finds the seconds field and nothing before it. */
  lemma {:induction false} ComposeSeconds(p: string, d: string)
    requires IsDigits(p) && IsDigits(d) && |d| >= 1
    ensures LabelSeconds(Compose(p, d)) == DigitsValue(d)
  {
    NoMatchBeforeSeconds(p, d);
    MatchAtSeconds(p, d);
  }

  /**
   * Reading a frame name back with the intended pattern gives the timestamp
   * it was written with: `extract_unique_frames` and `convert_frames_to_pdf`
   * agree on the seconds.
   */
  lemma FrameNameSeconds(idx: nat, ts: nat)
    ensures LabelSeconds(FrameName(idx, ts)) == ts
  {
    FrameNameIsComposed(idx, ts);
    ComposeSeconds(IndexField(idx), Decimal(ts));
  }

  /** With the pattern as written, every frame gets the label `00:00:00`. */
  lemma AsWrittenFrameLabel(idx: nat, ts: nat)
    ensures LabelSecondsAsWritten(FrameName(idx, ts)) == Success(0)
    ensures FormatHMS(0) == "00:00:00"
  {
    FrameNameIsComposed(idx, ts);
    ComposeHasNoBackslash(IndexField(idx), Decimal(ts));
    AsWrittenIgnoresPlainNames(FrameName(idx, ts));
    FormatHMSExamples();
  }

  /** The frame kept at index 93125 and second 3725: the pattern as written labels it 00:00:00, the intended one 01:02:05. */
  lemma AsWrittenLosesTime()
    ensures LabelSecondsAsWritten(FrameName(93125, 3725)) == Success(0)
    ensures FormatHMS(LabelSeconds(FrameName(93125, 3725))) == "01:02:05"
  {
    AsWrittenFrameLabel(93125, 3725);
    FrameNameSeconds(93125, 3725);
    FormatHMSExamples();
  }

  // ---------------------------------------------------------------------
  // The name order is the frame order, up to a million frames

  /** Below 10^6 the index field has six digits, so the names sort by index whatever their seconds. */
  lemma FrameNamesOrdered(i: nat, j: nat, ti: nat, tj: nat)
    requires i < j < Pow10(6)
    ensures LexLess(FrameName(i, ti), FrameName(j, tj))
  {
    PaddedOrder(i, j, 6);
    var pi, pj := IndexField(i), IndexField(j);
    var ri, rj := "_" + Decimal(ti) + "s.png", "_" + Decimal(tj) + "s.png";
    LexLessAppend(pi, pj, ri, rj);
    LexLessPrefix("frame_", pi + ri, pj + rj);
    assert FrameName(i, ti) == "frame_" + (pi + ri);
    assert FrameName(j, tj) == "frame_" + (pj + rj);
  }

  /** Names whose index fields differ in the first character sort by that character alone. */
  lemma ComposeOrderByFirstDigit(p: string, d: string, q: string, e: string)
    requires p != [] && q != [] && p[0] < q[0]
    ensures LexLess(Compose(p, d), Compose(q, e))
  {
    var x, y := p + ("_" + d + "s.png"), q + ("_" + e + "s.png");
    assert x[0] == p[0] && y[0] == q[0];
    LexLessPrefix("frame_", x, y);
    assert Compose(p, d) == "frame_" + x;
    assert Compose(q, e) == "frame_" + y;
  }

  /** The leading digit of n is that of n with its last digit dropped. */
  lemma {:induction false} DecimalHead(n: nat)
    requires n >= 10
    ensures Decimal(n)[0] == Decimal(n / 10)[0]
  {
  }

  lemma IndexFieldHeads()
    ensures IndexField(1000000)[0] == '1' && IndexField(999999)[0] == '9'
  {
    assert Pow10(6) == 1000000;
    DecimalLength(1000000, 6);
    DecimalLength(999999, 5);
    DecimalHead(1000000); DecimalHead(100000); DecimalHead(10000); DecimalHead(1000); DecimalHead(100); DecimalHead(10);
    DecimalHead(999999); DecimalHead(99999); DecimalHead(9999); DecimalHead(999); DecimalHead(99);
  }

  /** At 10^6 the index field grows to seven digits and the order breaks: frame 1000000 sorts before frame 999999. */
  lemma FrameNamesMisorderedAtAMillion()
    ensures LexLess(FrameName(1000000, 40000), FrameName(999999, 39999))
  {
    FrameNameIsComposed(1000000, 40000);
    FrameNameIsComposed(999999, 39999);
    IndexFieldHeads();
    ComposeOrderByFirstDigit(IndexField(1000000), Decimal(40000), IndexField(999999), Decimal(39999));
  }

  // ---------------------------------------------------------------------
  // End to end

  function Names(saved: seq<SavedFrame>): (names: seq<string>)
    ensures |names| == |saved|
    ensures forall k | 0 <= k < |saved| :: names[k] == saved[k].name
  {
    seq(|saved|, k requires 0 <= k < |saved| => saved[k].name)
  }

  /** The names of a retention chain's frames are in strictly increasing string order. */
  lemma {:induction false} NamesAscending<F, S>(vision: Vision<F, S>, cfg: SamplerConfig, frames: seq<F>, ks: seq<nat>, fps: real)
    requires fps > 0.0 && RetentionChain(vision, cfg, frames, ks)
    requires |frames| <= Pow10(6)
    ensures Sorted(Names(Entries(ks, fps)))
  {
    var names := Names(Entries(ks, fps));
    EntriesAt(ks, fps);
    forall a, b | 0 <= a < b < |names| ensures LexLeq(names[a], names[b]) {
      ChainIncreasing(cfg.sampleRate, |frames|, ks, a, b);
      FrameNamesOrdered(ks[a], ks[b], Timestamp(ks[a], fps), Timestamp(ks[b], fps));
    }
  }

  /** The filter keeps a listing of image names as it is. */
  lemma {:induction false} ImageFilesOfImages(listing: seq<string>)
    requires forall k | 0 <= k < |listing| :: IsImageName(listing[k])
    ensures ImageFiles(listing) == listing
  {
    if listing != [] {
      ImageFilesOfImages(listing[1..]);
    }
  }

  /**
   * When the frames directory holds exactly the files the sampler wrote and
   * the video has at most a million frames, `sorted` lists them in the order
   * they were kept.
   */
  lemma {:induction false} SortedFilesAreNames<F, S>(vision: Vision<F, S>, cfg: SamplerConfig, frames: seq<F>, ks: seq<nat>,
                                  fps: real, listing: seq<string>)
    requires fps > 0.0 && RetentionChain(vision, cfg, frames, ks)
    requires |frames| <= Pow10(6)
    requires multiset(listing) == multiset(Names(Entries(ks, fps)))
    ensures SortNames(ImageFiles(listing)) == Names(Entries(ks, fps))
  {
    var names := Names(Entries(ks, fps));
    EntriesAt(ks, fps);
    forall k | 0 <= k < |listing| ensures IsImageName(listing[k]) {
      assert listing[k] in multiset(names);
      var j :| 0 <= j < |names| && names[j] == listing[k];
      FrameNameIsImage(ks[j], Timestamp(ks[j], fps));
    }
    ImageFilesOfImages(listing);
    NamesAscending(vision, cfg, frames, ks, fps);
    SortedUnique(SortNames(listing), names);
  }

  /** The page a kept frame should get: its image, under a label showing its timestamp. */
  function ExpectedPage(e: SavedFrame, mean: Luma): Page
  {
    Page([e.name], [Label(FormatHMS(e.timestamp), LabelColour(mean), 5, 5, 12)])
  }

  /**
   * Under the same conditions, and with the intended pattern, the document
   * has one page per kept frame, in the order the frames were kept, each
   * showing that frame and labelled with the timestamp the sampler computed
   * for it.
   */
  lemma {:induction false} PagesFollowFrames<F, S>(vision: Vision<F, S>, cfg: SamplerConfig, frames: seq<F>, ks: seq<nat>,
                                fps: real, listing: seq<string>, cornerMean: string -> Luma)
    requires fps > 0.0 && RetentionChain(vision, cfg, frames, ks)
    requires |frames| <= Pow10(6)
    requires multiset(listing) == multiset(Names(Entries(ks, fps)))
    ensures AllReadable(SortNames(ImageFiles(listing)), IntendedSeconds)
    ensures |PagesFor(SortNames(ImageFiles(listing)), IntendedSeconds, cornerMean)| == |ks|
    ensures forall k | 0 <= k < |ks| ::
      PagesFor(SortNames(ImageFiles(listing)), IntendedSeconds, cornerMean)[k] ==
        ExpectedPage(Entries(ks, fps)[k], cornerMean(Entries(ks, fps)[k].name))
  {
    SortedFilesAreNames(vision, cfg, frames, ks, fps, listing);
    var saved := Entries(ks, fps);
    var names := Names(saved);
    EntriesAt(ks, fps);
    forall k | 0 <= k < |ks|
      ensures PagesFor(names, IntendedSeconds, cornerMean)[k] == ExpectedPage(saved[k], cornerMean(saved[k].name))
    {
      PagesForAt(names, IntendedSeconds, cornerMean, k);
      FrameNameSeconds(ks[k], Timestamp(ks[k], fps));
    }
  }

  /**
   * With the pattern as written the stage still succeeds on the sampler's
   * files, in the same order, but every page is labelled `00:00:00`.
   */
  lemma {:induction false} PagesAsWrittenShowMidnight<F, S>(vision: Vision<F, S>, cfg: SamplerConfig, frames: seq<F>, ks: seq<nat>,
                                fps: real, listing: seq<string>, cornerMean: string -> Luma)
    requires fps > 0.0 && RetentionChain(vision, cfg, frames, ks)
    requires |frames| <= Pow10(6)
    requires multiset(listing) == multiset(Names(Entries(ks, fps)))
    ensures AllReadable(SortNames(ImageFiles(listing)), LabelSecondsAsWritten)
    ensures |PagesFor(SortNames(ImageFiles(listing)), LabelSecondsAsWritten, cornerMean)| == |ks|
    ensures forall k | 0 <= k < |ks| ::
      PagesFor(SortNames(ImageFiles(listing)), LabelSecondsAsWritten, cornerMean)[k] ==
        Page([Entries(ks, fps)[k].name], [Label("00:00:00", LabelColour(cornerMean(Entries(ks, fps)[k].name)), 5, 5, 12)])
  {
    SortedFilesAreNames(vision, cfg, frames, ks, fps, listing);
    var saved := Entries(ks, fps);
    var names := Names(saved);
    EntriesAt(ks, fps);
    forall k | 0 <= k < |names|
      ensures LabelSecondsAsWritten(names[k]) == Success(0)
    {
      AsWrittenFrameLabel(ks[k], Timestamp(ks[k], fps));
    }
    forall k | 0 <= k < |ks|
      ensures PagesFor(names, LabelSecondsAsWritten, cornerMean)[k] ==
        Page([saved[k].name], [Label("00:00:00", LabelColour(cornerMean(saved[k].name)), 5, 5, 12)])
    {
      PagesForAt(names, LabelSecondsAsWritten, cornerMean, k);
      FormatHMSExamples();
    }
  }
}
