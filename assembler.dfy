/**
 * The PDF assembly stage (`convert_frames_to_pdf`, app.py lines 131-154):
 * the image files of the frames directory, in sorted name order, each on a
 * page of its own with a clock label whose colour depends on how dark the
 * top-left corner of the frame is.
 */
module Assembler {
  import opened Wrappers
  import opened Text

  // ---------------------------------------------------------------------
  // The document being written (the FPDF object)

  /** A grey level, as PIL's `getpixel` returns it for an `L` image. */
  type Luma = x: int | 0 <= x <= 255

  datatype Rgb = Rgb(r: int, g: int, b: int)

  const White := Rgb(255, 255, 255)
  const Yellow := Rgb(255, 255, 0)
  const Black := Rgb(0, 0, 0)

  /** A text cell: its text, the colour, the cursor position and the font size it was written with. */
  datatype Label = Label(text: string, colour: Rgb, x: int, y: int, fontSize: nat)

  /** One page: the images drawn full-page on it, then the text cells written on it. */
  datatype Page = Page(images: seq<string>, labels: seq<Label>)

  /**
   * The part of an FPDF document the stage uses: the pages added so far and
   * the text state (colour, cursor, font size) the next cell is written with.
   */
  class Document {
    var pages: seq<Page>
    var textColour: Rgb
    var x: int
    var y: int
    var fontSize: nat

    /** A new document has no pages and writes black text. */
    constructor ()
      ensures pages == [] && textColour == Black
    {
      pages := [];
      textColour := Black;
      x := 0;
      y := 0;
      fontSize := 12;
    }

    /** `add_page`: a blank page at the end, which becomes the current page (where it puts the cursor is not modelled). */
    method AddPage()
      modifies this
      ensures pages == old(pages) + [Page([], [])]
      ensures textColour == old(textColour) && fontSize == old(fontSize)
    {
      pages := pages + [Page([], [])];
    }

    /** `image`: the picture at path drawn over the whole current page. */
    method Image(path: string)
      requires pages != []
      modifies this
      ensures pages == WithImage(old(pages), path)
      ensures textColour == old(textColour) && x == old(x) && y == old(y) && fontSize == old(fontSize)
    {
      pages := WithImage(pages, path);
    }

    /** `set_text_color`: the colour later cells are written in. */
    method SetTextColor(c: Rgb)
      modifies this
      ensures textColour == c
      ensures pages == old(pages) && x == old(x) && y == old(y) && fontSize == old(fontSize)
    {
      textColour := c;
    }

    /** `set_xy`: where the next cell is written. */
    method SetXY(newX: int, newY: int)
      modifies this
      ensures x == newX && y == newY
      ensures pages == old(pages) && textColour == old(textColour) && fontSize == old(fontSize)
    {
      x := newX;
      y := newY;
    }

    /** `set_font`: the font size of later cells (the face is not modelled). */
    method SetFont(size: nat)
      modifies this
      ensures fontSize == size
      ensures pages == old(pages) && textColour == old(textColour) && x == old(x) && y == old(y)
    {
      fontSize := size;
    }

    /** `cell`: text written on the current page with the current colour, cursor and font size (where it then puts the cursor is not modelled). */
    method Cell(text: string)
      requires pages != []
      modifies this
      ensures pages == WithLabel(old(pages), Label(text, textColour, old(x), old(y), fontSize))
      ensures textColour == old(textColour) && fontSize == old(fontSize)
    {
      pages := WithLabel(pages, Label(text, textColour, x, y, fontSize));
    }
  }

  /** The pages with one more image on the last of them; the others are untouched. */
  function WithImage(pages: seq<Page>, path: string): (r: seq<Page>)
    requires pages != []
    ensures |r| == |pages| && r[..|r| - 1] == pages[..|pages| - 1]
    ensures r[|r| - 1].images == pages[|pages| - 1].images + [path]
    ensures r[|r| - 1].labels == pages[|pages| - 1].labels
  {
    var last := pages[|pages| - 1];
    pages[..|pages| - 1] + [last.(images := last.images + [path])]
  }

  /** The pages with one more text cell on the last of them; the others are untouched. */
  function WithLabel(pages: seq<Page>, cell: Label): (r: seq<Page>)
    requires pages != []
    ensures |r| == |pages| && r[..|r| - 1] == pages[..|pages| - 1]
    ensures r[|r| - 1].images == pages[|pages| - 1].images
    ensures r[|r| - 1].labels == pages[|pages| - 1].labels + [cell]
  {
    var last := pages[|pages| - 1];
    pages[..|pages| - 1] + [last.(labels := last.labels + [cell])]
  }

  // ---------------------------------------------------------------------
  // Which files are frames

  /** A name whose lower-cased form ends in `.png`, `.jpg` or `.jpeg`. */
  predicate IsImageName(f: string)
  {
    EndsWith(Lower(f), ".png") || EndsWith(Lower(f), ".jpg") || EndsWith(Lower(f), ".jpeg")
  }

  /** The directory entries kept by the list comprehension: exactly the image names, each as often as listed. */
  function ImageFiles(listing: seq<string>): (r: seq<string>)
    ensures forall f :: multiset(r)[f] == if IsImageName(f) then multiset(listing)[f] else 0
    ensures forall k | 0 <= k < |r| :: IsImageName(r[k])
  {
    if listing == [] then []
    else
      assert listing == [listing[0]] + listing[1..];
      (if IsImageName(listing[0]) then [listing[0]] else []) + ImageFiles(listing[1..])
  }

  // ---------------------------------------------------------------------
  // The clock label

  /** `f"{n:02d}"`: at least two digits. */
  function TwoDigits(n: nat): string
  {
    ZeroPad(Decimal(n), 2)
  }

  /** `f"{s//3600:02d}:{(s%3600)//60:02d}:{s%60:02d}"`. */
  function FormatHMS(s: nat): string
  {
    TwoDigits(s / 3600) + ":" + TwoDigits((s % 3600) / 60) + ":" + TwoDigits(s % 60)
  }

  /** Text of the form `H:MM:SS`, where H has at least two digits. */
  predicate IsClock(t: string)
  {
    && |t| >= 8
    && t[|t| - 6] == ':' && t[|t| - 3] == ':'
    && IsDigits(t[..|t| - 6]) && IsDigits(t[|t| - 5..|t| - 3]) && IsDigits(t[|t| - 2..])
  }

  function ClockHours(t: string): nat
    requires IsClock(t)
  {
    DigitsValue(t[..|t| - 6])
  }

  function ClockMinutes(t: string): nat
    requires IsClock(t)
  {
    DigitsValue(t[|t| - 5..|t| - 3])
  }

  function ClockSecondsField(t: string): nat
    requires IsClock(t)
  {
    DigitsValue(t[|t| - 2..])
  }

  /** The number of seconds a clock text denotes. */
  function ClockValue(t: string): nat
    requires IsClock(t)
  {
    3600 * ClockHours(t) + 60 * ClockMinutes(t) + ClockSecondsField(t)
  }

  lemma TwoDigitsOfAny(n: nat)
    ensures |TwoDigits(n)| >= 2 && IsDigits(TwoDigits(n)) && DigitsValue(TwoDigits(n)) == n
    ensures |TwoDigits(n)| == 2 <==> n < 100
  {
    DecimalLength(n, 2);
    ZeroPadShape(Decimal(n), 2);
    PaddedValue(n, 2);
  }

  lemma SplitSeconds(s: nat)
    ensures 3600 * (s / 3600) + 60 * ((s % 3600) / 60) + s % 60 == s
    ensures (s % 3600) / 60 < 60
  {
    var h, r := s / 3600, s % 3600;
    var m, q := r / 60, r % 60;
    assert s == 3600 * h + r && 0 <= r < 3600;
    assert r == 60 * m + q && 0 <= q < 60;
    assert m < 60;
    ModOfMultiplePlus(60 * h + m, q);
    assert s == 60 * (60 * h + m) + q;
  }

  lemma ModOfMultiplePlus(a: nat, q: nat)
    requires q < 60
    ensures (60 * a + q) % 60 == q
  {
  }

  /**
   * The label is a clock text that reads back as the number of seconds it
   * was made from, with minutes and seconds below 60; it is exactly eight
   * characters long when the time is under a hundred hours.
   */
  lemma FormatHMSRoundTrip(s: nat)
    ensures IsClock(FormatHMS(s))
    ensures ClockValue(FormatHMS(s)) == s
    ensures ClockMinutes(FormatHMS(s)) < 60 && ClockSecondsField(FormatHMS(s)) < 60
    ensures |FormatHMS(s)| == 8 <==> s < 360000
  {
    SplitSeconds(s);
    var h, m, c := TwoDigits(s / 3600), TwoDigits((s % 3600) / 60), TwoDigits(s % 60);
    TwoDigitsOfAny(s / 3600);
    TwoDigitsOfAny((s % 3600) / 60);
    TwoDigitsOfAny(s % 60);
    var t := FormatHMS(s);
    assert t == h + ":" + m + ":" + c;
    assert t[..|t| - 6] == h;
    assert t[|t| - 5..|t| - 3] == m;
    assert t[|t| - 2..] == c;
  }

  lemma FormatHMSExamples()
    ensures FormatHMS(3725) == "01:02:05"
    ensures FormatHMS(0) == "00:00:00"
  {
    assert Decimal(1) == "1" && Decimal(2) == "2" && Decimal(5) == "5" && Decimal(0) == "0";
    assert Zeros(1) == "0";
  }

  // ---------------------------------------------------------------------
  // Reading the seconds back from a file name with the intended pattern
  // `_(\d+)s`. Line 142 writes the raw string `r"_(\\d+)s"`, which is
  // modelled further down as `LabelSecondsAsWritten`.

  /** The end of the run of digits that starts at j. */
  function DigitRunEnd(s: string, j: nat): (e: nat)
    requires j <= |s|
    ensures j <= e <= |s|
    ensures forall k | j <= k < e :: IsDigit(s[k])
    ensures e < |s| ==> !IsDigit(s[e])
    decreases |s| - j
  {
    if j < |s| && IsDigit(s[j]) then DigitRunEnd(s, j + 1) else j
  }

  /**
   * The pattern `_\d+s` matches at i: an underscore, then a non-empty run of
   * digits, then `s`. The greedy `\d+` cannot give back a digit to make room
   * for the `s`, so only the whole run counts.
   */
  predicate MatchAt(s: string, i: nat)
  {
    && i < |s| && s[i] == '_'
    && var e := DigitRunEnd(s, i + 1);
       e > i + 1 && e < |s| && s[e] == 's'
  }

  /** `re.search` from position i: the leftmost position where the pattern matches. */
  function FirstMatch(s: string, i: nat): (r: Option<nat>)
    requires i <= |s|
    ensures r.Some? ==> i <= r.value < |s| && MatchAt(s, r.value)
    ensures r.Some? ==> forall k | i <= k < r.value :: !MatchAt(s, k)
    ensures r.None? ==> forall k | i <= k < |s| :: !MatchAt(s, k)
    decreases |s| - i
  {
    if i == |s| then None
    else if MatchAt(s, i) then Some(i)
    else FirstMatch(s, i + 1)
  }

  /** `m.group(1)`: the digits of the match at i. */
  function Group(s: string, i: nat): (g: string)
    requires MatchAt(s, i)
    ensures IsDigits(g) && |g| >= 1
  {
    s[i + 1..DigitRunEnd(s, i + 1)]
  }

  /**
   * `int(m.group(1)) if m else 0`: the digits after the first underscore
   * that is followed by digits and then `s`, or 0 when no underscore is.
   */
  function LabelSeconds(fname: string): (seconds: nat)
    ensures FirstMatch(fname, 0).None? ==> seconds == 0
    ensures FirstMatch(fname, 0).Some? ==> seconds == DigitsValue(Group(fname, FirstMatch(fname, 0).value))
  {
    match FirstMatch(fname, 0)
    case None => 0
    case Some(i) => DigitsValue(Group(fname, i))
  }

  // ---------------------------------------------------------------------
  // The pattern as written: `r"_(\\d+)s"`

  /** `int()` of the group fails: the group of the as-written pattern starts with a backslash. */
  datatype ConversionError = ValueError

  /** The end of the run of `d` characters that starts at j. */
  function LetterDRunEnd(s: string, j: nat): (e: nat)
    requires j <= |s|
    ensures j <= e <= |s|
    ensures forall k | j <= k < e :: s[k] == 'd'
    ensures e < |s| ==> s[e] != 'd'
    decreases |s| - j
  {
    if j < |s| && s[j] == 'd' then LetterDRunEnd(s, j + 1) else j
  }

  /**
   * In a raw string `\\` is an escaped backslash, so the pattern as written
   * matches an underscore, a backslash, a run of the letter `d`, then `s`.
   */
  predicate MatchAtAsWritten(s: string, i: nat)
  {
    && i + 1 < |s| && s[i] == '_' && s[i + 1] == '\\'
    && var e := LetterDRunEnd(s, i + 2);
       e > i + 2 && e < |s| && s[e] == 's'
  }

  function AnyMatchAsWritten(s: string, i: nat): (b: bool)
    requires i <= |s|
    ensures b <==> exists k | i <= k < |s| :: MatchAtAsWritten(s, k)
    decreases |s| - i
  {
    if i == |s| then false else MatchAtAsWritten(s, i) || AnyMatchAsWritten(s, i + 1)
  }

  /**
   * Line 143 with the pattern as written: 0 when the pattern does not match,
   * and a `ValueError` from `int` when it does, since the group then starts
   * with a backslash.
   */
  function LabelSecondsAsWritten(fname: string): (r: Result<nat, ConversionError>)
    ensures r == Success(0) <==> forall k | 0 <= k < |fname| :: !MatchAtAsWritten(fname, k)
    ensures r.Failure? <==> exists k | 0 <= k < |fname| :: MatchAtAsWritten(fname, k)
  {
    if AnyMatchAsWritten(fname, 0) then Failure(ValueError) else Success(0)
  }

  /** A name without a backslash always gets 0 seconds from the pattern as written. */
  lemma AsWrittenIgnoresPlainNames(fname: string)
    requires forall k | 0 <= k < |fname| :: fname[k] != '\\'
    ensures LabelSecondsAsWritten(fname) == Success(0)
  {
  }

  /** The pattern as written does match a name with a backslash, and `int` then fails. */
  lemma AsWrittenFailsOnBackslash()
    ensures LabelSecondsAsWritten("a_\\ds.png") == Failure(ValueError)
  {
    var s := "a_\\ds.png";
    assert LetterDRunEnd(s, 4) == 4;
    assert LetterDRunEnd(s, 3) == 4;
    assert MatchAtAsWritten(s, 1);
  }

  // ---------------------------------------------------------------------
  // The label colour

  /**
   * `set_text_color(255, 255, 255 if mean < 64 else 0)`: the conditional
   * only chooses the blue component, so a dark corner gives white text and
   * any other corner gives yellow (never black).
   */
  function LabelColour(mean: Luma): (c: Rgb)
    ensures c == White <==> mean < 64
    ensures c != White ==> c == Yellow
    ensures c != Black
  {
    Rgb(255, 255, if mean < 64 then 255 else 0)
  }

  // ---------------------------------------------------------------------
  // The stage

  /**
   * How the stage reads the seconds of a label from a file name (lines
   * 142-143): `LabelSecondsAsWritten` is what the program does, and
   * `IntendedSeconds` what the pattern `_(\d+)s` would do.
   */
  type SecondsReader = string -> Result<nat, ConversionError>

  /** The reader with the intended pattern: it never fails. */
  function IntendedSeconds(fname: string): Result<nat, ConversionError>
  {
    Success(LabelSeconds(fname))
  }

  /** "No frames found.", and the `ValueError` that `int` raises at line 143. */
  datatype AssemblerError = NoFramesFound | BadSeconds(cause: ConversionError)

  /** The page one frame file gets: the file drawn full-page, then the clock label of its seconds at (5, 5) in size 12. */
  function FramePage(fname: string, seconds: nat, mean: Luma): Page
  {
    Page([fname], [Label(FormatHMS(seconds), LabelColour(mean), 5, 5, 12)])
  }

  /** Every file's seconds can be read. */
  predicate AllReadable(files: seq<string>, read: SecondsReader)
  {
    forall k | 0 <= k < |files| :: read(files[k]).Success?
  }

  /** The pages for a list of files whose seconds can all be read, one per file in the same order. */
  function PagesFor(files: seq<string>, read: SecondsReader, cornerMean: string -> Luma): (ps: seq<Page>)
    requires AllReadable(files, read)
    ensures |ps| == |files|
  {
    if files == [] then []
    else
      var f := files[|files| - 1];
      PagesFor(files[..|files| - 1], read, cornerMean) + [FramePage(f, read(f).value, cornerMean(f))]
  }

  /** Page k shows file k and only it, labelled with the seconds read from its name. */
  lemma {:induction false} PagesForAt(files: seq<string>, read: SecondsReader, cornerMean: string -> Luma, k: nat)
    requires AllReadable(files, read) && k < |files|
    ensures PagesFor(files, read, cornerMean)[k] == FramePage(files[k], read(files[k]).value, cornerMean(files[k]))
    decreases |files|
  {
    if k < |files| - 1 {
      PagesForAt(files[..|files| - 1], read, cornerMean, k);
    }
  }

  /**
   * The body of the loop over the files (lines 138-152): a page with the
   * image is added, then the seconds are read from the name; when that
   * fails the body stops there, and otherwise the page gets its label. ok
   * says whether the seconds could be read.
   */
  method AddFramePage(pdf: Document, fname: string, read: SecondsReader, mean: Luma) returns (ok: bool)
    modifies pdf
    ensures ok <==> read(fname).Success?
    ensures ok ==> pdf.pages == old(pdf.pages) + [FramePage(fname, read(fname).value, mean)]
    ensures !ok ==> pdf.pages == old(pdf.pages) + [Page([fname], [])]
  {
    ghost var before := pdf.pages;
    pdf.AddPage();
    assert (before + [Page([], [])])[..|before|] == before;
    pdf.Image(fname);
    assert pdf.pages[|before|] == Page([fname], []);
    assert pdf.pages == pdf.pages[..|before|] + [pdf.pages[|before|]];
    var m := read(fname);
    if m.Failure? {
      return false;
    }
    var seconds := m.value;
    var ts := FormatHMS(seconds);
    pdf.SetTextColor(LabelColour(mean));
    pdf.SetXY(5, 5);
    pdf.SetFont(12);
    pdf.Cell(ts);
    assert pdf.pages[|before|] == FramePage(fname, seconds, mean);
    assert pdf.pages == pdf.pages[..|before|] + [pdf.pages[|before|]];
    return true;
  }

  /** One more readable file, one more page at the end. */
  lemma PagesForExtend(files: seq<string>, read: SecondsReader, cornerMean: string -> Luma, i: nat)
    requires i < |files| && AllReadable(files[..i], read) && read(files[i]).Success?
    ensures AllReadable(files[..i + 1], read)
    ensures PagesFor(files[..i + 1], read, cornerMean) ==
      PagesFor(files[..i], read, cornerMean) + [FramePage(files[i], read(files[i]).value, cornerMean(files[i]))]
  {
    assert files[..i + 1][..i] == files[..i];
    assert forall k | 0 <= k < i :: files[..i + 1][k] == files[..i][k];
    assert files[..i + 1][i] == files[i];
  }

  /** A name is in the sorted file list exactly when it is an image name of the listing. */
  lemma InFilesIff(listing: seq<string>, f: string)
    ensures f in SortNames(ImageFiles(listing)) <==> f in listing && IsImageName(f)
  {
    var files := SortNames(ImageFiles(listing));
    assert f in files <==> multiset(files)[f] > 0;
    assert f in listing <==> multiset(listing)[f] > 0;
  }

  /** The sorted file list is empty exactly when no entry of the listing is an image name. */
  lemma {:induction false} NoFilesIff(listing: seq<string>)
    ensures SortNames(ImageFiles(listing)) == [] <==> forall f | f in listing :: !IsImageName(f)
  {
    var files := SortNames(ImageFiles(listing));
    if files == [] {
      forall f | f in listing ensures !IsImageName(f) {
        assert multiset(files)[f] == 0;
      }
    } else {
      assert files[0] in multiset(files);
    }
  }

  /** The seconds of every file can be read exactly when those of every image name of the listing can. */
  lemma {:induction false} AllReadableIff(listing: seq<string>, read: SecondsReader)
    ensures AllReadable(SortNames(ImageFiles(listing)), read) <==>
      forall f | f in listing && IsImageName(f) :: read(f).Success?
  {
    var files := SortNames(ImageFiles(listing));
    if AllReadable(files, read) {
      forall f | f in listing && IsImageName(f) ensures read(f).Success? {
        InFilesIff(listing, f);
        var k :| 0 <= k < |files| && files[k] == f;
      }
    } else {
      var k :| 0 <= k < |files| && read(files[k]).Failure?;
      InFilesIff(listing, files[k]);
    }
  }

  /**
   * Lines 135-152: a new document, then one page per file in order. It
   * stops with the error of `int` at the first file whose seconds cannot be
   * read, and otherwise yields the pages.
   */
  method RenderPages(files: seq<string>, read: SecondsReader, cornerMean: string -> Luma)
    returns (r: Result<seq<Page>, AssemblerError>)
    ensures r.Failure? <==> !AllReadable(files, read)
    ensures r.Failure? ==> r.error == BadSeconds(ValueError)
    ensures r.Success? ==> AllReadable(files, read) && r.value == PagesFor(files, read, cornerMean)
  {
    var pdf := new Document();
    var i := 0;
    while i < |files|
      invariant 0 <= i <= |files|
      invariant AllReadable(files[..i], read)
      invariant pdf.pages == PagesFor(files[..i], read, cornerMean)
    {
      var ok := AddFramePage(pdf, files[i], read, cornerMean(files[i]));
      if !ok {
        assert !AllReadable(files, read) by {
          assert read(files[i]).Failure?;
        }
        return Failure(BadSeconds(ValueError));
      }
      PagesForExtend(files, read, cornerMean, i);
      i := i + 1;
    }
    assert files[..|files|] == files;
    return Success(pdf.pages);
  }

  /**
   * `convert_frames_to_pdf` with the seconds read by `read`: the image files
   * of the listing in sorted order, one page each. It fails with "No frames
   * found." when there are none, and with the error of `int` when the
   * seconds of one of them cannot be read; the document is then never
   * written. `cornerMean` stands for the grey level PIL computes from the
   * file's top-left corner.
   */
  method ConvertFramesToPdf(listing: seq<string>, read: SecondsReader, cornerMean: string -> Luma)
    returns (r: Result<seq<Page>, AssemblerError>)
    ensures r == Failure(NoFramesFound) <==> (forall f | f in listing :: !IsImageName(f))
    ensures r.Failure? && r.error.BadSeconds? <==>
      (exists f | f in listing :: IsImageName(f)) && !(forall f | f in listing && IsImageName(f) :: read(f).Success?)
    ensures r.Failure? && r.error.BadSeconds? ==> r.error.cause == ValueError
    ensures r.Success? ==> AllReadable(SortNames(ImageFiles(listing)), read)
    ensures r.Success? ==> r.value == PagesFor(SortNames(ImageFiles(listing)), read, cornerMean)
  {
    var files := SortNames(ImageFiles(listing));
    NoFilesIff(listing);
    AllReadableIff(listing, read);
    if |files| == 0 {
      return Failure(NoFramesFound);
    }
    assert files[0] in listing && IsImageName(files[0]) by {
      InFilesIff(listing, files[0]);
    }
    r := RenderPages(files, read, cornerMean);
  }

  /** With the pattern as written, some image name is unreadable exactly when one holds a match. */
  lemma AsWrittenUnreadableIff(listing: seq<string>)
    ensures !(forall f | f in listing && IsImageName(f) :: LabelSecondsAsWritten(f).Success?) <==>
      exists f | f in listing :: IsImageName(f) && exists k | 0 <= k < |f| :: MatchAtAsWritten(f, k)
  {
    forall f | f in listing && IsImageName(f)
      ensures LabelSecondsAsWritten(f).Failure? <==> exists k | 0 <= k < |f| :: MatchAtAsWritten(f, k)
    {
    }
  }

  /**
   * The stage as the program runs it, with the pattern as written: it fails
   * when an image name holds `_\`, then a run of `d`, then `s`; otherwise
   * every page is labelled `00:00:00`.
   */
  method ConvertFramesToPdfAsWritten(listing: seq<string>, cornerMean: string -> Luma)
    returns (r: Result<seq<Page>, AssemblerError>)
    ensures r == Failure(NoFramesFound) <==> (forall f | f in listing :: !IsImageName(f))
    ensures r == Failure(BadSeconds(ValueError)) <==>
      exists f | f in listing :: IsImageName(f) && exists k | 0 <= k < |f| :: MatchAtAsWritten(f, k)
    ensures r.Success? ==> |r.value| == |SortNames(ImageFiles(listing))|
    ensures r.Success? ==> forall k | 0 <= k < |r.value| ::
      r.value[k].labels == [Label("00:00:00", LabelColour(cornerMean(SortNames(ImageFiles(listing))[k])), 5, 5, 12)]
  {
    r := ConvertFramesToPdf(listing, LabelSecondsAsWritten, cornerMean);
    AsWrittenUnreadableIff(listing);
    if r.Success? {
      var files := SortNames(ImageFiles(listing));
      FormatHMSExamples();
      forall k | 0 <= k < |r.value|
        ensures r.value[k].labels == [Label("00:00:00", LabelColour(cornerMean(files[k])), 5, 5, 12)]
      {
        PagesForAt(files, LabelSecondsAsWritten, cornerMean, k);
        assert LabelSecondsAsWritten(files[k]) == Success(0);
      }
    }
  }

  /**
   * The stage with the intended pattern: it fails only when there is no
   * image file, and page k shows file k under the clock text of the seconds
   * in its name.
   */
  method ConvertFramesToPdfIntended(listing: seq<string>, cornerMean: string -> Luma)
    returns (r: Result<seq<Page>, AssemblerError>)
    ensures r.Failure? <==> (forall f | f in listing :: !IsImageName(f))
    ensures r.Failure? ==> r.error == NoFramesFound
    ensures r.Success? ==> |r.value| == |SortNames(ImageFiles(listing))|
    ensures r.Success? ==> forall k | 0 <= k < |r.value| ::
      r.value[k] == FramePage(SortNames(ImageFiles(listing))[k], LabelSeconds(SortNames(ImageFiles(listing))[k]),
                              cornerMean(SortNames(ImageFiles(listing))[k]))
  {
    r := ConvertFramesToPdf(listing, IntendedSeconds, cornerMean);
    if r.Success? {
      var files := SortNames(ImageFiles(listing));
      forall k | 0 <= k < |r.value|
        ensures r.value[k] == FramePage(files[k], LabelSeconds(files[k]), cornerMean(files[k]))
      {
        PagesForAt(files, IntendedSeconds, cornerMean, k);
      }
    }
  }
}
