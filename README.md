# Video frames to PDF: the frame selection and page labelling core

This project models the part of the `video_to_pdf_render` Flask service that
makes decisions. The rest of the service downloads or decodes video and writes
files. The modelled part does three things:

- **Upload check** (`allowed_file`). An uploaded file's name must have a dot,
  and what follows its last dot, lower-cased, must be a known video container
  extension.
- **Frame sampler** (`extract_unique_frames`). It reads the frames of an open
  video in order and looks only at every `sample_rate`-th one (a candidate).
  It compares each candidate's signature with that of the last frame it kept.
  It keeps the candidate when nothing has been kept yet, or when the
  similarity score is below `ssim_threshold`. A score that cannot be
  computed counts as 0.0. It stops once `max_frames` frames are kept. Each
  kept frame is recorded as `frame_<index, 6-digit padded>_<seconds>s.png`
  together with its timestamp `int(index / fps)`. A reported frame rate of
  0 falls back to 25.
- **PDF assembler** (`convert_frames_to_pdf`). It takes the image files of
  the frames directory in sorted name order. It fails with "No frames found."
  when there are none. Otherwise each file gets a page of its own: the image
  drawn full-page, then an `HH:MM:SS` label. The label's time is read back
  from the file name by a regular expression. Its colour depends on how dark
  the top-left corner of the image is. The pattern at line 142 is the raw
  string `r"_(\\d+)s"`, which looks for a literal backslash. So, as written,
  every frame page is labelled `00:00:00`, and a name that does match makes
  `int` raise `ValueError`. The stage is modelled with the seconds reader as
  a parameter. `ConvertFramesToPdfAsWritten` runs it with the pattern as
  written, and `ConvertFramesToPdfIntended` with the intended pattern
  `_(\d+)s` (see "## Findings").

The modules are:

- `Wrappers`: `Option` and `Result`.
- `Text`: the Python built-ins the core relies on: `str(n)`, the `06d` and
  `02d` formats, `int()` of a digit string, `str.lower`, `str.endswith`,
  string `<`, and `sorted`.
- `Uploads`: `allowed_file`.
- `Sampler`: `extract_unique_frames`. It is an imperative method with a loop.
  It is proved against `RetentionChain`, a declarative description of which
  frame indices are kept. The lemmas show that this description determines
  the indices completely.
- `Assembler`: `convert_frames_to_pdf`. The FPDF document is a `Document`
  class whose methods update its pages and text state. The stage is a loop
  over the sorted files that adds one page per file.
- `Pipeline`: how the two stages meet in `/process`. The file name is the
  only thing passed from the sampler to the assembler. These lemmas say what
  survives that hand-over: the page order, and the time on each label.

The library computations are parameters of the model:

- The frame signature (grey-scale conversion and a 160x90 resize) and the
  structural-similarity score are the two functions of a `Sampler.Vision`
  value. The score is `None` when the call raises.
- The corner brightness that PIL computes is a function `cornerMean` from a
  file name to a grey level in 0..255.
- The directory listing is a sequence of names.
- The seconds reader of the assembler is a function from a file name to a
  number of seconds or a `ValueError`.

## Model

| member | source | states |
|---|---|---|
| `Uploads.AllowedFile` | video_to_pdf_render/app.py:43-44 | true exactly when some position holds a dot, no later position holds one, and the lower-cased text after it is one of the allowed extensions |
| `Uploads.AllowedUpperCase` | video_to_pdf_render/app.py:43-44 | an upper-case extension is accepted (`lecture.MP4`) |
| `Uploads.OnlyLastExtensionCounts` | video_to_pdf_render/app.py:43-44 | only the text after the last dot is looked at (`movie.mp4.exe` is refused) |
| `Uploads.NoDotRefused` | video_to_pdf_render/app.py:44 | a name with no dot is refused, even when it is itself an extension |
| `Uploads.LastDot` | video_to_pdf_render/app.py:44 | the position found by `rsplit(".", 1)`: a dot with no dot after it, or none when the name has no dot |
| `Sampler.Fps` | video_to_pdf_render/app.py:94 | the frame rate used is positive; it is the reported one, or 25 when the reported one is 0 |
| `Sampler.Timestamp` | video_to_pdf_render/app.py:119 | the timestamp ts of frame idx satisfies ts·fps ≤ idx < (ts+1)·fps, i.e. it is the whole seconds before the frame |
| `Sampler.TimestampMonotone` | video_to_pdf_render/app.py:119 | a later frame never has an earlier timestamp |
| `Sampler.Budget` | video_to_pdf_render/app.py:125-126 | the number of frames the loop can keep: `max_frames` when it is at least 1, and 1 otherwise, because the check only runs after a save |
| `Sampler.KeptSoFarGrow` | video_to_pdf_render/app.py:116-124 | saving frame n when the loop's rule says to keep it preserves the description of what was kept so far |
| `Sampler.KeptSoFarStay` | video_to_pdf_render/app.py:103-117 | passing over a frame the rule does not keep (a non-candidate, or one too similar to the last kept) preserves that description |
| `Sampler.KeptSoFarIsChain` | video_to_pdf_render/app.py:99-102 | when the frames run out, or the budget is used up, what was kept so far is the retention chain |
| `Sampler.ConsiderFrame` | video_to_pdf_render/app.py:103-124 | one pass of the loop over frame n: the frame is kept exactly when it is a candidate and nothing was kept yet or it differs from the last kept frame; a kept frame is appended to the list with its name and timestamp and becomes the comparison signature; otherwise the list and the signature are unchanged |
| `Sampler.SampleFrames` | video_to_pdf_render/app.py:99-127 | the loop keeps the frames of the retention chain, and the list holds their names and timestamps in the order kept |
| `Sampler.ExtractUniqueFrames` | video_to_pdf_render/app.py:89-129 | an unopened video fails with "Cannot open video file."; a zero sample rate with a frame to read fails (the `%` raises); otherwise the result succeeds, its indices form the retention chain, and the list is their entries |
| `Sampler.EntriesAt` | video_to_pdf_render/app.py:119-123 | entry j of the list is the name and timestamp of the j-th kept frame |
| `Sampler.ChainUnique` | video_to_pdf_render/app.py:99-127 | a video, a vision and a configuration admit only one retention chain, so the retention chain is a complete specification of what the loop keeps |
| `Sampler.ChainIncreasing` | video_to_pdf_render/app.py:99-127 | every two kept indices, not only neighbours, are in increasing order |
| `Sampler.ChainStep` | video_to_pdf_render/app.py:103-118 | every kept frame after the first is a later candidate than the one before it, inside the video, and differs from the one before it |
| `Sampler.ChainTail` | video_to_pdf_render/app.py:103-117 | when the budget was not used up, every candidate after the last kept frame is similar to it |
| `Sampler.TimestampsNondecreasing` | video_to_pdf_render/app.py:119-123 | the timestamps along the returned list never decrease |
| `Sampler.StaticVideoKeepsOne` | video_to_pdf_render/app.py:108-117 | when no two frames of a non-empty video differ, only frame 0 is kept |
| `Sampler.DistinctFramesAllKept` | video_to_pdf_render/app.py:103-126 | with a sample rate of 1 and every two frames different, frames 0, 1, 2, … are kept up to the smaller of the budget and the video length |
| `Sampler.ThresholdLowKeepsThree` | video_to_pdf_render/app.py:116 | on a four-frame video, a threshold of 0.4 keeps frames 0, 2 and 3 |
| `Sampler.ThresholdHighKeepsTwo` | video_to_pdf_render/app.py:116 | on the same video, a threshold of 0.6 keeps only frames 0 and 1: a stricter threshold can keep fewer frames |
| `Assembler.Document.constructor` | video_to_pdf_render/app.py:135 | a new document has no pages and writes black text |
| `Assembler.Document.AddPage` | video_to_pdf_render/app.py:139 | a blank page is appended; the text colour and font size are unchanged |
| `Assembler.Document.Image` | video_to_pdf_render/app.py:140 | the image is drawn on the last page only; the earlier pages and the text state are unchanged |
| `Assembler.Document.SetTextColor` | video_to_pdf_render/app.py:149 | only the text colour changes |
| `Assembler.Document.SetXY` | video_to_pdf_render/app.py:150 | only the cursor changes |
| `Assembler.Document.SetFont` | video_to_pdf_render/app.py:151 | only the font size changes |
| `Assembler.Document.Cell` | video_to_pdf_render/app.py:152 | a text cell with the current colour, cursor and font size is added to the last page only; the text colour and font size are unchanged |
| `Assembler.ImageFiles` | video_to_pdf_render/app.py:132 | the filter keeps every name whose lower-cased form ends in `.png`, `.jpg` or `.jpeg`, each as often as it is listed, and drops every other name |
| `Text.SortNames` | video_to_pdf_render/app.py:132 | `sorted` returns a rearrangement of its input in ascending string order |
| `Text.SortedUnique` | video_to_pdf_render/app.py:132 | two ascending rearrangements of the same names are the same list, so `sorted` has only one possible result |
| `Assembler.NoFilesIff` | video_to_pdf_render/app.py:133-134 | the sorted file list is empty exactly when no name in the listing is an image name |
| `Assembler.FormatHMSRoundTrip` | video_to_pdf_render/app.py:144 | the label is a clock text whose hours, minutes and seconds fields read back as s (3600·h + 60·m + sec = s), with minutes and seconds below 60; it is eight characters long exactly when s is under 100 hours |
| `Assembler.FormatHMSExamples` | video_to_pdf_render/app.py:144 | 3725 seconds gives `01:02:05`, and 0 gives `00:00:00` |
| `Assembler.FirstMatch` | video_to_pdf_render/app.py:142 | with the intended pattern `_(\d+)s`, the search finds the leftmost position where `_`, a run of digits and `s` match, or reports that there is none |
| `Assembler.LabelSeconds` | video_to_pdf_render/app.py:142-143 | with the intended pattern `_(\d+)s`, the seconds are the number in the first match's digit group, or 0 when nothing matches |
| `Assembler.LabelSecondsAsWritten` | video_to_pdf_render/app.py:142-143 | with the pattern as written, the result is 0 exactly when nothing matches, and a `ValueError` from `int` exactly when something does |
| `Assembler.AsWrittenIgnoresPlainNames` | video_to_pdf_render/app.py:142-143 | with the pattern as written, a name without a backslash always gets 0 seconds |
| `Assembler.AsWrittenFailsOnBackslash` | video_to_pdf_render/app.py:142-143 | with the pattern as written, a name holding `_\ds` makes `int` raise |
| `Assembler.LabelColour` | video_to_pdf_render/app.py:149 | the label is white exactly when the corner's mean is below 64; otherwise it is yellow (255, 255, 0) and never black |
| `Assembler.PagesForAt` | video_to_pdf_render/app.py:137-152 | when every file's seconds can be read, page k shows file k, and only it, labelled with the seconds the reader gives for its name, in the colour chosen from its corner |
| `Assembler.AddFramePage` | video_to_pdf_render/app.py:138-152 | one pass of the loop adds a page with the image; when the seconds can be read, that page also gets its label and then equals the file's page; when they cannot, the pass stops with the page unlabelled and reports the failure; the earlier pages are unchanged either way |
| `Assembler.RenderPages` | video_to_pdf_render/app.py:135-152 | the loop over the files fails with `ValueError` exactly when some file's seconds cannot be read; otherwise it yields one page per file, in order |
| `Assembler.AllReadableIff` | video_to_pdf_render/app.py:132-143 | every sorted file's seconds can be read exactly when those of every image name in the listing can |
| `Assembler.ConvertFramesToPdf` | video_to_pdf_render/app.py:131-154 | fails with "No frames found." exactly when the listing has no image name; fails with `ValueError` exactly when there is one and some image name's seconds cannot be read; otherwise the document has one page per image file, in sorted order |
| `Assembler.ConvertFramesToPdfAsWritten` | video_to_pdf_render/app.py:131-154 | the stage with the pattern of line 142 as written: "No frames found." exactly when there is no image name; `ValueError` exactly when some image name holds `_\`, a run of `d`, then `s`; otherwise one page per image file, each labelled `00:00:00` |
| `Assembler.ConvertFramesToPdfIntended` | video_to_pdf_render/app.py:131-154 | the stage with the intended pattern `_(\d+)s`: it fails only when there is no image name, and page k shows the k-th sorted image file under the clock text of the seconds in its name |
| `Pipeline.FrameNameIsComposed` | video_to_pdf_render/app.py:120 | a frame name is `frame_`, an index field of at least six digits, `_`, the decimal seconds, then `s.png` |
| `Pipeline.FrameNameIsImage` | video_to_pdf_render/app.py:120 | every frame name the sampler writes passes the assembler's image filter |
| `Pipeline.FrameNameSeconds` | video_to_pdf_render/app.py:142-143 | reading a frame name back with the intended pattern gives exactly the timestamp it was written with |
| `Pipeline.AsWrittenFrameLabel` | video_to_pdf_render/app.py:142-144 | with the pattern as written, every frame name gets 0 seconds, i.e. the label `00:00:00` |
| `Pipeline.AsWrittenLosesTime` | video_to_pdf_render/app.py:142-144 | the frame kept at index 93125 and second 3725 is labelled `00:00:00` as written, and `01:02:05` with the intended pattern |
| `Pipeline.FrameNamesOrdered` | video_to_pdf_render/app.py:120 | below 10^6 the names sort by frame index, whatever their seconds |
| `Pipeline.FrameNamesMisorderedAtAMillion` | video_to_pdf_render/app.py:120 | at 10^6 the index field grows to seven digits, and the name of frame 1000000 sorts before that of frame 999999 |
| `Pipeline.NamesAscending` | video_to_pdf_render/app.py:119-123 | for a video of at most 10^6 frames, the names in the sampler's list are in ascending string order |
| `Pipeline.SortedFilesAreNames` | video_to_pdf_render/app.py:132 | when the frames directory holds exactly the files the sampler wrote, `sorted` lists them in the order they were kept |
| `Pipeline.PagesFollowFrames` | video_to_pdf_render/app.py:192-198 | with the intended pattern `_(\d+)s`, the document then has one page per kept frame, in the order kept, each showing that frame under a label of the timestamp the sampler computed for it |
| `Pipeline.PagesAsWrittenShowMidnight` | video_to_pdf_render/app.py:192-198 | with the pattern as written, the stage still has one page per kept frame, in the order kept, but every label reads `00:00:00` |

## Left out

- Video decoding, colour conversion, resizing and `cv2.imwrite`: these are library calls over pixel buffers. The signature is an uninterpreted function, and the model does not write files.
- The structural-similarity score: it is an uninterpreted function that returns `None` where the call raises.
- Floating point: the score, the threshold, the frame rate and `frame_idx / fps` are Dafny reals. Rounding is not modelled.
- A negative reported frame rate: `or 25.0` replaces only 0.0. `Sampler.ExtractUniqueFrames` requires a rate of at least 0.
- `Sampler.ExtractUniqueFrames`: the zero-sample-rate error is decided before the loop rather than on the first frame. This is the same outcome, because with a zero rate the first frame read raises before anything is kept or written.
- `cap.release()` and the creation of the output directory: these are resource handling and have no effect on the result.
- The PIL crop and the resize to one pixel: their value is the `cornerMean` parameter.
- `Assembler.Document.AddPage` and `Assembler.Document.Cell`: FPDF moves the cursor in both (to the page margins, and past the cell). Their contracts say nothing about the cursor afterwards. No page depends on this, because `SetXY(5, 5)` comes before every cell.
- FPDF's page size, the font face, the geometry of the image and of the cell, and `pdf.output`: pages are abstract records of what was drawn and written on them. `Assembler.Document.Image` and `Assembler.Document.Cell` require a page, which FPDF also expects.
- The directory listing: it is a parameter. That the frames directory holds exactly the sampler's files is a premise of the `Pipeline` lemmas.
- `Text.Lower` and `Assembler.FirstMatch` work on ASCII only. Python's `str.lower` also folds non-ASCII letters, and its `\d` also matches non-ASCII digits. Frame names are ASCII.
- `Pipeline.NamesAscending`, `Pipeline.SortedFilesAreNames`, `Pipeline.PagesFollowFrames` and `Pipeline.PagesAsWrittenShowMidnight` assume at most 10^6 frames. Beyond that the names no longer sort by index (`Pipeline.FrameNamesMisorderedAtAMillion`).
- The label colour follows the code: yellow on a bright corner, not black. The conditional at line 149 only chooses the blue component.
- A stricter similarity threshold does not always keep at least as many frames. `Sampler.ThresholdLowKeepsThree` and `Sampler.ThresholdHighKeepsTwo` show a video where it keeps fewer.
- `download_video_with_yt_dlp` and `get_video_title`: network I/O through yt-dlp.
- `start_cleanup`: a timer thread that deletes a directory.
- `sanitize_filename`: its result is decided by werkzeug's `secure_filename`, which is not part of this model.
- The Flask routes (`/`, `/process`, `/download`) and form parsing: HTTP plumbing. Only the hand-over from `extract_unique_frames` to `convert_frames_to_pdf` inside `/process` is modelled, by the lemmas of `Pipeline`.

## Findings

| source | as written | input that shows it | evidently intended | confidence | as-written member | corrected member |
|---|---|---|---|---|---|---|
| video_to_pdf_render/app.py:142-143 | the raw string `r"_(\\d+)s"` matches an underscore, a literal backslash, one or more letters `d`, then `s`. It never matches a name written at line 120, so every label reads `00:00:00`; and on a name it does match, `int` of the group raises `ValueError` | `frame_093125_3725s.png` (index 93125, second 3725) is labelled `00:00:00` instead of `01:02:05` | `_(\d+)s`: the digits of the seconds field, so each page shows its frame's timestamp | not executed | `Pipeline.AsWrittenLosesTime` | `Pipeline.FrameNameSeconds` |
