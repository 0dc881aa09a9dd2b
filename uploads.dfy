/** The upload-side file-type check (`allowed_file`, app.py lines 33 and 43-44). */
module Uploads {
  import opened Wrappers
  import opened Text

  /** `ALLOWED_EXTENSIONS`: the video containers an upload may use. */
  const AllowedExtensions: set<string> := {"mp4", "mov", "mkv", "webm", "avi", "ogv"}

  /** The position of the last `.` in s, if there is one. */
  function LastDot(s: string): (r: Option<nat>)
    ensures r.Some? ==> r.value < |s| && s[r.value] == '.' && forall j | r.value < j < |s| :: s[j] != '.'
    ensures r.None? ==> forall j | 0 <= j < |s| :: s[j] != '.'
  {
    if s == [] then None
    else if s[|s| - 1] == '.' then Some(|s| - 1)
    else LastDot(s[..|s| - 1])
  }

  /**
   * `"." in filename and filename.rsplit(".", 1)[1].lower() in ALLOWED_EXTENSIONS`:
   * the name has a dot, and what follows its last dot, lower-cased, is an
   * allowed extension.
   */
  function AllowedFile(filename: string): (ok: bool)
    ensures ok <==> exists k | 0 <= k < |filename| ::
      filename[k] == '.' && (forall j | k < j < |filename| :: filename[j] != '.')
      && Lower(filename[k + 1..]) in AllowedExtensions
  {
    match LastDot(filename)
    case None => false
    case Some(k) => Lower(filename[k + 1..]) in AllowedExtensions
  }

  /** Upper-case extensions pass. */
  lemma AllowedUpperCase()
    ensures AllowedFile("lecture.MP4")
  {
    var a := "lecture.MP4";
    assert a[7] == '.' && a[8..] == "MP4";
    assert Lower("MP4") == "mp4";
  }

  /** Only the text after the last dot is looked at. */
  lemma OnlyLastExtensionCounts()
    ensures !AllowedFile("movie.mp4.exe")
  {
    var c := "movie.mp4.exe";
    assert c[9] == '.';
  }

  /** A name without a dot is refused, even when it is an extension. */
  lemma NoDotRefused()
    ensures !AllowedFile("mp4")
  {
  }
}
