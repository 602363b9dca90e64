/**
 * `PotholeDetectionView.post`: the upload endpoint. It checks for a file,
 * derives the lower-cased extension of the file name with spaces replaced,
 * sends images and videos to their services after uploading them, and turns
 * the service's answer into the JSON reply. The uploads and the services are
 * foreign calls; their answers are parameters.
 */
module UploadDispatch {
  import opened Wrappers

  // ---------------------------------------------------------------------------
  // File names

  /** `name.replace(" ", "_")`. */
  function Normalize(name: string): (r: string)
    ensures |r| == |name|
    ensures forall i :: 0 <= i < |name| ==> r[i] == if name[i] == ' ' then '_' else name[i]
  {
    seq(|name|, i requires 0 <= i < |name| => if name[i] == ' ' then '_' else name[i])
  }

  function LowerChar(c: char): char {
    if 'A' <= c <= 'Z' then (c as int + 32) as char else c
  }

  /** `s.lower()` on the ASCII letters. */
  function Lower(s: string): (r: string)
    ensures |r| == |s| && forall i :: 0 <= i < |s| ==> r[i] == LowerChar(s[i])
  {
    seq(|s|, i requires 0 <= i < |s| => LowerChar(s[i]))
  }

  /** `s.rfind(c)`: the last position of `c`, or -1. */
  function LastIndexOf(s: string, c: char): (i: int)
    ensures -1 <= i < |s|
    ensures 0 <= i ==> s[i] == c
  {
    if |s| == 0 then -1
    else if s[|s| - 1] == c then |s| - 1
    else LastIndexOf(s[..|s| - 1], c)
  }

  /** No occurrence of `c` follows the last one. */
  lemma {:induction false} LastIndexOfIsLast(s: string, c: char)
    ensures forall k :: LastIndexOf(s, c) < k < |s| ==> s[k] != c
  {
    if |s| > 0 && s[|s| - 1] != c {
      var init := s[..|s| - 1];
      LastIndexOfIsLast(init, c);
      assert forall k :: 0 <= k < |init| ==> init[k] == s[k];
    }
  }

  /** Some character of `s` is not a dot. */
  predicate HasNonDot(s: string) {
    exists k :: 0 <= k < |s| && s[k] != '.'
  }

  /**
   * `os.path.splitext` on POSIX: the extension runs from the last dot to the
   * end, provided that dot follows the last `/` and the part of the base name
   * before it is not all dots (so `.jpg` and `..` have no extension).
   */
  function SplitExt(p: string): (string, string) {
    var i := ExtStart(p);
    (p[..i], p[i..])
  }

  /** Where the extension starts: at the dot described above, or at the end when there is none. */
  function ExtStart(p: string): (i: nat)
    ensures i <= |p|
  {
    var sep := LastIndexOf(p, '/');
    var dot := LastIndexOf(p, '.');
    if dot > sep && HasNonDot(p[sep + 1..dot]) then dot else |p|
  }

  /** `os.path.splitext(p)[1]`. */
  function Ext(p: string): string {
    SplitExt(p).1
  }

  /**
   * The two parts put back together give the name; a non-empty extension is
   * a dot followed by neither a dot nor a `/`, and the base name before it
   * holds something other than dots.
   */
  lemma SplitExtParts(p: string)
    ensures SplitExt(p).0 + SplitExt(p).1 == p
    ensures var e := SplitExt(p).1;
      e == "" || (e[0] == '.' && forall k :: 1 <= k < |e| ==> e[k] != '.' && e[k] != '/')
    ensures var e := SplitExt(p).1;
      e != "" ==> var sep := LastIndexOf(p, '/');
        HasNonDot(p[sep + 1..|p| - |e|])
  {
    var sep := LastIndexOf(p, '/');
    var dot := LastIndexOf(p, '.');
    LastIndexOfIsLast(p, '/');
    LastIndexOfIsLast(p, '.');
    if dot > sep && HasNonDot(p[sep + 1..dot]) {
      assert p[..dot] + p[dot..] == p;
      var e := p[dot..];
      forall k | 1 <= k < |e| ensures e[k] != '.' && e[k] != '/' {
        assert e[k] == p[dot + k];
      }
    }
  }

  /** A dot or a slash is one before lowering exactly when it is one after. */
  lemma {:induction false} LastIndexOfLower(s: string, c: char)
    requires c == '.' || c == '/'
    ensures LastIndexOf(Lower(s), c) == LastIndexOf(s, c)
  {
    if |s| > 0 {
      assert Lower(s)[..|s| - 1] == Lower(s[..|s| - 1]);
      LastIndexOfLower(s[..|s| - 1], c);
    }
  }

  lemma LowerSlice(p: string, a: nat, b: nat)
    requires a <= b <= |p|
    ensures Lower(p)[a..b] == Lower(p[a..b])
  {
  }

  lemma HasNonDotLower(s: string)
    ensures HasNonDot(Lower(s)) <==> HasNonDot(s)
  {
    if HasNonDot(s) {
      var k :| 0 <= k < |s| && s[k] != '.';
      assert Lower(s)[k] != '.';
    }
  }

  /** Lowering moves no dot and no slash, so the extension starts at the same place. */
  lemma ExtStartLower(p: string)
    ensures ExtStart(Lower(p)) == ExtStart(p)
  {
    LastIndexOfLower(p, '/');
    LastIndexOfLower(p, '.');
    var sep := LastIndexOf(p, '/');
    var dot := LastIndexOf(p, '.');
    if dot > sep {
      LowerSlice(p, sep + 1, dot);
      HasNonDotLower(p[sep + 1..dot]);
    }
  }

  /** Lowering and taking the extension commute. */
  lemma ExtOfLower(p: string)
    ensures Ext(Lower(p)) == Lower(Ext(p))
  {
    ExtStartLower(p);
    LowerSlice(p, ExtStart(p), |p|);
    assert p[ExtStart(p)..] == p[ExtStart(p)..|p|];
    assert Lower(p)[ExtStart(p)..] == Lower(p)[ExtStart(p)..|p|];
  }

  // ---------------------------------------------------------------------------
  // Classification

  datatype FileKind = ImageFile | VideoFile | Unsupported

  /** Lines 22 and 47: the two lists of extensions. */
  function Classify(ext: string): (k: FileKind)
    ensures k == ImageFile <==> ext in [".jpg", ".jpeg", ".png"]
    ensures k == VideoFile <==> ext in [".mp4", ".avi", ".mov"]
  {
    if ext in [".jpg", ".jpeg", ".png"] then ImageFile
    else if ext in [".mp4", ".avi", ".mov"] then VideoFile
    else Unsupported
  }

  /** Lines 18 to 22: the kind of an uploaded file, by its name. */
  function KindOf(name: string): FileKind {
    Classify(Lower(Ext(Normalize(name))))
  }

  lemma NormalizeLower(s: string)
    ensures Normalize(Lower(s)) == Lower(Normalize(s))
  {
  }

  /** Classification ignores case: two names that agree once lower-cased have one kind. */
  lemma KindIgnoresCase(a: string, b: string)
    requires Lower(a) == Lower(b)
    ensures KindOf(a) == KindOf(b)
  {
    ExtOfLower(Normalize(a));
    ExtOfLower(Normalize(b));
    NormalizeLower(a);
    NormalizeLower(b);
  }

  /** The last occurrence of `c` is at `i` when `s[i]` is `c` and no later character is. */
  lemma {:induction false} LastIndexOfAt(s: string, c: char, i: int)
    requires 0 <= i < |s| && s[i] == c
    requires forall k :: i < k < |s| ==> s[k] != c
    ensures LastIndexOf(s, c) == i
  {
    if i < |s| - 1 {
      var init := s[..|s| - 1];
      assert forall k :: i < k < |init| ==> init[k] == s[k];
      LastIndexOfAt(init, c, i);
    }
  }

  /** A character that does not occur has no last occurrence. */
  lemma {:induction false} LastIndexOfNone(s: string, c: char)
    requires forall k :: 0 <= k < |s| ==> s[k] != c
    ensures LastIndexOf(s, c) == -1
  {
    if |s| > 0 {
      var init := s[..|s| - 1];
      assert forall k :: 0 <= k < |init| ==> init[k] == s[k];
      LastIndexOfNone(init, c);
    }
  }

  /**
   * For a name without `/`, the extension starts at the last dot as long as
   * some earlier character is not a dot.
   */
  lemma KindOfByLastDot(name: string, dot: nat)
    requires dot < |name| && name[dot] == '.'
    requires forall k :: dot < k < |name| ==> name[k] != '.'
    requires forall k :: 0 <= k < |name| ==> name[k] != '/'
    requires exists k :: 0 <= k < dot && name[k] != '.'
    ensures KindOf(name) == Classify(Lower(Normalize(name)[dot..]))
  {
    var n := Normalize(name);
    LastIndexOfAt(n, '.', dot);
    LastIndexOfNone(n, '/');
    var k :| 0 <= k < dot && name[k] != '.';
    assert n[0..dot][k] == n[k];
    assert ExtStart(n) == dot;
    assert Ext(n) == n[dot..];
  }

  /** An upper-case extension names an image once lowered (so `A.JPG`, with its dot at 1, is an image). */
  lemma UpperCaseImage(e: string)
    requires e == ".JPG"
    ensures Classify(Lower(e)) == ImageFile
  {
    assert Lower(e) == ".jpg";
  }

  /**
   * A hidden file whose only dot is its first character has no extension,
   * so it is refused (`.mp4` is not a video).
   */
  lemma DotFileUnsupported(name: string)
    requires |name| > 0 && name[0] == '.'
    requires forall k :: 1 <= k < |name| ==> name[k] != '.' && name[k] != '/'
    ensures KindOf(name) == Unsupported
  {
    var n := Normalize(name);
    LastIndexOfAt(n, '.', 0);
    LastIndexOfNone(n, '/');
    assert !HasNonDot(n[0..0]);
    assert Ext(n) == "";
  }

  /** A name without a dot has the empty extension, which is refused. */
  lemma NoDotUnsupported(name: string)
    requires forall i :: 0 <= i < |name| ==> name[i] != '.'
    ensures KindOf(name) == Unsupported
  {
    LastIndexOfNone(Normalize(name), '.');
  }

  // ---------------------------------------------------------------------------
  // The reply

  /** What the image service returns, as far as the view reads it (`dict.get`). */
  datatype ImageAnswer = ImageAnswer(severity: Option<real>, imageUrl: Option<string>)

  /** What the video service returns; `videoUrl` is absent (None) or present, possibly null. */
  datatype VideoAnswer = VideoAnswer(averageSeverity: Option<real>, videoUrl: Option<Option<string>>)

  datatype Response =
    | ErrorReply(status: nat, error: string)
    | ImageReply(severity: real, imageUrl: Option<string>, objects: string)
    | VideoReply(severity: real, videoUrl: Option<string>, objects: string)

  /** The HTTP status of a reply: `JsonResponse` defaults to 200. */
  function StatusOf(r: Response): nat {
    if r.ErrorReply? then r.status else 200
  }

  /** `not url`: no URL, or an empty one. */
  predicate Missing(url: Option<string>) {
    url.None? || url.value == ""
  }

  /**
   * Lines 13 to 74. `file` is the uploaded file's name, absent when the form
   * has no `file` entry; `imageUpload` and `videoUpload` are the `secure_url`
   * the upload returned; `image` and `video` are the services' answers.
   */
  function Post(file: Option<string>, imageUpload: Option<string>, image: ImageAnswer,
                videoUpload: Option<string>, video: VideoAnswer): Response
  {
    if file.None? then ErrorReply(400, "No file uploaded")
    else
      match KindOf(file.value)
      case ImageFile =>
        if Missing(imageUpload) then ErrorReply(500, "Failed to upload image")
        else
          var severity := image.severity.GetOr(0.0);
          ImageReply(severity, image.imageUrl, if severity > 0.0 then "Pothole" else "No pothole")
      case VideoFile =>
        if Missing(videoUpload) then ErrorReply(500, "Failed to upload video")
        else
          var severity := video.averageSeverity.GetOr(0.0);
          VideoReply(severity, video.videoUrl.GetOr(videoUpload),
                     if severity > 0.0 then "Potholes" else "No pothole detected")
      case Unsupported => ErrorReply(400, "Unsupported file format")
  }

  // ---------------------------------------------------------------------------
  // Properties of the reply

  /** Without a file the reply is a 400, whatever the rest. */
  lemma NoFileRejected(imageUpload: Option<string>, image: ImageAnswer, videoUpload: Option<string>, video: VideoAnswer)
    ensures Post(None, imageUpload, image, videoUpload, video) == ErrorReply(400, "No file uploaded")
  {
  }

  /**
   * A file is refused as unsupported exactly when its kind is neither image
   * nor video, that is when its lower-cased extension is in neither list.
   */
  lemma UnsupportedIff(name: string, imageUpload: Option<string>, image: ImageAnswer,
                       videoUpload: Option<string>, video: VideoAnswer)
    ensures Post(Some(name), imageUpload, image, videoUpload, video) == ErrorReply(400, "Unsupported file format") <==>
      KindOf(name) == Unsupported
  {
  }

  /**
   * An image whose upload gave no URL is a 500, and otherwise the reply
   * carries the service's severity (0 when absent) and image URL, labelled
   * "Pothole" exactly when the severity is positive.
   */
  lemma ImageReplyShape(name: string, imageUpload: Option<string>, image: ImageAnswer,
                        videoUpload: Option<string>, video: VideoAnswer)
    requires KindOf(name) == ImageFile
    ensures var r := Post(Some(name), imageUpload, image, videoUpload, video);
      (StatusOf(r) == 500 <==> Missing(imageUpload)) &&
      (Missing(imageUpload) ==> r == ErrorReply(500, "Failed to upload image")) &&
      (!Missing(imageUpload) ==>
        r.ImageReply? && r.severity == image.severity.GetOr(0.0) && r.imageUrl == image.imageUrl &&
        (r.objects == "Pothole" <==> r.severity > 0.0) &&
        (r.objects != "Pothole" ==> r.objects == "No pothole"))
  {
  }

  /**
   * A video whose upload gave no URL is a 500, and otherwise the reply
   * carries the service's average severity (0 when absent) and its video URL
   * (the uploaded one when the service names none), labelled "Potholes"
   * exactly when the severity is positive.
   */
  lemma VideoReplyShape(name: string, imageUpload: Option<string>, image: ImageAnswer,
                        videoUpload: Option<string>, video: VideoAnswer)
    requires KindOf(name) == VideoFile
    ensures var r := Post(Some(name), imageUpload, image, videoUpload, video);
      (StatusOf(r) == 500 <==> Missing(videoUpload)) &&
      (Missing(videoUpload) ==> r == ErrorReply(500, "Failed to upload video")) &&
      (!Missing(videoUpload) ==>
        r.VideoReply? && r.severity == video.averageSeverity.GetOr(0.0) &&
        (video.videoUrl.None? ==> r.videoUrl == videoUpload) &&
        (video.videoUrl.Some? ==> r.videoUrl == video.videoUrl.value) &&
        (r.objects == "Potholes" <==> r.severity > 0.0) &&
        (r.objects != "Potholes" ==> r.objects == "No pothole detected"))
  {
  }

  /** Every reply is a 200, or one of the four errors with its status. */
  lemma StatusCases(file: Option<string>, imageUpload: Option<string>, image: ImageAnswer,
                    videoUpload: Option<string>, video: VideoAnswer)
    ensures var r := Post(file, imageUpload, image, videoUpload, video);
      StatusOf(r) == 200 ||
      r == ErrorReply(400, "No file uploaded") || r == ErrorReply(400, "Unsupported file format") ||
      r == ErrorReply(500, "Failed to upload image") || r == ErrorReply(500, "Failed to upload video")
    ensures var r := Post(file, imageUpload, image, videoUpload, video);
      StatusOf(r) == 200 <==> r.ImageReply? || r.VideoReply?
  {
  }
}
