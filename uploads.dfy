/**
 * The image-upload validation of the blog: which uploaded file names are accepted as
 * images, and which name (if any) a post ends up storing for an upload.
 */
module Uploads {
  import opened Wrappers

  /** The allow-set of image extensions, compared after lower-casing. */
  const AllowedExtensions: set<string> := {"png", "jpg", "jpeg", "gif"}

  /** ASCII lower-casing of one character (the model's stand-in for `str.lower`). */
  function LowerChar(c: char): (d: char)
    ensures 'A' <= c <= 'Z' ==> 'a' <= d <= 'z' && d as int - c as int == 32
    ensures !('A' <= c <= 'Z') ==> d == c
  {
    if 'A' <= c <= 'Z' then (c as int + 32) as char else c
  }

  function Lower(s: string): (r: string)
    ensures |r| == |s|
    ensures forall i :: 0 <= i < |s| ==> r[i] == LowerChar(s[i])
  {
    seq(|s|, i requires 0 <= i < |s| => LowerChar(s[i]))
  }

  /** Position of the last '.' in `s`, if there is one: where `rsplit('.', 1)` cuts. */
  function LastDot(s: string): (r: Option<nat>)
    ensures r.None? <==> '.' !in s
    ensures r.Some? ==> r.value < |s| && s[r.value] == '.' && '.' !in s[r.value + 1..]
  {
    if s == [] then None
    else if s[|s| - 1] == '.' then Some(|s| - 1)
    else
      var r := LastDot(s[..|s| - 1]);
      assert r.Some? ==> s[r.value + 1..] == s[..|s| - 1][r.value + 1..] + [s[|s| - 1]];
      assert s == s[..|s| - 1] + [s[|s| - 1]];
      r
  }

  /** The text after the last '.', i.e. `filename.rsplit('.', 1)[1]`. */
  function Extension(filename: string): (ext: string)
    requires '.' in filename
    ensures '.' !in ext
    ensures |ext| < |filename| && filename[|filename| - |ext| - 1] == '.'
    ensures filename[|filename| - |ext|..] == ext
  {
    filename[LastDot(filename).value + 1..]
  }

  /** `allowed_file`: the name has a '.' and its lower-cased extension is in the allow-set. */
  predicate AllowedFile(filename: string): (ok: bool)
    ensures '.' !in filename ==> !ok
    ensures ok ==> 3 <= |Extension(filename)| <= 4
  {
    '.' in filename && Lower(Extension(filename)) in AllowedExtensions
  }

  /** A dot at `i` with no dot after it is the last dot. */
  lemma LastDotUnique(s: string, i: nat)
    requires i < |s| && s[i] == '.' && '.' !in s[i + 1..]
    ensures LastDot(s) == Some(i)
  {
  }

  /**
   * `allowed_file` characterised without `rsplit`: some '.' in the name has no '.' after
   * it, and the lower-cased text after that dot is an allowed extension.
   */
  lemma AllowedFileIff(filename: string)
    ensures AllowedFile(filename) <==>
      exists i :: 0 <= i < |filename| && filename[i] == '.' && '.' !in filename[i + 1..]
        && Lower(filename[i + 1..]) in AllowedExtensions
  {
    if AllowedFile(filename) {
      var k := LastDot(filename).value;
      assert filename[k] == '.' && Lower(filename[k + 1..]) in AllowedExtensions;
    }
    forall i | 0 <= i < |filename| && filename[i] == '.' && '.' !in filename[i + 1..]
      ensures AllowedFile(filename) <==> Lower(filename[i + 1..]) in AllowedExtensions
    {
      LastDotUnique(filename, i);
    }
  }

  /** A name built as stem + "." + ext, where ext has no dot, is judged by ext alone. */
  lemma AllowedFileOfParts(stem: string, ext: string)
    requires '.' !in ext
    ensures AllowedFile(stem + "." + ext) <==> Lower(ext) in AllowedExtensions
  {
    var f := stem + "." + ext;
    assert f[|stem|] == '.' && f[|stem| + 1..] == ext;
    LastDotUnique(f, |stem|);
  }

  /** A name without a dot is never an allowed image. */
  lemma NoDotNotAllowed(filename: string)
    requires '.' !in filename
    ensures !AllowedFile(filename)
  {
  }

  /** A name ending in '.' has an empty extension, which is not in the allow-set. */
  lemma TrailingDotNotAllowed(filename: string)
    requires |filename| > 0 && filename[|filename| - 1] == '.'
    ensures !AllowedFile(filename)
  {
    assert LastDot(filename) == Some(|filename| - 1);
    assert Lower("") == "";
  }

  /** Every allowed name is at least as long as a dot plus a three-letter extension. */
  lemma AllowedFileIsLong(filename: string)
    ensures AllowedFile(filename) ==> |filename| >= 4
  {
    if AllowedFile(filename) {
      var ext := Extension(filename);
      assert |Lower(ext)| == |ext|;
      assert |ext| >= 3;
    }
  }

  /** The extension is compared after lower-casing. */
  lemma UpperCaseExtensionAccepted()
    ensures AllowedFile("photo.PNG")
  {
    AllowedFileOfParts("photo", "PNG");
    assert Lower("PNG") == "png";
  }

  /** Only the text after the last dot matters, even when the stem is empty. */
  lemma LastExtensionAccepted()
    ensures AllowedFile("a.tar.gif")
    ensures AllowedFile(".gif")
  {
    AllowedFileOfParts("a.tar", "gif");
    AllowedFileOfParts("", "gif");
    assert Lower("gif") == "gif";
  }

  /** Other extensions are refused, also after an allowed one. */
  lemma OtherExtensionRejected()
    ensures !AllowedFile("photo.exe")
    ensures !AllowedFile("photo.png.exe")
  {
    AllowedFileOfParts("photo", "exe");
    AllowedFileOfParts("photo.png", "exe");
    assert Lower("exe") == "exe";
  }

  /** Names without an extension are refused. */
  lemma MissingExtensionRejected()
    ensures !AllowedFile("noext")
    ensures !AllowedFile("photo.")
  {
    NoDotNotAllowed("noext");
    TrailingDotNotAllowed("photo.");
  }

  /**
   * The `image` part of a request: no `image` field at all, or a file field carrying the
   * client's file name (empty when the form was sent without choosing a file).
   */
  datatype Upload = NoFileField | FileField(filename: string)

  /**
   * The guard `'image' in request.files and file and allowed_file(file.filename)`.
   * Its empty-file test adds nothing: an empty name never passes `allowed_file`.
   */
  predicate ValidUpload(upload: Upload): (ok: bool)
    ensures ok <==> upload.FileField? && AllowedFile(upload.filename)
  {
    upload.FileField? && upload.filename != "" && AllowedFile(upload.filename)
  }

  /**
   * The image name a post records for an upload: the sanitized file name when the upload
   * is valid, and nothing otherwise. `sanitize` stands for `secure_filename`.
   */
  function StoredImage(upload: Upload, sanitize: string -> string): (image: Option<string>)
    ensures image.Some? <==> upload.FileField? && AllowedFile(upload.filename)
    ensures image.Some? ==> image.value == sanitize(upload.filename)
  {
    if ValidUpload(upload) then Some(sanitize(upload.filename)) else None
  }
}
