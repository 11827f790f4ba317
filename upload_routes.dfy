/** The upload routes of routes/uploadRoutes.js: each route takes the file
    multer stored on disk, turns it into an intermediate file (sharp for
    images, ffmpeg for videos), uploads that to a Cloudinary folder chosen by
    the route and deletes both files. The transform and the upload are
    opaque steps given as inputs: each one either succeeds or fails with a
    message. What is modelled is the order of the steps and what happens to
    the temporary files. */
module UploadRoutes {
  import opened Common
  import opened Text

  const MSG_NO_FILE: string := "No file uploaded"
  const MSG_INVALID_VIDEO: string := "Invalid video format"
  /** The extensions processAndUploadVideo accepts, compared after lower-casing. */
  const VIDEO_EXTENSIONS: seq<string> := [".mp4", ".mov", ".avi", ".mkv"]

  /** The four upload endpoints. */
  datatype Route = ImageRoute | AvatarRoute | CoverRoute | VideoRoute

  /** The Cloudinary folder each route uploads to: a single path segment. */
  function Folder(r: Route): (f: string)
    ensures f != "" && '/' !in f
  {
    match r
    case ImageRoute => "blog-images"
    case AvatarRoute => "avatars"
    case CoverRoute => "cover-images"
    case VideoRoute => "blog-videos"
  }

  /** No two routes share a folder. */
  lemma FoldersDistinct(r1: Route, r2: Route)
    ensures Folder(r1) == Folder(r2) <==> r1 == r2
  {
  }

  /** `req.file`: where multer stored the upload and the client's name for it. */
  datatype UploadedFile = UploadedFile(path: string, originalName: string)

  /** The outcome of an opaque step (sharp's conversion or ffmpeg's transcode). */
  datatype Step = Completed | Failed(message: string)

  /** One `cloudinary.uploader.upload` call that succeeded. */
  datatype Upload = Upload(path: string, folder: string, resourceType: string, format: string)

  /** The last index of `c` in `s`, if any. */
  function LastIndexOf(s: string, c: char): (r: Option<nat>)
    ensures r.Some? ==> r.value < |s| && s[r.value] == c && c !in s[r.value + 1..]
    ensures r.None? <==> c !in s
  {
    if s == [] then None
    else if s[|s| - 1] == c then Some(|s| - 1)
    else
      var r := LastIndexOf(s[..|s| - 1], c);
      assert s == s[..|s| - 1] + [s[|s| - 1]];
      if r.Some? then
        assert s[r.value + 1..] == s[..|s| - 1][r.value + 1..] + [s[|s| - 1]];
        r
      else r
  }

  /** `s` without its trailing slashes. */
  function StripTrailingSlashes(s: string): (r: string)
    ensures |r| <= |s| && r == s[..|r|] && (r == [] || r[|r| - 1] != '/')
  {
    if s != [] && s[|s| - 1] == '/' then StripTrailingSlashes(s[..|s| - 1]) else s
  }

  /** The last segment of a path with no trailing slash. */
  function AfterLastSlash(p: string): (r: string)
    ensures '/' !in r
  {
    match LastIndexOf(p, '/')
    case Some(i) => p[i + 1..]
    case None => p
  }

  /** Node's `path.extname` (POSIX): from the last '.' of the last segment to
      its end; '' when that segment has no '.', when its only '.' is its first
      character (a dot-file such as '.mp4') and for '..'. */
  function Extname(path: string): (r: string)
    ensures r == [] || (r[0] == '.' && '.' !in r[1..] && '/' !in r)
  {
    var base := AfterLastSlash(StripTrailingSlashes(path));
    match LastIndexOf(base, '.')
    case None => ""
    case Some(d) =>
      if d == 0 || base == ".." then ""
      else
        assert base[d + 1..] == base[d..][1..];
        assert forall i :: d <= i < |base| ==> base[i] in base;
        base[d..]
  }

  /** The last '.' of `s + e`, when `e` starts with the only '.' it has, is that first character of `e`. */
  lemma LastDotOfSuffix(s: string, e: string)
    requires e != [] && e[0] == '.' && '.' !in e[1..]
    ensures LastIndexOf(s + e, '.') == Some(|s|)
  {
    assert (s + e)[|s|] == '.';
    assert (s + e)[|s| + 1..] == e[1..];
  }

  /** The last segment of `s + e`, when `e` has no slash, is the last segment of `s` followed by `e`. */
  lemma AfterLastSlashOfSuffix(s: string, e: string)
    requires '/' !in e
    ensures AfterLastSlash(s + e) == AfterLastSlash(s) + e
  {
    var p := s + e;
    match LastIndexOf(p, '/')
    case Some(i) =>
      assert p[i + 1..] == s[i + 1..] + e;
      assert s[i] == '/' && '/' !in s[i + 1..];
      LastIndexOfIsLast(s, '/', i);
    case None =>
      assert forall x :: x in s ==> x in p;
  }

  /** An index holding `c` with no `c` after it is the last index of `c`. */
  lemma LastIndexOfIsLast(s: string, c: char, i: nat)
    requires i < |s| && s[i] == c && c !in s[i + 1..]
    ensures LastIndexOf(s, c) == Some(i)
  {
    assert s[i] in s;
  }

  /** A file called `stem + e`, where `e` is a '.' followed by at least one
      character that is neither '.' nor '/', and the stem is not empty and
      does not end with '/', has the extension `e`. */
  lemma {:induction false} ExtnameOfStem(stem: string, e: string)
    requires |e| >= 2 && e[0] == '.' && '.' !in e[1..] && '/' !in e
    requires stem != [] && stem[|stem| - 1] != '/'
    ensures Extname(stem + e) == e
  {
    var p := stem + e;
    assert StripTrailingSlashes(p) == p;
    AfterLastSlashOfSuffix(stem, e);
    var front := AfterLastSlash(stem);
    var base := front + e;
    assert front != [] by {
      match LastIndexOf(stem, '/')
      case Some(i) =>
        assert i != |stem| - 1;
      case None =>
    }
    LastDotOfSuffix(front, e);
    assert base[|front|..] == e;
  }

  /** The extension check of processAndUploadVideo. Every accepted name has
      an extension of a dot and three characters. */
  predicate IsAllowedVideo(originalName: string)
    ensures IsAllowedVideo(originalName) ==> |Extname(originalName)| == 4
  {
    Lower(Extname(originalName)) in VIDEO_EXTENSIONS
  }

  /** For a name made of a stem and an extension, the check accepts exactly
      the four extensions in any letter case. */
  lemma AllowedVideoOfStem(stem: string, e: string)
    requires |e| >= 2 && e[0] == '.' && '.' !in e[1..] && '/' !in e
    requires stem != [] && stem[|stem| - 1] != '/'
    ensures IsAllowedVideo(stem + e) <==> Lower(e) in VIDEO_EXTENSIONS
  {
    ExtnameOfStem(stem, e);
  }

  /** The last segment of a file `e` directly inside a directory `d` (empty,
      or ending with '/') is `e`. */
  lemma LastSegmentInDirectory(d: string, e: string)
    requires d == [] || d[|d| - 1] == '/'
    requires e != [] && '/' !in e
    ensures AfterLastSlash(StripTrailingSlashes(d + e)) == e
  {
    var p := d + e;
    assert p[|p| - 1] == e[|e| - 1];
    assert StripTrailingSlashes(p) == p;
    AfterLastSlashOfSuffix(d, e);
    if d != [] {
      assert LastIndexOf(d, '/') == Some(|d| - 1);
      assert AfterLastSlash(d) == [];
    }
  }

  /** A dot-file, whose name is a '.' followed by characters that are neither
      '.' nor '/' (such as '.mp4'), has no extension, so it is rejected. */
  lemma DotFileIsNotVideo(d: string, e: string)
    requires d == [] || d[|d| - 1] == '/'
    requires e != [] && e[0] == '.' && '.' !in e[1..] && '/' !in e
    ensures Extname(d + e) == "" && !IsAllowedVideo(d + e)
  {
    LastSegmentInDirectory(d, e);
    LastDotOfSuffix("", e);
    assert [] + e == e;
    assert Lower("") == "";
  }

  /** A file name with no '.' has no extension, so it is rejected. */
  lemma NoDotIsNotVideo(d: string, e: string)
    requires d == [] || d[|d| - 1] == '/'
    requires e != [] && '.' !in e && '/' !in e
    ensures Extname(d + e) == "" && !IsAllowedVideo(d + e)
  {
    LastSegmentInDirectory(d, e);
    assert Lower("") == "";
  }

  /** The Cloudinary resource type each route uploads as. */
  function ResourceType(r: Route): string {
    if r == VideoRoute then "video" else "image"
  }

  /** The format each route converts to and uploads as. */
  function Format(r: Route): string {
    if r == VideoRoute then "mp4" else "webp"
  }

  /** The intermediate file of a route: the temp path plus '.mp4' for a video
      and '.webp' for an image. */
  function IntermediatePath(r: Route, path: string): (q: string)
    ensures |q| > |path| && q[..|path|] == path
  {
    path + (if r == VideoRoute then ".mp4" else ".webp")
  }

  /** The intermediate file is never the temp file itself, and determines it. */
  lemma IntermediatePathInjective(r: Route, p1: string, p2: string)
    ensures IntermediatePath(r, p1) != p1
    ensures IntermediatePath(r, p1) == IntermediatePath(r, p2) ==> p1 == p2
  {
    var q1, q2 := IntermediatePath(r, p1), IntermediatePath(r, p2);
    if q1 == q2 {
      assert |p1| == |p2|;
      assert p1 == q1[..|p1|] == q2[..|p2|] == p2;
    }
  }

  /** The disk multer and the handlers write to, and the uploads made so far. */
  class UploadWorkspace {
    var files: set<string>
    var uploads: seq<Upload>

    constructor (files: set<string>)
      ensures this.files == files && uploads == []
    {
      this.files := files;
      uploads := [];
    }

    /** `fs.unlinkSync(path)`, on a file that exists. */
    method Unlink(path: string)
      requires path in files
      modifies this`files
      ensures files == old(files) - {path}
    {
      files := files - {path};
    }

    /** The common tail of both helpers: the transform writes the intermediate
        file, the upload sends it, and only after a successful upload are both
        files deleted. A failed step returns its message and deletes nothing. */
    method TransformAndUpload(source: string, target: string, folder: string, resourceType: string, format: string,
                              transform: Step, upload: Result<string>) returns (r: Result<string>)
      requires source in files && source != target
      modifies this
      ensures transform.Failed? ==>
        r == Err(transform.message) && files == old(files) && uploads == old(uploads)
      ensures transform.Completed? && upload.Err? ==>
        r == Err(upload.message) && files == old(files) + {target} && uploads == old(uploads)
      ensures transform.Completed? && upload.Ok? ==>
        && r == Ok(upload.value)
        && files == old(files) - {source, target}
        && uploads == old(uploads) + [Upload(target, folder, resourceType, format)]
    {
      if transform.Failed? {
        return Err(transform.message);
      }
      files := files + {target};
      if upload.Err? {
        return Err(upload.message);
      }
      uploads := uploads + [Upload(target, folder, resourceType, format)];
      Unlink(source);
      Unlink(target);
      r := Ok(upload.value);
    }

    /** processAndUploadImage: sharp writes `path + '.webp'`, which is uploaded as a webp image. */
    method ProcessAndUploadImage(file: UploadedFile, folder: string, convert: Step, upload: Result<string>)
      returns (r: Result<string>)
      requires file.path in files
      modifies this
      ensures var webp := IntermediatePath(ImageRoute, file.path);
        && (convert.Failed? ==> r == Err(convert.message) && files == old(files) && uploads == old(uploads))
        && (convert.Completed? && upload.Err? ==>
              r == Err(upload.message) && files == old(files) + {webp} && uploads == old(uploads))
        && (convert.Completed? && upload.Ok? ==>
              && r == Ok(upload.value) && files == old(files) - {file.path, webp}
              && uploads == old(uploads) + [Upload(webp, folder, "image", "webp")])
    {
      var webp := file.path + ".webp";
      IntermediatePathInjective(ImageRoute, file.path, file.path);
      r := TransformAndUpload(file.path, webp, folder, "image", "webp", convert, upload);
    }

    /** processAndUploadVideo: a name whose lower-cased extension is not one of
        the four is rejected before anything runs; otherwise ffmpeg writes
        `path + '.mp4'`, which is uploaded as an mp4 video. */
    method ProcessAndUploadVideo(file: UploadedFile, folder: string, transcode: Step, upload: Result<string>)
      returns (r: Result<string>)
      requires file.path in files
      modifies this
      ensures !IsAllowedVideo(file.originalName) ==>
        r == Err(MSG_INVALID_VIDEO) && files == old(files) && uploads == old(uploads)
      ensures IsAllowedVideo(file.originalName) ==>
        var mp4 := IntermediatePath(VideoRoute, file.path);
        && (transcode.Failed? ==> r == Err(transcode.message) && files == old(files) && uploads == old(uploads))
        && (transcode.Completed? && upload.Err? ==>
              r == Err(upload.message) && files == old(files) + {mp4} && uploads == old(uploads))
        && (transcode.Completed? && upload.Ok? ==>
              && r == Ok(upload.value) && files == old(files) - {file.path, mp4}
              && uploads == old(uploads) + [Upload(mp4, folder, "video", "mp4")])
    {
      var ext := Lower(Extname(file.originalName));
      if ext !in VIDEO_EXTENSIONS {
        return Err(MSG_INVALID_VIDEO);
      }
      var mp4 := file.path + ".mp4";
      IntermediatePathInjective(VideoRoute, file.path, file.path);
      r := TransformAndUpload(file.path, mp4, folder, "video", "mp4", transcode, upload);
    }

    /** The four route handlers: no file is 400 and nothing runs; otherwise the
        route's helper runs with the route's folder, and its URL is the 200
        reply, its error message the 500 one. */
    method Handle(route: Route, file: Option<UploadedFile>, transform: Step, upload: Result<string>)
      returns (reply: Reply<string>)
      requires file.Some? ==> file.value.path in files
      modifies this
      ensures file.None? ==>
        reply == Reply(STATUS_BAD_REQUEST, MSG_NO_FILE, None) && files == old(files) && uploads == old(uploads)
      ensures file.Some? ==>
        var path := file.value.path;
        var target := IntermediatePath(route, path);
        var accepted := route != VideoRoute || IsAllowedVideo(file.value.originalName);
        && (!accepted ==>
              reply == Reply(STATUS_SERVER_ERROR, MSG_INVALID_VIDEO, None)
              && files == old(files) && uploads == old(uploads))
        && (accepted && transform.Failed? ==>
              reply == Reply(STATUS_SERVER_ERROR, transform.message, None)
              && files == old(files) && uploads == old(uploads))
        && (accepted && transform.Completed? && upload.Err? ==>
              reply == Reply(STATUS_SERVER_ERROR, upload.message, None)
              && files == old(files) + {target} && uploads == old(uploads))
        && (accepted && transform.Completed? && upload.Ok? ==>
              && reply == Reply(STATUS_OK, "", Some(upload.value))
              && files == old(files) - {path, target}
              && uploads == old(uploads) + [Upload(target, Folder(route), ResourceType(route), Format(route))])
    {
      if file.None? {
        return Reply(STATUS_BAD_REQUEST, MSG_NO_FILE, None);
      }
      var r;
      if route == VideoRoute {
        r := ProcessAndUploadVideo(file.value, Folder(route), transform, upload);
      } else {
        r := ProcessAndUploadImage(file.value, Folder(route), transform, upload);
      }
      match r
      case Ok(url) => reply := Reply(STATUS_OK, "", Some(url));
      case Err(message) => reply := Reply(STATUS_SERVER_ERROR, message, None);
    }
  }
}
