/**
  File-name handling of `renameImagesInDirectory` (index.js): the ignore list,
  the two extension lists, `path.extname` on a listing entry, and the
  `split(".")` / `pop()` / `slice(0, -1).join(".")` arithmetic that builds the
  new image name.
 */
module Names {
  import opened Wrappers
  import opened Episode

  const IgnoredNames: seq<string> := [".git", "node_modules", "@eaDir"]
  const ImageExtensions: seq<string> := [".jpg", ".jpeg", ".png", ".tbn"]
  const VideoExtensions: seq<string> := [".mp4", ".mkv", ".m4v", ".avi", ".mov"]

  /** Exact, case-sensitive membership in the ignore list. */
  predicate IsIgnored(name: string) {
    name in IgnoredNames
  }

  /** Position of the last `.` in `s`, if any. */
  function LastDot(s: string): (r: Option<nat>)
    ensures r.None? ==> forall k :: 0 <= k < |s| ==> s[k] != '.'
    ensures r.Some? ==> r.value < |s| && s[r.value] == '.'
    ensures r.Some? ==> forall k :: r.value < k < |s| ==> s[k] != '.'
  {
    if s == [] then None
    else if s[|s| - 1] == '.' then Some(|s| - 1)
    else LastDot(s[..|s| - 1])
  }

  /**
    `path.extname` of a listing entry (which never contains a `/`): from the
    last dot to the end, or empty when there is no dot, when the only candidate
    dot is the first character, or for the name `..`.
   */
  function Extname(name: string): (r: string)
    ensures r == "" <==> (forall k :: 0 < k < |name| ==> name[k] != '.') || name == ".."
    ensures r != "" ==> |r| < |name| && r == name[|name| - |r|..]
    ensures r != "" ==> r[0] == '.' && forall k :: 0 < k < |r| ==> r[k] != '.'
  {
    match LastDot(name)
    case None => ""
    case Some(p) => if p == 0 || name == ".." then "" else name[p..]
  }

  /** Whether a path contains the POSIX separator `/`. */
  predicate HasSlash(s: string) {
    exists k :: 0 <= k < |s| && s[k] == '/'
  }

  /**
    Node's POSIX `path.extname`, scanning from the right as Node does: it
    skips trailing separators, stops at the separator before the last
    component, remembers the last dot, and tracks what precedes that dot
    (`preDotState` 0: nothing, 1: only dots seen last, -1: another character).
    On a name without a separator it is `Extname`.
   */
  method ExtnameScan(path: string) returns (r: string)
    ensures !HasSlash(path) ==> r == Extname(path)
  {
    var startDot := -1;
    var startPart := 0;
    var end := -1;
    var matchedSlash := true;
    var preDotState := 0;
    var i := |path| - 1;
    while i >= 0
      invariant -1 <= i < |path|
      invariant 0 <= startPart <= |path| && end <= |path|
      invariant end != -1 ==> i < end
      invariant startDot != -1 ==> i < startDot < end
      invariant !HasSlash(path) ==> startPart == 0 && matchedSlash == (end == -1)
      invariant !HasSlash(path) ==> (if i == |path| - 1 then end == -1 else end == |path|)
      invariant !HasSlash(path) ==> (startDot == -1 <==> forall k :: i < k < |path| ==> path[k] != '.')
      invariant !HasSlash(path) && startDot != -1 ==>
        path[startDot] == '.' && forall k :: startDot < k < |path| ==> path[k] != '.'
      invariant !HasSlash(path) ==>
        preDotState == (if startDot == -1 || startDot == i + 1 then 0 else if path[i + 1] == '.' then 1 else -1)
      decreases i
    {
      var c := path[i];
      if c == '/' {
        if !matchedSlash {
          startPart := i + 1;
          break;
        }
        i := i - 1;
        continue;
      }
      if end == -1 {
        matchedSlash := false;
        end := i + 1;
      }
      if c == '.' {
        if startDot == -1 {
          startDot := i;
        } else if preDotState != 1 {
          preDotState := 1;
        }
      } else if startDot != -1 {
        preDotState := -1;
      }
      i := i - 1;
    }
    if startDot == -1 || end == -1 || preDotState == 0
      || (preDotState == 1 && startDot == end - 1 && startDot == startPart + 1)
    {
      r := "";
    } else {
      r := path[startDot..end];
    }
    if !HasSlash(path) && startDot != -1 {
      LastDotCharacterised(path, startDot);
    }
  }

  predicate IsImage(name: string) {
    Extname(name) in ImageExtensions
  }

  predicate IsVideo(name: string) {
    Extname(name) in VideoExtensions
  }

  /** JavaScript's `parts.join(".")`. */
  function Join(parts: seq<string>): string {
    if |parts| == 0 then ""
    else if |parts| == 1 then parts[0]
    else Join(parts[..|parts| - 1]) + "." + parts[|parts| - 1]
  }

  /** JavaScript's `s.split(".")`: the dot-free pieces whose join is `s`. */
  function Split(s: string): (parts: seq<string>)
    ensures |parts| >= 1
    ensures forall i, k :: 0 <= i < |parts| && 0 <= k < |parts[i]| ==> parts[i][k] != '.'
    ensures Join(parts) == s
    decreases |s|
  {
    match LastDot(s)
    case None => [s]
    case Some(p) =>
      var front := Split(s[..p]);
      var parts := front + [s[p + 1..]];
      assert parts[..|parts| - 1] == front;
      assert s == s[..p] + "." + s[p + 1..];
      parts
  }

  /** `image.split(".").pop()`. */
  function ImageExtension(image: string): string {
    var parts := Split(image);
    parts[|parts| - 1]
  }

  /** `videoName.split(".").slice(0, -1).join(".")`. */
  function VideoBaseName(video: string): string {
    var parts := Split(video);
    Join(parts[..|parts| - 1])
  }

  /** `${videoBaseName}.${imageExtension}`. */
  function NewImageName(video: string, image: string): string {
    VideoBaseName(video) + "." + ImageExtension(image)
  }

  /** The popped piece is what follows the last dot (the whole name when there is none). */
  lemma ImageExtensionAfterLastDot(image: string)
    ensures LastDot(image).None? ==> ImageExtension(image) == image
    ensures LastDot(image).Some? ==> ImageExtension(image) == image[LastDot(image).value + 1..]
  {
  }

  /** The joined front pieces are what precedes the last dot (the empty string when there is none). */
  lemma VideoBaseNameBeforeLastDot(video: string)
    ensures LastDot(video).None? ==> VideoBaseName(video) == ""
    ensures LastDot(video).Some? ==> VideoBaseName(video) == video[..LastDot(video).value]
  {
    match LastDot(video)
    case None =>
    case Some(p) =>
      var front := Split(video[..p]);
      assert (front + [video[p + 1..]])[..|front|] == front;
  }

  /** The dot with no dot after it is the last dot. */
  lemma LastDotCharacterised(s: string, p: nat)
    requires p < |s| && s[p] == '.'
    requires forall k :: p < k < |s| ==> s[k] != '.'
    ensures LastDot(s) == Some(p)
  {
  }

  /** Appending a dot and a dot-free tail makes that dot the last one. */
  lemma LastDotOfDottedSuffix(x: string, y: string)
    requires forall k :: 0 <= k < |y| ==> y[k] != '.'
    ensures LastDot(x + "." + y) == Some(|x|)
  {
    var s := x + "." + y;
    assert |s| == |x| + 1 + |y| && s[|x|] == '.';
    forall k | |x| < k < |s| ensures s[k] != '.' {
      assert s[k] == y[k - |x| - 1];
    }
    LastDotCharacterised(s, |x|);
  }

  /** No name is both an image and a video. */
  lemma ExtensionListsDisjoint(name: string)
    ensures !(IsImage(name) && IsVideo(name))
  {
  }

  /** A name without a dot, or whose only dot is its first character, is neither an image nor a video. */
  lemma UndottedNamesUnclassified(name: string)
    requires forall k :: 0 < k < |name| ==> name[k] != '.'
    ensures !IsImage(name) && !IsVideo(name)
  {
  }

  /** Extension matching is case-sensitive: an upper-case `.JPG` is not an image extension. */
  lemma UpperCaseExtensionUnclassified(stem: string)
    ensures !IsImage(stem + ".JPG") && !IsVideo(stem + ".JPG")
  {
    LastDotOfDottedSuffix(stem, "JPG");
  }

  /** The extension of a classified name starts at its last dot, which is not its first character. */
  lemma ClassifiedLastDot(name: string)
    requires IsImage(name) || IsVideo(name)
    ensures LastDot(name).Some? && LastDot(name).value > 0
    ensures Extname(name) == name[LastDot(name).value..]
  {
    var e := Extname(name);
    assert e in ImageExtensions || e in VideoExtensions;
    assert e != "";
  }

  /** Cutting a string at a dot. */
  lemma DotSplit(s: string, p: nat)
    requires p < |s| && s[p] == '.'
    ensures s[p..] == "." + s[p + 1..]
    ensures s == s[..p] + "." + s[p + 1..]
  {
    assert s == s[..p] + s[p..];
  }

  /** A classified name has a dot after its first character, and its extension comes from that dot. */
  lemma ClassifiedNameShape(name: string)
    requires IsImage(name) || IsVideo(name)
    ensures LastDot(name).Some? && LastDot(name).value > 0
    ensures name == VideoBaseName(name) + "." + ImageExtension(name)
    ensures "." + ImageExtension(name) == Extname(name)
  {
    ClassifiedLastDot(name);
    var p := LastDot(name).value;
    ImageExtensionAfterLastDot(name);
    VideoBaseNameBeforeLastDot(name);
    DotSplit(name, p);
  }

  /** None of the listed extensions contains a letter `s`, so none can start an identifier match. */
  lemma ListedExtensionsHaveNoLetterS(ext: string)
    requires "." + ext in ImageExtensions || "." + ext in VideoExtensions
    ensures forall k :: 0 <= k < |ext| ==> !IsLetterS(ext[k]) && ext[k] != '.'
  {
    var dotted := "." + ext;
    assert ext == dotted[1..];
  }

  /** A name built from a non-empty base, a dot and a non-empty dot-free extension splits back into the two. */
  lemma DottedNameParts(base: string, ext: string)
    requires |base| > 0 && |ext| > 0 && forall k :: 0 <= k < |ext| ==> ext[k] != '.'
    ensures Extname(base + "." + ext) == "." + ext
    ensures ImageExtension(base + "." + ext) == ext
    ensures VideoBaseName(base + "." + ext) == base
  {
    var s := base + "." + ext;
    LastDotOfDottedSuffix(base, ext);
    ImageExtensionAfterLastDot(s);
    VideoBaseNameBeforeLastDot(s);
    assert s[|base| + 1..] == ext;
    assert s[..|base|] == base;
    assert s[|base|..] == "." + ext;
    assert |s| > 2;
  }

  /**
    The name an image gets from a video: still an image (never a video), with
    the image's extension, the video's base name and the video's identifier;
    computing it again from the renamed image changes nothing.
   */
  lemma NewImageNameFacts(video: string, image: string)
    requires IsVideo(video) && IsImage(image)
    ensures IsImage(NewImageName(video, image)) && !IsVideo(NewImageName(video, image))
    ensures ImageExtension(NewImageName(video, image)) == ImageExtension(image)
    ensures VideoBaseName(NewImageName(video, image)) == VideoBaseName(video)
    ensures SeasonEpisode(NewImageName(video, image)) == SeasonEpisode(video)
    ensures NewImageName(video, NewImageName(video, image)) == NewImageName(video, image)
  {
    var base, ext := VideoBaseName(video), ImageExtension(image);
    var target := NewImageName(video, image);
    ClassifiedNameShape(image);
    ClassifiedNameShape(video);
    VideoBaseNameBeforeLastDot(video);
    assert |base| > 0;
    assert "." + ext in ImageExtensions;
    assert |ext| > 0;
    ListedExtensionsHaveNoLetterS(ext);
    ListedExtensionsHaveNoLetterS(ImageExtension(video));
    DottedNameParts(base, ext);
    assert IsImage(target);
    ExtensionListsDisjoint(target);
    ExtractIgnoresDotSuffix(base, ext);
    ExtractIgnoresDotSuffix(base, ImageExtension(video));
  }
}
