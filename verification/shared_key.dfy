/**
  A concrete directory on which an applying run of `renameImagesInDirectory`
  (index.js) ends at its second rename: two videos, `a S01E01.mkv` and
  `b S01E01.mkv`, carry the identifier of the one image `S01E01.jpg`. The
  first video's plan renames the image; the second video's plan still names
  the image under its old name, whose rename then fails.
 */
module SharedKey {
  import opened Wrappers
  import opened Seqs
  import opened Decimal
  import opened Episode
  import opened Names
  import opened Pairing
  import opened Renaming

  /** The numeral "01" reads as 1. */
  lemma ParseZeroOne()
    ensures Parse("01") == 1
  {
    assert "01"[..1] == "0";
    assert "0"[..0] == "";
  }

  /** The image's identifier is season 1, episode 1. */
  lemma ImageEpisode()
    ensures SeasonEpisode("S01E01.jpg") == Some(Identifier(1, 1))
  {
    var s := "S01E01.jpg";
    assert DigitRun(s, 6) == 0;
    assert DigitRun(s, 4) == 2;
    assert DigitRun(s, 1) == 2;
    assert MatchAt(s, 0) == Some(Shape(2, 0, 2));
    assert s[1..3] == "01" && s[4..6] == "01";
    ParseZeroOne();
  }

  /** What the parser finds in `c` + " S01E01.mkv": the letter and the space before the identifier do not match. */
  lemma VideoEpisode(c: char, s: string)
    requires !IsLetterS(c) && s == [c] + " S01E01.mkv"
    ensures SeasonEpisode(s) == Some(Identifier(1, 1))
  {
    assert s[1] == ' ' && s[2] == 'S' && s[3] == '0' && s[4] == '1' && s[5] == 'E' && s[6] == '0' && s[7] == '1' && s[8] == '.';
    assert DigitRun(s, 8) == 0;
    assert DigitRun(s, 7) == 1;
    assert DigitRun(s, 6) == 2;
    assert DigitRun(s, 5) == 0;
    assert DigitRun(s, 4) == 1;
    assert DigitRun(s, 3) == 2;
    assert MatchAt(s, 2) == Some(Shape(2, 0, 2));
    assert s[3..5] == "01" && s[6..8] == "01";
    ParseZeroOne();
    assert ExtractFrom(s, 2) == Some(Identifier(1, 1));
    assert MatchAt(s, 1) == None;
    assert ExtractFrom(s, 1) == ExtractFrom(s, 2);
    assert MatchAt(s, 0) == None;
    assert ExtractFrom(s, 0) == ExtractFrom(s, 1);
  }

  /** The listing of a directory where two videos share the identifier of one image. */
  const SharedKeyListing: seq<string> := ["a S01E01.mkv", "b S01E01.mkv", "S01E01.jpg"]

  /** `c` + " S01E01.mkv" is a video and not an image. */
  lemma VideoClass(c: char)
    ensures IsVideo([c] + " S01E01.mkv") && !IsImage([c] + " S01E01.mkv")
  {
    var base := [c] + " S01E01";
    assert [c] + " S01E01.mkv" == base + "." + "mkv";
    DottedNameParts(base, "mkv");
    assert "." + "mkv" == ".mkv" == VideoExtensions[1];
    assert ".mkv" !in ImageExtensions;
  }

  /** The image renamed after `c` + " S01E01.mkv" becomes `c` + " S01E01.jpg". */
  lemma VideoTarget(c: char)
    ensures NewImageName([c] + " S01E01.mkv", "S01E01.jpg") == [c] + " S01E01.jpg"
  {
    var base := [c] + " S01E01";
    assert [c] + " S01E01.mkv" == base + "." + "mkv";
    assert [c] + " S01E01.jpg" == base + "." + "jpg";
    assert "S01E01.jpg" == "S01E01" + "." + "jpg";
    DottedNameParts(base, "mkv");
    DottedNameParts("S01E01", "jpg");
  }

  /** "S01E01.jpg" is an image and not a video. */
  lemma ImageClass()
    ensures IsImage("S01E01.jpg") && !IsVideo("S01E01.jpg")
  {
    assert "S01E01.jpg" == "S01E01" + "." + "jpg";
    DottedNameParts("S01E01", "jpg");
    assert "." + "jpg" == ".jpg" == ImageExtensions[0];
    assert forall k :: 0 <= k < |VideoExtensions| ==> VideoExtensions[k] != ".jpg";
  }

  /** Filtering three names keeps each that satisfies the predicate, in order. */
  lemma FilterThree(x: string, y: string, z: string, p: string -> bool)
    ensures Filter([x, y, z], p) == (if p(x) then [x] else []) + (if p(y) then [y] else []) + (if p(z) then [z] else [])
  {
    assert [x, y, z] == [x] + [y] + [z];
    FilterAppend([x] + [y], [z], p);
    FilterAppend([x], [y], p);
    FilterSingleton(x, p);
    FilterSingleton(y, p);
    FilterSingleton(z, p);
  }

  /** Two videos followed by an image split into the two videos and the image. */
  lemma ClassifyThree(v1: string, v2: string, im: string)
    requires IsVideo(v1) && !IsImage(v1) && IsVideo(v2) && !IsImage(v2) && IsImage(im) && !IsVideo(im)
    ensures Filter([v1, v2, im], IsVideo) == [v1, v2]
    ensures Filter([v1, v2, im], IsImage) == [im]
  {
    FilterThree(v1, v2, im, IsVideo);
    FilterThree(v1, v2, im, IsImage);
  }

  /** Two videos whose key the index holds each get a plan, in order. */
  lemma PlanTwo(dir: seq<string>, v1: string, v2: string, index: map<string, string>, k: string)
    requires KeyOf(v1) == Some(k) && KeyOf(v2) == Some(k) && k in index
    ensures PlanVideos(dir, [v1, v2], index) == [
      RenamePlan(dir, v1, index[k], NewImageName(v1, index[k]), index[k] == NewImageName(v1, index[k])),
      RenamePlan(dir, v2, index[k], NewImageName(v2, index[k]), index[k] == NewImageName(v2, index[k]))]
  {
    assert [v1, v2][1..] == [v2];
    assert [v2][1..] == [];
  }

  /** A listing of two videos and one image, all of one key, plans a rename of that image per video. */
  lemma PlanListing(dir: seq<string>, v1: string, v2: string, im: string, k: string)
    requires IsVideo(v1) && !IsImage(v1) && IsVideo(v2) && !IsImage(v2) && IsImage(im) && !IsVideo(im)
    requires KeyOf(v1) == Some(k) && KeyOf(v2) == Some(k) && KeyOf(im) == Some(k)
    ensures PlanDirectory(dir, [v1, v2, im]) == [
      RenamePlan(dir, v1, im, NewImageName(v1, im), im == NewImageName(v1, im)),
      RenamePlan(dir, v2, im, NewImageName(v2, im), im == NewImageName(v2, im))]
  {
    ClassifyThree(v1, v2, im);
    assert [im][..0] == [];
    assert ImageIndex([im]) == map[k := im];
    PlanTwo(dir, v1, v2, map[k := im], k);
  }

  /** Both videos get a plan for the one image, and neither is a skip. */
  lemma SharedKeyListingPlans(dir: seq<string>)
    ensures PlanDirectory(dir, SharedKeyListing) == [
      RenamePlan(dir, "a S01E01.mkv", "S01E01.jpg", "a S01E01.jpg", false),
      RenamePlan(dir, "b S01E01.mkv", "S01E01.jpg", "b S01E01.jpg", false)]
  {
    var v1, v2, im := "a S01E01.mkv", "b S01E01.mkv", "S01E01.jpg";
    assert v1 == ['a'] + " S01E01.mkv" && v2 == ['b'] + " S01E01.mkv";
    assert "a S01E01.jpg" == ['a'] + " S01E01.jpg" && "b S01E01.jpg" == ['b'] + " S01E01.jpg";
    VideoClass('a');
    VideoClass('b');
    ImageClass();
    VideoEpisode('a', v1);
    VideoEpisode('b', v2);
    ImageEpisode();
    VideoTarget('a');
    VideoTarget('b');
    PlanListing(dir, v1, v2, im, Key(Identifier(1, 1)));
  }

  /** Two plans that are not skips make their two renames, in order. */
  lemma MovesOfTwoPlans(p1: RenamePlan, p2: RenamePlan)
    requires !p1.wouldSkip && !p2.wouldSkip
    ensures Moves([p1, p2], Apply) == [Move(ImagePath(p1), TargetPath(p1)), Move(ImagePath(p2), TargetPath(p2))]
  {
    assert [p1, p2] == [p1] + [p2];
    MovesAppend([p1], [p2], Apply);
    MovesOfOne(p1);
    MovesOfOne(p2);
  }

  /**
    A directory whose plans rename one image twice: when the image exists, the
    first rename moves it and the second finds it gone; when it does not, the
    first rename already fails.
   */
  lemma TwoPlansOfOneImage(dir: seq<string>, names: seq<string>, files: set<seq<string>>, v1: string, v2: string, im: string, t1: string, t2: string)
    requires PlanDirectory(dir, names) == [RenamePlan(dir, v1, im, t1, false), RenamePlan(dir, v2, im, t2, false)]
    requires im != t1
    ensures dir + [im] in files ==>
      Perform(files, Moves(PlanDirectory(dir, names), Apply)) == Aborted(files - {dir + [im]} + {dir + [t1]}, Move(dir + [im], dir + [t2]))
    ensures dir + [im] !in files ==>
      Perform(files, Moves(PlanDirectory(dir, names), Apply)) == Aborted(files, Move(dir + [im], dir + [t1]))
  {
    var p1, p2 := RenamePlan(dir, v1, im, t1, false), RenamePlan(dir, v2, im, t2, false);
    MovesOfTwoPlans(p1, p2);
    var m1, m2 := Move(dir + [im], dir + [t1]), Move(dir + [im], dir + [t2]);
    assert Moves(PlanDirectory(dir, names), Apply) == [m1, m2];
    if dir + [im] == dir + [t1] {
      PathInDirInjective(dir, im, t1);
    }
    assert [m1, m2][1..] == [m2];
  }

  /**
    The listing above makes two renames of `S01E01.jpg`. The image is listed,
    so it exists: the first rename moves it to `a S01E01.jpg` and the second,
    to `b S01E01.jpg`, finds it gone and ends the run. Were the image already
    gone, the first rename would end the run.
   */
  lemma SharedKeyListingAborts(dir: seq<string>, files: set<seq<string>>)
    ensures Perform(files, Moves(PlanDirectory(dir, SharedKeyListing), Apply)).Aborted?
    ensures dir + ["S01E01.jpg"] in files ==>
      Perform(files, Moves(PlanDirectory(dir, SharedKeyListing), Apply))
      == Aborted(files - {dir + ["S01E01.jpg"]} + {dir + ["a S01E01.jpg"]}, Move(dir + ["S01E01.jpg"], dir + ["b S01E01.jpg"]))
    ensures dir + ["S01E01.jpg"] !in files ==>
      Perform(files, Moves(PlanDirectory(dir, SharedKeyListing), Apply))
      == Aborted(files, Move(dir + ["S01E01.jpg"], dir + ["a S01E01.jpg"]))
  {
    var im, t1 := "S01E01.jpg", "a S01E01.jpg";
    assert |im| != |t1|;
    SharedKeyListingPlans(dir);
    TwoPlansOfOneImage(dir, SharedKeyListing, files, "a S01E01.mkv", "b S01E01.mkv", im, t1, "b S01E01.jpg");
  }
}
