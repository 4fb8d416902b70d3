/**
  The pairing phase of `renameImagesInDirectory` (index.js) for one directory
  listing: classify names, index images by identifier (the last one seen
  wins), then give every video whose identifier has an image a rename plan.
 */
module Pairing {
  import opened Wrappers
  import opened Seqs
  import opened Episode
  import opened Names

  /** The index key `${season}-${episode}` of a name that carries an identifier. */
  function KeyOf(name: string): Option<string> {
    match SeasonEpisode(name)
    case None => None
    case Some(e) => Some(Key(e))
  }

  /** Two names share a key exactly when they carry the same identifier. */
  lemma SameKeyIffSameEpisode(x: string, y: string)
    requires SeasonEpisode(x).Some? && SeasonEpisode(y).Some?
    ensures KeyOf(x) == KeyOf(y) <==> SeasonEpisode(x) == SeasonEpisode(y)
  {
    KeyInjective(SeasonEpisode(x).value, SeasonEpisode(y).value);
  }

  /**
    `imageEpisodeMap` built with the key function `key`: a key is present
    exactly when some image carries it.
   */
  function IndexBy(images: seq<string>, key: string -> Option<string>): (m: map<string, string>)
    ensures forall k :: k in m <==> exists i :: 0 <= i < |images| && key(images[i]) == Some(k)
    decreases |images|
  {
    if images == [] then map[]
    else
      var earlier := images[..|images| - 1];
      var m := IndexBy(earlier, key);
      var last := images[|images| - 1];
      assert forall i :: 0 <= i < |earlier| ==> earlier[i] == images[i];
      match key(last)
      case None => m
      case Some(k) => m[k := last]
  }

  /** Position `i` holds the last image in `images` whose key is `k`. */
  ghost predicate LastWithKey(images: seq<string>, key: string -> Option<string>, k: string, i: int) {
    && 0 <= i < |images| && key(images[i]) == Some(k)
    && forall j :: i < j < |images| ==> key(images[j]) != Some(k)
  }

  /** The index maps key `k` to the last image in listing order that carries it: later images overwrite earlier ones. */
  lemma {:induction false} IndexByLastWins(images: seq<string>, key: string -> Option<string>, k: string)
    requires k in IndexBy(images, key)
    ensures exists i :: LastWithKey(images, key, k, i) && images[i] == IndexBy(images, key)[k]
    decreases |images|
  {
    assert images != [];
    var earlier := images[..|images| - 1];
    var last := images[|images| - 1];
    var m := IndexBy(earlier, key);
    assert IndexBy(images, key) == if key(last).None? then m else m[key(last).value := last];
    if key(last) == Some(k) {
      assert IndexBy(images, key)[k] == last;
      assert LastWithKey(images, key, k, |images| - 1);
    } else {
      assert k in m && IndexBy(images, key)[k] == m[k];
      IndexByLastWins(earlier, key, k);
      var i :| LastWithKey(earlier, key, k, i) && earlier[i] == IndexBy(earlier, key)[k];
      assert forall j :: i <= j < |earlier| ==> earlier[j] == images[j];
      assert LastWithKey(images, key, k, i);
    }
  }

  /** The source's index, keyed by `${season}-${episode}`. */
  function ImageIndex(images: seq<string>): map<string, string> {
    IndexBy(images, KeyOf)
  }

  /**
    What the loop over videos decides for one video: the directory it is in
    (relative to the starting directory), the video, the image it found, the
    name the image should get, and whether that name is already the image's.
   */
  datatype RenamePlan = RenamePlan(dir: seq<string>, video: string, image: string, target: string, wouldSkip: bool)

  /** A video gets a plan exactly when it has an identifier whose key the index holds. */
  predicate HasImage(index: map<string, string>, video: string) {
    KeyOf(video).Some? && KeyOf(video).value in index
  }

  function PlannedVideos(plans: seq<RenamePlan>): (vs: seq<string>)
    ensures |vs| == |plans|
    ensures forall i :: 0 <= i < |plans| ==> vs[i] == plans[i].video
  {
    if plans == [] then [] else [plans[0].video] + PlannedVideos(plans[1..])
  }

  /** A plan describes the video's pairing with the image the index gives its key. */
  predicate PlanFollowsIndex(p: RenamePlan, dir: seq<string>, index: map<string, string>) {
    && p.dir == dir
    && HasImage(index, p.video)
    && p.image == index[KeyOf(p.video).value]
    && p.target == NewImageName(p.video, p.image)
    && (p.wouldSkip <==> p.image == p.target)
  }

  /**
    The loop over videos (index.js): the plans are for exactly the videos that
    have an image, in their listing order, and each follows the index.
   */
  function PlanVideos(dir: seq<string>, videos: seq<string>, index: map<string, string>): (plans: seq<RenamePlan>)
    ensures PlannedVideos(plans) == Filter(videos, (v: string) => HasImage(index, v))
    ensures forall p :: p in plans ==> PlanFollowsIndex(p, dir, index)
  {
    if videos == [] then []
    else
      var v := videos[0];
      var rest := PlanVideos(dir, videos[1..], index);
      match KeyOf(v)
      case None => rest
      case Some(k) =>
        if k !in index then rest
        else
          var image := index[k];
          var target := NewImageName(v, image);
          var plans := [RenamePlan(dir, v, image, target, image == target)] + rest;
          assert plans[1..] == rest;
          plans
  }

  /** The images and videos of one listing, and the plans made for its videos. */
  function PlanDirectory(dir: seq<string>, names: seq<string>): seq<RenamePlan> {
    var videos := Filter(names, IsVideo);
    var images := Filter(names, IsImage);
    PlanVideos(dir, videos, ImageIndex(images))
  }

  /**
    Every plan of a directory pairs a video of the listing with the last image
    of the listing that carries the same identifier; the target is an image
    name with that identifier too, and the plan is a skip exactly when the
    image already has the target name.
   */
  lemma PlanDirectorySound(dir: seq<string>, names: seq<string>, p: RenamePlan)
    requires p in PlanDirectory(dir, names)
    ensures p.dir == dir
    ensures p.video in names && IsVideo(p.video) && KeyOf(p.video).Some?
    ensures p.image in names && IsImage(p.image) && KeyOf(p.image) == KeyOf(p.video)
    ensures exists i :: LastWithKey(Filter(names, IsImage), KeyOf, KeyOf(p.video).value, i) && Filter(names, IsImage)[i] == p.image
    ensures p.target == NewImageName(p.video, p.image)
    ensures IsImage(p.target) && KeyOf(p.target) == KeyOf(p.video)
    ensures p.wouldSkip <==> p.image == p.target
  {
    var videos := Filter(names, IsVideo);
    var images := Filter(names, IsImage);
    var index := ImageIndex(images);
    var plans := PlanVideos(dir, videos, index);
    assert PlanFollowsIndex(p, dir, index);
    var k := KeyOf(p.video).value;
    var n :| 0 <= n < |plans| && plans[n] == p;
    assert PlannedVideos(plans)[n] == p.video;
    assert p.video in videos;
    IndexByLastWins(images, KeyOf, k);
    var i :| LastWithKey(images, KeyOf, k, i) && images[i] == index[k];
    assert images[i] in names;
    NewImageNameFacts(p.video, p.image);
  }

  /** Conversely, every video with an identifier that some image of the listing shares gets a plan. */
  lemma PlanDirectoryComplete(dir: seq<string>, names: seq<string>, video: string, image: string)
    requires video in names && IsVideo(video) && KeyOf(video).Some?
    requires image in names && IsImage(image) && KeyOf(image) == KeyOf(video)
    ensures exists p :: p in PlanDirectory(dir, names) && p.video == video
  {
    var videos := Filter(names, IsVideo);
    var images := Filter(names, IsImage);
    var index := ImageIndex(images);
    var plans := PlanVideos(dir, videos, index);
    var i :| 0 <= i < |images| && images[i] == image by {
      assert image in images;
    }
    assert HasImage(index, video);
    assert video in videos;
    assert video in Filter(videos, (v: string) => HasImage(index, v));
    var n :| 0 <= n < |plans| && PlannedVideos(plans)[n] == video;
    assert plans[n] in plans;
  }

  /** Several videos sharing an identifier all resolve to the same image. */
  lemma SharedKeySharesImage(dir: seq<string>, names: seq<string>, p: RenamePlan, q: RenamePlan)
    requires p in PlanDirectory(dir, names) && q in PlanDirectory(dir, names)
    requires KeyOf(p.video) == KeyOf(q.video)
    ensures p.image == q.image
  {
    var index := ImageIndex(Filter(names, IsImage));
    assert PlanFollowsIndex(p, dir, index) && PlanFollowsIndex(q, dir, index);
  }

  /** A listing without repeated names gets at most one plan per video. */
  lemma PlanDirectoryDistinctVideos(dir: seq<string>, names: seq<string>)
    requires NoDuplicates(names)
    ensures forall i, j :: 0 <= i < j < |PlanDirectory(dir, names)| ==>
      PlanDirectory(dir, names)[i].video != PlanDirectory(dir, names)[j].video
  {
    var videos := Filter(names, IsVideo);
    var index := ImageIndex(Filter(names, IsImage));
    var plans := PlanVideos(dir, videos, index);
    FilterNoDuplicates(names, IsVideo);
    FilterNoDuplicates(videos, (v: string) => HasImage(index, v));
    var vs := PlannedVideos(plans);
    forall i, j | 0 <= i < j < |plans| ensures plans[i].video != plans[j].video {
      assert vs[i] == plans[i].video && vs[j] == plans[j].video;
    }
  }
}
