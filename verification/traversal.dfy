/**
  The recursive walk of `renameImagesInDirectory` (index.js) over a snapshot
  of the directory tree. Each directory's listing is filtered against the
  ignore list; every remaining entry that `lstat` reports as a directory is
  processed completely, in listing order, before the directory's own pairing.
  The walk returns the rename plans in the order the source reaches them.
 */
module Traversal {
  import opened Seqs
  import opened Names
  import opened Pairing

  /**
    A listing entry as `lstat` reports it. A symbolic link is a leaf whatever
    it points to, since `lstat` does not follow it.
   */
  datatype Entry =
    | Directory(name: string, listing: seq<Entry>)
    | File(name: string)
    | Symlink(name: string)

  function Size(e: Entry): (n: nat)
    ensures n >= 1
  {
    match e
    case Directory(_, listing) => 1 + SizeAll(listing)
    case File(_) => 1
    case Symlink(_) => 1
  }

  function SizeAll(es: seq<Entry>): nat {
    if es == [] then 0 else Size(es[0]) + SizeAll(es[1..])
  }

  predicate NotIgnored(e: Entry) {
    !IsIgnored(e.name)
  }

  /** The listing without the ignored names, in listing order (files as well as directories). */
  function Kept(listing: seq<Entry>): seq<Entry> {
    Filter(listing, NotIgnored)
  }

  lemma {:induction false} FilterShrinks(es: seq<Entry>, p: Entry -> bool)
    ensures SizeAll(Filter(es, p)) <= SizeAll(es)
  {
    if es != [] {
      FilterShrinks(es[1..], p);
      var r := Filter(es, p);
      assert SizeAll(es) == Size(es[0]) + SizeAll(es[1..]);
      if p(es[0]) {
        assert r[0] == es[0] && r[1..] == Filter(es[1..], p);
        assert SizeAll(r) == Size(es[0]) + SizeAll(Filter(es[1..], p));
      } else {
        assert r == Filter(es[1..], p);
      }
    }
  }

  function NamesOf(es: seq<Entry>): (names: seq<string>)
    ensures |names| == |es|
    ensures forall i :: 0 <= i < |es| ==> names[i] == es[i].name
  {
    if es == [] then [] else [es[0].name] + NamesOf(es[1..])
  }

  /** A directory reached by the walk: its path below the starting directory and its filtered listing. */
  datatype Visit = Visit(dir: seq<string>, names: seq<string>)

  /**
    The directories the walk pairs, in the order it pairs them: every
    directory entry of the filtered listing, in listing order and each
    completely, and then the directory itself.
   */
  function Visits(dir: seq<string>, listing: seq<Entry>): seq<Visit>
    decreases SizeAll(listing), 1
  {
    var kept := Kept(listing);
    FilterShrinks(listing, NotIgnored);
    VisitsBelow(dir, kept) + [Visit(dir, NamesOf(kept))]
  }

  /** The loop over a filtered listing that recurses into each directory entry in turn. */
  function VisitsBelow(dir: seq<string>, es: seq<Entry>): seq<Visit>
    decreases SizeAll(es), 0
  {
    if es == [] then []
    else
      assert SizeAll(es) == Size(es[0]) + SizeAll(es[1..]);
      var first := match es[0]
        case Directory(name, listing) => Visits(dir + [name], listing)
        case File(_) => []
        case Symlink(_) => [];
      first + VisitsBelow(dir, es[1..])
  }

  /** A per-directory pairing: from a directory's path and filtered names to its plans. */
  type Pairer = (seq<string>, seq<string>) -> seq<RenamePlan>

  /** The plans of a sequence of visits, one directory's pairing after the other. */
  function PlansOf(visits: seq<Visit>, pair: Pairer): seq<RenamePlan> {
    if visits == [] then [] else pair(visits[0].dir, visits[0].names) + PlansOf(visits[1..], pair)
  }

  /** The whole run, starting at the resolved working directory whose listing is `root`. */
  function Run(root: seq<Entry>): seq<RenamePlan> {
    PlansOf(Visits([], root), PlanDirectory)
  }

  /** The path `d` is `dir` or lies below it. */
  ghost predicate Extends(d: seq<string>, dir: seq<string>) {
    |dir| <= |d| && forall k :: 0 <= k < |dir| ==> d[k] == dir[k]
  }

  /** `a` names a directory strictly above the directory `b` names. */
  ghost predicate StrictAncestor(a: seq<string>, b: seq<string>) {
    |a| < |b| && Extends(b, a)
  }

  /** The walk stays below its starting directory and pairs that directory last. */
  lemma {:induction false} VisitsShape(dir: seq<string>, listing: seq<Entry>)
    ensures |Visits(dir, listing)| >= 1
    ensures Visits(dir, listing)[|Visits(dir, listing)| - 1] == Visit(dir, NamesOf(Kept(listing)))
    ensures forall v :: v in Visits(dir, listing) ==> Extends(v.dir, dir)
    decreases SizeAll(listing), 1
  {
    FilterShrinks(listing, NotIgnored);
    VisitsBelowShape(dir, Kept(listing));
  }

  /**
    Every directory the loop over a listing pairs lies strictly below the
    current directory, inside one of the listing's entries.
   */
  lemma {:induction false} VisitsBelowShape(dir: seq<string>, es: seq<Entry>)
    ensures forall v :: v in VisitsBelow(dir, es) ==>
      Extends(v.dir, dir) && |dir| < |v.dir| && v.dir[|dir|] in NamesOf(es)
    decreases SizeAll(es), 0
  {
    if es != [] {
      assert SizeAll(es) == Size(es[0]) + SizeAll(es[1..]);
      VisitsBelowShape(dir, es[1..]);
      assert NamesOf(es) == [es[0].name] + NamesOf(es[1..]);
      match es[0]
      case Directory(name, listing) =>
        VisitsShape(dir + [name], listing);
        forall v | v in Visits(dir + [name], listing)
          ensures Extends(v.dir, dir) && |dir| < |v.dir| && v.dir[|dir|] == name
        {
          assert v.dir[|dir|] == (dir + [name])[|dir|];
        }
      case File(_) =>
      case Symlink(_) =>
    }
  }

  /** No two entries of a listing share a name, as in any directory. */
  ghost predicate DistinctNames(es: seq<Entry>) {
    forall i, j :: 0 <= i < j < |es| ==> es[i].name != es[j].name
  }

  /** A snapshot a file system can produce: distinct names in every directory. */
  ghost predicate WellFormed(listing: seq<Entry>)
    decreases listing
  {
    && DistinctNames(listing)
    && forall i :: 0 <= i < |listing| && listing[i].Directory? ==> WellFormed(listing[i].listing)
  }

  /** No visit lies strictly above a later one: each directory is paired after everything below it. */
  ghost predicate PostOrder(visits: seq<Visit>) {
    forall a, b :: 0 <= a < b < |visits| ==> !StrictAncestor(visits[a].dir, visits[b].dir)
  }

  lemma PostOrderAppend(xs: seq<Visit>, ys: seq<Visit>)
    requires PostOrder(xs) && PostOrder(ys)
    requires forall x, y :: x in xs && y in ys ==> !StrictAncestor(x.dir, y.dir)
    ensures PostOrder(xs + ys)
  {
    var zs := xs + ys;
    forall a, b | 0 <= a < b < |zs|
      ensures !StrictAncestor(zs[a].dir, zs[b].dir)
    {
      if b < |xs| {
        assert zs[a] == xs[a] && zs[b] == xs[b];
      } else if a < |xs| {
        assert zs[a] in xs && zs[b] in ys;
      } else {
        assert zs[a] == ys[a - |xs|] && zs[b] == ys[b - |xs|];
      }
    }
  }

  /** Filtering keeps a well-formed listing's entries well-formed and their names distinct. */
  lemma {:induction false} KeptWellFormed(es: seq<Entry>)
    requires WellFormed(es)
    ensures DistinctNames(Kept(es))
    ensures forall i :: 0 <= i < |Kept(es)| && Kept(es)[i].Directory? ==> WellFormed(Kept(es)[i].listing)
  {
    if es != [] {
      assert WellFormed(es[1..]) by {
        forall i | 0 <= i < |es[1..]| && es[1..][i].Directory?
          ensures WellFormed(es[1..][i].listing)
        {
          assert es[1..][i] == es[i + 1];
        }
      }
      KeptWellFormed(es[1..]);
      var rest := Kept(es[1..]);
      forall i | 0 <= i < |rest|
        ensures rest[i].name != es[0].name
      {
        var j :| 0 <= j < |es[1..]| && es[1..][j] == rest[i];
        assert es[j + 1] == rest[i];
      }
      if NotIgnored(es[0]) {
        assert Kept(es) == [es[0]] + rest;
      } else {
        assert Kept(es) == rest;
      }
    }
  }

  /**
    The visits `vs` of the walk from `dir` over `listing` are depth-first in
    listing order: in every reachable directory, everything below an earlier
    entry of its filtered listing comes before everything below a later one.
   */
  ghost predicate DepthFirst(dir: seq<string>, listing: seq<Entry>, vs: seq<Visit>) {
    forall path, names, i, j, a, b ::
      (&& Reaches(listing, path, names) && 0 <= i < j < |names| && 0 <= a < |vs| && 0 <= b < |vs|
       && Extends(vs[a].dir, dir + path + [names[i]]) && Extends(vs[b].dir, dir + path + [names[j]]))
      ==> a < b
  }

  /** The walk is depth-first in listing order in every reachable directory. */
  lemma VisitsDepthFirst(dir: seq<string>, listing: seq<Entry>)
    requires WellFormed(listing)
    ensures DepthFirst(dir, listing, Visits(dir, listing))
  {
    var vs := Visits(dir, listing);
    forall path, names, i, j, a, b |
      Reaches(listing, path, names) && 0 <= i < j < |names| && 0 <= a < |vs| && 0 <= b < |vs|
      && Extends(vs[a].dir, dir + path + [names[i]]) && Extends(vs[b].dir, dir + path + [names[j]])
      ensures a < b
    {
      VisitsListingOrder(dir, listing, path, names, i, j, a, b);
    }
  }

  /**
    In a well-formed snapshot the walk pairs every directory after all
    directories below it, and finishes each entry of a filtered listing, in
    listing order, before it starts on the next.
   */
  lemma {:induction false} VisitsPostOrder(dir: seq<string>, listing: seq<Entry>)
    requires WellFormed(listing)
    ensures PostOrder(Visits(dir, listing))
    ensures DepthFirst(dir, listing, Visits(dir, listing))
    decreases SizeAll(listing), 1
  {
    VisitsDepthFirst(dir, listing);
    var kept := Kept(listing);
    FilterShrinks(listing, NotIgnored);
    KeptWellFormed(listing);
    VisitsBelowPostOrder(dir, kept);
    VisitsBelowShape(dir, kept);
    PostOrderAppend(VisitsBelow(dir, kept), [Visit(dir, NamesOf(kept))]);
  }

  lemma {:induction false} VisitsBelowPostOrder(dir: seq<string>, es: seq<Entry>)
    requires DistinctNames(es)
    requires forall i :: 0 <= i < |es| && es[i].Directory? ==> WellFormed(es[i].listing)
    ensures PostOrder(VisitsBelow(dir, es))
    decreases SizeAll(es), 0
  {
    if es != [] {
      assert SizeAll(es) == Size(es[0]) + SizeAll(es[1..]);
      var rest := VisitsBelow(dir, es[1..]);
      assert DistinctNames(es[1..]) by {
        forall i, j | 0 <= i < j < |es[1..]|
          ensures es[1..][i].name != es[1..][j].name
        {
          assert es[1..][i] == es[i + 1] && es[1..][j] == es[j + 1];
        }
      }
      forall i | 0 <= i < |es[1..]| && es[1..][i].Directory?
        ensures WellFormed(es[1..][i].listing)
      {
        assert es[1..][i] == es[i + 1];
      }
      VisitsBelowPostOrder(dir, es[1..]);
      VisitsBelowShape(dir, es[1..]);
      match es[0]
      case Directory(name, listing) =>
        var first := Visits(dir + [name], listing);
        VisitsPostOrder(dir + [name], listing);
        VisitsShape(dir + [name], listing);
        forall x, y | x in first && y in rest
          ensures !StrictAncestor(x.dir, y.dir)
        {
          assert x.dir[|dir|] == (dir + [name])[|dir|] == name;
          var k :| 0 <= k < |es[1..]| && NamesOf(es[1..])[k] == y.dir[|dir|];
          assert es[k + 1].name == y.dir[|dir|];
        }
        PostOrderAppend(first, rest);
      case File(_) =>
        assert VisitsBelow(dir, es) == rest;
      case Symlink(_) =>
        assert VisitsBelow(dir, es) == rest;
    }
  }

  /**
    `path` leads from the directory whose listing is `listing` through entries
    that survive the ignore list and that `lstat` reports as directories, to a
    directory whose filtered listing has the names `names`.
   */
  ghost predicate Reaches(listing: seq<Entry>, path: seq<string>, names: seq<string>)
    decreases path
  {
    if path == [] then names == NamesOf(Kept(listing))
    else exists i :: (0 <= i < |Kept(listing)| && Kept(listing)[i].Directory? && Kept(listing)[i].name == path[0]
      && Reaches(Kept(listing)[i].listing, path[1..], names))
  }

  /** The walk pairs only directories it can reach, each with its own filtered listing. */
  lemma {:induction false} VisitsReachable(dir: seq<string>, listing: seq<Entry>)
    ensures forall v :: v in Visits(dir, listing) ==> Extends(v.dir, dir) && Reaches(listing, v.dir[|dir|..], v.names)
    decreases SizeAll(listing), 1
  {
    var kept := Kept(listing);
    FilterShrinks(listing, NotIgnored);
    VisitsShape(dir, listing);
    VisitsBelowShape(dir, kept);
    VisitsBelowReachable(dir, kept);
    forall v | v in Visits(dir, listing)
      ensures Reaches(listing, v.dir[|dir|..], v.names)
    {
      if v in VisitsBelow(dir, kept) {
        var path := v.dir[|dir|..];
        assert path[0] == v.dir[|dir|] && path[1..] == v.dir[|dir| + 1..];
      } else {
        assert v == Visit(dir, NamesOf(kept));
        assert v.dir[|dir|..] == [];
      }
    }
  }

  lemma {:induction false} VisitsBelowReachable(dir: seq<string>, es: seq<Entry>)
    ensures forall v :: v in VisitsBelow(dir, es) ==> (|dir| < |v.dir| &&
      exists i :: 0 <= i < |es| && es[i].Directory? && es[i].name == v.dir[|dir|] && Reaches(es[i].listing, v.dir[|dir| + 1..], v.names))
    decreases SizeAll(es), 0
  {
    if es != [] {
      assert SizeAll(es) == Size(es[0]) + SizeAll(es[1..]);
      VisitsBelowReachable(dir, es[1..]);
      forall v | v in VisitsBelow(dir, es[1..])
        ensures exists i :: 0 <= i < |es| && es[i].Directory? && es[i].name == v.dir[|dir|] && Reaches(es[i].listing, v.dir[|dir| + 1..], v.names)
      {
        var i :| 0 <= i < |es[1..]| && es[1..][i].Directory? && es[1..][i].name == v.dir[|dir|] && Reaches(es[1..][i].listing, v.dir[|dir| + 1..], v.names);
        assert es[1..][i] == es[i + 1];
      }
      match es[0]
      case Directory(name, listing) =>
        VisitsReachable(dir + [name], listing);
        forall v | v in Visits(dir + [name], listing)
          ensures |dir| < |v.dir| && v.dir[|dir|] == name && Reaches(listing, v.dir[|dir| + 1..], v.names)
        {
          assert v.dir[|dir|] == (dir + [name])[|dir|];
        }
      case File(_) =>
      case Symlink(_) =>
    }
  }

  /** Every loop over a listing pairs everything below each of its directory entries. */
  lemma {:induction false} VisitsBelowIncludes(dir: seq<string>, es: seq<Entry>, i: nat)
    requires i < |es| && es[i].Directory?
    ensures forall v :: v in Visits(dir + [es[i].name], es[i].listing) ==> v in VisitsBelow(dir, es)
  {
    if i > 0 {
      VisitsBelowIncludes(dir, es[1..], i - 1);
      assert es[1..][i - 1] == es[i];
    }
  }

  /** The walk pairs every directory it can reach, with that directory's filtered listing. */
  lemma {:induction false} ReachableVisited(dir: seq<string>, listing: seq<Entry>, path: seq<string>, names: seq<string>)
    requires Reaches(listing, path, names)
    ensures Visit(dir + path, names) in Visits(dir, listing)
    decreases path
  {
    var kept := Kept(listing);
    if path == [] {
      VisitsShape(dir, listing);
      assert dir + path == dir;
    } else {
      var i :| 0 <= i < |kept| && kept[i].Directory? && kept[i].name == path[0] && Reaches(kept[i].listing, path[1..], names);
      var child := kept[i];
      ReachableVisited(dir + [child.name], child.listing, path[1..], names);
      assert dir + [child.name] + path[1..] == dir + path;
      VisitsBelowIncludes(dir, kept, i);
      assert Visits(dir, listing) == VisitsBelow(dir, kept) + [Visit(dir, NamesOf(kept))];
    }
  }

  /** A pairing that keeps every plan in the directory it pairs. */
  ghost predicate PairsInPlace(pair: Pairer) {
    forall dir, names, p :: p in pair(dir, names) ==> p.dir == dir
  }

  /** Every plan a directory's own pairing makes lies in that directory. */
  lemma PlanDirectoryInPlace()
    ensures PairsInPlace(PlanDirectory)
  {
    forall dir, names, p | p in PlanDirectory(dir, names)
      ensures p.dir == dir
    {
      PlanDirectorySound(dir, names, p);
    }
  }

  /** Every plan comes from the pairing of one of the visits. */
  lemma {:induction false} PlansOfOrigin(visits: seq<Visit>, pair: Pairer, i: nat)
    requires i < |PlansOf(visits, pair)|
    ensures exists a :: 0 <= a < |visits| && PlansOf(visits, pair)[i] in pair(visits[a].dir, visits[a].names)
  {
    var own := pair(visits[0].dir, visits[0].names);
    if i < |own| {
      assert PlansOf(visits, pair)[i] == own[i];
    } else {
      PlansOfOrigin(visits[1..], pair, i - |own|);
      var a :| 0 <= a < |visits| - 1 && PlansOf(visits[1..], pair)[i - |own|] in pair(visits[1..][a].dir, visits[1..][a].names);
      assert visits[1..][a] == visits[a + 1];
    }
  }

  /** Every plan of a visit's pairing is among the plans of the visits. */
  lemma {:induction false} PlansOfIncludes(visits: seq<Visit>, pair: Pairer, a: nat, p: RenamePlan)
    requires a < |visits| && p in pair(visits[a].dir, visits[a].names)
    ensures p in PlansOf(visits, pair)
  {
    if a > 0 {
      assert visits[1..][a - 1] == visits[a];
      PlansOfIncludes(visits[1..], pair, a - 1, p);
    }
  }

  /** With a pairing that keeps plans in place, every plan lies in the directory of one of the visits. */
  lemma PlanDirIsVisitDir(visits: seq<Visit>, pair: Pairer, i: nat)
    requires PairsInPlace(pair) && i < |PlansOf(visits, pair)|
    ensures exists a :: 0 <= a < |visits| && PlansOf(visits, pair)[i].dir == visits[a].dir
  {
    PlansOfOrigin(visits, pair, i);
  }

  /** No plan's directory lies strictly above the directory of a later plan. */
  ghost predicate PlansPostOrder(plans: seq<RenamePlan>) {
    forall i, j :: 0 <= i < j < |plans| ==> !StrictAncestor(plans[i].dir, plans[j].dir)
  }

  /** Pairing the visits in post-order renames in post-order. */
  lemma {:induction false} PlansOfPostOrder(visits: seq<Visit>, pair: Pairer)
    requires PostOrder(visits) && PairsInPlace(pair)
    ensures PlansPostOrder(PlansOf(visits, pair))
  {
    if visits != [] {
      var own := pair(visits[0].dir, visits[0].names);
      var rest := PlansOf(visits[1..], pair);
      var r := PlansOf(visits, pair);
      assert r == own + rest;
      assert PostOrder(visits[1..]) by {
        forall a, b | 0 <= a < b < |visits[1..]|
          ensures !StrictAncestor(visits[1..][a].dir, visits[1..][b].dir)
        {
          assert visits[1..][a] == visits[a + 1] && visits[1..][b] == visits[b + 1];
        }
      }
      PlansOfPostOrder(visits[1..], pair);
      forall i, j | 0 <= i < j < |r|
        ensures !StrictAncestor(r[i].dir, r[j].dir)
      {
        if j < |own| {
          assert r[i] in own && r[j] in own;
        } else if i < |own| {
          assert r[i] in own && r[j] == rest[j - |own|];
          PlanDirIsVisitDir(visits[1..], pair, j - |own|);
          var b :| 0 <= b < |visits[1..]| && rest[j - |own|].dir == visits[1..][b].dir;
          assert visits[1..][b] == visits[b + 1];
        } else {
          assert r[i] == rest[i - |own|] && r[j] == rest[j - |own|];
        }
      }
    }
  }

  /**
    The plans of a run over `root` follow the walk's depth-first listing
    order: in every reachable directory, every plan below an earlier entry of
    its filtered listing comes before every plan below a later one.
   */
  ghost predicate PlansDepthFirst(root: seq<Entry>, plans: seq<RenamePlan>) {
    forall path, names, i, j, x, y ::
      (&& Reaches(root, path, names) && 0 <= i < j < |names| && 0 <= x < |plans| && 0 <= y < |plans|
       && Extends(plans[x].dir, path + [names[i]]) && Extends(plans[y].dir, path + [names[j]]))
      ==> x < y
  }

  /**
    In a snapshot with distinct names per directory, no rename in a directory
    comes before a rename in one of its subdirectories, and the renames below
    the entries of every filtered listing come entry by entry, in listing order.
   */
  lemma RunPostOrder(root: seq<Entry>)
    requires WellFormed(root)
    ensures PlansPostOrder(Run(root))
    ensures PlansDepthFirst(root, Run(root))
  {
    var plans := Run(root);
    forall path, names, i, j, x, y |
      Reaches(root, path, names) && 0 <= i < j < |names| && 0 <= x < |plans| && 0 <= y < |plans|
      && Extends(plans[x].dir, path + [names[i]]) && Extends(plans[y].dir, path + [names[j]])
      ensures x < y
    {
      RunListingOrder(root, path, names, i, j, x, y);
    }
    VisitsPostOrder([], root);
    PlanDirectoryInPlace();
    PlansOfPostOrder(Visits([], root), PlanDirectory);
  }

  /**
    Every plan of the run pairs a video and an image of one reachable
    directory's filtered listing, sharing a season and episode key, and names
    the image after the video.
   */
  lemma RunSound(root: seq<Entry>, p: RenamePlan)
    requires p in Run(root)
    ensures exists names :: Reaches(root, p.dir, names) && p.video in names && p.image in names
    ensures IsVideo(p.video) && IsImage(p.image) && KeyOf(p.video).Some? && KeyOf(p.image) == KeyOf(p.video)
    ensures p.target == NewImageName(p.video, p.image) && IsImage(p.target)
    ensures p.wouldSkip <==> p.image == p.target
  {
    var visits := Visits([], root);
    var i :| 0 <= i < |Run(root)| && Run(root)[i] == p;
    PlansOfOrigin(visits, PlanDirectory, i);
    var a :| 0 <= a < |visits| && p in PlanDirectory(visits[a].dir, visits[a].names);
    PlanDirectorySound(visits[a].dir, visits[a].names, p);
    VisitsReachable([], root);
    assert visits[a] in visits;
    assert visits[a].dir[0..] == visits[a].dir;
  }

  /**
    In every reachable directory, every video with a season and episode key
    that one of the directory's images shares is paired.
   */
  lemma RunComplete(root: seq<Entry>, path: seq<string>, names: seq<string>, video: string, image: string)
    requires Reaches(root, path, names)
    requires video in names && IsVideo(video) && KeyOf(video).Some?
    requires image in names && IsImage(image) && KeyOf(image) == KeyOf(video)
    ensures exists p :: p in Run(root) && p.dir == path && p.video == video
  {
    var visits := Visits([], root);
    ReachableVisited([], root, path, names);
    assert [] + path == path;
    var a :| 0 <= a < |visits| && visits[a] == Visit(path, names);
    PlanDirectoryComplete(path, names, video, image);
    var p :| p in PlanDirectory(path, names) && p.video == video;
    PlanDirectorySound(path, names, p);
    PlansOfIncludes(visits, PlanDirectory, a, p);
  }

  /** Dropping the first entry of a listing keeps its names distinct. */
  lemma DistinctNamesTail(es: seq<Entry>)
    requires es != [] && DistinctNames(es)
    ensures DistinctNames(es[1..])
  {
    forall i, j | 0 <= i < j < |es[1..]|
      ensures es[1..][i].name != es[1..][j].name
    {
      assert es[1..][i] == es[i + 1] && es[1..][j] == es[j + 1];
    }
  }

  /** The loop over two listings one after the other visits below the first, then below the second. */
  lemma {:induction false} VisitsBelowAppend(dir: seq<string>, xs: seq<Entry>, ys: seq<Entry>)
    ensures VisitsBelow(dir, xs + ys) == VisitsBelow(dir, xs) + VisitsBelow(dir, ys)
    decreases |xs|
  {
    if xs == [] {
      assert xs + ys == ys;
    } else {
      assert (xs + ys)[0] == xs[0];
      assert (xs + ys)[1..] == xs[1..] + ys;
      VisitsBelowAppend(dir, xs[1..], ys);
    }
  }

  /** The visits the loop makes for one directory entry sit between those of the entries before and after it. */
  lemma VisitsBelowSplit(dir: seq<string>, es: seq<Entry>, k: nat)
    requires k < |es| && es[k].Directory?
    ensures VisitsBelow(dir, es) ==
      VisitsBelow(dir, es[..k]) + Visits(dir + [es[k].name], es[k].listing) + VisitsBelow(dir, es[k + 1..])
  {
    assert es == es[..k] + ([es[k]] + es[k + 1..]);
    VisitsBelowAppend(dir, es[..k], [es[k]] + es[k + 1..]);
    VisitsBelowAppend(dir, [es[k]], es[k + 1..]);
    assert VisitsBelow(dir, [es[k]]) == Visits(dir + [es[k].name], es[k].listing) by {
      assert [es[k]][1..] == [];
    }
  }

  /** The loop over a listing pairs nothing below a name the listing does not hold. */
  lemma VisitsBelowOutside(dir: seq<string>, es: seq<Entry>, name: string)
    requires forall m :: 0 <= m < |es| ==> es[m].name != name
    ensures forall v :: v in VisitsBelow(dir, es) ==> |dir| < |v.dir| && v.dir[|dir|] != name
  {
    VisitsBelowShape(dir, es);
    forall v | v in VisitsBelow(dir, es)
      ensures v.dir[|dir|] != name
    {
      var m :| 0 <= m < |es| && NamesOf(es)[m] == v.dir[|dir|];
    }
  }

  /**
    The loop over a listing with distinct names finishes everything below an
    entry before it starts on anything below a later entry.
   */
  lemma VisitsBelowOrder(dir: seq<string>, es: seq<Entry>, i: nat, j: nat, a: nat, b: nat)
    requires DistinctNames(es) && i < j < |es|
    requires a < |VisitsBelow(dir, es)| && b < |VisitsBelow(dir, es)|
    requires |dir| < |VisitsBelow(dir, es)[a].dir| && VisitsBelow(dir, es)[a].dir[|dir|] == es[i].name
    requires |dir| < |VisitsBelow(dir, es)[b].dir| && VisitsBelow(dir, es)[b].dir[|dir|] == es[j].name
    ensures a < b
  {
    var vs := VisitsBelow(dir, es);
    var pre := VisitsBelow(dir, es[..j]);
    var post := VisitsBelow(dir, es[j..]);
    assert es == es[..j] + es[j..];
    VisitsBelowAppend(dir, es[..j], es[j..]);
    assert vs == pre + post;
    forall m | 0 <= m < |es[..j]|
      ensures es[..j][m].name != es[j].name
    {
      assert es[..j][m] == es[m];
    }
    forall m | 0 <= m < |es[j..]|
      ensures es[j..][m].name != es[i].name
    {
      assert es[j..][m] == es[j + m];
    }
    VisitsBelowOutside(dir, es[..j], es[j].name);
    VisitsBelowOutside(dir, es[j..], es[i].name);
    assert b >= |pre|;
    assert a < |pre|;
  }

  /**
    In a listing with distinct names, the loop pairs everything below a
    directory entry inside that entry's own block of visits.
   */
  lemma VisitsBelowLocate(dir: seq<string>, es: seq<Entry>, k: nat, a: nat)
    requires DistinctNames(es) && k < |es| && es[k].Directory?
    requires a < |VisitsBelow(dir, es)|
    requires |dir| < |VisitsBelow(dir, es)[a].dir| && VisitsBelow(dir, es)[a].dir[|dir|] == es[k].name
    ensures |VisitsBelow(dir, es[..k])| <= a < |VisitsBelow(dir, es[..k])| + |Visits(dir + [es[k].name], es[k].listing)|
    ensures VisitsBelow(dir, es)[a] == Visits(dir + [es[k].name], es[k].listing)[a - |VisitsBelow(dir, es[..k])|]
  {
    var vs := VisitsBelow(dir, es);
    var pre := VisitsBelow(dir, es[..k]);
    var mid := Visits(dir + [es[k].name], es[k].listing);
    var post := VisitsBelow(dir, es[k + 1..]);
    VisitsBelowSplit(dir, es, k);
    assert vs == pre + mid + post;
    forall m | 0 <= m < |es[..k]|
      ensures es[..k][m].name != es[k].name
    {
      assert es[..k][m] == es[m];
    }
    var after := es[k + 1..];
    forall m | 0 <= m < |after|
      ensures after[m].name != es[k].name
    {
      assert after[m] == es[k + 1 + m];
    }
    VisitsBelowOutside(dir, es[..k], es[k].name);
    VisitsBelowOutside(dir, es[k + 1..], es[k].name);
    assert a >= |pre|;
    assert a < |pre| + |mid|;
  }

  /** A visit below the starting directory comes from the loop, not from the directory's own pairing. */
  lemma VisitsBelowPart(dir: seq<string>, listing: seq<Entry>, a: nat)
    requires a < |Visits(dir, listing)| && |dir| < |Visits(dir, listing)[a].dir|
    ensures a < |VisitsBelow(dir, Kept(listing))| && Visits(dir, listing)[a] == VisitsBelow(dir, Kept(listing))[a]
  {
    var kept := Kept(listing);
    assert Visits(dir, listing) == VisitsBelow(dir, kept) + [Visit(dir, NamesOf(kept))];
  }

  /** Depth-first order among the entries of the starting directory's own filtered listing. */
  lemma ListingOrderHere(dir: seq<string>, listing: seq<Entry>, i: nat, j: nat, a: nat, b: nat)
    requires WellFormed(listing) && i < j < |Kept(listing)|
    requires a < |Visits(dir, listing)| && b < |Visits(dir, listing)|
    requires Extends(Visits(dir, listing)[a].dir, dir + [Kept(listing)[i].name])
    requires Extends(Visits(dir, listing)[b].dir, dir + [Kept(listing)[j].name])
    ensures a < b
  {
    var kept := Kept(listing);
    assert (dir + [kept[i].name])[|dir|] == kept[i].name;
    assert (dir + [kept[j].name])[|dir|] == kept[j].name;
    VisitsBelowPart(dir, listing, a);
    VisitsBelowPart(dir, listing, b);
    KeptWellFormed(listing);
    VisitsBelowOrder(dir, kept, i, j, a, b);
  }

  /** A visit below a directory entry of the filtered listing is a visit of that entry's own walk. */
  lemma ListingOrderDescend(dir: seq<string>, listing: seq<Entry>, k: nat, a: nat) returns (a': nat)
    requires WellFormed(listing) && k < |Kept(listing)| && Kept(listing)[k].Directory?
    requires a < |Visits(dir, listing)|
    requires |dir| < |Visits(dir, listing)[a].dir| && Visits(dir, listing)[a].dir[|dir|] == Kept(listing)[k].name
    ensures a' == a - |VisitsBelow(dir, Kept(listing)[..k])|
    ensures a' < |Visits(dir + [Kept(listing)[k].name], Kept(listing)[k].listing)|
    ensures Visits(dir + [Kept(listing)[k].name], Kept(listing)[k].listing)[a'] == Visits(dir, listing)[a]
  {
    var kept := Kept(listing);
    VisitsBelowPart(dir, listing, a);
    KeptWellFormed(listing);
    VisitsBelowLocate(dir, kept, k, a);
    a' := a - |VisitsBelow(dir, kept[..k])|;
  }

  /** A path below `dir + path` is below the first step of `path` followed by the rest of it. */
  lemma ExtendsShift(d: seq<string>, dir: seq<string>, path: seq<string>, x: string)
    requires path != [] && Extends(d, dir + path + [x])
    ensures Extends(d, dir + [path[0]] + path[1..] + [x])
  {
    assert dir + path + [x] == dir + [path[0]] + path[1..] + [x];
  }

  /**
    The walk is depth-first in listing order: in every reachable directory,
    everything below an earlier entry of the filtered listing is paired before
    anything below a later one.
   */
  lemma {:induction false} VisitsListingOrder(dir: seq<string>, listing: seq<Entry>, path: seq<string>, names: seq<string>,
                                              i: nat, j: nat, a: nat, b: nat)
    requires WellFormed(listing) && Reaches(listing, path, names) && i < j < |names|
    requires a < |Visits(dir, listing)| && b < |Visits(dir, listing)|
    requires Extends(Visits(dir, listing)[a].dir, dir + path + [names[i]])
    requires Extends(Visits(dir, listing)[b].dir, dir + path + [names[j]])
    ensures a < b
    decreases path
  {
    var kept := Kept(listing);
    if path == [] {
      assert dir + path + [names[i]] == dir + [kept[i].name];
      assert dir + path + [names[j]] == dir + [kept[j].name];
      ListingOrderHere(dir, listing, i, j, a, b);
    } else {
      var k :| 0 <= k < |kept| && kept[k].Directory? && kept[k].name == path[0] && Reaches(kept[k].listing, path[1..], names);
      var sub := dir + [path[0]];
      KeptWellFormed(listing);
      assert (dir + path + [names[i]])[|dir|] == path[0];
      assert (dir + path + [names[j]])[|dir|] == path[0];
      var a' := ListingOrderDescend(dir, listing, k, a);
      var b' := ListingOrderDescend(dir, listing, k, b);
      ExtendsShift(Visits(dir, listing)[a].dir, dir, path, names[i]);
      ExtendsShift(Visits(dir, listing)[b].dir, dir, path, names[j]);
      VisitsListingOrder(sub, kept[k].listing, path[1..], names, i, j, a', b');
    }
  }

  /** The visit whose pairing made the plan at position `x`. */
  ghost function Origin(visits: seq<Visit>, pair: Pairer, x: nat): (a: nat)
    requires x < |PlansOf(visits, pair)|
    ensures a < |visits| && PlansOf(visits, pair)[x] in pair(visits[a].dir, visits[a].names)
  {
    var own := pair(visits[0].dir, visits[0].names);
    assert PlansOf(visits, pair) == own + PlansOf(visits[1..], pair);
    if x < |own| then
      assert PlansOf(visits, pair)[x] == own[x];
      0
    else
      var a := Origin(visits[1..], pair, x - |own|);
      assert visits[1..][a] == visits[a + 1];
      1 + a
  }

  /** Plans keep the order of the visits that made them. */
  lemma {:induction false} OriginMonotone(visits: seq<Visit>, pair: Pairer, x: nat, y: nat)
    requires x < |PlansOf(visits, pair)| && y < |PlansOf(visits, pair)|
    ensures x <= y ==> Origin(visits, pair, x) <= Origin(visits, pair, y)
  {
    var own := pair(visits[0].dir, visits[0].names);
    if x <= y && x >= |own| {
      OriginMonotone(visits[1..], pair, x - |own|, y - |own|);
    }
  }

  /**
    Pairing a depth-first walk, with a pairing that keeps plans in place,
    makes plans in the walk's listing order.
   */
  lemma PlansListingOrder(root: seq<Entry>, pair: Pairer, path: seq<string>, names: seq<string>, i: nat, j: nat, x: nat, y: nat)
    requires PairsInPlace(pair)
    requires WellFormed(root) && Reaches(root, path, names) && i < j < |names|
    requires x < |PlansOf(Visits([], root), pair)| && y < |PlansOf(Visits([], root), pair)|
    requires Extends(PlansOf(Visits([], root), pair)[x].dir, path + [names[i]])
    requires Extends(PlansOf(Visits([], root), pair)[y].dir, path + [names[j]])
    ensures x < y
  {
    var visits := Visits([], root);
    var a := Origin(visits, pair, x);
    var b := Origin(visits, pair, y);
    assert PlansOf(visits, pair)[x].dir == visits[a].dir && PlansOf(visits, pair)[y].dir == visits[b].dir;
    assert [] + path == path;
    VisitsListingOrder([], root, path, names, i, j, a, b);
    OriginMonotone(visits, pair, y, x);
  }

  /**
    The renames of a run follow the walk's depth-first listing order: in every
    reachable directory, each plan below an earlier entry of the filtered
    listing comes before every plan below a later entry.
   */
  lemma RunListingOrder(root: seq<Entry>, path: seq<string>, names: seq<string>, i: nat, j: nat, x: nat, y: nat)
    requires WellFormed(root) && Reaches(root, path, names) && i < j < |names|
    requires x < |Run(root)| && y < |Run(root)|
    requires Extends(Run(root)[x].dir, path + [names[i]])
    requires Extends(Run(root)[y].dir, path + [names[j]])
    ensures x < y
  {
    PlanDirectoryInPlace();
    PlansListingOrder(root, PlanDirectory, path, names, i, j, x, y);
  }

  /** No two visits are of the same directory. */
  ghost predicate DistinctDirs(visits: seq<Visit>) {
    forall a, b :: 0 <= a < b < |visits| ==> visits[a].dir != visits[b].dir
  }

  lemma DistinctDirsAppend(xs: seq<Visit>, ys: seq<Visit>)
    requires DistinctDirs(xs) && DistinctDirs(ys)
    requires forall x, y :: x in xs && y in ys ==> x.dir != y.dir
    ensures DistinctDirs(xs + ys)
  {
    var zs := xs + ys;
    forall a, b | 0 <= a < b < |zs|
      ensures zs[a].dir != zs[b].dir
    {
      if b < |xs| {
        assert zs[a] == xs[a] && zs[b] == xs[b];
      } else if a < |xs| {
        assert zs[a] in xs && zs[b] in ys;
      } else {
        assert zs[a] == ys[a - |xs|] && zs[b] == ys[b - |xs|];
      }
    }
  }

  /** In a well-formed snapshot the walk pairs every directory once. */
  lemma {:induction false} VisitsOnce(dir: seq<string>, listing: seq<Entry>)
    requires WellFormed(listing)
    ensures DistinctDirs(Visits(dir, listing))
    decreases SizeAll(listing), 1
  {
    var kept := Kept(listing);
    FilterShrinks(listing, NotIgnored);
    KeptWellFormed(listing);
    VisitsBelowOnce(dir, kept);
    VisitsBelowShape(dir, kept);
    DistinctDirsAppend(VisitsBelow(dir, kept), [Visit(dir, NamesOf(kept))]);
  }

  /** The loop over a listing with distinct names pairs every directory below it once. */
  lemma {:induction false} VisitsBelowOnce(dir: seq<string>, es: seq<Entry>)
    requires DistinctNames(es)
    requires forall i :: 0 <= i < |es| && es[i].Directory? ==> WellFormed(es[i].listing)
    ensures DistinctDirs(VisitsBelow(dir, es))
    decreases SizeAll(es), 0
  {
    if es != [] {
      assert SizeAll(es) == Size(es[0]) + SizeAll(es[1..]);
      var rest := VisitsBelow(dir, es[1..]);
      DistinctNamesTail(es);
      forall i | 0 <= i < |es[1..]| && es[1..][i].Directory?
        ensures WellFormed(es[1..][i].listing)
      {
        assert es[1..][i] == es[i + 1];
      }
      VisitsBelowOnce(dir, es[1..]);
      VisitsBelowShape(dir, es[1..]);
      match es[0]
      case Directory(name, listing) =>
        var first := Visits(dir + [name], listing);
        VisitsOnce(dir + [name], listing);
        VisitsShape(dir + [name], listing);
        forall x, y | x in first && y in rest
          ensures x.dir != y.dir
        {
          assert x.dir[|dir|] == (dir + [name])[|dir|] == name;
          var k :| 0 <= k < |es[1..]| && NamesOf(es[1..])[k] == y.dir[|dir|];
          assert es[k + 1].name == y.dir[|dir|];
        }
        DistinctDirsAppend(first, rest);
      case File(_) =>
        assert VisitsBelow(dir, es) == rest;
      case Symlink(_) =>
        assert VisitsBelow(dir, es) == rest;
    }
  }

  /** No two plans are for the same video in the same directory. */
  ghost predicate PlansOnce(plans: seq<RenamePlan>) {
    forall x, y :: 0 <= x < y < |plans| ==> plans[x].dir != plans[y].dir || plans[x].video != plans[y].video
  }

  /**
    Pairing visits of distinct directories, with a pairing that keeps plans in
    place and gives each video of a visit at most one plan, plans every video
    once.
   */
  lemma {:induction false} PlansOfOnce(visits: seq<Visit>, pair: Pairer)
    requires DistinctDirs(visits) && PairsInPlace(pair)
    requires forall a :: 0 <= a < |visits| ==> PlansOnce(pair(visits[a].dir, visits[a].names))
    ensures PlansOnce(PlansOf(visits, pair))
  {
    if visits != [] {
      var own := pair(visits[0].dir, visits[0].names);
      var rest := PlansOf(visits[1..], pair);
      assert DistinctDirs(visits[1..]) by {
        forall a, b | 0 <= a < b < |visits[1..]|
          ensures visits[1..][a].dir != visits[1..][b].dir
        {
          assert visits[1..][a] == visits[a + 1] && visits[1..][b] == visits[b + 1];
        }
      }
      forall a | 0 <= a < |visits[1..]|
        ensures PlansOnce(pair(visits[1..][a].dir, visits[1..][a].names))
      {
        assert visits[1..][a] == visits[a + 1];
      }
      PlansOfOnce(visits[1..], pair);
      forall x, y | 0 <= x < |own| && 0 <= y < |rest|
        ensures own[x].dir != rest[y].dir
      {
        assert own[x] in own;
        var b := Origin(visits[1..], pair, y);
        assert visits[1..][b] == visits[b + 1];
      }
      var plans := own + rest;
      assert PlansOf(visits, pair) == plans;
      forall x, y | 0 <= x < y < |plans|
        ensures plans[x].dir != plans[y].dir || plans[x].video != plans[y].video
      {
        if y < |own| {
          assert plans[x] == own[x] && plans[y] == own[y];
        } else if x < |own| {
          assert plans[x] == own[x] && plans[y] == rest[y - |own|];
        } else {
          assert plans[x] == rest[x - |own|] && plans[y] == rest[y - |own|];
        }
      }
    }
  }

  /** A reachable directory of a well-formed snapshot lists every name once. */
  lemma {:induction false} ReachesNoDuplicates(listing: seq<Entry>, path: seq<string>, names: seq<string>)
    requires WellFormed(listing) && Reaches(listing, path, names)
    ensures NoDuplicates(names)
    decreases path
  {
    KeptWellFormed(listing);
    var kept := Kept(listing);
    if path == [] {
      forall i, j | 0 <= i < j < |names| ensures names[i] != names[j] {
        assert names[i] == kept[i].name && names[j] == kept[j].name;
      }
    } else {
      var i :| 0 <= i < |kept| && kept[i].Directory? && kept[i].name == path[0]
        && Reaches(kept[i].listing, path[1..], names);
      ReachesNoDuplicates(kept[i].listing, path[1..], names);
    }
  }

  /**
    In a well-formed snapshot the run plans every video of every directory at
    most once: no two plans share both directory and video.
   */
  lemma RunOnce(root: seq<Entry>)
    requires WellFormed(root)
    ensures PlansOnce(Run(root))
  {
    var visits := Visits([], root);
    VisitsOnce([], root);
    VisitsReachable([], root);
    PlanDirectoryInPlace();
    forall a | 0 <= a < |visits|
      ensures PlansOnce(PlanDirectory(visits[a].dir, visits[a].names))
    {
      assert visits[a] in visits;
      ReachesNoDuplicates(root, visits[a].dir[0..], visits[a].names);
      PlanDirectoryDistinctVideos(visits[a].dir, visits[a].names);
    }
    PlansOfOnce(visits, PlanDirectory);
  }
}
