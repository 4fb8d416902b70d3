/**
  What `renameImagesInDirectory` (index.js) does with each rename plan. In a
  dry run it only reports, plan by plan, "would skip" or "would rename"; in
  an applying run it skips the plans whose image already has its target name
  and calls `fs.rename` for the others, one after the other. A rename whose
  source is gone makes the handler's catch block throw, and that ends the run,
  so the effect model stops at the first failing rename.
 */
module Renaming {
  import opened Wrappers
  import opened Seqs
  import opened Names
  import opened Pairing
  import opened Traversal

  datatype Mode = DryRun | Apply

  /** One `fs.rename` call, from the image's path to the target path. */
  datatype Move<T> = Move(from: T, to: T)

  /** One line of a dry run's report. */
  datatype Report = WouldSkip(path: seq<string>) | WouldRename(from: seq<string>, to: seq<string>)

  function ImagePath(p: RenamePlan): seq<string> {
    p.dir + [p.image]
  }

  function TargetPath(p: RenamePlan): seq<string> {
    p.dir + [p.target]
  }

  /** The dry run's report, one line per plan. */
  function DryRunReport(plans: seq<RenamePlan>): (lines: seq<Report>)
    ensures |lines| == |plans|
    ensures forall i :: 0 <= i < |plans| ==>
      if plans[i].wouldSkip then lines[i] == WouldSkip(ImagePath(plans[i]))
      else lines[i] == WouldRename(ImagePath(plans[i]), TargetPath(plans[i]))
  {
    if plans == [] then []
    else
      var line := if plans[0].wouldSkip then WouldSkip(ImagePath(plans[0])) else WouldRename(ImagePath(plans[0]), TargetPath(plans[0]));
      [line] + DryRunReport(plans[1..])
  }

  /** The renames a dry run announces, in report order. */
  function Announced(lines: seq<Report>): seq<Move<seq<string>>> {
    if lines == [] then []
    else
      var first := match lines[0]
        case WouldSkip(_) => []
        case WouldRename(from, to) => [Move(from, to)];
      first + Announced(lines[1..])
  }

  /** The `fs.rename` calls a run makes for the plans: none in a dry run, one per plan that is not skipped otherwise. */
  function Moves(plans: seq<RenamePlan>, mode: Mode): (moves: seq<Move<seq<string>>>)
    ensures mode == DryRun ==> moves == []
    ensures mode == Apply ==> forall m :: m in moves <==> exists p :: p in plans && !p.wouldSkip && m == Move(ImagePath(p), TargetPath(p))
  {
    if mode == DryRun || plans == [] then []
    else
      var first := if plans[0].wouldSkip then [] else [Move(ImagePath(plans[0]), TargetPath(plans[0]))];
      first + Moves(plans[1..], mode)
  }

  lemma {:induction false} MovesAppend(a: seq<RenamePlan>, b: seq<RenamePlan>, mode: Mode)
    ensures Moves(a + b, mode) == Moves(a, mode) + Moves(b, mode)
  {
    if a == [] {
      assert a + b == b;
    } else if mode == Apply {
      assert (a + b)[1..] == a[1..] + b;
      MovesAppend(a[1..], b, mode);
    }
  }

  /** A dry run announces exactly the renames, in exactly the order, that an applying run performs. */
  lemma {:induction false} DryRunAnnouncesAppliedMoves(plans: seq<RenamePlan>)
    ensures Announced(DryRunReport(plans)) == Moves(plans, Apply)
  {
    if plans != [] {
      DryRunAnnouncesAppliedMoves(plans[1..]);
      assert DryRunReport(plans)[1..] == DryRunReport(plans[1..]);
    }
  }

  /** The result of performing renames on a set of existing files. */
  datatype Outcome<T> =
    | Completed(files: set<T>)
      /** The rename `failed` found no file at its source; the run ends there. */
    | Aborted(files: set<T>, failed: Move<T>)

  /** `fs.rename` one after the other; a rename onto an existing file replaces it. */
  function Perform<T>(files: set<T>, moves: seq<Move<T>>): (r: Outcome<T>)
    ensures r.Aborted? ==> r.failed in moves && r.failed.from !in r.files
    decreases |moves|
  {
    if moves == [] then Completed(files)
    else if moves[0].from !in files then Aborted(files, moves[0])
    else Perform(files - {moves[0].from} + {moves[0].to}, moves[1..])
  }

  ghost function Sources<T>(moves: seq<Move<T>>): set<T> {
    set m | m in moves :: m.from
  }

  ghost function Targets<T>(moves: seq<Move<T>>): set<T> {
    set m | m in moves :: m.to
  }

  /** No two renames share a source, and no rename's target is any rename's source. */
  ghost predicate Independent<T>(moves: seq<Move<T>>) {
    && (forall i, j :: 0 <= i < j < |moves| ==> moves[i].from != moves[j].from)
    && (forall i, j :: 0 <= i < |moves| && 0 <= j < |moves| ==> moves[i].to != moves[j].from)
  }

  /**
    Independent renames whose sources all exist complete, and leave the files
    without the sources and with the targets.
   */
  lemma {:induction false} PerformIndependent<T>(files: set<T>, moves: seq<Move<T>>)
    requires Independent(moves)
    requires Sources(moves) <= files
    ensures Perform(files, moves) == Completed(files - Sources(moves) + Targets(moves))
    decreases |moves|
  {
    if moves != [] {
      var m := moves[0];
      var rest := moves[1..];
      assert Independent(rest) by {
        forall i, j | 0 <= i < j < |rest| ensures rest[i].from != rest[j].from {
          assert rest[i] == moves[i + 1] && rest[j] == moves[j + 1];
        }
        forall i, j | 0 <= i < |rest| && 0 <= j < |rest| ensures rest[i].to != rest[j].from {
          assert rest[i] == moves[i + 1] && rest[j] == moves[j + 1];
        }
      }
      assert m.from !in Sources(rest) by {
        forall j | 0 <= j < |rest| ensures rest[j].from != m.from {
          assert rest[j] == moves[j + 1];
        }
      }
      assert m.to !in Sources(rest) by {
        forall j | 0 <= j < |rest| ensures rest[j].from != m.to {
          assert rest[j] == moves[j + 1];
        }
      }
      assert Sources(moves) == {m.from} + Sources(rest) by {
        assert forall x :: x in rest ==> x in moves;
        assert forall x :: x in moves ==> x == m || x in rest;
      }
      assert Targets(moves) == {m.to} + Targets(rest) by {
        assert forall x :: x in rest ==> x in moves;
        assert forall x :: x in moves ==> x == m || x in rest;
      }
      var next := files - {m.from} + {m.to};
      PerformIndependent(next, rest);
      assert next - Sources(rest) + Targets(rest) == files - Sources(moves) + Targets(moves);
    }
  }

  /**
    Once a source is gone and no rename brings it back, a later rename from it
    ends the run.
   */
  lemma {:induction false} MissingSourceAborts<T>(files: set<T>, moves: seq<Move<T>>, j: nat)
    requires j < |moves| && moves[j].from !in files
    requires forall k :: 0 <= k < |moves| ==> moves[k].to != moves[j].from
    ensures Perform(files, moves).Aborted?
    decreases |moves|
  {
    if j > 0 && moves[0].from in files {
      var rest := moves[1..];
      assert rest[j - 1] == moves[j];
      forall k | 0 <= k < |rest| ensures rest[k].to != rest[j - 1].from {
        assert rest[k] == moves[k + 1];
      }
      MissingSourceAborts(files - {moves[0].from} + {moves[0].to}, rest, j - 1);
    }
  }

  /** Performing two batches one after the other is performing them as one, unless the first ends the run. */
  lemma {:induction false} PerformAppend<T>(files: set<T>, xs: seq<Move<T>>, ys: seq<Move<T>>)
    ensures Perform(files, xs + ys) == if Perform(files, xs).Aborted? then Perform(files, xs) else Perform(Perform(files, xs).files, ys)
    decreases |xs|
  {
    if xs == [] {
      assert xs + ys == ys;
    } else {
      assert (xs + ys)[0] == xs[0] && (xs + ys)[1..] == xs[1..] + ys;
      if xs[0].from in files {
        PerformAppend(files - {xs[0].from} + {xs[0].to}, xs[1..], ys);
      }
    }
  }

  /** A file that is absent stays absent while no rename targets it. */
  lemma {:induction false} AbsentStaysAbsent<T>(files: set<T>, moves: seq<Move<T>>, x: T)
    requires x !in files && forall k :: 0 <= k < |moves| ==> moves[k].to != x
    ensures x !in Perform(files, moves).files
    decreases |moves|
  {
    if moves != [] && moves[0].from in files {
      var rest := moves[1..];
      forall k | 0 <= k < |rest| ensures rest[k].to != x {
        assert rest[k] == moves[k + 1];
      }
      assert moves[0].to != x;
      AbsentStaysAbsent(files - {moves[0].from} + {moves[0].to}, rest, x);
    }
  }

  /** Once a rename has moved a file away, it is gone after the batch while no rename targets it. */
  lemma {:induction false} MovedAwayStaysAway<T>(files: set<T>, moves: seq<Move<T>>, i: nat)
    requires i < |moves| && forall k :: 0 <= k < |moves| ==> moves[k].to != moves[i].from
    ensures Perform(files, moves).Completed? ==> moves[i].from !in Perform(files, moves).files
    decreases |moves|
  {
    if moves[0].from in files {
      var next := files - {moves[0].from} + {moves[0].to};
      var rest := moves[1..];
      forall k | 0 <= k < |rest| ensures rest[k].to != moves[i].from {
        assert rest[k] == moves[k + 1];
      }
      if i == 0 {
        assert moves[0].to != moves[0].from;
        AbsentStaysAbsent(next, rest, moves[0].from);
      } else {
        assert rest[i - 1] == moves[i];
        MovedAwayStaysAway(next, rest, i - 1);
      }
    }
  }

  /**
    Two renames of the same file, with no rename back onto it, end the run at
    the second at the latest, and exactly there when every rename before the
    second succeeds.
   */
  lemma RepeatedSourceAborts<T>(files: set<T>, moves: seq<Move<T>>, i: nat, j: nat)
    requires i < j < |moves| && moves[i].from == moves[j].from
    requires forall k :: 0 <= k < |moves| ==> moves[k].to != moves[j].from
    ensures Perform(files, moves[..j]).Completed? ==> Perform(files, moves) == Aborted(Perform(files, moves[..j]).files, moves[j])
    ensures Perform(files, moves).Aborted? && Perform(files, moves).failed in moves[..j + 1]
  {
    var pre := moves[..j];
    assert moves == pre + moves[j..];
    PerformAppend(files, pre, moves[j..]);
    forall k | 0 <= k < |pre| ensures pre[k].to != pre[i].from {
      assert pre[k] == moves[k];
    }
    MovedAwayStaysAway(files, pre, i);
    assert moves[j..][0] == moves[j];
    if Perform(files, pre).Aborted? {
      assert Perform(files, moves).failed in pre;
      assert forall m :: m in pre ==> m in moves[..j + 1];
    }
  }

  lemma IndependentCons<T>(m: Move<T>, rest: seq<Move<T>>)
    requires Independent(rest) && m.from != m.to
    requires forall x :: x in rest ==> x.from != m.from && x.from != m.to && x.to != m.from
    ensures Independent([m] + rest)
  {
    var ms := [m] + rest;
    forall i, j | 0 <= i < |ms| && 0 <= j < |ms| ensures ms[i].to != ms[j].from && (i < j ==> ms[i].from != ms[j].from) {
      if i > 0 { assert ms[i] == rest[i - 1]; }
      if j > 0 { assert ms[j] == rest[j - 1]; }
    }
  }

  lemma PathInDirInjective(dir: seq<string>, a: string, b: string)
    requires dir + [a] == dir + [b]
    ensures a == b
  {
    assert (dir + [a])[|dir|] == a;
  }

  /**
    What a directory's plans promise, stated for any key function: each lies
    in `dir`, its image and target carry its video's key, and it is a skip
    exactly when the image already has the target name.
   */
  ghost predicate KeyedPlan(p: RenamePlan, dir: seq<string>, key: string -> Option<string>) {
    && p.dir == dir
    && key(p.video).Some?
    && key(p.image) == key(p.video)
    && key(p.target) == key(p.video)
    && (p.wouldSkip <==> p.image == p.target)
  }

  /** No two plans are for videos with the same key. */
  ghost predicate DistinctPlanKeys(plans: seq<RenamePlan>, key: string -> Option<string>) {
    forall i, j :: 0 <= i < |plans| && 0 <= j < |plans| && key(plans[i].video) == key(plans[j].video) ==> i == j
  }

  /** Plans for videos with pairwise different keys make renames that cannot get in each other's way. */
  lemma {:induction false} MovesIndependent(plans: seq<RenamePlan>, dir: seq<string>, key: string -> Option<string>)
    requires forall p :: p in plans ==> KeyedPlan(p, dir, key)
    requires DistinctPlanKeys(plans, key)
    ensures Independent(Moves(plans, Apply))
  {
    if plans != [] {
      var p := plans[0];
      var tail := plans[1..];
      assert p in plans && KeyedPlan(p, dir, key);
      assert DistinctPlanKeys(tail, key) by {
        forall i, j | 0 <= i < |tail| && 0 <= j < |tail| && key(tail[i].video) == key(tail[j].video) ensures i == j {
          assert tail[i] == plans[i + 1] && tail[j] == plans[j + 1];
        }
      }
      MovesIndependent(tail, dir, key);
      var rest := Moves(tail, Apply);
      if !p.wouldSkip {
        var m := Move(ImagePath(p), TargetPath(p));
        assert Moves(plans, Apply) == [m] + rest;
        forall x | x in rest ensures x.from != m.from && x.from != m.to && x.to != m.from {
          var q :| q in tail && !q.wouldSkip && x == Move(ImagePath(q), TargetPath(q));
          var k :| 0 <= k < |tail| && tail[k] == q;
          assert plans[k + 1] == q;
          assert q in plans && p in plans;
          assert KeyedPlan(q, dir, key) && KeyedPlan(p, dir, key);
          assert key(q.video) != key(p.video);
          if x.from == m.from { PathInDirInjective(dir, q.image, p.image); }
          if x.from == m.to { PathInDirInjective(dir, q.image, p.target); }
          if x.to == m.from { PathInDirInjective(dir, q.target, p.image); }
        }
        if m.from == m.to { PathInDirInjective(dir, p.image, p.target); }
        IndependentCons(m, rest);
      }
    }
  }

  /** No two videos of the listing share a season and episode key. */
  ghost predicate UniqueVideoKeys(names: seq<string>) {
    forall a, b :: a in names && b in names && IsVideo(a) && IsVideo(b) && KeyOf(a).Some? && KeyOf(a) == KeyOf(b) ==> a == b
  }

  /** No two images of the listing share a season and episode key. */
  ghost predicate UniqueImageKeys(names: seq<string>) {
    forall a, b :: a in names && b in names && IsImage(a) && IsImage(b) && KeyOf(a).Some? && KeyOf(a) == KeyOf(b) ==> a == b
  }

  /** The directory's plans satisfy the key-generic conditions of `MovesIndependent`. */
  lemma DirectoryPlansKeyed(dir: seq<string>, names: seq<string>)
    requires NoDuplicates(names) && UniqueVideoKeys(names)
    ensures forall p :: p in PlanDirectory(dir, names) ==> KeyedPlan(p, dir, KeyOf)
    ensures DistinctPlanKeys(PlanDirectory(dir, names), KeyOf)
  {
    var plans := PlanDirectory(dir, names);
    forall p | p in plans ensures KeyedPlan(p, dir, KeyOf) {
      PlanDirectorySound(dir, names, p);
    }
    PlanDirectoryDistinctVideos(dir, names);
    forall i, j | 0 <= i < |plans| && 0 <= j < |plans| && KeyOf(plans[i].video) == KeyOf(plans[j].video) ensures i == j {
      PlanDirectorySound(dir, names, plans[i]);
      PlanDirectorySound(dir, names, plans[j]);
    }
  }

  /**
    In a directory whose videos have pairwise different keys, applying the
    plans never fails: every planned image is renamed to its target, and
    nothing else in the file system changes. The loop as written and the
    reporting loop agree here.
   */
  lemma DirectoryApplyCompletes(dir: seq<string>, names: seq<string>, files: set<seq<string>>)
    requires NoDuplicates(names) && UniqueVideoKeys(names)
    requires forall n :: n in names ==> dir + [n] in files
    ensures Perform(files, Moves(PlanDirectory(dir, names), Apply)) ==
      Completed(files - Sources(Moves(PlanDirectory(dir, names), Apply)) + Targets(Moves(PlanDirectory(dir, names), Apply)))
    ensures PerformReporting(files, Moves(PlanDirectory(dir, names), Apply)) ==
      Reported(files - Sources(Moves(PlanDirectory(dir, names), Apply)) + Targets(Moves(PlanDirectory(dir, names), Apply)), [])
  {
    var plans := PlanDirectory(dir, names);
    var moves := Moves(plans, Apply);
    DirectoryPlansKeyed(dir, names);
    MovesIndependent(plans, dir, KeyOf);
    forall m | m in moves ensures m.from in files {
      var p :| p in plans && !p.wouldSkip && m == Move(ImagePath(p), TargetPath(p));
      PlanDirectorySound(dir, names, p);
    }
    PerformIndependent(files, moves);
    PerformReportingAgrees(files, moves);
  }

  /** The rename a single plan makes. */
  lemma MovesOfOne(p: RenamePlan)
    ensures Moves([p], Apply) == if p.wouldSkip then [] else [Move(ImagePath(p), TargetPath(p))]
  {
    assert [p][1..] == [];
  }

  /** Two plans that are not skips make two renames, in plan order. */
  lemma MovesOfTwo(plans: seq<RenamePlan>, a: nat, b: nat)
    requires a < b < |plans| && !plans[a].wouldSkip && !plans[b].wouldSkip
    ensures exists i, j :: (0 <= i < j < |Moves(plans, Apply)|
      && Moves(plans, Apply)[i] == Move(ImagePath(plans[a]), TargetPath(plans[a]))
      && Moves(plans, Apply)[j] == Move(ImagePath(plans[b]), TargetPath(plans[b])))
  {
    var pa, pb := plans[a], plans[b];
    assert plans == plans[..a] + ([pa] + (plans[a + 1..b] + ([pb] + plans[b + 1..])));
    MovesAppend(plans[..a], [pa] + (plans[a + 1..b] + ([pb] + plans[b + 1..])), Apply);
    MovesAppend([pa], plans[a + 1..b] + ([pb] + plans[b + 1..]), Apply);
    MovesAppend(plans[a + 1..b], [pb] + plans[b + 1..], Apply);
    MovesAppend([pb], plans[b + 1..], Apply);
    MovesOfOne(pa);
    MovesOfOne(pb);
    var before := Moves(plans[..a], Apply);
    var between := Moves(plans[a + 1..b], Apply);
    var i, j := |before|, |before| + 1 + |between|;
    assert Moves(plans, Apply)[i] == Move(ImagePath(pa), TargetPath(pa));
    assert Moves(plans, Apply)[j] == Move(ImagePath(pb), TargetPath(pb));
  }

  /** Plans whose videos share a key share their image, as the index makes them. */
  ghost predicate SharedImages(plans: seq<RenamePlan>, key: string -> Option<string>) {
    forall p, q :: p in plans && q in plans && key(p.video) == key(q.video) ==> p.image == q.image
  }

  /** No rename targets an image that some plan pairs a video with. */
  lemma NoMoveOntoPairedImage(plans: seq<RenamePlan>, dir: seq<string>, key: string -> Option<string>, p: RenamePlan)
    requires forall q :: q in plans ==> KeyedPlan(q, dir, key)
    requires SharedImages(plans, key) && p in plans
    ensures forall m :: m in Moves(plans, Apply) ==> m.to != ImagePath(p)
  {
    forall m | m in Moves(plans, Apply) ensures m.to != ImagePath(p) {
      var r :| r in plans && !r.wouldSkip && m == Move(ImagePath(r), TargetPath(r));
      assert KeyedPlan(r, dir, key) && KeyedPlan(p, dir, key);
      if m.to == ImagePath(p) {
        PathInDirInjective(dir, r.target, p.image);
      }
    }
  }

  /** Every directory's plans are keyed by `KeyOf` and share images along keys. */
  lemma DirectoryPlansShareImages(dir: seq<string>, names: seq<string>)
    ensures forall p :: p in PlanDirectory(dir, names) ==> KeyedPlan(p, dir, KeyOf)
    ensures SharedImages(PlanDirectory(dir, names), KeyOf)
  {
    var plans := PlanDirectory(dir, names);
    forall p | p in plans ensures KeyedPlan(p, dir, KeyOf) {
      PlanDirectorySound(dir, names, p);
    }
    forall p, q | p in plans && q in plans && KeyOf(p.video) == KeyOf(q.video) ensures p.image == q.image {
      SharedKeySharesImage(dir, names, p, q);
    }
  }

  /**
    Two videos of one directory that share a key, neither of whose image is
    already named after it, share an image. The run ends at the second one's
    rename at the latest, and exactly there when every rename before it
    succeeds: the first rename has moved the image away.
   */
  lemma SharedKeyAborts(dir: seq<string>, names: seq<string>, files: set<seq<string>>, a: nat, b: nat)
    requires a < b < |PlanDirectory(dir, names)|
    requires !PlanDirectory(dir, names)[a].wouldSkip && !PlanDirectory(dir, names)[b].wouldSkip
    requires KeyOf(PlanDirectory(dir, names)[a].video) == KeyOf(PlanDirectory(dir, names)[b].video)
    ensures Perform(files, Moves(PlanDirectory(dir, names), Apply)).Aborted?
    ensures Perform(files, Moves(PlanDirectory(dir, names), Apply)).failed in Moves(PlanDirectory(dir, names)[..b + 1], Apply)
    ensures Perform(files, Moves(PlanDirectory(dir, names)[..b], Apply)).Completed? ==>
      Perform(files, Moves(PlanDirectory(dir, names), Apply))
      == Aborted(Perform(files, Moves(PlanDirectory(dir, names)[..b], Apply)).files, Move(ImagePath(PlanDirectory(dir, names)[b]), TargetPath(PlanDirectory(dir, names)[b])))
  {
    var plans := PlanDirectory(dir, names);
    DirectoryPlansShareImages(dir, names);
    SharedKeyAbortsFor(plans, dir, KeyOf, files, a, b);
  }

  lemma SharedKeyAbortsFor(plans: seq<RenamePlan>, dir: seq<string>, key: string -> Option<string>, files: set<seq<string>>, a: nat, b: nat)
    requires forall q :: q in plans ==> KeyedPlan(q, dir, key)
    requires SharedImages(plans, key)
    requires a < b < |plans| && !plans[a].wouldSkip && !plans[b].wouldSkip
    requires key(plans[a].video) == key(plans[b].video)
    ensures Perform(files, Moves(plans, Apply)).Aborted?
    ensures Perform(files, Moves(plans, Apply)).failed in Moves(plans[..b + 1], Apply)
    ensures Perform(files, Moves(plans[..b], Apply)).Completed? ==>
      Perform(files, Moves(plans, Apply)) == Aborted(Perform(files, Moves(plans[..b], Apply)).files, Move(ImagePath(plans[b]), TargetPath(plans[b])))
  {
    var moves := Moves(plans, Apply);
    var pre := Moves(plans[..b], Apply);
    var mb := Move(ImagePath(plans[b]), TargetPath(plans[b]));
    MovesSplitAt(plans, b);
    var j := |pre|;
    assert moves[..j] == pre && moves[j] == mb && moves[..j + 1] == Moves(plans[..b + 1], Apply);
    assert plans[a] in plans[..b];
    var ma := Move(ImagePath(plans[a]), TargetPath(plans[a]));
    assert ma in pre;
    var i :| 0 <= i < |pre| && pre[i] == ma;
    assert moves[i] == ma;
    assert plans[a] in plans && plans[b] in plans;
    assert KeyedPlan(plans[a], dir, key) && KeyedPlan(plans[b], dir, key);
    assert ma.from == mb.from;
    NoMoveOntoPairedImage(plans, dir, key, plans[b]);
    forall k | 0 <= k < |moves| ensures moves[k].to != moves[j].from {
      assert moves[k] in moves;
    }
    RepeatedSourceAborts(files, moves, i, j);
  }

  /** The renames of plans split around a plan that is not a skip: those before it, its own, those after it. */
  lemma MovesSplitAt(plans: seq<RenamePlan>, b: nat)
    requires b < |plans| && !plans[b].wouldSkip
    ensures Moves(plans, Apply) == Moves(plans[..b], Apply) + [Move(ImagePath(plans[b]), TargetPath(plans[b]))] + Moves(plans[b + 1..], Apply)
    ensures Moves(plans[..b + 1], Apply) == Moves(plans[..b], Apply) + [Move(ImagePath(plans[b]), TargetPath(plans[b]))]
  {
    var upto := plans[..b + 1];
    MovesUpTo(plans, b);
    assert plans == upto + plans[b + 1..];
    MovesAppend(upto, plans[b + 1..], Apply);
  }

  lemma MovesUpTo(plans: seq<RenamePlan>, b: nat)
    requires b < |plans| && !plans[b].wouldSkip
    ensures Moves(plans[..b + 1], Apply) == Moves(plans[..b], Apply) + [Move(ImagePath(plans[b]), TargetPath(plans[b]))]
  {
    var pre, one := plans[..b], [plans[b]];
    assert plans[..b + 1] == pre + one;
    MovesAppend(pre, one, Apply);
    MovesOfOne(plans[b]);
  }

  /**
    After applying plans in `dir` whose renames complete as `PerformIndependent`
    describes, a name is present exactly when it was there and no rename took
    it away, or some rename gave it.
   */
  lemma AfterApply(plans: seq<RenamePlan>, dir: seq<string>, files: set<seq<string>>, x: string)
    requires forall q :: q in plans ==> q.dir == dir
    requires Perform(files, Moves(plans, Apply)) == Completed(files - Sources(Moves(plans, Apply)) + Targets(Moves(plans, Apply)))
    ensures dir + [x] in Perform(files, Moves(plans, Apply)).files <==>
      (dir + [x] in files && forall q :: q in plans && !q.wouldSkip ==> q.image != x)
      || exists q :: q in plans && !q.wouldSkip && q.target == x
  {
    var moves := Moves(plans, Apply);
    SourcesInDir(plans, dir, x);
    TargetsInDir(plans, dir, x);
    var after := files - Sources(moves) + Targets(moves);
    assert dir + [x] in after <==> (dir + [x] in files && dir + [x] !in Sources(moves)) || dir + [x] in Targets(moves);
  }

  /** Within `dir`, a name is a rename's source exactly when some applied plan there renames that image. */
  lemma SourcesInDir(plans: seq<RenamePlan>, dir: seq<string>, x: string)
    requires forall q :: q in plans ==> q.dir == dir
    ensures dir + [x] in Sources(Moves(plans, Apply)) <==> exists q :: q in plans && !q.wouldSkip && q.image == x
  {
    var moves := Moves(plans, Apply);
    if dir + [x] in Sources(moves) {
      var m :| m in moves && m.from == dir + [x];
      var q :| q in plans && !q.wouldSkip && m == Move(ImagePath(q), TargetPath(q));
      PathInDirInjective(dir, q.image, x);
    }
    forall q | q in plans && !q.wouldSkip
      ensures dir + [q.image] in Sources(moves)
    {
      assert Move(ImagePath(q), TargetPath(q)) in moves;
    }
  }

  /** Within `dir`, a name is a rename's target exactly when some applied plan there renames to it. */
  lemma TargetsInDir(plans: seq<RenamePlan>, dir: seq<string>, x: string)
    requires forall q :: q in plans ==> q.dir == dir
    ensures dir + [x] in Targets(Moves(plans, Apply)) <==> exists q :: q in plans && !q.wouldSkip && q.target == x
  {
    var moves := Moves(plans, Apply);
    if dir + [x] in Targets(moves) {
      var m :| m in moves && m.to == dir + [x];
      var q :| q in plans && !q.wouldSkip && m == Move(ImagePath(q), TargetPath(q));
      PathInDirInjective(dir, q.target, x);
    }
    forall q | q in plans && !q.wouldSkip
      ensures dir + [q.target] in Targets(moves)
    {
      assert Move(ImagePath(q), TargetPath(q)) in moves;
    }
  }

  /** An image a rename produced is already named after the one video of its key. */
  lemma RenamedImageIsFinal(dir: seq<string>, names: seq<string>, q: RenamePlan, video: string)
    requires UniqueVideoKeys(names) && q in PlanDirectory(dir, names)
    requires video in names && IsVideo(video) && KeyOf(video) == KeyOf(q.target)
    ensures NewImageName(video, q.target) == q.target
  {
    PlanDirectorySound(dir, names, q);
    NewImageNameFacts(q.video, q.image);
  }

  /** An image no rename touched that carries a video's key is already named after that video. */
  lemma UntouchedImageIsFinal(dir: seq<string>, names: seq<string>, video: string, image: string)
    requires UniqueImageKeys(names)
    requires video in names && IsVideo(video) && KeyOf(video).Some?
    requires image in names && IsImage(image) && KeyOf(image) == KeyOf(video)
    requires forall q :: q in PlanDirectory(dir, names) && !q.wouldSkip ==> q.image != image
    ensures NewImageName(video, image) == image
  {
    PlanDirectoryComplete(dir, names, video, image);
    var q :| q in PlanDirectory(dir, names) && q.video == video;
    PlanDirectorySound(dir, names, q);
  }

  /** Renames only ever produce image names, so no video appears or disappears. */
  lemma TargetIsNoVideo(dir: seq<string>, names: seq<string>, q: RenamePlan, video: string)
    requires q in PlanDirectory(dir, names) && IsVideo(video)
    ensures q.target != video
  {
    PlanDirectorySound(dir, names, q);
    ExtensionListsDisjoint(video);
  }

  /**
    Idempotence: in a directory whose videos have pairwise different keys and
    whose images have pairwise different keys, after the plans are applied, a
    second run over the resulting listing, in any order, only skips.
   */
  lemma RerunOnlySkips(dir: seq<string>, names: seq<string>, files: set<seq<string>>, names2: seq<string>, p: RenamePlan)
    requires NoDuplicates(names) && UniqueVideoKeys(names) && UniqueImageKeys(names)
    requires forall n :: dir + [n] in files <==> n in names
    requires forall n :: n in names2 <==> dir + [n] in Perform(files, Moves(PlanDirectory(dir, names), Apply)).files
    requires p in PlanDirectory(dir, names2)
    ensures p.wouldSkip
  {
    var plans := PlanDirectory(dir, names);
    DirectoryApplyCompletes(dir, names, files);
    DirectoryPlansShareImages(dir, names);
    PlanDirectorySound(dir, names2, p);
    AfterApply(plans, dir, files, p.video);
    AfterApply(plans, dir, files, p.image);
    forall q | q in plans ensures q.target != p.video {
      TargetIsNoVideo(dir, names, q, p.video);
    }
    assert p.video in names;
    if q :| q in plans && !q.wouldSkip && q.target == p.image {
      RenamedImageIsFinal(dir, names, q, p.video);
    } else {
      UntouchedImageIsFinal(dir, names, p.video, p.image);
    }
  }

  /** The files after a run that reports failing renames and goes on, and the renames that failed. */
  datatype Reported<T> = Reported(files: set<T>, failed: seq<Move<T>>)

  /**
    The evidently intended rename loop: a rename whose source is missing is
    reported and changes nothing, and the run continues with the next one.
   */
  function PerformReporting<T>(files: set<T>, moves: seq<Move<T>>): Reported<T>
    decreases |moves|
  {
    if moves == [] then Reported(files, [])
    else if moves[0].from !in files then
      var rest := PerformReporting(files, moves[1..]);
      Reported(rest.files, [moves[0]] + rest.failed)
    else PerformReporting(files - {moves[0].from} + {moves[0].to}, moves[1..])
  }

  /** Where no rename fails, the reporting loop and the loop as written end in the same files. */
  lemma {:induction false} PerformReportingAgrees<T>(files: set<T>, moves: seq<Move<T>>)
    ensures PerformReporting(files, moves).failed == [] <==> Perform(files, moves).Completed?
    ensures Perform(files, moves).Completed? ==> PerformReporting(files, moves).files == Perform(files, moves).files
    decreases |moves|
  {
    if moves != [] && moves[0].from in files {
      PerformReportingAgrees(files - {moves[0].from} + {moves[0].to}, moves[1..]);
    }
  }

  /**
    A failure does not stop the reporting loop: running two batches of
    renames one after the other is running them together, and the failures
    are those of the first batch followed by those of the second.
   */
  lemma {:induction false} PerformReportingContinues<T>(files: set<T>, a: seq<Move<T>>, b: seq<Move<T>>)
    ensures PerformReporting(files, a + b) == Reported(
      PerformReporting(PerformReporting(files, a).files, b).files,
      PerformReporting(files, a).failed + PerformReporting(PerformReporting(files, a).files, b).failed)
    decreases |a|
  {
    if a == [] {
      assert a + b == b;
    } else {
      assert (a + b)[0] == a[0] && (a + b)[1..] == a[1..] + b;
      if a[0].from !in files {
        PerformReportingContinues(files, a[1..], b);
      } else {
        PerformReportingContinues(files - {a[0].from} + {a[0].to}, a[1..], b);
      }
    }
  }

  /**
    With the reporting loop, the two videos that share a key get one rename
    done and the second reported, where the loop as written ends the run.
   */
  lemma SharedKeyReported(files: set<string>, image: string, first: string, second: string)
    requires image in files && image != first && image != second
    ensures Perform(files, [Move(image, first), Move(image, second)]).Aborted?
    ensures PerformReporting(files, [Move(image, first), Move(image, second)]) ==
      Reported(files - {image} + {first}, [Move(image, second)])
  {
    var moves := [Move(image, first), Move(image, second)];
    var after := files - {image} + {first};
    assert moves[1..] == [Move(image, second)] && moves[1..][1..] == [];
    assert image !in after;
    assert PerformReporting(after, [Move(image, second)]) == Reported(after, [Move(image, second)]);
  }

  /**
    Every rename of a whole run moves an image of a reachable directory's
    filtered listing to a different image name in the same directory.
   */
  lemma RunMovesStayInDirectory(root: seq<Entry>, m: Move<seq<string>>)
    requires m in Moves(Run(root), Apply)
    ensures exists p :: (p in Run(root) && m == Move(p.dir + [p.image], p.dir + [p.target])
      && IsImage(p.image) && IsImage(p.target) && p.image != p.target
      && exists names :: Reaches(root, p.dir, names) && p.image in names)
  {
    var p :| p in Run(root) && !p.wouldSkip && m == Move(ImagePath(p), TargetPath(p));
    RunSound(root, p);
    var names :| Reaches(root, p.dir, names) && p.video in names && p.image in names;
    assert m == Move(p.dir + [p.image], p.dir + [p.target]);
    assert IsImage(p.image) && IsImage(p.target) && p.image != p.target;
  }
}

