# plex-episode-renamer, modelled in Dafny

`plex-episode-renamer` renames thumbnail images so that each one takes the
base name of the video with the same season/episode marker (`S01E02`, `s1 e2`,
…). This lets a media server pick up each image as that video's thumbnail. It walks a directory
tree depth-first. In every directory it drops the ignored names, recurses into
the subdirectories, and then pairs the directory's videos with its images.
Each pairing either renames the image or, in a dry run, reports the rename.

The Dafny project models the whole decision logic of
`renameImagesInDirectory` and `extractSeasonAndEpisode` (index.js). It treats
the file system as an immutable snapshot of the tree. It proves what the
program decides and what the renames do to the files.

| file | module | what it models |
|---|---|---|
| wrappers.dfy | `Wrappers` | `Option` |
| seqs.dfy | `Seqs` | `Array.prototype.filter` |
| decimal.dfy | `Decimal` | `parseInt(…, 10)` on a digit run and the `${n}` rendering of a number |
| episode.dfy | `Episode` | the regular expression `/s(\d+)\s?e(\d+)/i`, the identifier and its index key `season-episode` |
| names.dfy | `Names` | the ignore and extension lists, `path.extname`, and the `split(".")` arithmetic behind the new image name |
| pairing.dfy | `Pairing` | the image index (the last image per key wins) and the per-directory rename plans |
| traversal.dfy | `Traversal` | the post-order walk over the snapshot, which follows `lstat` and so does not follow symlinks, and the plans of a whole run |
| renaming.dfy | `Renaming` | dry-run reports, `fs.rename` calls, and their effect on the set of existing files |
| shared_key.dfy | `SharedKey` | one concrete listing on which the applying run ends at its second rename, the listed image having been moved by the first |

A rename plan records the directory path, the video, the image, the target
name and the skip flag (`wouldSkip`: the image already has the target name).
A run is `Traversal.Run(root)`. Its applied renames are
`Renaming.Moves(Run(root), Apply)`. `Renaming.Perform` executes renames on a
set of paths. It stops at the first rename whose source file is missing,
because the handler's catch block itself throws there.

Two behaviours of the code are worth spelling out:
- For a name without a dot, the model follows index.js:117, which gives the
  empty string as the video base name (`split(".").slice(0, -1).join(".")`),
  not the whole name. The case cannot arise for a classified video, because
  every classified name has a dot after its first character.
- A failing rename (or `lstat`) ends the whole run (index.js:156-160) instead
  of being reported and skipped. See "Findings".

## Model

| member | source | states |
|---|---|---|
| Decimal.Show | index.js:96 | the rendering of a number in the key is a canonical numeral: digits only, no leading zero unless it is `0` |
| Decimal.ParseShow | index.js:95-96 | reading the rendered numeral back gives the number, so the rendering loses nothing |
| Decimal.ShowParse | index.js:171-172 | a canonical numeral is exactly the rendering of the value `parseInt` reads from it |
| Decimal.LeadingZeroIgnored | index.js:171-172 | a leading zero does not change the value `parseInt` reads |
| Episode.DigitRun | index.js:167 | the greedy `\d+` run: every character in it is a digit and the character after it is not |
| Episode.PathsAtAreForced | index.js:167 | every way the pattern can match at an offset takes the full season digit run, and takes the whitespace exactly when there is one |
| Episode.MatchAtIsFirstPath | index.js:167-168 | the direct matcher finds a match at an offset exactly when the pattern matches there, and it returns the match a backtracking matcher tries first |
| Episode.ExtractFromIsLeftmost | index.js:168 | scanning from an offset yields nothing exactly when no later offset matches; otherwise it yields the captures of the leftmost match |
| Episode.SeasonEpisodeIsLeftmostMatch | index.js:166-177 | `extractSeasonAndEpisode` gives null exactly when the name has no match; otherwise it gives both captures of the leftmost match, read base 10 |
| Episode.LeadingZerosDisappear | index.js:166-177 | `S01E02` and `s1e2` both give season 1, episode 2, whose key is `1-2` |
| Episode.SpacedZeroIdentifier | index.js:166-177 | one whitespace may separate season and episode, and zero is an ordinary value: `s0 e0` gives season 0, episode 0 |
| Episode.KeyInjective | index.js:96 | two identifiers have the same `season-episode` key exactly when they are equal |
| Episode.ExtractIgnoresDotSuffix | index.js:116-118 | appending a dot and text without `s`/`S` leaves the identifier of a name unchanged, because a match cannot cross the dot |
| Names.LastDot | index.js:116-117 | the position of the last `.`, or none when the name has no dot |
| Names.Extname | index.js:76-83 | `path.extname` is empty exactly when no character after the first is a dot, or the name is `..`; otherwise it is a proper suffix of the name that starts with a dot and holds no other dot |
| Names.ExtnameScan | index.js:76-83 | Node's right-to-left POSIX scan behind `path.extname` gives the same result as `Extname` on every name without a separator |
| Names.Split | index.js:116-117 | `split(".")` gives at least one piece, no piece contains a dot, and joining the pieces with dots gives the name back |
| Names.ImageExtensionAfterLastDot | index.js:116 | `split(".").pop()` is the text after the last dot, or the whole name when it has no dot |
| Names.VideoBaseNameBeforeLastDot | index.js:117 | `split(".").slice(0, -1).join(".")` is the text before the last dot, or empty when the name has no dot |
| Names.ExtensionListsDisjoint | index.js:19-20 | no name is both an image and a video |
| Names.UndottedNamesUnclassified | index.js:76-83 | a name with no dot after its first character (`.jpg`, `poster`) is neither an image nor a video |
| Names.UpperCaseExtensionUnclassified | index.js:76-83 | classification is case-sensitive: `x.JPG` is neither an image nor a video |
| Names.ClassifiedNameShape | index.js:116-118 | a classified name has a dot after its first character, and it is its base name, a dot, and its extension |
| Names.ListedExtensionsHaveNoLetterS | index.js:19-20 | no listed extension contains a dot or an `s`/`S` |
| Names.NewImageNameFacts | index.js:116-118 | the new image name is an image and not a video. It keeps the image's extension and the video's base name, and has the video's identifier. Renaming it again gives it back. |
| Pairing.SameKeyIffSameEpisode | index.js:108-109 | two names with identifiers have the same index key exactly when their identifiers are equal |
| Pairing.IndexBy | index.js:86-97 | the index holds a key exactly when some image of the listing has that key |
| Pairing.IndexByLastWins | index.js:88-97 | the index maps each key to the last image in listing order that has the key |
| Pairing.PlanVideos | index.js:99-125 | plans are made for exactly the videos whose key the index holds, in listing order. Each plan pairs the video with the indexed image and targets the new image name. It is a skip exactly when the image already has that name. |
| Pairing.PlanDirectorySound | index.js:76-125 | every plan pairs a listed video with the last listed image of the same key. The target is an image with that key, and the plan is a skip exactly when the image already has the target name. |
| Pairing.PlanDirectoryComplete | index.js:99-114 | every listed video with an identifier that some listed image shares gets a plan |
| Pairing.SharedKeySharesImage | index.js:109 | videos that share a key are paired with the same image |
| Pairing.PlanDirectoryDistinctVideos | index.js:99 | in a listing without repeated names, no video gets two plans |
| Seqs.Filter | index.js:58-60 | the filter keeps exactly the elements that satisfy the predicate, and nothing else |
| Seqs.FilterAppend | index.js:58-60 | filtering keeps the kept elements in their listing order |
| Seqs.FilterSingleton | index.js:58-60 | filtering one element keeps it exactly when it satisfies the predicate; with `FilterAppend` this computes the filter of a concrete listing |
| Traversal.KeptWellFormed | index.js:58-60 | dropping ignored names keeps a listing's names distinct and its subdirectories well formed |
| Traversal.VisitsShape | index.js:54-84 | the walk stays below its starting directory and pairs that directory last, with its filtered listing |
| Traversal.VisitsBelowShape | index.js:64-74 | every directory the loop over a listing pairs lies strictly below the current one, inside one of the listing's entries |
| Traversal.VisitsBelowOrder | index.js:64-74 | with distinct names, every directory paired inside an earlier entry of the listing is paired before every directory paired inside a later entry |
| Traversal.VisitsListingOrder | index.js:64-74 | in every reachable directory, everything paired inside an earlier entry of its filtered listing is paired before everything paired inside a later entry |
| Traversal.VisitsOnce | index.js:54-84 | in a snapshot with distinct names per directory, the walk pairs no directory twice |
| Traversal.VisitsBelowOnce | index.js:64-74 | the loop over a listing with distinct names pairs no directory below it twice |
| Traversal.VisitsPostOrder | index.js:64-76 | with distinct names per directory, no directory is paired before a directory below it, and the walk is depth-first in listing order in every reachable directory |
| Traversal.VisitsReachable | index.js:58-70 | the walk pairs only directories reachable through entries that survive the ignore list and that `lstat` reports as directories, each with its own filtered listing |
| Traversal.ReachableVisited | index.js:58-70 | the walk pairs every directory reachable that way, so every such subdirectory is processed in full |
| Traversal.PlansOfOrigin | index.js:64-76 | every plan of a run comes from the pairing of one of the visited directories |
| Traversal.PlansOfPostOrder | index.js:64-76 | pairing the visits in post-order yields plans in post-order |
| Traversal.PlansListingOrder | index.js:64-76 | pairing the visits keeps the listing order: plans made inside an earlier entry of a reachable filtered listing come before plans made inside a later entry |
| Traversal.RunListingOrder | index.js:52-76 | in a run, every plan made inside an earlier entry of a reachable directory's filtered listing comes before every plan made inside a later entry |
| Traversal.PlansOfOnce | index.js:64-125 | pairing visits of distinct directories, each pairing planning a video at most once, plans no video of a directory twice |
| Traversal.RunOnce | index.js:52-125 | in a snapshot with distinct names per directory, no two plans of a run share both directory and video, so no video's image is renamed twice on its behalf |
| Traversal.RunPostOrder | index.js:52-76 | in a snapshot with distinct names per directory, no rename in a directory comes before a rename in one of its subdirectories, and the renames below the entries of every reachable filtered listing come entry by entry, in listing order |
| Traversal.RunSound | index.js:52-125 | every plan of a run pairs a video and an image of a reachable directory's filtered listing. They share a key, the target is the new image name, and the plan is a skip exactly when nothing would change. |
| Traversal.RunComplete | index.js:58-114 | in every reachable directory, every video whose key one of the directory's images shares gets a plan |
| Renaming.DryRunReport | index.js:127-140 | a dry run reports one line per plan: "would skip" for a skip, otherwise "would rename" from the image path to the target path |
| Renaming.Moves | index.js:127-151 | a dry run calls `fs.rename` never. An applying run attempts the rename of exactly the plans that are not skips, until one fails (Renaming.Perform); MovesOfOne, MovesAppend and MovesOfTwo fix one rename per such plan, in plan order. |
| Renaming.MovesAppend | index.js:99-151 | the rename calls follow the plans' order |
| Renaming.MovesOfOne | index.js:127-151 | one plan makes no rename when it is a skip, otherwise exactly one, from its image path to its target path |
| Renaming.MovesOfTwo | index.js:99-151 | the renames of two plans that are not skips appear in the order of the plans |
| Renaming.MovesSplitAt | index.js:99-151 | the renames of the plans are those of the plans before a non-skip plan, then its own, then those of the plans after it |
| Renaming.Perform | index.js:149-160 | a run that ends does so at one of its renames, whose source is missing from the files at that point |
| Renaming.PerformAppend | index.js:149-160 | performing two batches of renames in sequence is performing them as one, unless the first batch ends the run |
| Renaming.AbsentStaysAbsent | index.js:149-151 | a missing file stays missing while no rename targets it |
| Renaming.MovedAwayStaysAway | index.js:149-151 | a file a rename moved away is missing after the batch while no rename targets it |
| Renaming.DryRunAnnouncesAppliedMoves | index.js:127-151 | the renames a dry run announces are exactly those an applying run attempts, in the same order, until one fails (Renaming.Perform) |
| Renaming.PerformIndependent | index.js:149-151 | renames whose sources all exist, are pairwise distinct, and are never another rename's target all succeed. They leave the files without the sources and with the targets. |
| Renaming.MissingSourceAborts | index.js:149-160 | once a source is gone and no rename recreates it, a later rename from it ends the run |
| Renaming.RepeatedSourceAborts | index.js:149-160 | two renames of the same file, with no rename back onto it, end the run at the second at the latest, and exactly at the second when every rename before it succeeds |
| Renaming.MovesIndependent | index.js:99-151 | plans for videos with pairwise different keys make renames that cannot get in each other's way |
| Renaming.DirectoryApplyCompletes | index.js:99-160 | in a directory whose videos have pairwise different keys, applying the plans never fails and renames exactly the planned images |
| Renaming.NoMoveOntoPairedImage | index.js:109-151 | no applied rename targets an image that a video is paired with |
| Renaming.SharedKeyAborts | index.js:149-160 | two videos of one directory that share a key, neither with its image already named after it, end the run at the second one's rename at the latest, and exactly there when every rename before it succeeds |
| Renaming.AfterApply | index.js:149-151 | after the renames, a name is present exactly when it was there and was not renamed away, or when a rename produced it |
| Renaming.RerunOnlySkips | index.js:99-147 | the renaming is idempotent. Take a directory where no two videos and no two images share a key. After the renames, a second run over the new listing, in any order, only skips. |
| Renaming.PerformReportingAgrees | index.js:156-160 | the reporting rename loop records no failure exactly when the loop as written completes, and then both leave the same files |
| Renaming.PerformReportingContinues | index.js:156-160 | the reporting loop goes on after a failure: two batches of renames run one after the other behave as one batch |
| Renaming.SharedKeyReported | index.js:156-160 | two renames of the same image: the loop as written ends the run, while the reporting loop performs the first and reports the second |
| SharedKey.SharedKeyListingPlans | index.js:86-125 | the listing `a S01E01.mkv`, `b S01E01.mkv`, `S01E01.jpg` plans two renames of `S01E01.jpg`, to `a S01E01.jpg` and to `b S01E01.jpg`, neither a skip |
| SharedKey.TwoPlansOfOneImage | index.js:149-160 | two plans renaming one existing image: the first rename moves it and the run ends at the second; with the image missing the run ends at the first |
| SharedKey.SharedKeyListingAborts | index.js:149-160 | on that listing an applying run always ends early. With `S01E01.jpg` present, as the listing says it is, the first rename moves it to `a S01E01.jpg` and the run ends at the rename to `b S01E01.jpg`; with it missing, the run ends at the first rename |
| Renaming.RunMovesStayInDirectory | index.js:121-151 | every applied rename of a run moves an image of a reachable directory to a different image name in the same directory |

## Left out

- Command-line parsing, the `path.resolve` of the working directory (index.js:22-52), logging, colouring and `logDivider` (utils.js). The dry-run flag is the `Mode` parameter. A dry-run report is a `Report` line, without its text.
- `fs.readdir`, `fs.lstat` and `fs.rename` are not called. The tree is a snapshot whose child order is the listing order. The real order depends on the operating system.
- Failures of `readdir` and `lstat` are outside the snapshot. The `lstat` catch block (index.js:71-72) has the same defect as the rename one.
- Rename failures other than a missing source are not modelled. These include permissions, special characters (the FIXME at index.js:150), and a target that is a directory. Replacing an existing file at the target is modelled.
- `wouldSkip` compares `path.resolve(dir, image)` with `path.join(dir, target)`. It is modelled as equality of the two names, because listing names contain no separators.
- Names containing `/` are not modelled. `Names.Extname` covers the separator-free names a listing holds.
- Episode.KeyInjective: holds for unbounded naturals. JavaScript numbers lose precision above 2^53, and `${n}` switches to exponent notation from 1e21. So two very long digit runs can collide in the real key.
- Decimal.ShowParse: reads numbers as unbounded naturals, not as JavaScript doubles, for the same reason.
- `\s` is the fixed set of ECMAScript whitespace and line terminators. `/i` without the `u` flag matches only `s`, `S`, `e` and `E` for the letters.
- Traversal.RunPostOrder: requires distinct names in every directory. A real directory listing has that property; the model's tree type does not impose it.
- Renaming.RerunOnlySkips: stated per directory, for a listing without repeated names, and only when no two videos share a key (UniqueVideoKeys) and no two images share a key (UniqueImageKeys). Renames never leave their directory (Renaming.RunMovesStayInDirectory), so directories do not affect each other. Without UniqueImageKeys a rerun can rename again: with the video `Show s01e01.mkv` and the images `a s01e01.jpg` then `b s01e01.png`, the first run renames `b s01e01.png` to `Show s01e01.png`; a second run whose listing puts `a s01e01.jpg` last pairs the video with it and renames it to `Show s01e01.jpg`. Without UniqueVideoKeys the first run itself can abort (Renaming.SharedKeyAborts, SharedKey.SharedKeyListingAborts).
- The top-level call is not awaited (index.js:52). What Node.js does with the resulting rejected promise is outside the model. `Aborted` only records where the run stopped.

## Findings

| source | as written | input that shows it | evidently intended | confidence | as-written member | corrected member |
|---|---|---|---|---|---|---|
| index.js:156-160 | the catch parameter `error` shadows the colouring helper `error`. The handler calls the caught exception as a function, which throws a TypeError. The TypeError escapes every enclosing catch block, which have the same defect, and ends the whole run. | one directory listing `a S01E01.mkv`, `b S01E01.mkv`, `S01E01.jpg`: both videos pair with the one image, which exists since it is listed; the first rename moves it, and the second rename finds no source | report the failed rename and continue with the next video | high; not executed | Renaming.SharedKeyAborts | Renaming.PerformReporting |

`Renaming.Perform` is the loop as written, and `Renaming.SharedKeyAborts` shows it ending the run. `SharedKey.SharedKeyListingAborts` proves this for the listing in the table, naming the rename that fails and the files left at that point. `Renaming.PerformReporting` is the corrected loop. Its lemmas `PerformReportingAgrees`, `PerformReportingContinues` and `SharedKeyReported` prove the intended behaviour. `DirectoryApplyCompletes` states its result for both loops.
