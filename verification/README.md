# snix: store, activation and codecs, verified

`snix` manages the Nix store of a Redox guest: it fetches closures from a binary cache, collects
garbage, orders and builds derivations, activates system profiles and managed files, and reads and
writes Nix archives. This project models that core in Dafny and proves what it promises. The
filesystem is a map or a set of paths, the network and the hash functions are parameters, and so are
the failures that an operation can meet, so each theorem is about all of them; failures that are not
modelled are listed at the end.

The parts, and what is proved about each:

* **Store lifecycle** (`Graph`, `Cycles`, `Store`, `GcProperties`, `Fetch`, `Lifecycle`, `Machine`). The two
  breadth-first searches compute reachability in the reference graph. Over every sequence of
  installs, removals, fetches, root changes and collections, with fetches that stop part-way,
  sweeps that abort and an index and a cache that may be others for every command, a closure stays
  registered and on disk exactly while it is live at every collection, and everything installed is
  protected exactly while every command is careful with root links. Collection leaves exactly what
  complete roots reach and is idempotent. The database files records under the digest of a path, so
  the paths recorded or on offer are assumed to have different digests. Roots may point anywhere:
  `DigestClashLosesLivePath` shows a root that shares its digest and loses its record, and
  `CompleteIffRecordsLive` says, with no assumption on digests, exactly when a root stays complete.
* **Schedulers** (`ScriptQueue`, `ScriptOrder`, `DerivationOrder`, `LocalBuild`). Kahn's algorithm over
  activation scripts, exact and deterministic, with the one order that it can give described apart
  from it; the depth-first order of derivations, which is that of the unfolded inputs, and the build
  loop over it.
* **Activation** (`ProfileSwap`, `Activation`, `ConfigFiles`, `ConfigProperties`, `ManagedMode`,
  `ConfigQuiet`, `ConfigReport`, `MergeConfig`, `MergedManifest`, `Rebuild`). The profile swap by
  renames as a state machine with a recorded history, the fallback rebuild and what it leaves when it
  fails, any number of activations in a row, the difference of two file manifests, its application to
  a disk with directories and what that reports and leaves at every path, the merge of a configuration
  into a manifest, told field by field, and any number of merges and activations in a row.
* **Codecs** (`Nar`, `NarWriter`, `NarTree`, `NarExtract`, `NarManifest`, `NarHash`, `Utf8`,
  `Nixbase32`, `NixString`, `Calendar`). The archive format against a reference decoder, extraction and
  serialising again, the extraction manifest, base-32 digits, string literals and timestamps.
* **Refinements** (`SourceWriter`, `FileCache`). A stack machine that writes source trees and a
  bounded cache of open files, each against the simple form it replaces.

## Where the code differs from what one would expect

* `remove` drops the GC root before it saves the manifest. When the save fails, the package is still
  installed and the next collection takes it (`Lifecycle.FailedRemoveLosesPackage`, a run from the
  empty system). `Lifecycle.StepKeepsRooted` and `Lifecycle.InstallEndsRooted` give the exact
  condition for every command, and `Lifecycle.CareProtectsEverything` for whole runs; it can be told
  before each command runs.
* When the swap fails, the fallback clears the links of the profile in use before it makes new ones.
  If it then fails too, the old profile is lost (`Activation.FailedActivationLosesProfile`: one
  activation suffices). `Activation.FailedActivationKeeps` gives the exact condition under which an
  activation that fails by both routes keeps the old profile in `bin` or `bin.old`; where links were
  cleared and some made again, it is a condition on each name (`ProfileSwap.PopulatedByName`).
* A first failure can leave the profile only in `bin.old`, which the next swap removes before it does
  anything else (`Activation.SetAsideProfileLost`). `Activation.AtomicProfileSwap` keeps the profile
  that is in use or set aside at every moment exactly when `bin` is there, `bin.old` is not, or
  removing `bin.old` fails for every entry.
* What the clean-up of the staging directory leaves behind ends in the new profile, unless a new link
  replaces it (`Activation.StaleStagingShows`, with the input of `Activation.StaleLinkSurvives`).
* A configuration may name a path and another one below it. Merging accepts both
  (`Rebuild.NestedPathsAccepted`) and activating them always warns (`ConfigQuiet.NestedPathsWarn`);
  `ConfigQuiet.FaultlessIsQuiet` says exactly when there is no warning.
* New paths are written before dropped ones are removed, so replacing a managed file by a directory
  always warns (`ConfigQuiet.FolderForFileWarns`).
* Managed files are compared by hash only: changing the mode of a file and nothing else has no effect
  and gives no warning (`ConfigReport.ModeChangeIgnored`). `ConfigReport.QuietFileExact` says exactly
  when a file has its mode afterwards.
* Repeated script names are reported as a dependency cycle with an empty list of names
  (`ScriptOrder.TopoSort`).
* A second merge of the same configuration can reorder the package list
  (`MergeConfig.SecondMergeCanReorder`); it does so exactly when a boot-essential package that is new
  to the system comes behind another package (`MergeConfig.SecondMergeKeepsOrder`), and the third
  merge changes nothing more (`MergeConfig.OrderSettles`).
* The limit of 0o7777 on file modes never refuses anything (`ManagedMode.LimitIsIdle`).
* The file cache evicts the first path in order, as the comment above its limit says; a comment at
  the eviction itself speaks of the oldest entry. The model allows any victim.

## Model

| member | source | states |
|---|---|---|
| Store.ComputeClosure | snix-redox/src/store.rs:41-71 | Succeeds exactly when everything reachable from the root is registered; then the result is exactly the reachable set with the sum of its NAR sizes; otherwise the error names a reachable unregistered path. Terminates on cycles. |
| Store.NarTotalOfOne | snix-redox/src/store.rs:53-58 | The total of a single path is the size in its record; totals add up. |
| Store.PathInfoDb.Get | snix-redox/src/pathinfo.rs:216-226 | Finds the record filed under the digest of a path; a malformed path is an error. |
| Store.PathInfoDb.Register | snix-redox/src/pathinfo.rs:230-237 | Files a record under its digest and changes nothing else. |
| Store.PathInfoDb.Delete | snix-redox/src/pathinfo.rs:295-302 | Removes the record under the digest and nothing else. |
| Store.GcRoots.AddRoot | snix-redox/src/store.rs:102-114 | Sets or replaces one root; a malformed target is refused. |
| Store.GcRoots.RemoveRoot | snix-redox/src/store.rs:117-125 | Removes one root; a missing one is an error. |
| Store.GcRoots.ComputeLiveSet | snix-redox/src/store.rs:148-177 | The live set is exactly the union of the closures of the roots that are registered and complete, in whatever order the roots are listed. |
| Store.SweepPath | snix-redox/src/store.rs:229-240 | Files go before the record; fails exactly when the path is stuck, and then says what is left. |
| Store.Sweep | snix-redox/src/store.rs:221-245 | Removes the dead paths in any order and stops at the first failure, which comes exactly when one of them is stuck; a dry run changes nothing. |
| Store.FindDead | snix-redox/src/store.rs:207-210 | The dead paths are exactly the registered ones that no complete root reaches. |
| Store.GarbageCollect | snix-redox/src/store.rs:202-247 | Fails exactly when a dead path is stuck and names one; finished or aborted, only dead paths lose records or files, and both together except where the removal failed; when finished exactly the live records remain, as many as reported are gone, and deleted plus kept is the original count. |
| Store.LiveIsOwnRecord | snix-redox/src/store.rs:148-177 | With distinct digests every live path is registered under its own name. |
| Store.CountsAddUp | snix-redox/src/store.rs:202-247 | Live and dead paths together are all registered paths. |
| GcProperties.SweepKeepsClosure | snix-redox/src/store.rs:202-247 | Any sweep, aborted or not, leaves the closure of every complete root the same, registered and on disk. |
| GcProperties.RetainedHasNoDanglingReference | snix-redox/src/store.rs:202-247 | After a finished collection every recorded reference is registered. |
| GcProperties.SweepKeepsLive | snix-redox/src/store.rs:202-247 | Any sweep, aborted or not, leaves the closure of every live path that finds its own records the same, registered and on disk. |
| GcProperties.SurvivesIffLive | snix-redox/src/store.rs:202-247 | A finished collection keeps a present closure that finds its own records exactly when a complete root reaches its root. |
| GcProperties.CompleteIffRecordsLive | snix-redox/src/store.rs:202-247 | Whatever digests clash, a complete root stays complete through a finished collection exactly when every path of its closure finds the record of a live path. |
| GcProperties.RetainedRootsAreComplete | snix-redox/src/store.rs:156-173 | A root whose target survived had a complete closure: incomplete roots do not become complete. |
| GcProperties.LiveIsStable | snix-redox/src/store.rs:148-177 | Collection does not change which paths are live. |
| GcProperties.RetainedStaysCoherent | snix-redox/src/store.rs:202-247 | What a collection leaves still has every reference and root finding its own record. |
| GcProperties.SecondCollectionIsIdle | snix-redox/src/store.rs:202-247 | A second collection deletes nothing. |
| GcProperties.DigestClashLosesLivePath | snix-redox/src/pathinfo.rs:332-335 | Two paths with one digest share a record, and collecting one removes the record of the live other. |
| Fetch.FetchInner | snix-redox/src/cache.rs:162-237 | A missing path is downloaded, extracted and registered from its narinfo; a present one is left alone; a failure changes no record and leaves files only when the registration failed. |
| Fetch.Obtain | snix-redox/src/cache.rs:91-141 | Succeeds exactly when the path is in the store already or advertised and not faulty; then it is present and registered with the references that are returned, and no other record is touched. |
| Fetch.FetchRecursive | snix-redox/src/cache.rs:71-156 | Succeeds exactly when everything reachable through what the store and the cache offer can be obtained; then the visited set is exactly what is reachable through the references now in the database, all of it present and registered and nothing else new; a failure names a reachable path that cannot be obtained; finished or not, what is not reachable is untouched. Terminates on any finite cache. |
| Fetch.FetchedIsClosure | snix-redox/src/cache.rs:71-156 | A search over what was on offer before the fetch ends with the closure in the database after it. |
| Fetch.AcquiredKeepsClosure | snix-redox/src/cache.rs:71-156 | Any fetching, finished or not, keeps every closure that was present and complete, exactly. |
| Lifecycle.StepKeepsClosure | snix-redox/src/store.rs:202-247 | A present closure outlives every command but a collection, every collection while it is live, and a finished collection exactly then. |
| Lifecycle.StepKeepsRooted | snix-redox/src/install.rs:328-376 | A rooted package stays rooted or leaves the profile exactly under a condition on the command; for `remove`: unlinking fails, the root is stuck, or the save does not leave the old manifest. |
| Lifecycle.CommandFootprint | snix-redox/src/install.rs:328-541 | A command changes at most the root link of its own package, an installation only after the save and a removal before it; saving changes one package, nothing, or loses the manifest. |
| Lifecycle.InstallEndsRooted | snix-redox/src/install.rs:519-536 | A package enters the profile exactly when it is known, not installed, can be fetched and linked, and the save works; it then has its closure, and is rooted exactly when the link is made or already pointed there. |
| Lifecycle.RunKeepsInv | snix-redox/src/install.rs:328-541 | Over every run, whatever fails in it and whatever the roots are, records and installed packages stay among the paths in play. |
| Lifecycle.StepKeepsProtected | snix-redox/src/install.rs:328-541 | From a state in which everything installed is rooted and complete, a command leaves such a state exactly when it is careful with root links, which can be told before it runs. |
| Lifecycle.RunKeepsLive | snix-redox/src/install.rs:328-541 | Over every run, with an index and a cache of its own for every command, a closure is there at every moment if it is live at every collection, and only then where collections finish. |
| Lifecycle.StepKeepsRootedHave | snix-redox/src/install.rs:328-541 | That every rooted package has its closure survives a command exactly unless a root added by hand claims a closure that is not there. |
| Lifecycle.RunKeepsInstalled | snix-redox/src/install.rs:328-541 | Over every run, with an index and a cache of its own for every command, every rooted package keeps its whole closure registered and on disk at every moment. |
| Lifecycle.CareProtectsEverything | snix-redox/src/install.rs:328-541 | Over every run, with an index and a cache of its own for every command, everything installed is rooted and complete at every moment exactly when every command is careful with root links, although fetches may fail and sweeps abort. |
| Lifecycle.FreshSystemProtected | snix-redox/src/install.rs:328-541 | The same for every run from the empty system. |
| Lifecycle.FailedRemoveLosesPackage | snix-redox/src/install.rs:328-376 | From the empty system: install, remove with a failed save, collect; the package is still installed and its files are gone. |
| Machine.System.InstallRecursive | snix-redox/src/install.rs:431-541 | Every execution is a step of the model; it succeeds exactly when the package is known, its closure can be obtained and nothing fails afterwards, and then the package is in the profile, rooted and complete; the error names what stopped it. |
| Machine.System.RemovePackage | snix-redox/src/install.rs:328-376 | Every execution is a step of the model; success exactly when the package is installed and nothing fails, and then it is out of the profile; the error names what stopped it. |
| Machine.System.Execute | snix-redox/src/main.rs:747-792 | Every command is a step of the model and keeps the invariant; it reports success exactly when it can be carried out, success means that what was asked for is there (a fetched closure is present, a collection is finished), and an error names what stopped it. |
| ScriptOrder.TopoSort | snix-redox/src/activate.rs:34-114 | Succeeds exactly when names are distinct, dependencies known and the graph acyclic; the result is then a permutation of the names with every dependency strictly earlier, in the sequence in which last dependencies free them and by name among those freed together; the cycle error names exactly the scripts from which a cycle is reached. |
| ScriptOrder.CheckDeps | snix-redox/src/activate.rs:39-51 | Refuses exactly the lists with an unknown dependency and names one. |
| ScriptOrder.BuildTables | snix-redox/src/activate.rs:53-66 | In-degrees count every occurrence of a dependency and dependents list a script once per occurrence. |
| ScriptOrder.Release | snix-redox/src/activate.rs:84-97 | No in-degree drops below zero even with repeated dependencies, and each script is released once. |
| ScriptOrder.ProcessQueue | snix-redox/src/activate.rs:68-98 | The loop computes a function of the dependency graph alone. |
| ScriptOrder.Drained | snix-redox/src/activate.rs:100-112 | When the queue is empty everything is ordered exactly if the graph is acyclic, and what remains is exactly what leads to a cycle. |
| ScriptOrder.OrderIsDeterministic | snix-redox/src/activate.rs:68-98 | Shuffling the scripts and each dependency list changes neither success nor the resulting sequence. |
| Bytes.BelowAtFirstDifference | snix-redox/src/activate.rs:92-96 | Names are compared at their first difference, and a prefix comes first. |
| ScriptQueue.KahnOrderRuns | snix-redox/src/activate.rs:68-98 | Serving the queue in order, each batch of newly ready scripts sorted and put at the back, gives that sequence. |
| ScriptQueue.RunOrderUnique | snix-redox/src/activate.rs:68-98 | Only one order has dependencies first and everything in the sequence in which its last dependency comes, ties by name. |
| DerivationOrder.Sorter.Visit | snix-redox/src/local_build.rs:815-847 | Adds only derivations that are needed, puts a new derivation last, continues the order by what its unfolded inputs have that is new, and fails only at a needed unknown one. |
| DerivationOrder.TopologicalSort | snix-redox/src/local_build.rs:815-847 | Succeeds exactly when everything needed is known; lists each needed derivation once with the target last, in the order of first occurrences in the unfolded tree of inputs; inputs first when acyclic. Terminates on cycles. |
| Listings.FirstOccurrences | snix-redox/src/local_build.rs:815-847 | That list has the elements of the unfolded tree once each, in the order of their first positions. |
| LocalBuild.Workshop.BuildOne | snix-redox/src/local_build.rs:768-808 | Starts the builder exactly when an output is missing, and wraps the error exactly for a dependency. |
| LocalBuild.CompleteMeans | snix-redox/src/local_build.rs:773-777 | A derivation is skipped exactly when every output has a known path and all of these exist; one with an output of unknown path is always built. |
| LocalBuild.Workshop.BuildNeeded | snix-redox/src/local_build.rs:757-812 | Builders start only for needed derivations that lack an output, once each, and only when all outputs of their inputs exist; nothing runs after the first failure, the last started build explains the answer, and success has started every needed derivation that still lacks an output and puts every needed output in place. |
| LocalBuild.Workshop.BuildInOrder | snix-redox/src/local_build.rs:767-811 | The same for the loop over a given order. |
| ProfileSwap.PopulatedProfile | snix-redox/src/activate.rs:915-954 | Populating overlays a directory with links from each name to the last package that provides it. |
| ProfileSwap.ProvidesMeans | snix-redox/src/activate.rs:919-935 | A package provides the regular files of its `bin` directory, if it has a store path and such a directory. |
| ProfileSwap.ProfileHolds | snix-redox/src/activate.rs:915-954 | A name is in the profile exactly when some package provides it, as a link to the last that does. |
| ProfileSwap.LinkCountMore | snix-redox/src/activate.rs:915-954 | The count is the number of regular files in the `bin` directories of the packages, repetitions included. |
| ProfileSwap.Profiles.PutLink | snix-redox/src/activate.rs:934-949 | Replaces what was under a name by one link, or says what a failure leaves, and touches no other directory. |
| ProfileSwap.Profiles.Populate | snix-redox/src/activate.rs:915-954 | Succeeds exactly when no directory is in the way and no link and no listing fails, even after the last link; says what is left in either case; counts every link; changes one directory only, at every moment. |
| ProfileSwap.PopulatedByName | snix-redox/src/activate.rs:915-954 | Populating, complete or not, ends with a given directory exactly when under every name: a freed name is absent, a name with links made holds the last one, and any other is as it was. |
| Activation.Prepare | snix-redox/src/activate.rs:859-874 | Steps 1 and 2 complete the new profile in `bin.new`, or fail, while `bin` stays as it was at every moment and `bin.old` changes by its clean-up only. |
| Activation.Exchange | snix-redox/src/activate.rs:876-910 | Steps 3 to 5: when they work, where each profile is afterwards, and that the old one is safe at every moment. |
| Activation.AtomicProfileSwap | snix-redox/src/activate.rs:853-911 | At every moment `bin` is the complete old profile, the complete new one or absent, and the old one is in `bin` or `bin.old` until the new one is in place; the same for a profile that is only in `bin.old`, exactly when the first clean-up leaves it whole; success exactly when no needed operation fails, and then `bin` is new. |
| Activation.FallbackProfileRebuild | snix-redox/src/activate.rs:958-979 | Success exactly when nothing needed fails; says what is left in `bin` in every case, including which old and new links after a failure, even one after the last link; other directories are untouched. |
| Activation.FallbackGives | snix-redox/src/activate.rs:958-979 | A successful fallback overlays what is no link with the profile of the package list. |
| Activation.RoutesAgree | snix-redox/src/activate.rs:588-611 | From one state a successful fallback ends with the profile of a successful swap exactly when a link replaces everything that is no link; always from links. |
| Activation.ActivateProfile | snix-redox/src/activate.rs:588-611 | The swap, and the fallback when it fails. |
| Activation.ActivatedProfile | snix-redox/src/activate.rs:588-611 | After a reported success by either route `bin` is the profile of the package list, from links only and a clean staging directory. |
| Activation.RunConverges | snix-redox/src/activate.rs:562-611 | In any run of activations with any failures, each that reports success leaves exactly its own profile. |
| Activation.StaleStagingShows | snix-redox/src/activate.rs:859-910 | A successful swap ends with the profile of the list exactly when a new link replaces everything left in the staging directory. |
| Activation.StaleLinkSurvives | snix-redox/src/activate.rs:859-910 | A swap to no packages that reports success and leaves a stale link. |
| Activation.FailedActivationKeeps | snix-redox/src/activate.rs:588-611 | An activation that fails by both routes keeps the old profile in `bin` or `bin.old` exactly under a condition on the state, the package list and the failures, name by name where links were made again. |
| Activation.FailedActivationLosesProfile | snix-redox/src/activate.rs:588-611 | One activation whose swap and fallback both fail loses any profile of links that was in use. |
| Activation.SetAsideProfileLost | snix-redox/src/activate.rs:588-611 | Two failing activations: the first leaves the profile only in `bin.old`, the second removes it there. |
| ConfigFiles.NormalPathsApart | snix-redox/src/activate.rs:1036-1067 | Normal paths are accepted and different ones name different places. |
| ConfigFiles.SlashesAndDotsIgnored | snix-redox/src/activate.rs:1036-1062 | Repeated slashes, dots in the middle and a slash or dot at the end change nothing. |
| ConfigFiles.RefusedPaths | snix-redox/src/activate.rs:1036-1062 | The empty path, a leading slash, a leading dot and a double dot anywhere are refused, and nothing else. |
| ConfigFiles.DiffConfigFiles | snix-redox/src/activate.rs:262-292 | The three lists name exactly the new paths, the dropped paths and the common paths whose hash differs, once each. |
| ConfigFiles.ConfigSite.WriteInline | snix-redox/src/activate.rs:1090-1107 | Makes missing directories, replaces a link, writes the text and sets the mode; a file on the way, a directory at the place or an unreadable mode fails, each with what it leaves. |
| ConfigFiles.ConfigSite.AddFile | snix-redox/src/activate.rs:1120-1146 | Disk, warnings and count after a new path, for inline, tracked and refused ones. |
| ConfigFiles.ConfigSite.RemoveFile | snix-redox/src/activate.rs:1148-1168 | Disk, warnings and count after a dropped path, including places where nothing can be read. |
| ConfigFiles.ConfigSite.ChangeFile | snix-redox/src/activate.rs:1170-1205 | Disk, warnings and count after a changed path, including the hash comparison of tracked files. |
| ConfigFiles.ConfigSite.Activate | snix-redox/src/activate.rs:1109-1213 | The difference is applied in the order new, dropped, changed. |
| ConfigProperties.NormalIsSeparate | snix-redox/src/activate.rs:1036-1067 | Normalised paths of which none is a prefix of another are accepted and separate. |
| ConfigProperties.ApplyAt | snix-redox/src/activate.rs:1109-1213 | At places of which none leads to another every job has the outcome it would have alone. |
| ConfigProperties.ApplyQuiet | snix-redox/src/activate.rs:1109-1213 | There is no warning exactly when no job alone would warn. |
| ConfigProperties.RestUntouched | snix-redox/src/activate.rs:1109-1213 | Places outside the difference are untouched, with or without failures, except that missing directories are made on the way to a path of the difference. |
| ConfigProperties.InlineFileRight | snix-redox/src/activate.rs:274-280 | Without warnings an inline file holds its text exactly when its path is new, its hash changed or the text was there already. |
| ConfigProperties.ActivationConverges | snix-redox/src/activate.rs:1109-1213 | From a disk that matches the old manifest, every inline file is on disk and every dropped path is gone. |
| ConfigProperties.ThereAndBack | snix-redox/src/activate.rs:1109-1213 | Old to new to old restores the contents of every place. |
| ConfigProperties.ReportedCount | snix-redox/src/activate.rs:1109-1213 | The reported number is the size of the difference. |
| ConfigReport.WarningsExact | snix-redox/src/activate.rs:1109-1211 | The new warnings are exactly the troubles that the paths of the difference have on the disk before, each of its own kind; none exactly when there is no trouble. |
| ConfigReport.TrackedChangeWarns | snix-redox/src/activate.rs:1192-1204 | From a disk that matches, a file without a text whose hash changed is always reported as needing an update. |
| ConfigReport.CountExact | snix-redox/src/activate.rs:1109-1211 | The number reported is that of the paths written or removed, or changed without a text and there. |
| ConfigReport.WrittenFile | snix-redox/src/activate.rs:1087-1107 | What is at the place of a new or changed file afterwards, in every case: its text and mode, what was there, what a failed write left, or its text with the old mode. |
| ConfigReport.UnwrittenFile | snix-redox/src/activate.rs:1140-1204 | Files without a text are left alone, and dropped paths go exactly when they are there and can be removed. |
| ConfigReport.QuietFile | snix-redox/src/activate.rs:1087-1107 | Without a warning every new or changed file with a text ends with that text and its mode. |
| ConfigReport.QuietFileExact | snix-redox/src/activate.rs:262-292 | After an activation without a warning a file has its text and mode exactly when its path is new, its hash changed, or it had them before. |
| ConfigReport.ModeChangeIgnored | snix-redox/src/activate.rs:262-292 | A change of mode alone does nothing and gives no warning. |
| ConfigQuiet.StepTree | snix-redox/src/activate.rs:1090-1107 | Every job, whatever fails, leaves a disk on which everything lies in directories. |
| ConfigQuiet.QuietIsWritable | snix-redox/src/activate.rs:1109-1213 | An activation without a warning found no file on the way to, no directory at and no other new path above or below each new path. |
| ConfigQuiet.WritableIsSeparate | snix-redox/src/activate.rs:1109-1213 | On a disk that holds the old manifest, such new paths are separate from everything managed. |
| ConfigQuiet.FaultlessIsQuiet | snix-redox/src/activate.rs:1109-1213 | Where no operation fails there is no warning exactly when the new paths can be written. |
| ConfigQuiet.NestedPathsWarn | snix-redox/src/activate.rs:1090-1107 | Two new paths of which one is a prefix of the other always give a warning. |
| ConfigQuiet.FolderForFileWarns | snix-redox/src/activate.rs:1119-1161 | Replacing a file by a directory warns even where the file is dropped, because new paths are written first. |
| ManagedMode.NormalizeKeepsMode | snix-redox/src/rebuild.rs:695-713 | Normalising keeps the mode, refuses exactly what reading refuses, prints four octal digits and changes nothing the second time. |
| ManagedMode.ModeSpelling | snix-redox/src/activate.rs:1003-1034 | A mode is read exactly from white space around an optional prefix and one to four octal digits, with the value of the digits. |
| ManagedMode.FormattedModeParses | snix-redox/src/activate.rs:1003-1034 | A printed mode is read back as the same number. |
| ManagedMode.LimitIsIdle | snix-redox/src/activate.rs:1026-1031 | Four octal digits never exceed the limit. |
| MergeConfig.MergePackages | snix-redox/src/rebuild.rs:1061-1087 | The loops keep boot-essential packages and then resolved ones, first of each name. |
| MergedManifest.PackagesMerged | snix-redox/src/rebuild.rs:1061-1087 | Packages change only when the configuration lists some and some were resolved; then a boot-essential package that is installed stays, and every other name gets its first resolved entry. |
| MergedManifest.MergedInOrder | snix-redox/src/rebuild.rs:1061-1087 | Packages that stay come first in their current order, then the resolved ones in theirs. |
| MergeConfig.MergedPackagesByName | snix-redox/src/rebuild.rs:1061-1087 | Names are distinct, boot-essential packages keep their current first entry, all others get their first resolved entry. |
| MergeConfig.PackagesMergeTwice | snix-redox/src/rebuild.rs:1061-1087 | Merging twice selects the same package for every name. |
| MergeConfig.SecondMergePartitions | snix-redox/src/rebuild.rs:1061-1087 | The second merge moves boot-essential packages to the front and keeps the order otherwise. |
| MergeConfig.SecondMergeKeepsOrder | snix-redox/src/rebuild.rs:1061-1087 | The second merge leaves the list as it is exactly when no boot-essential package that is neither installed nor listed earlier comes behind another package. |
| MergeConfig.SecondMergeCanReorder | snix-redox/src/rebuild.rs:1061-1087 | Concrete lists that the second merge reorders. |
| MergeConfig.OrderSettles | snix-redox/src/rebuild.rs:1061-1087 | The third merge gives the list of the second. |
| MergeConfig.MergeFiles | snix-redox/src/rebuild.rs:1040-1059 | Succeeds exactly when every path and mode is accepted, and otherwise names a file and what is wrong with it; tracked files stay, the last spelling of a path decides. |
| MergedManifest.ConfiguredFile | snix-redox/src/rebuild.rs:1044-1058 | A configured file is in the merged manifest with its own text, the hash and the length of that text, and the mode that was configured or 0644. |
| MergedManifest.OtherFiles | snix-redox/src/rebuild.rs:1043-1058 | Every other file of the merged manifest is one of the current manifest without a text, unchanged. |
| MergedManifest.SomeSpellingDecides | snix-redox/src/rebuild.rs:1044-1058 | Every accepted configured path has one spelling that decides. |
| MergeConfig.FilesMergeTwice | snix-redox/src/rebuild.rs:1040-1059 | Putting the same files in again changes nothing. |
| MergeConfig.StoredKeyIsNormal | snix-redox/src/rebuild.rs:674-693 | Stored paths are normal, name the same place and are stored unchanged the second time. |
| MergeConfig.MergedFilesActivate | snix-redox/src/rebuild.rs:1040-1059 | Every inline file of a merged manifest has a normal path, a readable mode and the hash of its text. |
| MergeConfig.Merge | snix-redox/src/rebuild.rs:931-1090 | Succeeds exactly when the files are accepted; packages, users, groups and files follow from the configuration or stay. |
| MergedManifest.UsersHaveGroups | snix-redox/src/rebuild.rs:1009-1037 | The users are the configured ones, each with a group of its name, its group number and itself as only member. |
| MergeConfig.MergeTwice | snix-redox/src/rebuild.rs:931-1090 | Merging twice gives the same files, users, groups and packages by name as once. |
| Rebuild.MergeKeepsManaged | snix-redox/src/rebuild.rs:1040-1059 | Merging keeps paths normal, modes readable and hashes honest. |
| Rebuild.MergeKeepsTracked | snix-redox/src/rebuild.rs:1043-1043 | Merging adds no tracked file and changes none. |
| Rebuild.RebuildConverges | snix-redox/src/rebuild.rs:931-1090 | A merge and an activation without a warning put every inline file on disk, remove every dropped one and leave tracked ones untouched. |
| Rebuild.ConfiguredTextShown | snix-redox/src/rebuild.rs:931-1090 | After a rebuild without a warning the text in the configuration is what is read at the path. |
| Rebuild.ConfiguredModeShown | snix-redox/src/rebuild.rs:931-1090 | After a rebuild without a warning the configured mode is set exactly when the path is new, the text changed, or text and mode were there already. |
| Rebuild.RebuildKeepsOrder | snix-redox/src/rebuild.rs:931-1090 | And leave a system whose disk holds what its manifest says. |
| Rebuild.RebuildIsQuiet | snix-redox/src/rebuild.rs:931-1090 | Where no operation fails, a merge and an activation give no warning exactly when the new paths can be written. |
| Rebuild.RunConverges | snix-redox/src/rebuild.rs:931-1090 | Over any number of them the disk holds at every moment what the manifest says, and every inline file its text. |
| Rebuild.NestedPathsAccepted | snix-redox/src/rebuild.rs:674-693 | Merging accepts a path together with one below it. |
| Nar.DecodeArchive | nix/lib/build-binary-cache.py:48-120 | A reference decoder recovers every canonical tree from its archive. |
| Nar.ArchiveDecode | nix/lib/build-binary-cache.py:48-120 | The decoder accepts only archives: serialising what it returns gives the bytes back. |
| Nar.ArchiveInjective | nix/lib/build-binary-cache.py:48-120 | Different trees have different archives, whose lengths are multiples of eight. |
| Nar.FlattenAligned | nix/lib/build-binary-cache.py:48-55 | Everything written has a length that is a multiple of eight. |
| Nar.WriteStrLength | nix/lib/build-binary-cache.py:48-55 | A string takes the least multiple of eight bytes that holds its length and its bytes. |
| Nar.FileArchive | nix/lib/build-binary-cache.py:58-120 | The bytes of the archive of an executable file, spelled out with every length and padding. |
| Nar.EntryHead | nix/lib/build-binary-cache.py:69-76 | The bytes in front of the only entry of a directory, spelled out. |
| Nar.LinkNode | nix/lib/build-binary-cache.py:63-67 | The bytes of a link, spelled out. |
| Nar.OneEntry | nix/lib/build-binary-cache.py:58-77 | The archive of a directory with one entry, as the archive bytes of that entry in its frame. |
| NarWriter.Writer.PutStr | nix/lib/build-binary-cache.py:48-55 | Appends one padded string and counts its bytes. |
| NarWriter.Writer.SerializeEntry | nix/lib/build-binary-cache.py:58-100 | Appends the strings of the tree with all directories sorted. |
| NarWriter.Writer.SerializeToNar | nix/lib/build-binary-cache.py:103-120 | The output is the archive of the sorted tree and the size is its length. |
| NarWriter.CanonIsCanonical | nix/lib/build-binary-cache.py:58-100 | Sorting a tree with good, unique names makes it canonical. |
| NarWriter.SerializedDecodes | nix/lib/build-binary-cache.py:103-120 | A well-named tree, listed in any order, is recovered from its archive. |
| NarTree.SortedShowsSame | nix/lib/build-binary-cache.py:58-100 | Sorting changes nothing that lies at any path, for every tree. |
| NarTree.SerializedRecovers | nix/lib/build-binary-cache.py:103-120 | What is decoded has the same objects at the same paths as the tree, executable bits included. |
| NarTree.LookupDetermines | snix-redox/src/nar.rs:142-208 | Trees with the same objects at the same paths are equal. |
| NarTree.ModeBits | snix-redox/src/nar.rs:52-55 | Extracted files can be read by everyone, written by no one and executed exactly when marked. |
| NarExtract.Extractor.ExtractNode | snix-redox/src/nar.rs:142-208 | Succeeds exactly when names and targets are acceptable; the destination then holds exactly the tree, the manifest its items; nothing outside the destination changes, even on failure. |
| NarExtract.Extractor.ExtractEntries | snix-redox/src/nar.rs:186-204 | The loop over a directory extends the extracted directory entry by entry. |
| NarManifest.ExtractableMeans | snix-redox/src/nar.rs:161-196 | A tree is accepted exactly when every path stays below the destination and is UTF-8, and every link target is UTF-8. |
| Utf8.Utf8Exact | snix-redox/src/nar.rs:161-189 | The names and targets accepted are exactly the encodings of Unicode scalar values. |
| NarManifest.ItemsExact | snix-redox/src/nar.rs:142-208 | An item is recorded exactly when it describes an object of the tree; only a root directory is left out. |
| NarManifest.ItemsDistinct | snix-redox/src/nar.rs:142-208 | Every object is recorded once. |
| NarManifest.ItemsParents | snix-redox/src/nar.rs:174-204 | Directories are recorded before what they hold. |
| NarManifest.ItemsAscend | snix-redox/src/nar.rs:174-204 | Items are recorded in the order of their paths, compared component by component. |
| NarManifest.PathsDistinct | snix-redox/src/nar.rs:197-203 | No path text is listed twice. |
| NarManifest.ManifestDetermines | snix-redox/src/nar.rs:18-27 | Two trees have the same manifest exactly when they have the same names, kinds, sizes and executable bits. |
| NarHash.WritePathToNar | snix-redox/src/local_build.rs:868-917 | Writes the tree found at a path with sorted entries. |
| NarHash.NarBytes | snix-redox/src/local_build.rs:855-865 | The bytes that are hashed are the archive of the tree found. |
| NarHash.ReadShown | snix-redox/src/local_build.rs:868-917 | Reading gives back the tree that is there. |
| NarHash.ReadTreeAt | snix-redox/src/local_build.rs:868-917 | For every filesystem and every mode, the tree written for a path holds exactly what can be reached below it, executable exactly when an execute bit is set. |
| NarHash.ExtractedHashesBack | snix-redox/src/local_build.rs:868-917 | Extracting and serialising again gives the same archive, executable bits included. |
| NarHash.ArchiveRestored | snix-redox/src/local_build.rs:868-917 | Every archive that a reader accepts, once extracted, is serialised back byte for byte. |
| Nixbase32.Encode | nix/lib/build-binary-cache.py:27-43 | The text is the base-32 digits of the little-endian integer, most significant first. |
| Nixbase32.Alphabet | nix/lib/build-binary-cache.py:25-25 | The alphabet is the digits and lower-case letters without e, o, t and u, ascending. |
| Nixbase32.EncodingLength | nix/lib/build-binary-cache.py:33-33 | The text has as few characters as hold all bits, 52 for a SHA-256 digest. |
| Nixbase32.TakeDigit | nix/lib/build-binary-cache.py:36-41 | Shifting and masking one or two bytes gives the digit, and every index is in bounds. |
| Nixbase32.AllDigitsEmitted | nix/lib/build-binary-cache.py:33-33 | No digit is left above the ones that are emitted. |
| Nixbase32.DecodeEncoding | nix/lib/build-binary-cache.py:27-43 | The encoding is undone once the length is known, for every length. |
| Nixbase32.EncodingInjective | nix/lib/build-binary-cache.py:27-43 | At fixed length different byte strings have different encodings. |
| NixString.NixStringLiteral | snix-redox/src/rebuild.rs:1389-1406 | For every string the printed literal reads back as that string under the Nix rules, with no antiquotation. |
| NixString.ReadPrinted | snix-redox/src/rebuild.rs:1389-1406 | The body reads back up to its closing quote. |
| NixString.PlainPrinted | snix-redox/src/rebuild.rs:1389-1406 | Text without special characters is printed as it is. |
| NixString.NoBreakPrinted | snix-redox/src/rebuild.rs:1389-1406 | No line break and no tabulator is printed. |
| NixString.DollarPrinted | snix-redox/src/rebuild.rs:1401-1401 | A dollar sign that is not escaped stands for itself, before another dollar, an escape or the end. |
| Calendar.DaysToDate | snix-redox/src/pathinfo.rs:365-377 | For every day count the closed form is the date reached by counting days from 1970-01-01 under the Gregorian rule, with month and day in range. |
| Calendar.DayNumberInverse | snix-redox/src/pathinfo.rs:365-377 | Adding up whole years and months gives the day count back. |
| Calendar.YearOfEraInverse | snix-redox/src/pathinfo.rs:369-369 | The closed form for the year of an era inverts the start of years. |
| Calendar.TimestampOf | snix-redox/src/pathinfo.rs:348-362 | All fields are in range and recombine to the second count. |
| Calendar.FormatRoundTrip | snix-redox/src/pathinfo.rs:358-358 | The text has twenty characters exactly while the year has four digits, and then the second count can be read from it. |
| SourceWriter.SourceDisk.WriteSourceNode | snix-redox/src/eval.rs:301-361 | Succeeds exactly when every directory and blob that can be reached is there with its size; then every path below the destination holds exactly what is reached there by names; a failure names something reached that is missing or has the wrong size; nothing else changes, even on failure. |
| SourceWriter.DenotedAt | snix-redox/src/eval.rs:311-357 | That tree holds at every path what following the names leads to, with contents, targets and modes. |
| SourceWriter.DenotesIffIntact | snix-redox/src/eval.rs:311-351 | A node stands for a tree exactly when everything that can be reached from it is intact. |
| SourceWriter.DirectoryStep | snix-redox/src/eval.rs:312-327 | Opening a directory and pushing its children does not change what will finally be found at any path. |
| SourceWriter.LeafStep | snix-redox/src/eval.rs:328-357 | Writing a file or link does not change what will finally be found at any path. |
| FileCache.Worker.WorkerRead | snix-redox/src/file_io_worker.rs:162-188 | The answer is a slice of what the file was opened on, wherever the last read stopped; the file is open afterwards, the cache stays bounded, and only a full cache drops one file. |
| FileCache.SliceHolds | snix-redox/src/file_io_worker.rs:181-187 | A slice has the bytes from the offset on, as many as asked for unless the file ends. |
| FileCache.PiecesJoin | snix-redox/src/file_io_worker.rs:181-187 | Reading a file piece by piece gives the file. |
| FileCache.Worker.Serve | snix-redox/src/file_io_worker.rs:84-106 | While files do not change, every request up to shutdown is answered as if the file were opened afresh. |

## Left out

- HTTP, decompression, git and tar fetching, SHA-256, BLAKE3 and reference scanning: hashes and caches are parameters.
- Fetch.FetchInner: extraction of one path is all-or-nothing; an interrupted extraction leaves a partial directory in the original.
- Fetch.FetchRecursive: the counters of fetched, skipped and downloaded items are not modelled; the same loop stands for the one in `install_recursive`.
- Store.GarbageCollect: the number of freed bytes is not modelled, and counters are unbounded where the original has fixed widths.
- Store.PathInfoDb.Get: records that cannot be read or parsed are not modelled.
- Store.PathInfoDb.Register: a failing write is not part of this operation; fetching models it as a fault of the path.
- Store.PathInfoDb.Delete: a failing removal is not part of this operation; sweeping models it as a fault of the path.
- Store.GcRoots.AddRoot: failures around the old link are not part of this operation; installing models all three ways it can end.
- Store.GcRoots.RemoveRoot: a failing removal is not part of this operation; removing a package models it as a stuck root.
- Machine.System.InstallRecursive: the binaries linked into the profile are one step that works or fails.
- Machine.System.Execute: what is fetched, recorded or on offer is among the paths in play, whose digests differ; roots are unrestricted.
- Lifecycle.RunKeepsInstalled: roots added by hand under the name of a package's own root must not claim a closure that is not there; the exact condition is proved beside it.
- LocalBuild.Workshop.BuildNeeded: builders are an abstract function that never removes files; sandboxing and output registration are not modelled.
- ProfileSwap.Profiles.Populate: the four profile directories are directories or absent, never files or links, and the count is unbounded.
- ConfigFiles.ConfigSite.WriteInline: links to directories on the way to a place are not modelled, so different places never coincide; a failing write may leave anything at its place.
- NarExtract.Extractor.ExtractNode: failing writes are not modelled; the destination starts absent and its parent exists.
- NarHash.WritePathToNar: objects that are neither files, links nor directories are not modelled.
- NarWriter.Writer.SerializeEntry: names sort as byte strings; Python sorts by code point, which is the same order for UTF-8 names.
- MergeConfig.Merge: the scalar settings (host name, time zone, networking, graphics, security, logging, power) would only add assignments.
- SourceWriter.SourceDisk.WriteSourceNode: failing creation of directories, files and links is not modelled, only missing directories and blobs and wrong sizes; the destination starts absent.
- FileCache.Worker.WorkerRead: a read returns all bytes that are available and does not fail, and files that change while open are not followed.
- Bytes are integers; contracts that need them to be below 256 say so.
- Lazy and non-recursive `install`: they do not fetch references, so the closure invariant is not claimed for them.
- `resolve_follows` in flake.rs, the host bridge, irohd, the build proxy, namespaces, command-line dispatch, plan display and services.
