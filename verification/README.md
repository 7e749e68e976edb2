# Verified model of buildhost's registry core

A Dafny 4.11 model of four parts of buildhost, a self-hosted package registry, with proofs of what they promise:

1. **The generated Homebrew tap.** buildhost keeps its own git object store, appends commits to it on every refresh, answers smart fetches from it, and pins and evicts the directories it lives in.
2. **Retention.** Releases past keep-N are evicted in batched transactions, and blobs nothing references any more are reported as freed; a rolled-back dry run predicts the result.
3. **Project identity.** Renames leave aliases, two projects of one repository can be merged, and projects name each other as dependencies.
4. **Visibility.** A cached flag on each project must agree with folder rules and overrides.

`dafny verify dfyconfig.toml` checks the whole project.

## How the parts are modelled

- **Objects.** `Sha(o)` is the id of object `o`: a collision-free hash, so one id has one content and one kind. A store is any finite map from ids to objects; the fetch results hold for every store, including one with missing or wrongly typed objects. A fetch reads the store in phases (wants, haves, walk, pack), each id once in a phase, so each phase sees a store of its own that holds at least what the one before found. The walk keeps distances in one map where the source keeps a set and a depth per queue entry, and reads a commit's tree from the store when it packs.
- **Refresh.** `LineageDir.Directory.Refresh` gathers objects in memory and then writes files one at a time. Its `budget` is the number of writes before the process dies or a write fails, so the contract speaks about every crash point. HEAD and `objects/info/packs` are writes without content here. The order in which a Go map is visited is left open everywhere. A history key stands for the pair (path, bytes) it hashes.
- **Lineage cache.** Every critical section under `tapMu` is one method and one step; a run interleaves steps of any requests and refreshes. Entries carry a serial in place of their address, directories a creation number, so "the same directory" is a provable statement. The clock and file-system faults are parameters; a refresh's outcome is a parameter of the step that ends it.
- **Tables.** SQL tables are maps by row id. A statement that breaks a uniqueness or foreign-key constraint fails, and a failed transaction restores the tables. Constraints are those of `internal/db/schema.sql`. Rows SQL returns without an order are visited in any order.
- **Strings.** A `string` is a sequence of bytes shown as characters; `Strings.Less` is byte order.

Each imperative part is a method or a class whose contract ties the new state to a function or relation of the old one; the lemmas about that function or relation are the results.

## Where the code does less than its comments say

Each of these is kept as the code has it, with a concrete input that breaks the promise and the exact condition under which it holds.

- *A tip is always an ancestor of later tips* holds for `refs/heads/main`, not for `info/refs`, which is written first: a refresh that dies between the two writes publishes a commit the next refresh does not build on. `Lineage.InfoRefsCanRewind` gives the run, for any two different contents of the tap. The next published commit keeps the old one in its history exactly when the commits on disk from `refs/heads/main` to `info/refs` have the first trees the next refresh would commit: `Lineage.InfoRefsForwardsIff`. A torn `info/refs` also stays ahead through every completed refresh until the first that finds something to publish: `Lineage.RefsAgreeIff`.
- *A dry run reports exactly what eviction would free* fails when the last release holding a shared blob goes in a batch whose rows all record its size as zero. Zeros are real: an empty upload is stored with size zero, while its cached deb or tar.gz digest records the same key with the size of the package (`internal/apt/debdigest.go:49`, `internal/brew/formula.go:175`). `ZeroSize.ZeroSizeIsMissed` gives 27 releases of one branch of which keep-N selects 26, in two batches; `Retention.BatchedFreesIff` the condition.
- *Eviction deletes all child rows.* It does not delete `download_events`, which reference artifacts without a cascade while foreign keys are enforced. `Evict.EvictDownloaded` gives a release that keep-N selects and that cannot be evicted; a listed release can go exactly when none of its artifacts has a download event: `Evict.ArtifactsGoIff`, and the `ok` of every `Evict.Database` method.
- *An applicable merge plan applies.* An automatic-version merge still fails when the target has a decimal version string among the new numbers, `MergeConserves.AutoClashIff`. Publishing gives a decimal version a number at least its value (`internal/api/releases.go:63-95`, unless `semverToNum` overflows 64 bits), so such a version first arises from a merge: a semver merge keeps the string and gives the release the target's next number. `MergeClash.SemverMergeThenClash` gives the two merges, both without conflicts in their plans.
- *Dependencies stay acyclic* holds without merges. A merge closes a cycle exactly when something the target depends on depends on the source: `MergeCycle.MergeAcyclicIff`, `MergeCycle.MergeCanCloseCycle`.

Two functions have a corner that no caller reaches, so the promise stands where it is made. `refreshTapLineage` would skip a history formula without bytes whose path the tap no longer lists (`Lineage.CompletedHistory`, `Lineage.EmptyFormulaIsLost`), but formulas are rendered from a template that always emits text (`internal/repackage/brew.go:221-262`); for every formula with bytes the promise is `Lineage.HistoryIsComplete`. `pktLineBytes` would garble a payload over 65531 bytes (`Wire.PktRoundTripIff`); the side band never passes it more than 65516.

## Model

| member | source | states |
|---|---|---|
| CommitWalk.WalkCommits | internal/brew/pack.go:31-87 | the commits returned are exactly the reachable ones within the depth that no common commit cuts off, the boundary exactly the common commits met, each once; shallow is exactly the last layer's commits with parents; an error names a reachable commit that is not stored |
| CommitWalk.DepthWalk | internal/brew/pack.go:31-87 | with no haves and a depth, the result is exactly the commits at shortest distance below it, shallow exactly those of the last layer with parents, unshallow exactly the client's shallow commits among the others, each with all its parents in the result |
| CommitWalk.UnshallowParents | internal/brew/pack.go:81-86 | an unshallowed commit and each of its parents are walked |
| CommitWalk.ReachesAny | internal/brew/pack.go:91-118 | answers true exactly when a have is the tip or one of its ancestors |
| CommitWalk.BoundaryIffReachable | internal/brew/pack.go:31-118 | the unbounded walk ends with a boundary exactly when a have is the tip or an ancestor, which is what the negotiation probe answers |
| Pack.MarkTreeClosure | internal/brew/pack.go:180-219 | marks exactly the trees and blobs under a commit's tree besides those already marked, when they are all stored |
| Pack.CollectPackEntries | internal/brew/pack.go:125-176 | the entries are exactly the walked commits and what is under their trees but under no boundary tree, each once |
| Pack.CommitsUnmarked | internal/brew/pack.go:125-176 | no walked commit is among the objects a boundary tree excludes |
| Fetch.CommonExact | internal/brew/smart.go:282-294 | the common haves are exactly the haves that are stored commits, each once |
| Fetch.CommonHaves | internal/brew/smart.go:282-294 | computes them in the order of their first occurrence |
| Fetch.ChooseTarget | internal/brew/smart.go:111-119 | computes that target |
| Fetch.TargetIsFirst | internal/brew/smart.go:111-119 | the target is the want with the least index that is the tip or a stored commit; the tip when no want is |
| Fetch.ServeUploadPack | internal/brew/smart.go:91-197 | which kind of response each request gets and what it says, while the store grows between its phases; an internal error or an abandoned stream only over an incomplete history or without a tip |
| Pack.PackSpecSame | internal/brew/pack.go:125-219 | the pack of complete commits is the same whatever else is written before it is collected |
| Fetch.PackDelivers | internal/brew/smart.go:121-186 | with the client holding the boundary commits, it ends with every walked commit and its whole tree; each parent of a walked commit arrives, is held, or is cut by a reported shallow commit; nothing is sent twice and nothing of a boundary tree is sent |
| Fetch.UncutParent | internal/brew/pack.go:31-87 | every parent of a walked commit that is not shallow is walked or met |
| Fetch.FetchCompletesHistory | internal/brew/smart.go:121-186 | without a depth, a client that holds the history of the common commits among the target's ancestors ends with every ancestor of the target and its whole tree |
| Fetch.ServedFetchCompletes | internal/brew/smart.go:91-197 | the same from the request and its response alone |
| Fetch.ReadyIffCut | internal/brew/smart.go:128-145 | a round answers ready exactly when the final walk will meet a commit the client has |
| FetchAnswers.RoundLists | internal/brew/smart.go:121-145 | a negotiation round lists exactly the haves found stored, in the order of their first occurrence, and is ready exactly when one of them is the target or its ancestor; nothing without multi_ack_detailed |
| FetchAnswers.AckSays | internal/brew/smart.go:121-170 | a final round with multi_ack_detailed and no deepen acknowledges the stored have whose first occurrence is last, or none when no have is stored; any other acknowledges none |
| FetchAnswers.KnownIsNotSent | internal/brew/smart.go:121-186 | no stored have is in the pack, and a target among them makes the pack empty |
| FetchAnswers.OnlyNeededIsSent | internal/brew/smart.go:121-186 | each id sent is a commit a path leads to from the target, within the depth and past no stored have, or is in the tree of such a commit |
| FetchAnswers.PlainFetchSendsAll | internal/brew/smart.go:121-186 | without the capability or with deepen, every commit the target reaches within the depth is sent with its whole tree |
| FetchAnswers.SectionSays | internal/brew/smart.go:148-165 | the shallow section answers deepen requests alone; which commits it lists as shallow and as unshallow |
| GitObjects.OnDiskComplete | internal/brew/taphistory.go:50-57 | a commit whose closure is stored under its own ids serves a complete history |
| GitObjects.AncestorAntisymmetric | internal/brew/pack.go:31-87 | two commits of a content-addressed store that are each other's ancestors are one commit |
| TapTree.BuildTree | internal/brew/tap.go:343-361 | builds the canonical nested tree of a path-to-blob map, only adds objects, and leaves the whole tree stored |
| TapTree.SortEntries | internal/brew/tap.go:369-378 | entries in git's order, a directory sorting as if its name ended in a slash, none lost |
| TapTree.LessIsGitBefore | internal/brew/tap.go:369-378 | comparing sort keys is git's order: the first differing byte decides, a directory's name ending in a slash |
| Strings.LessIff | internal/brew/tap.go:378 | strings are ordered by the first byte in which they differ |
| TapTree.FlattenBuild | internal/brew/tap.go:343-390 | flattening the built tree gives back exactly the map |
| TapTree.TreeUnique | internal/brew/tap.go:343-390 | the tree of a map is unique, so iteration order does not show in its id |
| TapTree.TreeInjective | internal/brew/tap.go:343-390 | different maps have different trees |
| Lineage.PendingExact | internal/brew/taphistory.go:77-92 | the history states a refresh commits are exactly those neither recorded nor current |
| Lineage.PendingPlaces | internal/brew/taphistory.go:77-92 | they are committed in the history's order, as often as it has them |
| Lineage.PlanHolds | internal/brew/taphistory.go:77-110 | each commit of a past state holds the current files with that one formula as it was and nothing else, the last commit the current files; each sits on the one before, the first on the old tip |
| Lineage.RefreshKeeps | internal/brew/taphistory.go:64-118 | wherever a refresh stops, both refs name commits with their closure on disk, every recorded key is in the tip's history, the store only grew and the old tip is in the new tip's history |
| Lineage.RunConsistent | internal/brew/taphistory.go:64-118 | the same invariant after any sequence of refreshes, each stopped after any write |
| Lineage.RunFastForwards | internal/brew/taphistory.go:64-118 | over any such sequence the store only grows and every tip of refs/heads/main is an ancestor of every later one |
| Lineage.PublishedStaysServable | internal/brew/taphistory.go:207-232 | a commit either ref ever named can be fetched whole at any later time |
| FetchRun.PublishedIsServed | internal/brew/smart.go:91-197 | a final request for a commit either ref ever named gets a pack whenever refs/heads/main exists, and the pack completes that commit's history, while refreshes write between the reads |
| Lineage.RecordedInHistory | internal/brew/taphistory.go:100-118 | each state a completed refresh records is in the tree of some ancestor of the new tip |
| Lineage.PastIsCommitted | internal/brew/taphistory.go:77-117 | a past formula that was not recorded gets a commit in the tip's history that holds it beside the other current files |
| Lineage.TipIsCurrent | internal/brew/taphistory.go:93-117 | after a completed refresh the tip's tree is exactly the current files |
| Lineage.HistoryIsComplete | internal/brew/taphistory.go:77-117 | after a completed refresh every formula with bytes that was passed in as history is in the tip's history |
| Lineage.CompletedHistory | internal/brew/taphistory.go:77-117 | the same for formulas of any bytes: exactly which of them are in the tip's history |
| Lineage.EmptyFormulaIsLost | internal/brew/taphistory.go:84-92 | the one kind that is not: an empty formula for a path the tap does not list |
| Lineage.SecondRefreshIsIdle | internal/brew/taphistory.go:93-99 | a second refresh with the same inputs changes neither the refs nor the store nor the keys |
| Lineage.PlanUnique | internal/brew/taphistory.go:77-110 | the commits a refresh mints are determined by the directory and the inputs |
| Lineage.InfoRefsForwardsIff | internal/brew/taphistory.go:221-232 | the commit info/refs named stays in the history of the next one published exactly when the commits on disk from refs/heads/main to it have the first trees the refresh would commit |
| Lineage.InfoRefsCanRewind | internal/brew/taphistory.go:221-232 | for any two different contents of the tap, a two-refresh run in which it does not |
| LineageDir.RewindingRun | internal/brew/taphistory.go:66-110 | such a run exists for every two different file maps, whatever order they are visited in |
| Lineage.RefsAgreeIff | internal/brew/taphistory.go:93-118 | while refreshes complete, the refs agree at the end exactly when they agreed at the start or one of the refreshes found something to publish |
| LineageDir.Mint | internal/brew/taphistory.go:66-110 | what a refresh gathers: one commit per pending state on top of the last, then the current files' commit, with all their objects |
| LineageDir.Directory.WriteObjects | internal/brew/taphistory.go:207-218 | the object store only grows, whichever write is the last; with budget left all objects are there |
| LineageDir.Directory.AdvanceTip | internal/brew/taphistory.go:221-232 | the two refs after every possible last write |
| LineageDir.Directory.Refresh | internal/brew/taphistory.go:64-118 | one refresh, stopped after any write, is a step of the protocol and keeps the directory consistent |
| LineageDir.RecordKeys | internal/brew/taphistory.go:111-117 | the recorded keys become the old ones, the appended states and the current files' |
| TapCache.StepKeeps | internal/brew/tapcache.go:127-242 | every critical section keeps pins counted, refreshes unique, entries over existing directories and at most 32 of them, and leaves every pinned directory in place |
| TapCache.PinSafety | internal/brew/tapcache.go:127-242 | over every interleaving a directory's pins are its unreleased acquires plus one for a refresh in flight, no directory has two refreshes, live entries have their directory and are at most 32 |
| TapCache.PinnedNeverRemoved | internal/brew/taphistory.go:272-328 | a directory pinned all through an interval is one and the same directory all through it |
| TapCache.RunDirectoryBound | internal/brew/taphistory.go:272-328 | the directories outgrow the cap of 64 only while all the others are pinned |
| TapCacheOutcomes.EndSays | internal/brew/tapcache.go:170-186 | a refresh that ends leaves its time and outcome on the entry it was started for and on no other |
| TapCacheOutcomes.LastOutcome | internal/brew/tapcache.go:170-186 | over every run an entry remembers the outcome of the last refresh started for it that has ended |
| TapCacheOutcomes.UnbuiltUntilEnd | internal/brew/tapcache.go:127-149 | until its first refresh ends, an entry is unbuilt and without an error |
| TapCacheOutcomes.AwaitSays | internal/brew/tapcache.go:80-99 | a request starts a refresh exactly when none runs in the directory and the entry's last ended 30 seconds ago or never |
| TapCacheOutcomes.AcquireSays | internal/brew/tapcache.go:199-227 | a fetch pins the directory once more exactly when its entry is there or can be made and the directory opens |
| TapCacheOutcomes.LiveMakes | internal/brew/tapcache.go:127-149 | a request without an entry makes one unless the file system fails; what each failure leaves of the directory |
| TapCacheOutcomes.ClosedSays | internal/brew/tapcache.go:127-242 | an entry closed for another is over an evicted directory, or 32 were live and none that stays was built before it |
| TapCacheOutcomes.EvictedSays | internal/brew/taphistory.go:280-328 | a directory that goes was unpinned, 64 or more were there, and no unpinned one that stays is older |
| TapCacheOutcomes.RemadeIsAnother | internal/brew/taphistory.go:272-328 | a directory that was gone at some moment is another one when its name is back |
| TapCacheLock.Cache.CapEntries | internal/brew/tapcache.go:231-242 | closes entries until fewer than 32 are live, no more than needed, never one built later than one kept |
| TapCacheLock.Cache.EvictLineages | internal/brew/taphistory.go:280-328 | removes only unpinned directories, oldest first, until the count is under 64 or only pinned ones are left, and closes exactly the entries over them |
| TapCacheLock.Cache.LiveEntry | internal/brew/tapcache.go:127-149 | the live entry, or a new one over its directory after capping and evicting; what each fault leaves behind |
| TapCacheLock.Cache.AwaitLineage | internal/brew/tapcache.go:80-99 | starts a refresh exactly when none runs and the last is older than the age limit, and names the one to wait for |
| TapCacheLock.Cache.AcquireLineage | internal/brew/tapcache.go:199-227 | pins an existing directory for the caller, or nothing on an error |
| TapCacheLock.Cache.ReleaseLineage | internal/brew/tapcache.go:189-226 | takes back exactly one pin |
| TapCacheLock.Cache.OpenLineage | internal/brew/tapcache.go:50-63 | a file request sees an entry whose directory exists |
| TapCacheLock.Cache.TouchLineage | internal/brew/taphistory.go:265-270 | a running refresh sets its directory's mtime, outside the lock |
| TapCacheLock.Cache.EndRefresh | internal/brew/tapcache.go:170-186 | unregisters and unpins the refresh; only the entry it was started for keeps the outcome |
| TapCacheLock.Cache.DropEntries | internal/brew/formula.go:243-249 | closes every live entry and touches no pin or directory |
| Wire.PackObjectHeader | internal/brew/pack.go:276-292 | any reader of the format gets back the type and size, whatever follows |
| Wire.HeaderRoundTrip | internal/brew/pack.go:276-292 | decoding undoes encoding for every size |
| PackStream.WritePack | internal/brew/pack.go:221-274 | writes the listed objects with their headers, count and digest; fails exactly when one is missing or of an unknown kind |
| PackStream.PackRoundTripIff | internal/brew/pack.go:221-258 | a reader of the whole stream gets the objects back in order exactly when they are fewer than 2^32 |
| PackStream.WrittenPackReads | internal/brew/pack.go:221-258 | the pack written for a list of ids reads back as the bodies of those objects in order, commits under type 1, trees 2, blobs 3, tags 4; it fails exactly when one is missing or of another kind |
| WireExamples.HeaderExamples | internal/brew/pack.go:276-292 | entry headers of known types and sizes, byte by byte |
| WireExamples.PreambleExamples | internal/brew/pack.go:225-233 | the first twelve bytes of a pack |
| Wire.PktLines | internal/brew/smart.go:356-374 | computes the payload lines of a stream |
| Wire.PacketsRoundTrip | internal/brew/smart.go:356-419 | reading concatenated pkt-lines and flush packets gives back the payloads |
| Wire.PktRoundTripIff | internal/brew/smart.go:415-419 | a pkt-line reads back exactly when its payload is at most 65531 bytes |
| WireExamples.PktExamples | internal/brew/smart.go:415-419 | the examples of gitprotocol-common |
| Wire.SideBandWriter.Write | internal/brew/smart.go:395-409 | the client that strips band bytes has received exactly what was written, in packets of at most 65520 bytes; when the writer below fails, the count returned is what its whole packets carried and a packet cut short adds nothing |
| Wire.PacketReceived | internal/brew/smart.go:389-409 | one more packet adds exactly its data to what the client has received |
| WireObjects.ParseTreeEntries | internal/brew/pack.go:359-378 | reads a tree body entry by entry, with both kinds of malformed input refused |
| WireObjects.GitTreeRoundTrip | internal/brew/tap.go:369-390 | reading back what is written for entries in any order gives each entry's id and kind in git's order |
| WireObjects.StoredTreeReadsBack | internal/brew/tap.go:343-390 | every tree built for a path-to-blob map reads back from its bytes as its own entries |
| WireObjects.EntryBytes | internal/brew/tap.go:379-388 | the bytes of one tree entry, for files and directories |
| WireObjects.HexRoundTrip | internal/brew/tap.go:386-388 | hex ids survive the trip through raw bytes |
| WireObjects.ParseCommitHeaders | internal/brew/pack.go:335-352 | reads header lines up to the blank line; no tree header is an error |
| WireObjects.CommitRoundTrip | internal/brew/tap.go:330-339 | a written commit reads back as its tree and parent, for any author, committer and message |
| WireObjects.CommitText | internal/brew/tap.go:330-339 | the text of a commit, with a parent and without |
| Retention.DeletedAllSlot | internal/db/retention.go:151-171 | deleting releases removes exactly the blob rows under them |
| Retention.DeletedAllKeepsRows | internal/db/retention.go:151-171 | packages, download counts and platform rows go with their release and only then |
| Retention.BatchedFreesIff | internal/db/retention.go:71-97 | the committed batches free exactly those of the dry run's keys for which the batch of the last release holding the key records a positive size for it |
| Retention.DryRunPredicts | internal/db/retention.go:71-149 | with positive sizes the two agree on every key |
| Retention.FreedOnce | internal/db/retention.go:81-97 | no key is freed by two batches |
| Retention.FreedIsUnreferenced | internal/db/retention.go:127-138 | a freed key is referenced by nothing once the run is over |
| Retention.SameCandidates | internal/db/retention.go:84-97 | the batches look at exactly the keys the dry run looks at |
| ZeroSize.ZeroSizeIsMissed | internal/db/retention.go:71-149 | a store and the 26 releases keep-N selects in it, for which the dry run reports a key the committed run never frees |
| ZeroSize.EvictZeroSized | internal/db/retention.go:71-97 | the same through the transactions: both runs succeed and only the dry one reports the key |
| KeepN.KeepNGuarantee | internal/db/retention.sql.go:240-256 | evicting any selected releases leaves every branch at least keepN and at least one published release, or all it had; each release with fewer than keepN newer ones survives, and so does the newest |
| KeepN.NeverSelected | internal/db/retention.sql.go:98-103 | a published release with fewer than keepN newer ones or none, and any draft, is never selected |
| KeepN.SelectedIff | internal/db/retention.sql.go:98-103 | exactly which releases are selected: a published, untagged, non-docker one older than the cutoff with at least one and at least keepN newer ones on its branch, or an unpublished non-draft old enough |
| KeepN.TopIsEnough | internal/db/retention.sql.go:246-251 | at least N published releases have fewer than N newer ones, equal numbers included |
| KeepN.SecondSelectionIsEmpty | internal/db/retention.sql.go:240-256 | after evicting everything selected, the same selections are empty |
| KeepN.EstimateBounds | internal/db/retention.sql.go:723-745 | the sum of logical sizes is at least the total of any freed keys, each at one recorded size, for all non-negative sizes and any sharing |
| KeepN.ReclaimableSays | internal/db/retention.sql.go:723-745 | the estimate counts the listed releases' artifacts and the packages of those, no others |
| Evict.RowsAreSlots | internal/db/retention.sql.go:596-605 | the listed (key, size) pairs are exactly the non-empty blob rows of the release |
| Evict.ReferencedIsAnySlot | internal/db/retention.sql.go:74-86 | the reference probe is true exactly when some row of some table records the key |
| Evict.ArtifactsGoIff | internal/db/schema.sql:108-110 | the release's artifacts can go exactly when none has a download event |
| Evict.Database.DeleteReleaseRows | internal/db/retention.go:151-171 | removes the release and everything under it, or fails on a download event |
| Evict.Database.EvictBatch | internal/db/retention.go:102-149 | candidates are the releases' keys at their largest positive size, freed the ones nothing references afterwards in key order; rolled back on a dry run or a failure |
| Evict.Database.EvictReleases | internal/db/retention.go:71-97 | the dry run changes nothing and reports each key at the largest size recorded; the committed run deletes batch by batch, reports each key at the largest size its batch finds and, on a failure, keeps exactly the batches before it |
| Evict.EvictDownloaded | internal/db/retention.go:71-97 | a selected release that was downloaded once cannot be evicted: the run fails, dry or committed, and frees nothing |
| Evict.DryRunIsExact | internal/db/retention.go:64-97 | with positive sizes both runs report the same keys in the same order and the same candidate count, and every freed key is unreferenced |
| Evict.CommittedWithinDryRun | internal/db/retention.go:71-97 | whatever the sizes, the committed run frees no key the dry run did not report, and the counts agree |
| Evict.EstimateIsUpperBound | internal/db/retention.sql.go:723-745 | the dashboard's estimate is at least what evicting evictable releases reports as freed |
| DependsText.ParseJoin | internal/db/depends.go:16-28 | a stored list of names reads back as it was |
| DependsText.JoinSplit | internal/db/depends.go:16-28 | joining undoes splitting |
| DependsText.ProbeIff | internal/db/projects.sql.go:341-345 | the instr probe agrees with membership in the list for comma-free names, but for the empty name of the empty list |
| DependsText.StoredNames | internal/db/depends.go:24-28 | storing keeps exactly the names, sorted and once each |
| DependsText.CanonicalUnique | internal/db/depends.go:24-28 | two lists with the same names are stored as the same text |
| Registry.StepKeeps | internal/db/projects.go:123-202 | provisioning, guarded renames, merges and depends updates keep names unique, apart from aliases, and every stored dependency the current name of another project |
| Registry.StepResolves | internal/db/merge.go:262-281 | a name that led to a project leads to it, or to what it was merged into, after the step |
| Registry.RunKeeps | internal/db/depends.go:16-71 | the same invariant, so no dependency dangles, over every run |
| Registry.ResolutionKept | internal/auth/reponame.go:46-94 | over every run a name keeps leading to its project or the one that took it over |
| Registry.FollowedDeps | internal/db/depends.go:51-71 | a dependent's list follows a rename, dropping the entry on the renamed project itself |
| Registry.RenamedSays | internal/db/projects.go:172-202 | a rename changes one name, the aliases of the two names and its dependents' lists, and nothing else |
| Registry.MergedSays | internal/db/merge.go:262-281 | a merge takes the source's row, gives its name and aliases to the target, rewrites its dependents' lists, and changes nothing else |
| Registry.AvailableIff | internal/db/projects.go:159-168 | a name is available to a project exactly when no project has it and only its own alias may |
| DependsGraph.EdgeIff | internal/db/projects.go:123-140 | with live dependencies an edge is a stored current name |
| DependsGraph.RenameEdges | internal/db/projects.go:172-202 | a guarded rename changes no edge |
| DependsGraph.SetDependsAcyclic | internal/api/depends.go:56-79 | storing a list keeps the graph acyclic exactly when no listed project leads back: the refusal is exact |
| DependsGraph.RunAcyclic | internal/api/depends.go:25-105 | the graph is acyclic over every run of provisioning, guarded renames and depends updates |
| ProjectStore.RefuseDependsCycle | internal/api/depends.go:56-79 | the search over names answers true exactly when some declared project leads back to the project |
| ProjectStore.RenamedNamespaceUnderRoot | internal/auth/reponame.go:28-37 | the rewritten name is another name, sits under the root, and needs no second rewrite |
| ProjectStore.RenamedNamespaceSays | internal/auth/reponame.go:28-37 | a name under the root stays, a name without a child path becomes the root, any other keeps its child path but for one repeating the root |
| NameRules.ValidProjectNameIff | internal/api/projects.go:34-39 | at most 255 characters, each part between slashes opening with a letter or digit and going on with those, dots, underscores and dashes |
| NameRules.ValidNamespacedNameIff | internal/auth/middleware.go:200-210 | each part such a segment of at most 128 characters, the first not dockerhub or ghcr |
| ProjectOps.FollowNames | internal/db/depends.go:56-65 | computes the rewritten list of one dependent |
| ProjectOps.RenameDependsRows | internal/db/depends.go:51-71 | rewrites every dependent and no other row |
| ProjectOps.ResolveDepends | internal/api/depends.go:25-52 | accepts exactly the lists within the limit whose names are valid, readable, not the project itself and not leading back; answers their canonical names sorted; an error says which rule was broken |
| ProjectOps.AcceptableSays | internal/api/depends.go:25-79 | a list is accepted exactly when it has at most 32 names, each valid, resolving to a readable project, not to the project itself, and not leading back to it |
| ProjectOps.Store.ApplyDepends | internal/api/depends.go:82-105 | stores exactly the canonical names, touches nothing else, and keeps an acyclic graph acyclic |
| ProjectOps.Store.SetProjectDepends | internal/db/depends.go:37-48 | stores a proper list within the limit and refuses any other |
| ProjectOps.Store.Provision | internal/auth/middleware.go:194-267 | a name that resolves finds its project; a free valid one outside the reserved roots makes one; nothing else changes |
| ProjectOps.Store.RenameProject | internal/db/projects.go:172-202 | the whole new state; every name still leads where it led and the dependency graph is the same |
| ProjectOps.Store.ReconcileNamespace | internal/auth/reponame.go:46-94 | every listed project ends under the root or with its new name answered by another project; a name that changed is the old one moved under the root, and only listed projects' did; no resolution and no edge changes |
| InstallClosure.DependsClosure | internal/apt/install.go:72-95 | exactly the projects reachable over stored dependencies other than the start, once each, sorted by name; an error exactly when a name along the way resolves to nothing |
| InstallClosure.RunNeverBroken | internal/apt/install.go:72-95 | the error never occurs in a state some run reaches |
| Merge.MoveUniqueIff | internal/db/merge.go:223-235 | one release's move keeps versions unique exactly when the target lacks its new version |
| Merge.FormatInjective | internal/db/merge.go:93-95 | distinct numbers have distinct version strings |
| MergeOutcomes.FormatExamples | internal/db/merge.go:93-95 | version numbers print as plain decimals |
| MergeConserves.ApplyConserves | internal/db/merge.go:204-291 | an applicable plan without a version collision keeps every uniqueness constraint, moves every release, site, tag, blob key, token and policy with none lost or doubled and no other project's rows touched, ranks the moved releases after the target's in their old order, and leaves nothing pointing at the source |
| MergeConserves.AutoClashIff | internal/db/merge.go:72-98 | outside semver the moves collide exactly when the target has a decimal version among the new numbers |
| MergeClash.SemverMergeThenClash | internal/db/merge.go:72-98 | two merges without conflicts in their plans, the first of which applies and makes the second collide |
| MergeConserves.DecimalsBelowMax | internal/db/merge.go:72-98 | a target whose decimal versions are at most its highest number never collides |
| MergeConserves.SemverNeverClashes | internal/db/merge.go:85-92 | a semver plan without conflicts never collides |
| MergeConserves.LinksConserved | internal/db/merge.go:156-175 | the target holds a blob key afterwards exactly when either side did before |
| MergeConserves.CountedLinksMove | internal/db/merge.go:156-175 | the blob count the plan shows is the number of blob rows that move once the shared ones are dropped |
| MergeOutcomes.CountsSay | internal/db/merge.go:115-175 | the counts of a plan are the numbers of the source's rows, for blob keys of those the target lacks |
| MergeOutcomes.ConflictsSay | internal/db/merge.go:55-175 | exactly when each conflict is in a plan, in the tables' terms |
| MergeOutcomes.NumbersSay | internal/db/merge.go:72-98 | the moved releases take the numbers after the target's highest, one each, with no gap |
| MergeOutcomes.DrainedSays | internal/db/merge.go:293-308 | after the merge no row of any table names the source |
| MergeTx.MaxReleaseVersionNum | internal/db/projects.sql.go:408-411 | the project's highest version number, zero when it has no release |
| MergeTx.ListReleasesForMerge | internal/db/projects.sql.go:375-377 | the project's releases once each, by ascending number |
| MergeTx.SharedLabels | internal/db/merge.go:115-175 | exactly the labels both projects have, once each |
| MergeTx.PlanProjectMerge | internal/db/merge.go:44-111 | the renumbering, the aliases, the shared blob keys, the row counts shown to the operator and exactly the conflicts there are; an error exactly for one name twice or a name no project has |
| MergeTx.Tx.ApplyProjectMerge | internal/db/merge.go:204-291 | succeeds exactly when neither the confirmed plan nor a fresh one has a conflict, its names are still its projects', the fresh renumbering is the confirmed one and no version collides; the releases are then the confirmed ones moved and the tables conserved and drained, else unchanged; a renumbering that is not the present tables' is refused |
| MergeCycle.MergeEdges | internal/db/merge.go:269-281 | after a merge a project depends on the target if it did before or depended on the source |
| MergeCycle.MergeAcyclicIff | internal/db/merge.go:269-281 | a merge keeps an acyclic graph acyclic exactly when nothing the target depends on depends directly on the source |
| MergeCycle.MergeCanCloseCycle | internal/db/merge.go:269-281 | three projects for which it does not |
| Visibility.LongestIs | internal/db/visibility.go:59-69 | the governing rule covers the name and every other covering rule is shorter, so the order of rules does not matter |
| Visibility.UncoveredUpTo | internal/db/visibility.go:186-215 | a change to a rule that does not cover a name leaves its governing rule as it was |
| Visibility.NextKeeps | internal/db/visibility.go:136-215 | creation, sync, mode and folder changes keep every cached answer right and do to the rules what they say and no more |
| Visibility.CachedIsResolved | internal/db/visibility.go:33-69 | over every run each cached answer is mode over longest folder rule over automatic value, evaluated on the rules alone |
| VisibilityOutcomes.RunDecides | internal/db/visibility.go:33-69 | over every run override private or public decides the flag, else the longest covering folder rule, else the automatic value |
| VisibilityOutcomes.LastOverrideDecides | internal/db/visibility.go:168-179 | the last override set in a run decides, whatever the folders and the source say |
| VisibilityOutcomes.LastRuleStands | internal/db/visibility.go:186-215 | the last rule set on a folder in a run is its rule; setting it to automatic leaves none |
| VisibilityOutcomes.LastSyncDecides | internal/db/visibility.go:152-165 | what the source last said is the automatic value, and the flag when nothing else speaks |
| VisibilityOutcomes.CreatedStays | internal/db/projects.go:15-42 | a created project has no override and the requested value until an action says otherwise |
| Visibility.TrimCuts | internal/db/visibility.go:188-192 | trimming takes slashes off both ends and nothing else |
| VisibilityStore.ResolveProject | internal/db/visibility.go:59-69 | the loop over the rules in any order finds the longest covering rule and its mode |
| VisibilityStore.Store.ApplyProjectVisibility | internal/db/visibility.go:136-148 | writes what the rules say, also from a stale copy of the project row once an override row exists |
| VisibilityStore.Store.CreateProject | internal/db/projects.go:15-42 | a new project starts with the requested value as its automatic one, resolved under the folder rules; a taken name is refused |
| VisibilityStore.Store.SyncAutoPrivate | internal/db/visibility.go:152-165 | sets the automatic value and re-resolves |
| VisibilityStore.Store.SetProjectVisibilityMode | internal/db/visibility.go:168-179 | sets the override and re-resolves |
| VisibilityStore.Store.SetVisibilityFolder | internal/db/visibility.go:188-215 | sets or clears the rule and re-resolves every covered project and no other; a prefix of slashes alone is refused |

## Left out

- HTTP handlers, cookies, OAuth, OIDC, the admin dashboard, configuration and CLI commands: request plumbing.
- zlib, SHA-1 and hex file names: compression is any encoding whose decoder finds where a body ends, the pack's trailer any function of what precedes it, and object ids are collision-free.
- The text of upload-pack requests, the shallow section and the advertisement: a request arrives parsed.
- The wait of a request for a refresh (`internal/brew/tapcache.go:107-123`): the model ends with which refresh is waited for; timeouts and the error a waiting request answers are not modelled.
- `resetTapCache`'s removal of the scratch directory and the sweep of temporary files: they run when the server is wired up, not during a run.
- A directory removal that fails half way during eviction: removal is atomic.
- Blob deletion from storage: the model stops at the set of freed keys.
- Freed byte totals across batches: one key can carry different recorded sizes in different rows, so the batched run and the dry run are compared by key.
- Evict.Database.EvictReleases: assumes that a platform row names the release of its artifact, as its only writer does, and that no other writer runs between batches.
- The eviction of releases on non-default branches (`ListNonDefaultBranchReleases`): it has no keep-N promise.
- KeepN.KeepNGuarantee: the join with the projects table is taken as always matching, which its foreign key gives.
- Project creation through the REST handler: it does not consult the alias table, so it is no step of the resolution results.
- Visibility across renames and merges: the code does not re-resolve then, so those are no steps of the visibility results.
- Release and site visibility overrides: single-row reads and writes.
- MergeTx.PlanProjectMerge: releases with equal version numbers come in any order, as the query leaves it.
- MergeTx.Tx.ApplyProjectMerge: rows that cascade with the source project (its visibility overrides) are not modelled, nor is the snapshot taken before a merge.
- ProjectOps.Store.ReconcileNamespace: names are read when their turn comes rather than from a list made at the start; only the project's own rename changes its name in between.
- ProjectOps.ResolveDepends: who may read a project is a parameter.
- WireObjects.StoredTreeReadsBack: the hex digits of an id are a parameter, any 40 lower-case ones.
- Integer widths: sizes, version numbers and ids are unbounded; the source's 64-bit values do not wrap in any of these paths.
