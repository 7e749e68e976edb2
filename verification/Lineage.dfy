/**
  The persistent history of one tap: a lineage directory that every refresh extends. A
  refresh is a sequence of atomic file writes and may stop after any of them.
 */
module Lineage {
  import opened Wrappers
  import opened GitObjects
  import opened TapTree

  type FileBytes = map<string, Bytes>

  /** One past release's formula, at the path the project's latest formula uses. */
  datatype Formula = Formula(path: string, data: Bytes)

  /** What a lineage directory holds: loose objects, the two ref files, and the recorded formula states. */
  datatype Disk = Disk(objects: Store, infoRefs: Option<Sha>, main: Option<Sha>, keys: set<Formula>)

  function BlobIds(files: FileBytes): Files {
    map p | p in files :: Sha(Blob(files[p]))
  }

  function ParentList(parent: Option<Sha>): seq<Sha> {
    if parent.Some? then [parent.value] else []
  }

  /** The current file at the formula's path has the formula's bytes; a missing file reads as no bytes. */
  predicate IsCurrent(files: FileBytes, f: Formula) {
    (if f.path in files then files[f.path] else []) == f.data
  }

  /** A state the lineage has to commit: neither recorded nor the current one. */
  function Needed(keys: set<Formula>, files: FileBytes, f: Formula): seq<Formula> {
    if f in keys || IsCurrent(files, f) then [] else [f]
  }

  /** The history a refresh has to append. */
  function Pending(keys: set<Formula>, files: FileBytes, history: seq<Formula>): seq<Formula> {
    if history == [] then [] else Needed(keys, files, history[0]) + Pending(keys, files, history[1..])
  }

  lemma {:induction false} PendingExact(keys: set<Formula>, files: FileBytes, history: seq<Formula>, f: Formula)
    ensures f in Pending(keys, files, history) <==> f in history && f !in keys && !IsCurrent(files, f)
  {
    if history != [] {
      PendingExact(keys, files, history[1..], f);
    }
  }

  /** The tap already lists these bytes at the path; a path it does not list reads as no bytes. */
  predicate ListsAlready(files: FileBytes, f: Formula) {
    if f.path in files then files[f.path] == f.data else f.data == []
  }

  /**
    The places, in ascending order, are those of the states of the history that are neither
    recorded nor listed already, and the pending states are the ones there.
   */
  ghost predicate ArePlaces(keys: set<Formula>, files: FileBytes, history: seq<Formula>, pending: seq<Formula>,
                            places: seq<nat>) {
    && |places| == |pending|
    && (forall i, j :: 0 <= i < j < |places| ==> places[i] < places[j])
    && (forall i :: 0 <= i < |places| ==> places[i] < |history| && pending[i] == history[places[i]])
    && (forall k :: 0 <= k < |history| ==> (k in places <==> Lacks(keys, files, history[k])))
  }

  /** A refresh commits the states the lineage lacks in the history's order, as often as the history has them. */
  lemma {:induction false} PendingPlaces(keys: set<Formula>, files: FileBytes, history: seq<Formula>)
    returns (places: seq<nat>)
    ensures ArePlaces(keys, files, history, Pending(keys, files, history), places)
  {
    places := [];
    if history != [] {
      var rest := PendingPlaces(keys, files, history[1..]);
      var pending := Pending(keys, files, history[1..]);
      assert IsCurrent(files, history[0]) <==> ListsAlready(files, history[0]);
      if history[0] in keys || IsCurrent(files, history[0]) {
        places := Shifted(rest);
        LaterPlaces(keys, files, history, pending, rest);
      } else {
        places := [0] + Shifted(rest);
        FirstPlace(keys, files, history, pending, rest);
      }
    }
  }

  /** The state is neither recorded nor listed already. */
  predicate Lacks(keys: set<Formula>, files: FileBytes, f: Formula) {
    f !in keys && !ListsAlready(files, f)
  }

  lemma LaterPlaces(keys: set<Formula>, files: FileBytes, history: seq<Formula>, pending: seq<Formula>,
                    rest: seq<nat>)
    requires history != [] && ArePlaces(keys, files, history[1..], pending, rest) && !Lacks(keys, files, history[0])
    ensures ArePlaces(keys, files, history, pending, Shifted(rest))
  {
    PlacesReadLater(history, pending, rest);
    forall k | 0 <= k < |history|
      ensures k in Shifted(rest) <==> Lacks(keys, files, history[k])
    {
      PlaceLater(keys, files, history, rest, k);
    }
  }

  lemma PlaceLater(keys: set<Formula>, files: FileBytes, history: seq<Formula>, rest: seq<nat>, k: nat)
    requires k < |history|
    requires k > 0 ==> (k - 1 in rest <==> Lacks(keys, files, history[1..][k - 1]))
    ensures k > 0 ==> (k in Shifted(rest) <==> Lacks(keys, files, history[k]))
    ensures 0 !in Shifted(rest)
  {
    ShiftedHas(rest, k);
    ShiftedHas(rest, 0);
  }

  lemma PlacesReadLater(history: seq<Formula>, pending: seq<Formula>, rest: seq<nat>)
    requires history != [] && |pending| == |rest|
    requires forall i :: 0 <= i < |rest| ==> rest[i] < |history[1..]| && pending[i] == history[1..][rest[i]]
    ensures forall i :: 0 <= i < |rest| ==> Shifted(rest)[i] < |history| && pending[i] == history[Shifted(rest)[i]]
  {
  }

  lemma FirstPlace(keys: set<Formula>, files: FileBytes, history: seq<Formula>, pending: seq<Formula>, rest: seq<nat>)
    requires history != [] && ArePlaces(keys, files, history[1..], pending, rest) && Lacks(keys, files, history[0])
    ensures ArePlaces(keys, files, history, [history[0]] + pending, [0] + Shifted(rest))
  {
    PlacesReadLater(history, pending, rest);
    PlacesAscend(rest);
    PlacesRead(history, pending, rest);
    forall k | 0 <= k < |history|
      ensures k in [0] + Shifted(rest) <==> Lacks(keys, files, history[k])
    {
      PlaceLater(keys, files, history, rest, k);
      assert k in [0] + Shifted(rest) <==> k == 0 || k in Shifted(rest);
    }
  }

  lemma PlacesAscend(rest: seq<nat>)
    requires forall i, j :: 0 <= i < j < |rest| ==> rest[i] < rest[j]
    ensures var places := [0] + Shifted(rest);
      forall i, j :: 0 <= i < j < |places| ==> places[i] < places[j]
  {
    var places := [0] + Shifted(rest);
    assert forall i :: 0 < i < |places| ==> places[i] == rest[i - 1] + 1;
  }

  lemma PlacesRead(history: seq<Formula>, pending: seq<Formula>, rest: seq<nat>)
    requires history != [] && |pending| == |rest|
    requires forall i :: 0 <= i < |rest| ==> Shifted(rest)[i] < |history| && pending[i] == history[Shifted(rest)[i]]
    ensures var places, all := [0] + Shifted(rest), [history[0]] + pending;
      forall i :: 0 <= i < |places| ==> places[i] < |history| && all[i] == history[places[i]]
  {
    var places, all := [0] + Shifted(rest), [history[0]] + pending;
    forall i | 0 <= i < |places|
      ensures places[i] < |history| && all[i] == history[places[i]]
    {
      if i > 0 {
        assert places[i] == Shifted(rest)[i - 1] && all[i] == pending[i - 1];
      }
    }
  }

  function Shifted(places: seq<nat>): (later: seq<nat>)
    ensures |later| == |places| && forall i :: 0 <= i < |places| ==> later[i] == places[i] + 1
  {
    if places == [] then [] else [places[0] + 1] + Shifted(places[1..])
  }

  lemma ShiftedHas(places: seq<nat>, k: nat)
    ensures k in Shifted(places) <==> k > 0 && k - 1 in places
  {
    if k > 0 && k - 1 in places {
      var i :| 0 <= i < |places| && places[i] == k - 1;
      assert Shifted(places)[i] == k;
    }
  }

  /** c is the commit of the files' canonical tree on top of parent. */
  ghost predicate IsMint(blobs: Files, parent: Option<Sha>, c: Sha) {
    c.content.Commit? && TreeFor(blobs, c.content.tree) && c.content.parents == ParentList(parent)
  }

  /** The current files with one formula set to a past state. */
  function PastBlobs(files: FileBytes, f: Formula): Files {
    BlobIds(files)[f.path := Sha(Blob(f.data))]
  }

  function HeadOf(base: Option<Sha>, chain: seq<Sha>): Option<Sha> {
    if chain == [] then base else Some(chain[|chain| - 1])
  }

  /** One commit for each pending formula, each on top of the last. */
  ghost predicate IsChain(files: FileBytes, pending: seq<Formula>, base: Option<Sha>, chain: seq<Sha>) {
    && |chain| == |pending|
    && forall i :: 0 <= i < |chain| ==> IsMint(PastBlobs(files, pending[i]), HeadOf(base, chain[..i]), chain[i])
  }

  /** What a refresh mints on top of the persisted tip: the pending history, then the current files. */
  ghost predicate IsPlan(d: Disk, files: FileBytes, history: seq<Formula>, chain: seq<Sha>, tip: Sha) {
    && IsChain(files, Pending(d.keys, files, history), d.main, chain)
    && IsMint(BlobIds(files), HeadOf(d.main, chain), tip)
  }

  /** The formula states a completed refresh has recorded. */
  ghost predicate RecordedKeys(d: Disk, files: FileBytes, history: seq<Formula>, keys: set<Formula>) {
    forall f :: f in keys <==>
      f in d.keys || f in Pending(d.keys, files, history) || (f.path in files && files[f.path] == f.data)
  }

  /** The tip already commits the current files and no history is missing. */
  ghost predicate IsUnchanged(d: Disk, files: FileBytes, history: seq<Formula>) {
    && Pending(d.keys, files, history) == []
    && d.main.Some? && IsCommit(d.objects, d.main.value) && TreeFor(BlobIds(files), d.objects[d.main.value].tree)
  }

  datatype Stage = Objects | InfoRefs | Main | Done

  /** The directory after a refresh that stopped in the given stage of its writes. */
  ghost predicate Stopped(d: Disk, files: FileBytes, history: seq<Formula>, tip: Sha, stage: Stage, d': Disk) {
    && Grows(d.objects, d'.objects) && ContentAddressed(d'.objects)
    && (stage != Objects ==> OnDisk(d'.objects, tip))
    && d'.infoRefs == (if stage == Objects then d.infoRefs else Some(tip))
    && d'.main == (if stage == Objects || stage == InfoRefs then d.main else Some(tip))
    && (if stage == Done then RecordedKeys(d, files, history, d'.keys) else d'.keys == d.keys)
  }

  /** One refresh of the directory d with these inputs ends at d'; it may have stopped after any write. */
  ghost predicate Refreshed(d: Disk, files: FileBytes, history: seq<Formula>, completed: bool, d': Disk) {
    if IsUnchanged(d, files, history) then completed && d' == d
    else exists chain, tip, stage ::
      IsPlan(d, files, history, chain, tip) && Stopped(d, files, history, tip, stage, d') && (completed <==>
            stage == Done)
  }

  // ---- the invariant of a lineage directory ----

  ghost predicate PublishedCommit(objects: Store, c: Sha) {
    c.content.Commit? && OnDisk(objects, c)
  }

  /** Some commit in the history of c has the formula's bytes at its path. */
  ghost predicate InHistory(objects: Store, c: Sha, f: Formula) {
    exists a :: Ancestor(objects, c, a) && a.content.Commit? && HasFile(a.content.tree, f.path, Sha(Blob(f.data)))
  }

  /** Both refs name commits with their whole closure on disk, and every recorded state is in the tip's history. */
  ghost predicate Consistent(d: Disk) {
    && ContentAddressed(d.objects)
    && (d.infoRefs.Some? ==> PublishedCommit(d.objects, d.infoRefs.value))
    && (d.main.Some? ==> PublishedCommit(d.objects, d.main.value))
    && (d.main.Some? ==> d.infoRefs.Some? && Ancestor(d.objects, d.infoRefs.value, d.main.value))
    && (forall f :: f in d.keys ==> d.main.Some? && InHistory(d.objects, d.main.value, f))
  }

  /** d' came after d: it holds all that d holds, and its tip has the tip of d in its history. */
  ghost predicate Extends(d: Disk, d': Disk) {
    && Grows(d.objects, d'.objects)
    && (d.main.Some? ==> d'.main.Some? && Ancestor(d'.objects, d'.main.value, d.main.value))
  }

  lemma ExtendsSelf(d: Disk)
    ensures Extends(d, d)
  {
    if d.main.Some? {
      AncestorSelf(d.objects, d.main.value);
    }
  }

  lemma ExtendsTransitive(d: Disk, d': Disk, d'': Disk)
    requires Extends(d, d') && Extends(d', d'')
    ensures Extends(d, d'')
  {
    if d.main.Some? {
      AncestorGrows(d'.objects, d''.objects, d'.main.value, d.main.value);
      AncestorTransitive(d''.objects, d''.main.value, d'.main.value, d.main.value);
    }
  }

  const NewDirectory := Disk(map[], None, None, {})

  lemma MintParent(objects: Store, blobs: Files, parent: Option<Sha>, c: Sha)
    requires IsMint(blobs, parent, c) && OnDisk(objects, c) && parent.Some?
    ensures ParentOf(objects, c, parent.value) && OnDisk(objects, parent.value)
    ensures Ancestor(objects, c, parent.value)
  {
    assert parent.value in c.content.parents;
    AncestorSelf(objects, c);
    AncestorParent(objects, c, c, parent.value);
  }

  /** Every commit of the chain, and the tip it was built on, is in the new tip's history. */
  lemma {:induction false} ChainInHistory(objects: Store, d: Disk, files: FileBytes, history: seq<Formula>,
                                          chain: seq<Sha>, tip: Sha, i: nat)
    requires IsPlan(d, files, history, chain, tip) && OnDisk(objects, tip) && i <= |chain|
    ensures HeadOf(d.main, chain[..i]).Some? ==>
              OnDisk(objects, HeadOf(d.main, chain[..i]).value)
                  && Ancestor(objects, tip, HeadOf(d.main, chain[..i]).value)
    decreases |chain| - i
  {
    if i == |chain| {
      assert chain[..i] == chain;
      if HeadOf(d.main, chain).Some? {
        MintParent(objects, BlobIds(files), HeadOf(d.main, chain), tip);
      }
    } else {
      ChainInHistory(objects, d, files, history, chain, tip, i + 1);
      assert HeadOf(d.main, chain[..i + 1]) == Some(chain[i]);
      if HeadOf(d.main, chain[..i]).Some? {
        MintParent(objects, PastBlobs(files, Pending(d.keys, files, history)[i]), HeadOf(d.main, chain[..i]), chain[i]);
        AncestorTransitive(objects, tip, chain[i], HeadOf(d.main, chain[..i]).value);
      }
    }
  }

  lemma InHistoryLater(objects: Store, later: Store, c: Sha, c': Sha, f: Formula)
    requires InHistory(objects, c, f) && Grows(objects, later) && Ancestor(later, c', c)
    ensures InHistory(later, c', f)
  {
    var a :| Ancestor(objects, c, a) && a.content.Commit? && HasFile(a.content.tree, f.path, Sha(Blob(f.data)));
    AncestorGrows(objects, later, c, a);
    AncestorTransitive(later, c', c, a);
  }

  /** The commit of a map holds exactly the map's files. */
  lemma MintHasFile(blobs: Files, parent: Option<Sha>, c: Sha, path: string, b: Sha)
    requires IsMint(blobs, parent, c)
    ensures HasFile(c.content.tree, path, b) <==> path in blobs && blobs[path] == b
  {
    FlattenBuild(blobs, c.content.tree, path, b);
  }

  /** The tree holds the current files, with the one formula as it once was, and nothing else. */
  ghost predicate HoldsPast(t: Sha, files: FileBytes, f: Formula) {
    forall path, b :: HasFile(t, path, b) <==>
        (path == f.path && b == Sha(Blob(f.data))) || (path != f.path && path in files && b == Sha(Blob(files[path])))
  }

  /** The tree holds the current files and nothing else. */
  ghost predicate HoldsCurrent(t: Sha, files: FileBytes) {
    forall path, b :: HasFile(t, path, b) <==> path in files && b == Sha(Blob(files[path]))
  }

  /** The commit of a past state holds every other file as it is now. */
  lemma PastCommitHolds(files: FileBytes, f: Formula, parent: Option<Sha>, c: Sha)
    requires IsMint(PastBlobs(files, f), parent, c)
    ensures HoldsPast(c.content.tree, files, f)
  {
    forall path, b
      ensures HasFile(c.content.tree, path, b) <==>
        (path == f.path && b == Sha(Blob(f.data))) || (path != f.path && path in files && b == Sha(Blob(files[path])))
    {
      MintHasFile(PastBlobs(files, f), parent, c, path, b);
    }
  }

  lemma TipHolds(files: FileBytes, parent: Option<Sha>, c: Sha)
    requires IsMint(BlobIds(files), parent, c)
    ensures HoldsCurrent(c.content.tree, files)
  {
    forall path, b
      ensures HasFile(c.content.tree, path, b) <==> path in files && b == Sha(Blob(files[path]))
    {
      MintHasFile(BlobIds(files), parent, c, path, b);
    }
  }

  /**
    What a refresh commits: on top of the old tip one commit for each pending state, in order,
    each holding the current files with that one formula as it once was; then the current files.
   */
  lemma PlanHolds(d: Disk, files: FileBytes, history: seq<Formula>, chain: seq<Sha>, tip: Sha)
    requires IsPlan(d, files, history, chain, tip)
    ensures var pending := Pending(d.keys, files, history);
      && |chain| == |pending|
      && forall i :: 0 <= i < |chain| ==>
            chain[i].content.Commit? && HoldsPast(chain[i].content.tree, files, pending[i])
    ensures tip.content.Commit? && HoldsCurrent(tip.content.tree, files)
    ensures forall i :: 0 < i <= |chain| ==> (chain + [tip])[i].content.parents == [(chain + [tip])[i - 1]]
    ensures (chain + [tip])[0].content.parents == if d.main.Some? then [d.main.value] else []
  {
    var pending, line := Pending(d.keys, files, history), chain + [tip];
    forall i | 0 <= i < |chain|
      ensures chain[i].content.Commit? && HoldsPast(chain[i].content.tree, files, pending[i])
    {
      ChainAt(files, pending, d.main, chain, i);
      PastCommitHolds(files, pending[i], HeadOf(d.main, chain[..i]), chain[i]);
    }
    TipHolds(files, HeadOf(d.main, chain), tip);
    forall i | 0 <= i < |line|
      ensures line[i].content.parents == ParentList(if i == 0 then d.main else Some(line[i - 1]))
    {
      PlanAt(d, files, history, chain, tip, i);
    }
  }

  /** Each pending state got its commit. */
  lemma PendingCommit(objects: Store, d: Disk, files: FileBytes, history: seq<Formula>, chain: seq<Sha>, tip: Sha,
                      f: Formula) returns (c: Sha)
    requires IsPlan(d, files, history, chain, tip) && OnDisk(objects, tip) && f in Pending(d.keys, files, history)
    ensures Ancestor(objects, tip, c) && c.content.Commit? && HoldsPast(c.content.tree, files, f)
  {
    var pending := Pending(d.keys, files, history);
    var i :| 0 <= i < |pending| && pending[i] == f;
    c := chain[i];
    ChainAt(files, pending, d.main, chain, i);
    PastCommitHolds(files, f, HeadOf(d.main, chain[..i]), c);
    LineInHistory(objects, d, files, history, chain, tip, c);
  }

  lemma PendingInHistory(objects: Store, d: Disk, files: FileBytes, history: seq<Formula>, chain: seq<Sha>, tip: Sha,
                         f: Formula)
    requires IsPlan(d, files, history, chain, tip) && OnDisk(objects, tip) && f in Pending(d.keys, files, history)
    ensures InHistory(objects, tip, f)
  {
    var c := PendingCommit(objects, d, files, history, chain, tip, f);
    assert HasFile(c.content.tree, f.path, Sha(Blob(f.data)));
  }

  /** Each state a completed refresh records is in the new tip's history. */
  lemma RecordedInHistory(d: Disk, files: FileBytes, history: seq<Formula>, chain: seq<Sha>, tip: Sha, d': Disk,
                          f: Formula)
    requires Consistent(d) && IsPlan(d, files, history, chain, tip) && Stopped(d, files, history, tip, Done, d')
    requires f in d'.keys
    ensures InHistory(d'.objects, tip, f)
  {
    var pending := Pending(d.keys, files, history);
    if f in d.keys {
      ChainInHistory(d'.objects, d, files, history, chain, tip, 0);
      assert chain[..0] == [];
      InHistoryLater(d.objects, d'.objects, d.main.value, tip, f);
    } else if f in pending {
      PendingInHistory(d'.objects, d, files, history, chain, tip, f);
    } else {
      AncestorSelf(d'.objects, tip);
      MintHasFile(BlobIds(files), HeadOf(d.main, chain), tip, f.path, Sha(Blob(f.data)));
    }
  }

  /** The tip d had, if any, is in the history of the tip a later stage publishes. */
  lemma OldTipInHistory(d: Disk, files: FileBytes, history: seq<Formula>, chain: seq<Sha>, tip: Sha, stage: Stage,
                        d': Disk)
    requires IsPlan(d, files, history, chain, tip) && Stopped(d, files, history, tip, stage, d') && stage != Objects
    ensures d.main.Some? ==> Ancestor(d'.objects, tip, d.main.value)
  {
    ChainInHistory(d'.objects, d, files, history, chain, tip, 0);
    assert chain[..0] == [];
  }

  /** Wherever a refresh stops, the directory stays consistent, only grows, and its tip only moves forward. */
  lemma RefreshKeeps(d: Disk, files: FileBytes, history: seq<Formula>, completed: bool, d': Disk)
    requires Consistent(d) && Refreshed(d, files, history, completed, d')
    ensures Consistent(d') && Extends(d, d')
  {
    if IsUnchanged(d, files, history) {
      AncestorSelf(d.objects, d.main.value);
    } else {
      var chain, tip, stage :|
        IsPlan(d, files, history, chain, tip) && Stopped(d, files, history, tip, stage, d') && (completed <==>
              stage == Done);
      StoppedKeeps(d, files, history, chain, tip, stage, d');
    }
  }

  lemma StoppedKeeps(d: Disk, files: FileBytes, history: seq<Formula>, chain: seq<Sha>, tip: Sha, stage: Stage,
                     d': Disk)
    requires Consistent(d) && IsPlan(d, files, history, chain, tip) && Stopped(d, files, history, tip, stage, d')
    ensures Consistent(d')
    ensures d.main.Some? ==> d'.main.Some? && Ancestor(d'.objects, d'.main.value, d.main.value)
  {
    if d.main.Some? {
      OnDiskGrows(d.objects, d'.objects, d.main.value);
      AncestorGrows(d.objects, d'.objects, d.infoRefs.value, d.main.value);
      AncestorSelf(d'.objects, d.main.value);
    }
    if d.infoRefs.Some? {
      OnDiskGrows(d.objects, d'.objects, d.infoRefs.value);
    }
    if stage != Objects {
      AncestorSelf(d'.objects, tip);
      OldTipInHistory(d, files, history, chain, tip, stage, d');
    }
    forall f | f in d'.keys
      ensures d'.main.Some? && InHistory(d'.objects, d'.main.value, f)
    {
      if stage == Done {
        RecordedInHistory(d, files, history, chain, tip, d', f);
      } else {
        InHistoryLater(d.objects, d'.objects, d.main.value, d'.main.value, f);
      }
    }
  }

  // ---- whole runs ----

  datatype Event = Event(files: FileBytes, history: seq<Formula>, completed: bool)

  /** A new directory refreshed again and again, each refresh stopping anywhere. */
  ghost predicate IsRun(disks: seq<Disk>, events: seq<Event>) {
    && |disks| == |events| + 1 && disks[0] == NewDirectory
    && forall i :: 0 <= i < |events| ==>
        Refreshed(disks[i], events[i].files, events[i].history, events[i].completed, disks[i + 1])
  }

  lemma TwoRefreshes(d: Disk, e: Event, d': Disk, e': Event, d'': Disk)
    requires d == NewDirectory
    requires Refreshed(d, e.files, e.history, e.completed, d')
    requires Refreshed(d', e'.files, e'.history, e'.completed, d'')
    ensures IsRun([d, d', d''], [e, e'])
  {
    var disks, events := [d, d', d''], [e, e'];
    forall i | 0 <= i < |events|
      ensures Refreshed(disks[i], events[i].files, events[i].history, events[i].completed, disks[i + 1])
    {
      if i == 0 {
        assert disks[i] == d && events[i] == e && disks[i + 1] == d';
      } else {
        assert disks[i] == d' && events[i] == e' && disks[i + 1] == d'';
      }
    }
  }

  /** Every directory of a run is consistent: its refs never name an object that is not on disk. */
  lemma {:induction false} RunConsistent(disks: seq<Disk>, events: seq<Event>, j: nat)
    requires IsRun(disks, events) && j < |disks|
    ensures Consistent(disks[j])
  {
    if j > 0 {
      var k := j - 1;
      RunConsistent(disks, events, k);
      RefreshKeeps(disks[k], events[k].files, events[k].history, events[k].completed, disks[k + 1]);
    }
  }

  /** Over a run the store only grows, and every tip it published is an ancestor of every later tip. */
  lemma {:induction false} RunFastForwards(disks: seq<Disk>, events: seq<Event>, i: nat, j: nat)
    requires IsRun(disks, events) && i <= j < |disks|
    ensures Extends(disks[i], disks[j])
    decreases j
  {
    if i == j {
      ExtendsSelf(disks[i]);
    } else {
      var k := j - 1;
      RunFastForwards(disks, events, i, k);
      RunConsistent(disks, events, k);
      RefreshKeeps(disks[k], events[k].files, events[k].history, events[k].completed, disks[k + 1]);
      ExtendsTransitive(disks[i], disks[k], disks[k + 1]);
    }
  }

  lemma PublishedOnDisk(disks: seq<Disk>, events: seq<Event>, i: nat, j: nat, c: Sha)
    requires IsRun(disks, events) && i <= j < |disks|
    requires disks[i].main == Some(c) || disks[i].infoRefs == Some(c)
    ensures PublishedCommit(disks[j].objects, c)
  {
    RunConsistent(disks, events, i);
    RunFastForwards(disks, events, i, j);
    OnDiskGrows(disks[i].objects, disks[j].objects, c);
  }

  /** A commit either ref ever named can be fetched whole at any later time. */
  lemma PublishedStaysServable(disks: seq<Disk>, events: seq<Event>, i: nat, j: nat, c: Sha)
    requires IsRun(disks, events) && i <= j < |disks|
    requires disks[i].main == Some(c) || disks[i].infoRefs == Some(c)
    ensures IsCommit(disks[j].objects, c) && HistoryComplete(disks[j].objects, c)
  {
    PublishedOnDisk(disks, events, i, j, c);
    OnDiskComplete(disks[j].objects, c);
  }

  // ---- what a refresh adds to the history ----

  /** Below the i-th commit of the chain lie only earlier commits of the chain and the old tip's history. */
  lemma {:induction false} AncestorOfChain(objects: Store, d: Disk, files: FileBytes, history: seq<Formula>,
                                           chain: seq<Sha>, tip: Sha, i: nat, a: Sha)
    requires IsPlan(d, files, history, chain, tip) && OnDisk(objects, tip) && i <= |chain|
    requires HeadOf(d.main, chain[..i]).Some? && Ancestor(objects, HeadOf(d.main, chain[..i]).value, a)
    ensures a in chain || (d.main.Some? && Ancestor(objects, d.main.value, a))
    decreases i
  {
    HeadAt(d.main, chain, i);
    if i > 0 {
      if a != chain[i - 1] {
        BeforeLink(objects, d, files, history, chain, tip, i, a);
        AncestorOfChain(objects, d, files, history, chain, tip, i - 1, a);
      }
    }
  }

  lemma HeadAt(base: Option<Sha>, chain: seq<Sha>, i: nat)
    requires i <= |chain|
    ensures HeadOf(base, chain[..i]) == if i == 0 then base else Some(chain[i - 1])
  {
  }

  /** Every other ancestor of a chain commit is an ancestor of the one before it. */
  lemma BeforeLink(objects: Store, d: Disk, files: FileBytes, history: seq<Formula>, chain: seq<Sha>, tip: Sha, i: nat,
                   a: Sha)
    requires IsPlan(d, files, history, chain, tip) && OnDisk(objects, tip) && 0 < i <= |chain|
    requires Ancestor(objects, chain[i - 1], a) && a != chain[i - 1]
    ensures var before := HeadOf(d.main, chain[..i - 1]); before.Some? && Ancestor(objects, before.value, a)
  {
    var c := chain[i - 1];
    HeadAt(d.main, chain, i);
    ChainInHistory(objects, d, files, history, chain, tip, i);
    AncestorCases(objects, c, a);
    var p :| ParentOf(objects, c, p) && Ancestor(objects, p, a);
    ChainAt(files, Pending(d.keys, files, history), d.main, chain, i - 1);
  }

  /** The new tip's history is the tip, the chain, and the old tip's history. */
  lemma AncestorOfTip(objects: Store, d: Disk, files: FileBytes, history: seq<Formula>, chain: seq<Sha>, tip: Sha,
                      a: Sha)
    requires IsPlan(d, files, history, chain, tip) && OnDisk(objects, tip) && Ancestor(objects, tip, a)
    ensures a == tip || a in chain || (d.main.Some? && Ancestor(objects, d.main.value, a))
  {
    AncestorCases(objects, tip, a);
    if a != tip {
      var p :| ParentOf(objects, tip, p) && Ancestor(objects, p, a);
      assert chain[..|chain|] == chain;
      AncestorOfChain(objects, d, files, history, chain, tip, |chain|, a);
    }
  }

  /** A formula the current files lack, with no bytes: the skip rule takes it for the current state. */
  predicate ReadsAsCurrent(files: FileBytes, f: Formula) {
    f.data == [] && f.path !in files
  }

  lemma NewCommitsLackEmpty(d: Disk, files: FileBytes, history: seq<Formula>, chain: seq<Sha>, tip: Sha, f: Formula,
                            a: Sha)
    requires IsPlan(d, files, history, chain, tip) && ReadsAsCurrent(files, f) && (a == tip || a in chain)
    ensures a.content.Commit? && !HasFile(a.content.tree, f.path, Sha(Blob(f.data)))
  {
    if a == tip {
      MintHasFile(BlobIds(files), HeadOf(d.main, chain), tip, f.path, Sha(Blob(f.data)));
    } else {
      var i :| 0 <= i < |chain| && chain[i] == a;
      var g := Pending(d.keys, files, history)[i];
      assert g in Pending(d.keys, files, history);
      PendingExact(d.keys, files, history, g);
      MintHasFile(PastBlobs(files, g), HeadOf(d.main, chain[..i]), a, f.path, Sha(Blob(f.data)));
    }
  }

  /** A commit the plan adds to the history holds nothing of an empty formula the files lack. */
  lemma EmptyStaysOut(d: Disk, files: FileBytes, history: seq<Formula>, chain: seq<Sha>, tip: Sha, d': Disk, f: Formula)
    requires Consistent(d) && IsPlan(d, files, history, chain, tip) && Stopped(d, files, history, tip, Done, d')
    requires ReadsAsCurrent(files, f) && InHistory(d'.objects, tip, f)
    ensures d.main.Some? && InHistory(d.objects, d.main.value, f)
  {
    var a :| Ancestor(d'.objects, tip, a) && a.content.Commit? && HasFile(a.content.tree, f.path, Sha(Blob(f.data)));
    AncestorOfTip(d'.objects, d, files, history, chain, tip, a);
    if a == tip || a in chain {
      NewCommitsLackEmpty(d, files, history, chain, tip, f, a);
    } else {
      AncestorShrinks(d.objects, d'.objects, d.main.value, a);
    }
  }

  /**
    After a completed refresh a formula passed in as history is in the tip's history exactly when
    it has bytes, or its path is among the current files, or it was in the history before.
   */
  lemma CompletedHistory(d: Disk, files: FileBytes, history: seq<Formula>, d': Disk, f: Formula)
    requires Consistent(d) && Refreshed(d, files, history, true, d') && f in history
    ensures d'.main.Some?
    ensures InHistory(d'.objects, d'.main.value, f)
         <==> !ReadsAsCurrent(files, f) || (d.main.Some? && InHistory(d.objects, d.main.value, f))
  {
    PendingExact(d.keys, files, history, f);
    if IsUnchanged(d, files, history) {
      if IsCurrent(files, f) && f.path in files {
        FlattenBuild(BlobIds(files), d.objects[d.main.value].tree, f.path, Sha(Blob(f.data)));
        AncestorSelf(d.objects, d.main.value);
      }
    } else {
      var chain, tip, stage :|
        IsPlan(d, files, history, chain, tip) && Stopped(d, files, history, tip, stage, d') && (true <==>
              stage == Done);
      if InHistory(d'.objects, tip, f) && ReadsAsCurrent(files, f) {
        EmptyStaysOut(d, files, history, chain, tip, d', f);
      }
      if d.main.Some? && InHistory(d.objects, d.main.value, f) {
        OldTipInHistory(d, files, history, chain, tip, Done, d');
        InHistoryLater(d.objects, d'.objects, d.main.value, tip, f);
      } else if !ReadsAsCurrent(files, f) {
        RecordedInHistory(d, files, history, chain, tip, d', f);
      }
    }
  }

  /** Every formula with bytes passed to a completed refresh is in the tip's history. */
  lemma HistoryIsComplete(d: Disk, files: FileBytes, history: seq<Formula>, d': Disk, f: Formula)
    requires Consistent(d) && Refreshed(d, files, history, true, d') && f in history && f.data != []
    ensures d'.main.Some? && InHistory(d'.objects, d'.main.value, f)
  {
    CompletedHistory(d, files, history, d', f);
  }

  /** After a completed refresh the tip's tree holds exactly the current files. */
  lemma TipIsCurrent(d: Disk, files: FileBytes, history: seq<Formula>, d': Disk)
    requires Consistent(d) && Refreshed(d, files, history, true, d')
    ensures d'.main.Some? && d'.main.value.content.Commit? && HoldsCurrent(d'.main.value.content.tree, files)
  {
    if IsUnchanged(d, files, history) {
      var c := d.main.value;
      forall path, b
        ensures HasFile(c.content.tree, path, b) <==> path in files && b == Sha(Blob(files[path]))
      {
        FlattenBuild(BlobIds(files), c.content.tree, path, b);
      }
    } else {
      var chain, tip, stage :|
        IsPlan(d, files, history, chain, tip) && Stopped(d, files, history, tip, stage, d') && stage == Done;
      PlanHolds(d, files, history, chain, tip);
    }
  }

  /**
    A formula of the history that was not recorded, has bytes and differs from the current one gets
    a commit in the tip's history that holds it beside the other current files.
   */
  lemma PastIsCommitted(d: Disk, files: FileBytes, history: seq<Formula>, d': Disk, f: Formula) returns (c: Sha)
    requires Consistent(d) && Refreshed(d, files, history, true, d')
    requires f in history && f !in d.keys && f.data != [] && !(f.path in files && files[f.path] == f.data)
    ensures d'.main.Some? && Ancestor(d'.objects, d'.main.value, c)
    ensures c.content.Commit? && HoldsPast(c.content.tree, files, f)
  {
    PendingExact(d.keys, files, history, f);
    var chain, tip, stage :|
      IsPlan(d, files, history, chain, tip) && Stopped(d, files, history, tip, stage, d') && stage == Done;
    c := PendingCommit(d'.objects, d, files, history, chain, tip, f);
  }

  /** The smallest such loss: an empty formula for a project the tap no longer lists. */
  lemma EmptyFormulaIsLost(d': Disk)
    requires Refreshed(NewDirectory, map[], [Formula("Formula/a.rb", [])], true, d')
    ensures d'.main.Some? && !InHistory(d'.objects, d'.main.value, Formula("Formula/a.rb", []))
  {
    CompletedHistory(NewDirectory, map[], [Formula("Formula/a.rb", [])], d', Formula("Formula/a.rb", []));
  }

  /** A second refresh with the same inputs changes neither the tip nor the store. */
  lemma SecondRefreshIsIdle(d: Disk, files: FileBytes, history: seq<Formula>, d': Disk, completed: bool, d'': Disk)
    requires Consistent(d) && Refreshed(d, files, history, true, d') && Refreshed(d', files, history, completed, d'')
    ensures completed && d'' == d'
  {
    if !IsUnchanged(d, files, history) {
      var chain, tip, stage :|
        IsPlan(d, files, history, chain, tip) && Stopped(d, files, history, tip, stage, d') && (true <==>
              stage == Done);
      if Pending(d'.keys, files, history) != [] {
        var f := Pending(d'.keys, files, history)[0];
        PendingExact(d'.keys, files, history, f);
        PendingExact(d.keys, files, history, f);
        assert false;
      }
      assert IsUnchanged(d', files, history);
    }
  }

  lemma MintUnique(blobs: Files, parent: Option<Sha>, c: Sha, c': Sha)
    requires IsMint(blobs, parent, c) && IsMint(blobs, parent, c')
    ensures c == c'
  {
    TreeUnique(blobs, c.content.tree, c'.content.tree);
  }

  lemma ChainAt(files: FileBytes, pending: seq<Formula>, base: Option<Sha>, chain: seq<Sha>, i: nat)
    requires IsChain(files, pending, base, chain) && i < |chain|
    ensures IsMint(PastBlobs(files, pending[i]), HeadOf(base, chain[..i]), chain[i])
  {
  }

  // ---- the dumb protocol's ref ----

  /** The trees a refresh commits, in order: each pending state's, then the current files'. */
  function Planned(d: Disk, files: FileBytes, history: seq<Formula>): seq<Files> {
    PastStates(files, Pending(d.keys, files, history)) + [BlobIds(files)]
  }

  function PastStates(files: FileBytes, pending: seq<Formula>): (states: seq<Files>)
    ensures |states| == |pending| && forall i :: 0 <= i < |states| ==> states[i] == PastBlobs(files, pending[i])
  {
    if pending == [] then [] else [PastBlobs(files, pending[0])] + PastStates(files, pending[1..])
  }

  /** Going back from c, the commits have these trees, last first, down to the commit base. */
  ghost predicate Commits(states: seq<Files>, base: Option<Sha>, c: Sha) {
    if states == [] then base == Some(c)
    else
      var before := states[..|states| - 1];
      && c.content.Commit? && TreeFor(states[|states| - 1], c.content.tree)
      && if before == [] then c.content.parents == ParentList(base)
         else |c.content.parents| == 1 && Commits(before, base, c.content.parents[0])
  }

  /** Each commit of the line has its tree and sits on the one before it. */
  ghost predicate IsLine(states: seq<Files>, base: Option<Sha>, line: seq<Sha>) {
    |line| == |states| && forall i {:trigger LineAt(states, base, line, i)} :: 0 <= i < |line| ==>
          LineAt(states, base, line, i)
  }

  ghost predicate LineAt(states: seq<Files>, base: Option<Sha>, line: seq<Sha>, i: int) {
    0 <= i < |line| && i < |states| && IsMint(states[i], if i == 0 then base else Some(line[i - 1]), line[i])
  }

  lemma PlanIsLine(d: Disk, files: FileBytes, history: seq<Formula>, chain: seq<Sha>, tip: Sha)
    requires IsPlan(d, files, history, chain, tip)
    ensures IsLine(Planned(d, files, history), d.main, chain + [tip])
  {
    var states, line := Planned(d, files, history), chain + [tip];
    forall i | 0 <= i < |line|
      ensures LineAt(states, d.main, line, i)
    {
      PlanAt(d, files, history, chain, tip, i);
    }
  }

  lemma PlanAt(d: Disk, files: FileBytes, history: seq<Formula>, chain: seq<Sha>, tip: Sha, i: nat)
    requires IsPlan(d, files, history, chain, tip) && i <= |chain|
    ensures LineAt(Planned(d, files, history), d.main, chain + [tip], i)
  {
    HeadAt(d.main, chain, i);
    if i < |chain| {
      ChainAt(files, Pending(d.keys, files, history), d.main, chain, i);
    } else {
      assert chain[..i] == chain;
    }
  }

  lemma {:induction false} LineUnique(states: seq<Files>, base: Option<Sha>, line: seq<Sha>, line': seq<Sha>, i: nat)
    requires IsLine(states, base, line) && IsLine(states, base, line') && i < |states|
    ensures line[i] == line'[i]
  {
    assert LineAt(states, base, line, i) && LineAt(states, base, line', i);
    if i > 0 {
      LineUnique(states, base, line, line', i - 1);
    }
    MintUnique(states[i], if i == 0 then base else Some(line[i - 1]), line[i], line'[i]);
  }

  /** The plan is a function of the directory and the inputs: no iteration order shows in it. */
  lemma PlanUnique(d: Disk, files: FileBytes, history: seq<Formula>, chain: seq<Sha>, tip: Sha, chain': seq<Sha>,
                   tip': Sha)
    requires IsPlan(d, files, history, chain, tip) && IsPlan(d, files, history, chain', tip')
    ensures chain == chain' && tip == tip'
  {
    var states, line, line' := Planned(d, files, history), chain + [tip], chain' + [tip'];
    PlanIsLine(d, files, history, chain, tip);
    PlanIsLine(d, files, history, chain', tip');
    forall i | 0 <= i < |states|
      ensures line[i] == line'[i]
    {
      LineUnique(states, d.main, line, line', i);
    }
    assert line == line';
    SnocInjective(chain, tip, chain', tip');
  }

  lemma SnocInjective(chain: seq<Sha>, tip: Sha, chain': seq<Sha>, tip': Sha)
    requires chain + [tip] == chain' + [tip']
    ensures chain == chain' && tip == tip'
  {
    assert (chain + [tip])[|chain|] == tip && (chain + [tip])[..|chain|] == chain;
    assert (chain' + [tip'])[|chain'|] == tip' && (chain' + [tip'])[..|chain'|] == chain';
  }

  /** A commit has the trees of the first i states down to base exactly when it is the i-th of the line. */
  lemma {:induction false} CommitsIff(states: seq<Files>, base: Option<Sha>, line: seq<Sha>, i: nat, c: Sha)
    requires IsLine(states, base, line) && 0 < i <= |states|
    ensures Commits(states[..i], base, c) <==> c == line[i - 1]
  {
    var k := i - 1;
    assert LineAt(states, base, line, k);
    assert states[..i][..k] == states[..k] && states[..i][k] == states[k];
    if k == 0 {
      if Commits(states[..i], base, c) {
        MintUnique(states[k], base, c, line[k]);
      }
    } else {
      CommitsIff(states, base, line, k, line[k - 1]);
      if Commits(states[..i], base, c) {
        CommitsIff(states, base, line, k, c.content.parents[0]);
        assert c.content.parents == [line[k - 1]];
        MintUnique(states[k], Some(line[k - 1]), c, line[k]);
      }
    }
  }

  /**
    From main to info/refs the commits on disk have the first trees that a refresh with these
    inputs would commit.
   */
  ghost predicate InfoRefsOnPlan(d: Disk, files: FileBytes, history: seq<Formula>) {
    var states := Planned(d, files, history);
    d.infoRefs.Some? && exists i :: 0 <= i <= |states| && Commits(states[..i], d.main, d.infoRefs.value)
  }

  lemma InfoRefsOnPlanIff(d: Disk, files: FileBytes, history: seq<Formula>, chain: seq<Sha>, tip: Sha)
    requires IsPlan(d, files, history, chain, tip) && d.infoRefs.Some?
    ensures InfoRefsOnPlan(d, files, history) <==> d.infoRefs == d.main || d.infoRefs.value in chain + [tip]
  {
    PlanIsLine(d, files, history, chain, tip);
    OnLineIff(Planned(d, files, history), d.main, chain + [tip], d.infoRefs.value);
  }

  /** The commits that have the first trees of a line on top of base are base and the line. */
  lemma OnLineIff(states: seq<Files>, base: Option<Sha>, line: seq<Sha>, c: Sha)
    requires IsLine(states, base, line)
    ensures (exists i :: 0 <= i <= |states| && Commits(states[..i], base, c)) <==> base == Some(c) || c in line
  {
    if i :| 0 <= i <= |states| && Commits(states[..i], base, c) {
      if i > 0 {
        CommitsIff(states, base, line, i, c);
      }
    }
    if base == Some(c) {
      assert Commits(states[..0], base, c);
    } else if c in line {
      var i :| 0 <= i < |line| && line[i] == c;
      CommitsIff(states, base, line, i + 1, c);
    }
  }

  lemma LineInHistory(objects: Store, d: Disk, files: FileBytes, history: seq<Formula>, chain: seq<Sha>, tip: Sha,
                      c: Sha)
    requires IsPlan(d, files, history, chain, tip) && OnDisk(objects, tip) && c in chain + [tip]
    ensures Ancestor(objects, tip, c)
  {
    if c == tip {
      AncestorSelf(objects, tip);
    } else {
      var i :| 0 <= i < |chain| && chain[i] == c;
      ChainInHistory(objects, d, files, history, chain, tip, i + 1);
      assert HeadOf(d.main, chain[..i + 1]) == Some(c);
    }
  }

  lemma InfoRefsInHistoryIff(d: Disk, files: FileBytes, history: seq<Formula>, chain: seq<Sha>, tip: Sha,
                             stage: Stage, d': Disk)
    requires Consistent(d) && d.infoRefs.Some? && stage != Objects
    requires IsPlan(d, files, history, chain, tip) && Stopped(d, files, history, tip, stage, d')
    ensures Ancestor(d'.objects, tip, d.infoRefs.value) <==> d.infoRefs == d.main || d.infoRefs.value in chain + [tip]
  {
    var c := d.infoRefs.value;
    OldTipInHistory(d, files, history, chain, tip, stage, d');
    if c in chain + [tip] {
      LineInHistory(d'.objects, d, files, history, chain, tip, c);
    } else if Ancestor(d'.objects, tip, c) {
      AncestorOfTip(d'.objects, d, files, history, chain, tip, c);
      AncestorGrows(d.objects, d'.objects, c, d.main.value);
      AncestorAntisymmetric(d'.objects, c, d.main.value);
    }
  }

  /**
    info/refs is written before refs/heads/main, and the next refresh builds on refs/heads/main.
    The commit info/refs named stays in the history of the commit the next refresh publishes
    exactly when the commits from main to it are the first ones that refresh would make. Both
    sides of the condition are read off the directory and the inputs before the refresh.
   */
  lemma InfoRefsForwardsIff(d: Disk, files: FileBytes, history: seq<Formula>, completed: bool, d': Disk)
    requires Consistent(d) && d.infoRefs.Some? && Refreshed(d, files, history, completed, d')
    ensures d'.infoRefs.Some?
    ensures d'.infoRefs == d.infoRefs ==> Ancestor(d'.objects, d'.infoRefs.value, d.infoRefs.value)
    ensures d'.infoRefs != d.infoRefs ==>
              (Ancestor(d'.objects, d'.infoRefs.value, d.infoRefs.value) <==> InfoRefsOnPlan(d, files, history))
  {
    AncestorSelf(d'.objects, d.infoRefs.value);
    if !IsUnchanged(d, files, history) {
      var chain, tip, stage :|
        IsPlan(d, files, history, chain, tip) && Stopped(d, files, history, tip, stage, d') && (completed <==>
              stage == Done);
      if stage != Objects {
        InfoRefsInHistoryIff(d, files, history, chain, tip, stage, d');
        InfoRefsOnPlanIff(d, files, history, chain, tip);
      }
    }
  }

  predicate RefsAgree(d: Disk) {
    d.infoRefs == d.main
  }

  lemma StepRefs(d: Disk, files: FileBytes, history: seq<Formula>, d': Disk)
    requires Refreshed(d, files, history, true, d')
    ensures RefsAgree(d') <==> !IsUnchanged(d, files, history) || RefsAgree(d)
  {
  }

  /** The i-th refresh of a run finds something to publish. */
  ghost predicate Publishes(disks: seq<Disk>, events: seq<Event>, i: nat)
    requires i < |disks| && i < |events|
  {
    !IsUnchanged(disks[i], events[i].files, events[i].history)
  }

  ghost predicate PublishesWithin(disks: seq<Disk>, events: seq<Event>, i: nat, j: nat)
    requires j <= |events| < |disks|
  {
    exists k :: i <= k < j && Publishes(disks, events, k)
  }

  /**
    While every refresh completes, two refs that agree go on agreeing, and two that a torn refresh
    left apart stay apart exactly until the first refresh that finds something to publish.
   */
  lemma {:induction false} RefsAgreeIff(disks: seq<Disk>, events: seq<Event>, i: nat, j: nat)
    requires IsRun(disks, events) && i <= j < |disks|
    requires forall k :: i <= k < j ==> events[k].completed
    ensures RefsAgree(disks[j]) <==> RefsAgree(disks[i]) || PublishesWithin(disks, events, i, j)
    decreases j
  {
    if i < j {
      var last := j - 1;
      RefsAgreeIff(disks, events, i, last);
      RunStepRefs(disks, events, last);
      MorePublished(disks, events, i, last);
    }
  }

  lemma RunStepRefs(disks: seq<Disk>, events: seq<Event>, i: nat)
    requires IsRun(disks, events) && i < |events| && events[i].completed
    ensures RefsAgree(disks[i + 1]) <==> Publishes(disks, events, i) || RefsAgree(disks[i])
  {
    StepRefs(disks[i], events[i].files, events[i].history, disks[i + 1]);
  }

  lemma MorePublished(disks: seq<Disk>, events: seq<Event>, i: nat, j: nat)
    requires i <= j < |events| && |events| < |disks|
    ensures PublishesWithin(disks, events, i, j + 1) <==>
              PublishesWithin(disks, events, i, j) || Publishes(disks, events, j)
  {
  }

  // ---- info/refs can go back ----

  /** The first commit of a tree. */
  function RootCommit(t: Sha): Sha {
    Sha(Commit(t, []))
  }

  /** The store holds a first commit of the files, whose tree is t. */
  ghost predicate HoldsFirst(store: Store, files: FileBytes, t: Sha) {
    TreeFor(BlobIds(files), t) && ContentAddressed(store) && OnDisk(store, RootCommit(t))
  }

  /** A new directory whose first refresh died between its two ref writes. */
  function TornDisk(t: Sha, store: Store): Disk {
    Disk(store, Some(RootCommit(t)), None, {})
  }

  lemma TornIsRefreshed(files: FileBytes, t: Sha, store: Store)
    requires HoldsFirst(store, files, t)
    ensures Refreshed(NewDirectory, files, [], false, TornDisk(t, store))
  {
    assert IsPlan(NewDirectory, files, [], [], RootCommit(t));
    assert Stopped(NewDirectory, files, [], RootCommit(t), InfoRefs, TornDisk(t, store));
  }

  function CurrentKeys(files: FileBytes): set<Formula> {
    set p | p in files :: Formula(p, files[p])
  }

  /** The same directory after a second refresh, of other files, completed. */
  function NextDisk(store: Store, files': FileBytes, t': Sha, store': Store): Disk {
    Disk(store + store', Some(RootCommit(t')), Some(RootCommit(t')), CurrentKeys(files'))
  }

  lemma UnionGrows(a: Store, b: Store)
    requires ContentAddressed(a) && ContentAddressed(b)
    ensures Grows(a, a + b) && Grows(b, a + b) && ContentAddressed(a + b)
  {
  }

  lemma NextIsStopped(t: Sha, store: Store, files': FileBytes, t': Sha, store': Store)
    requires ContentAddressed(store) && HoldsFirst(store', files', t')
    ensures IsPlan(TornDisk(t, store), files', [], [], RootCommit(t'))
    ensures Stopped(TornDisk(t, store), files', [], RootCommit(t'), Done, NextDisk(store, files', t', store'))
  {
    UnionGrows(store, store');
    OnDiskGrows(store', store + store', RootCommit(t'));
  }

  lemma NextIsCompleted(t: Sha, store: Store, files': FileBytes, t': Sha, store': Store)
    requires ContentAddressed(store) && HoldsFirst(store', files', t')
    ensures Refreshed(TornDisk(t, store), files', [], true, NextDisk(store, files', t', store'))
  {
    NextIsStopped(t, store, files', t', store');
    assert !IsUnchanged(TornDisk(t, store), files', []);
  }

  lemma OtherFilesOtherTree(files: FileBytes, files': FileBytes, t: Sha, t': Sha)
    requires files != files' && TreeFor(BlobIds(files), t) && TreeFor(BlobIds(files'), t')
    ensures t != t'
  {
    if t == t' {
      TreeInjective(BlobIds(files), BlobIds(files'), t);
      BlobIdsInjective(files, files');
    }
  }

  lemma BlobIdsInjective(files: FileBytes, files': FileBytes)
    requires BlobIds(files) == BlobIds(files')
    ensures files == files'
  {
    assert files.Keys == BlobIds(files).Keys && files'.Keys == BlobIds(files').Keys;
    forall p | p in files
      ensures files[p] == files'[p]
    {
      assert BlobIds(files)[p] == BlobIds(files')[p];
    }
  }

  /** The commit that info/refs first named is not in the next one's history. */
  lemma NextRewinds(files: FileBytes, t: Sha, store: Store, files': FileBytes, t': Sha, store': Store)
    requires files != files' && HoldsFirst(store, files, t) && HoldsFirst(store', files', t')
    ensures !Ancestor(store + store', RootCommit(t'), RootCommit(t))
  {
    TornIsRefreshed(files, t, store);
    RefreshKeeps(NewDirectory, files, [], false, TornDisk(t, store));
    NextIsStopped(t, store, files', t', store');
    OtherFilesOtherTree(files, files', t, t');
    InfoRefsInHistoryIff(TornDisk(t, store), files', [], [], RootCommit(t'), Done, NextDisk(store, files', t', store'));
  }

  /**
    Any two different contents of the tap: a first refresh that dies between the two ref writes,
    then one with the other content. The second publishes an info/refs commit whose history does
    not hold the first.
   */
  lemma InfoRefsCanRewind(files: FileBytes, t: Sha, store: Store, files': FileBytes, t': Sha, store': Store)
    returns (disks: seq<Disk>, events: seq<Event>)
    requires files != files' && HoldsFirst(store, files, t) && HoldsFirst(store', files', t')
    ensures IsRun(disks, events) && Rewinds(disks, events, files, files')
  {
    TornIsRefreshed(files, t, store);
    NextIsCompleted(t, store, files', t', store');
    NextRewinds(files, t, store, files', t', store');
    disks := [NewDirectory, TornDisk(t, store), NextDisk(store, files', t', store')];
    events := [Event(files, [], false), Event(files', [], true)];
    TwoRefreshes(NewDirectory, events[0], TornDisk(t, store), events[1], NextDisk(store, files', t', store'));
  }

  /** A refresh of files, then a completed one of files', after which info/refs has gone back. */
  ghost predicate Rewinds(disks: seq<Disk>, events: seq<Event>, files: FileBytes, files': FileBytes) {
    && |disks| == 3 && |events| == 2 && events[0].files == files && events[1].files == files' && events[1].completed
    && disks[1].infoRefs.Some? && disks[2].infoRefs.Some? && disks[2].main == disks[2].infoRefs
    && !Ancestor(disks[2].objects, disks[2].infoRefs.value, disks[1].infoRefs.value)
  }
}
