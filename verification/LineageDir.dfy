/**
  The refresh itself, as it works on a lineage directory: it gathers loose objects in memory,
  then writes files one by one. The budget is the number of writes before the process dies or
  a write fails; map iteration order is left open.
 */
module LineageDir {
  import opened Wrappers
  import opened GitObjects
  import opened TapTree
  import opened Lineage

  /** c and its tree are among the gathered objects. */
  ghost predicate MintStored(minted: Store, c: Sha) {
    c in minted && c.content.Commit? && c.content.tree.content.Tree? && OnDisk(minted, c.content.tree)
  }

  lemma MintStays(minted: Store, later: Store, c: Sha)
    requires MintStored(minted, c) && Grows(minted, later)
    ensures MintStored(later, c)
  {
    OnDiskGrows(minted, later, c.content.tree);
  }

  /** A gathered commit whose parent is on disk is on disk once the gathered objects are. */
  lemma MintOnDisk(minted: Store, store: Store, blobs: Files, parent: Option<Sha>, c: Sha)
    requires MintStored(minted, c) && IsMint(blobs, parent, c) && ContentAddressed(store)
    requires Grows(minted, store)
    requires parent.Some? ==> PublishedCommit(store, parent.value)
    ensures PublishedCommit(store, c)
  {
    OnDiskGrows(minted, store, c.content.tree);
  }

  /** The current files' blobs, added in any order. */
  method AddBlobs(files: FileBytes) returns (minted: Store, blobs: Files)
    ensures blobs == BlobIds(files)
    ensures ContentAddressed(minted) && BlobsOnDisk(minted, blobs)
  {
    minted, blobs := map[], map[];
    var todo := files.Keys;
    while todo != {}
      invariant todo <= files.Keys
      invariant forall p :: p in blobs <==> p in files && p !in todo
      invariant forall p {:trigger blobs[p]} :: p in blobs ==> blobs[p] == Sha(Blob(files[p]))
      invariant ContentAddressed(minted)
      invariant forall p {:trigger blobs[p]} :: p in blobs ==> blobs[p] in minted
      decreases |todo|
    {
      var p :| p in todo;
      minted := AddObject(minted, Blob(files[p]));
      blobs := blobs[p := Sha(Blob(files[p]))];
      todo := todo - {p};
    }
  }

  /** Adds the tree of blobs and a commit of it on top of parent. */
  method AddCommit(minted0: Store, blobs: Files, parent: Option<Sha>) returns (minted: Store, c: Sha)
    requires ContentAddressed(minted0) && BlobsOnDisk(minted0, blobs)
    ensures Grows(minted0, minted) && ContentAddressed(minted)
    ensures IsMint(blobs, parent, c) && MintStored(minted, c)
  {
    var trees, tree := BuildTree(minted0, blobs);
    c := Sha(Commit(tree, ParentList(parent)));
    minted := AddObject(trees, Commit(tree, ParentList(parent)));
    OnDiskGrows(trees, minted, tree);
  }

  lemma ChainSnoc(files: FileBytes, pending: seq<Formula>, base: Option<Sha>, chain: seq<Sha>, f: Formula, c: Sha)
    requires IsChain(files, pending, base, chain)
    requires IsMint(PastBlobs(files, f), HeadOf(base, chain), c)
    ensures IsChain(files, pending + [f], base, chain + [c])
  {
    var pending', chain' := pending + [f], chain + [c];
    forall i | 0 <= i < |chain'|
      ensures IsMint(PastBlobs(files, pending'[i]), HeadOf(base, chain'[..i]), chain'[i])
    {
      assert chain'[..i] == chain[..i];
      if i < |chain| {
        ChainAt(files, pending, base, chain, i);
      } else {
        assert chain[..i] == chain;
      }
    }
  }

  ghost predicate ChainStored(minted: Store, chain: seq<Sha>) {
    forall c :: c in chain ==> MintStored(minted, c)
  }

  lemma ChainStays(minted: Store, later: Store, chain: seq<Sha>, c: Sha)
    requires ChainStored(minted, chain) && Grows(minted, later) && MintStored(later, c)
    ensures ChainStored(later, chain + [c])
  {
    forall x | x in chain
      ensures MintStored(later, x)
    {
      MintStays(minted, later, x);
    }
  }

  /** The past state's blob joins the gathered ones. */
  lemma PastStored(minted: Store, later: Store, files: FileBytes, f: Formula)
    requires BlobsOnDisk(minted, BlobIds(files)) && ContentAddressed(later)
    requires Grows(minted, later) && Sha(Blob(f.data)) in later
    ensures BlobsOnDisk(later, PastBlobs(files, f))
  {
    forall p {:trigger PastBlobs(files, f)[p]} | p in PastBlobs(files, f)
      ensures OnDisk(later, PastBlobs(files, f)[p]) && PastBlobs(files, f)[p].content.Blob?
    {
      if p != f.path {
        assert PastBlobs(files, f)[p] == BlobIds(files)[p];
        OnDiskGrows(minted, later, BlobIds(files)[p]);
      }
    }
  }

  /** One past formula state, committed on top of head. */
  method AddPast(minted0: Store, current: Files, files: FileBytes, f: Formula, head: Option<Sha>)
    returns (minted: Store, c: Sha)
    requires current == BlobIds(files)
    requires ContentAddressed(minted0) && BlobsOnDisk(minted0, current)
    ensures Grows(minted0, minted) && ContentAddressed(minted) && BlobsOnDisk(minted, current)
    ensures IsMint(PastBlobs(files, f), head, c) && MintStored(minted, c)
  {
    var withBlob := AddObject(minted0, Blob(f.data));
    PastStored(minted0, withBlob, files, f);
    minted, c := AddCommit(withBlob, current[f.path := Sha(Blob(f.data))], head);
    BlobsStay(minted0, minted, current);
  }

  /** The chain so far: one stored commit for each pending state. */
  ghost predicate Gathered(minted: Store, files: FileBytes, pending: seq<Formula>, base: Option<Sha>,
                           head: Option<Sha>, chain: seq<Sha>) {
    IsChain(files, pending, base, chain) && head == HeadOf(base, chain) && ChainStored(minted, chain)
  }

  lemma GatheredSnoc(minted: Store, later: Store, files: FileBytes, pending: seq<Formula>, base: Option<Sha>,
                     head: Option<Sha>, chain: seq<Sha>, f: Formula, c: Sha)
    requires Gathered(minted, files, pending, base, head, chain) && Grows(minted, later)
    requires IsMint(PastBlobs(files, f), head, c) && MintStored(later, c)
    ensures Gathered(later, files, pending + [f], base, Some(c), chain + [c])
  {
    ChainSnoc(files, pending, base, chain, f, c);
    ChainStays(minted, later, chain, c);
  }

  /** What has been gathered so far: the current blobs, and a commit for each appended state. */
  ghost predicate HistoryDone(minted0: Store, files: FileBytes, base: Option<Sha>,
                              minted: Store, head: Option<Sha>, appended: seq<Formula>, chain: seq<Sha>) {
    && Grows(minted0, minted) && ContentAddressed(minted) && BlobsOnDisk(minted, BlobIds(files))
    && Gathered(minted, files, appended, base, head, chain)
  }

  lemma HistoryStart(minted0: Store, files: FileBytes, base: Option<Sha>)
    requires ContentAddressed(minted0) && BlobsOnDisk(minted0, BlobIds(files))
    ensures HistoryDone(minted0, files, base, minted0, base, [], [])
  {
  }

  lemma GrowsTwice(a: Store, b: Store, c: Store)
    requires Grows(a, b) && Grows(b, c)
    ensures Grows(a, c)
  {
  }

  /** The next state of the history: skipped when recorded or current, committed otherwise. */
  method AddState(ghost minted0: Store, current: Files, files: FileBytes, recorded: set<Formula>,
                  ghost base: Option<Sha>,
                  minted: Store, head: Option<Sha>, appended: seq<Formula>, ghost chain: seq<Sha>, f: Formula)
    returns (minted': Store, head': Option<Sha>, appended': seq<Formula>, ghost chain': seq<Sha>)
    requires current == BlobIds(files)
    requires HistoryDone(minted0, files, base, minted, head, appended, chain)
    ensures HistoryDone(minted0, files, base, minted', head', appended', chain')
    ensures appended' == appended + Needed(recorded, files, f)
  {
    if f in recorded || IsCurrent(files, f) {
      return minted, head, appended, chain;
    }
    var later, c := AddPast(minted, current, files, f, head);
    GrowsTwice(minted0, minted, later);
    GatheredSnoc(minted, later, files, appended, base, head, chain, f, c);
    return later, Some(c), appended + [f], chain + [c];
  }

  /** One commit for each formula state the lineage lacks, in history order. */
  method AddHistory(minted0: Store, current: Files, files: FileBytes, history: seq<Formula>, recorded: set<Formula>,
                    base: Option<Sha>)
    returns (minted: Store, head: Option<Sha>, appended: seq<Formula>, ghost chain: seq<Sha>)
    requires current == BlobIds(files)
    requires ContentAddressed(minted0) && BlobsOnDisk(minted0, current)
    ensures HistoryDone(minted0, files, base, minted, head, appended, chain)
    ensures appended == Pending(recorded, files, history)
  {
    minted, head, appended, chain := minted0, base, [], [];
    HistoryStart(minted0, files, base);
    var rest := history;
    while rest != []
      invariant HistoryDone(minted0, files, base, minted, head, appended, chain)
      invariant appended + Pending(recorded, files, rest) == Pending(recorded, files, history)
    {
      Reassociate(appended, Needed(recorded, files, rest[0]), Pending(recorded, files, rest[1..]));
      minted, head, appended, chain :=
        AddState(minted0, current, files, recorded, base, minted, head, appended, chain, rest[0]);
      rest := rest[1..];
    }
  }

  /** Once the gathered objects are on disk, so is the whole chain and the new tip. */
  lemma {:induction false} ChainOnDisk(minted: Store, store: Store, files: FileBytes, pending: seq<Formula>,
                                       base: Option<Sha>, chain: seq<Sha>, i: nat)
    requires IsChain(files, pending, base, chain) && ChainStored(minted, chain)
    requires ContentAddressed(store) && Grows(minted, store) && i <= |chain|
    requires base.Some? ==> PublishedCommit(store, base.value)
    ensures HeadOf(base, chain[..i]).Some? ==> PublishedCommit(store, HeadOf(base, chain[..i]).value)
  {
    if i > 0 {
      var k := i - 1;
      ChainOnDisk(minted, store, files, pending, base, chain, k);
      ChainAt(files, pending, base, chain, k);
      assert chain[k] in chain;
      MintOnDisk(minted, store, PastBlobs(files, pending[k]), HeadOf(base, chain[..k]), chain[k]);
      assert HeadOf(base, chain[..i]) == Some(chain[k]);
    }
  }

  /** Everything one refresh mints, gathered in memory. */
  method Mint(files: FileBytes, history: seq<Formula>, recorded: set<Formula>, tip: Option<Sha>)
    returns (minted: Store, commit: Sha, appended: seq<Formula>, ghost chain: seq<Sha>)
    ensures ContentAddressed(minted) && ChainStored(minted, chain) && MintStored(minted, commit)
    ensures appended == Pending(recorded, files, history) && IsChain(files, appended, tip, chain)
    ensures IsMint(BlobIds(files), HeadOf(tip, chain), commit)
  {
    var blobs, current := AddBlobs(files);
    var past, head;
    past, head, appended, chain := AddHistory(blobs, current, files, history, recorded, tip);
    minted, commit := AddCommit(past, current, head);
    forall c | c in chain
      ensures MintStored(minted, c)
    {
      MintStays(past, minted, c);
    }
  }

  lemma PlanOnDisk(d: Disk, files: FileBytes, history: seq<Formula>, chain: seq<Sha>, tip: Sha, minted: Store,
                   store: Store)
    requires Consistent(d) && IsPlan(d, files, history, chain, tip)
    requires ChainStored(minted, chain) && MintStored(minted, tip)
    requires Grows(d.objects, store) && Grows(minted, store) && ContentAddressed(store)
    ensures OnDisk(store, tip)
  {
    if d.main.Some? {
      OnDiskGrows(d.objects, store, d.main.value);
    }
    ChainOnDisk(minted, store, files, Pending(d.keys, files, history), d.main, chain, |chain|);
    assert chain[..|chain|] == chain;
    MintOnDisk(minted, store, BlobIds(files), HeadOf(d.main, chain), tip);
  }

  /** Every two different contents have a run in which info/refs goes back. */
  method RewindingRun(files: FileBytes, files': FileBytes) returns (ghost disks: seq<Disk>, ghost events: seq<Event>)
    requires files != files'
    ensures IsRun(disks, events) && Rewinds(disks, events, files, files')
  {
    var minted, commit, none, chain := Mint(files, [], {}, None);
    var minted', commit', none', chain' := Mint(files', [], {}, None);
    FirstMint(files, minted, commit, chain);
    FirstMint(files', minted', commit', chain');
    disks, events :=
      InfoRefsCanRewind(files, commit.content.tree, minted, files', commit'.content.tree, minted');
  }

  lemma FirstMint(files: FileBytes, minted: Store, commit: Sha, chain: seq<Sha>)
    requires ContentAddressed(minted) && ChainStored(minted, chain) && MintStored(minted, commit)
    requires IsPlan(NewDirectory, files, [], chain, commit)
    ensures HoldsFirst(minted, files, commit.content.tree) && commit == RootCommit(commit.content.tree)
  {
    PlanOnDisk(NewDirectory, files, [], chain, commit, minted, minted);
  }

  /** The recorded keys with the appended states and the current files' states. */
  method RecordKeys(recorded: set<Formula>, appended: seq<Formula>, files: FileBytes) returns (keys: set<Formula>)
    ensures forall f :: f in keys <==> f in recorded || f in appended || (f.path in files && files[f.path] == f.data)
  {
    keys := recorded;
    for i := 0 to |appended|
      invariant forall f :: f in keys <==> f in recorded || f in appended[..i]
    {
      keys := keys + {appended[i]};
    }
    assert appended[..|appended|] == appended;
    var todo := files.Keys;
    while todo != {}
      invariant todo <= files.Keys
      invariant forall f :: f in keys <==>
        f in recorded || f in appended || (f.path in files && f.path !in todo && files[f.path] == f.data)
      decreases |todo|
    {
      var p :| p in todo;
      keys := keys + {Formula(p, files[p])};
      todo := todo - {p};
    }
  }

  /** The directory a stopped refresh leaves is one of the protocol's stages. */
  lemma StageReached(d: Disk, files: FileBytes, history: seq<Formula>, chain: seq<Sha>, tip: Sha, completed: bool,
                     d': Disk)
    requires !IsUnchanged(d, files, history) && IsPlan(d, files, history, chain, tip)
    requires Grows(d.objects, d'.objects) && ContentAddressed(d'.objects)
    requires d'.infoRefs == d.infoRefs || (d'.infoRefs == Some(tip) && OnDisk(d'.objects, tip))
    requires d'.main == d.main || (d'.main == Some(tip) && d'.infoRefs == Some(tip) && OnDisk(d'.objects, tip))
    requires if completed then d'.main == Some(tip) && d'.infoRefs == Some(tip) && OnDisk(d'.objects, tip)
        && RecordedKeys(d, files, history, d'.keys)
             else d'.keys == d.keys
    ensures Refreshed(d, files, history, completed, d')
  {
    var stage :=
      if completed then Done
      else if d'.main != d.main then Main
      else if d'.infoRefs != d.infoRefs then InfoRefs
      else Objects;
    assert Stopped(d, files, history, tip, stage, d');
  }

  /** Comparing the gathered tree with the tip's decides whether anything changed. */
  lemma UnchangedIff(d: Disk, files: FileBytes, history: seq<Formula>, chain: seq<Sha>, tip: Sha)
    requires IsPlan(d, files, history, chain, tip)
    ensures IsUnchanged(d, files, history) <==>
              && Pending(d.keys, files, history) == [] && d.main.Some? && IsCommit(d.objects, d.main.value)
                && d.objects[d.main.value].tree == tip.content.tree
  {
    if IsUnchanged(d, files, history) {
      TreeUnique(BlobIds(files), d.objects[d.main.value].tree, tip.content.tree);
    }
  }

  class Directory {
    var objects: Store
    var infoRefs: Option<Sha>
    var main: Option<Sha>
    var keys: set<Formula>

    ghost function View(): Disk
      reads this
    {
      Disk(objects, infoRefs, main, keys)
    }

    ghost predicate Valid()
      reads this
    {
      Consistent(View())
    }

    constructor ()
      ensures View() == NewDirectory && Valid()
    {
      objects, infoRefs, main, keys := map[], None, None, {};
    }

    /** Writes the objects that are not there yet, in any order, until the budget runs out. */
    method WriteObjects(minted: Store, budget: nat) returns (left: Option<nat>)
      requires ContentAddressed(objects) && ContentAddressed(minted)
      modifies this`objects
      ensures Grows(old(objects), objects) && ContentAddressed(objects)
      ensures left.Some? ==> Grows(minted, objects)
    {
      var n := budget;
      var todo := minted.Keys;
      while todo != {}
        invariant todo <= minted.Keys
        invariant Grows(old(objects), objects) && ContentAddressed(objects)
        invariant forall s :: s in minted && s !in todo ==> s in objects
        decreases |todo|
      {
        var s :| s in todo;
        if s !in objects {
          if n == 0 {
            return None;
          }
          n := n - 1;
          objects := objects[s := minted[s]];
        }
        todo := todo - {s};
      }
      return Some(n);
    }

    /** HEAD and objects/info/packs first, then info/refs, then refs/heads/main. */
    method AdvanceTip(c: Sha, budget: nat) returns (left: Option<nat>)
      modifies this`infoRefs, this`main
      ensures left.Some? ==> infoRefs == Some(c) && main == Some(c)
      ensures left.None? ==> main == old(main) && (infoRefs == old(infoRefs) || infoRefs == Some(c))
    {
      if budget < 3 {
        return None;
      }
      infoRefs := Some(c);
      if budget < 4 {
        return None;
      }
      main := Some(c);
      return Some(budget - 4);
    }

    /** Recomputes the tap and advances the lineage; it may stop after any single file write. */
    method Refresh(files: FileBytes, history: seq<Formula>, budget: nat) returns (completed: bool)
      requires Valid()
      modifies this
      ensures Refreshed(old(View()), files, history, completed, View())
      ensures Valid()
    {
      ghost var d := View();
      var minted, commit, appended;
      ghost var chain;
      minted, commit, appended, chain := Mint(files, history, keys, main);
      assert IsPlan(d, files, history, chain, commit);
      UnchangedIff(d, files, history, chain, commit);
      if appended == [] && main.Some? && IsCommit(objects, main.value)
          && objects[main.value].tree == commit.content.tree {
        return true;
      }
      var left := WriteObjects(minted, budget);
      completed := false;
      if left.Some? {
        PlanOnDisk(d, files, history, chain, commit, minted, objects);
        left := AdvanceTip(commit, left.value);
        if left.Some? && left.value > 0 {
          keys := RecordKeys(keys, appended, files);
          completed := true;
        }
      }
      StageReached(d, files, history, chain, commit, completed, View());
      RefreshKeeps(d, files, history, completed, View());
    }
  }
}
