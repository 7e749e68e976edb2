/**
  The git object model of the generated tap.

  A sha stands for the object it names: `Sha(o)` is the id of object `o`. That is a
  collision-free hash, so two objects never share an id and one id has one kind. A
  store is still an arbitrary finite map, so a store may hold anything under an id.
 */
module GitObjects {

  type Byte = b: int | 0 <= b < 256
  type Bytes = seq<Byte>

  datatype Sha = Sha(content: Object)

  datatype Object =
    | Blob(data: Bytes)
    | Tree(entries: seq<TreeEntry>)
    | Commit(tree: Sha, parents: seq<Sha>)

  datatype TreeEntry = TreeEntry(name: string, isTree: bool, sha: Sha)

  type Store = map<Sha, Object>

  predicate IsCommit(store: Store, s: Sha) {
    s in store && store[s].Commit?
  }

  predicate IsTree(store: Store, s: Sha) {
    s in store && store[s].Tree?
  }

  predicate IsBlob(store: Store, s: Sha) {
    s in store && store[s].Blob?
  }

  /** p is a parent of the stored commit c. */
  predicate ParentOf(store: Store, c: Sha, p: Sha) {
    IsCommit(store, c) && p in store[c].parents
  }

  /** Some path of exactly n parent links leads from tip to x, and no commit on it before x is in have. */
  ghost predicate Steps(store: Store, have: set<Sha>, tip: Sha, n: nat, x: Sha) {
    if n == 0 then x == tip
    else
      exists y {:trigger ParentOf(store, y, x)} ::
        Steps(store, have, tip, n - 1, y) && y !in have && ParentOf(store, y, x)
  }

  /** a is c or an ancestor of c. */
  ghost predicate Ancestor(store: Store, c: Sha, a: Sha) {
    exists n: nat :: Steps(store, {}, c, n, a)
  }

  /** The stored tree t has an entry naming x. */
  predicate TreeRef(store: Store, t: Sha, x: Sha) {
    IsTree(store, t) && exists e :: e in store[t].entries && e.sha == x
  }

  /** x is n entry links below the tree root. */
  ghost predicate Below(store: Store, root: Sha, n: nat, x: Sha) {
    if n == 0 then x == root
    else exists y :: Below(store, root, n - 1, y) && TreeRef(store, y, x)
  }

  /** x is in the tree closure of root: root itself, or any tree or blob under it. */
  ghost predicate InTree(store: Store, root: Sha, x: Sha) {
    exists n: nat :: Below(store, root, n, x)
  }

  /** The entry's object is stored and has the kind its mode announces. */
  predicate EntryStored(store: Store, e: TreeEntry) {
    if e.isTree then IsTree(store, e.sha) else IsBlob(store, e.sha)
  }

  predicate EntriesStored(store: Store, t: Sha)
    requires IsTree(store, t)
  {
    forall e :: e in store[t].entries ==> EntryStored(store, e)
  }

  /** The whole closure of the tree root is stored. */
  ghost predicate TreeComplete(store: Store, root: Sha) {
    && IsTree(store, root)
    && forall t :: InTree(store, root, t) && IsTree(store, t) ==> EntriesStored(store, t)
  }

  /** The stored commit c has its whole tree. */
  ghost predicate CommitComplete(store: Store, c: Sha) {
    IsCommit(store, c) && TreeComplete(store, store[c].tree)
  }

  /** Every commit reachable from tip is stored with its whole tree. */
  ghost predicate HistoryComplete(store: Store, tip: Sha) {
    forall c :: Ancestor(store, tip, c) ==> CommitComplete(store, c)
  }

  lemma AncestorSelf(store: Store, c: Sha)
    ensures Ancestor(store, c, c)
  {
    assert Steps(store, {}, c, 0, c);
  }

  lemma AncestorParent(store: Store, c: Sha, a: Sha, p: Sha)
    requires Ancestor(store, c, a) && ParentOf(store, a, p)
    ensures Ancestor(store, c, p)
  {
    var n: nat :| Steps(store, {}, c, n, a);
    assert Steps(store, {}, c, n + 1, p);
  }

  /** Parent paths compose. */
  lemma {:induction false} StepsCompose(store: Store, c: Sha, m: nat, b: Sha, n: nat, a: Sha)
    requires Steps(store, {}, c, m, b) && Steps(store, {}, b, n, a)
    ensures Steps(store, {}, c, m + n, a)
    decreases n
  {
    if n > 0 {
      var y :| Steps(store, {}, b, n - 1, y) && ParentOf(store, y, a);
      StepsCompose(store, c, m, b, n - 1, y);
    }
  }

  lemma AncestorTransitive(store: Store, c: Sha, b: Sha, a: Sha)
    requires Ancestor(store, c, b) && Ancestor(store, b, a)
    ensures Ancestor(store, c, a)
  {
    var m: nat :| Steps(store, {}, c, m, b);
    var n: nat :| Steps(store, {}, b, n, a);
    StepsCompose(store, c, m, b, n, a);
  }

  /** Avoiding fewer commits leaves every path in place. */
  lemma {:induction false} StepsWeaken(store: Store, have: set<Sha>, tip: Sha, n: nat, x: Sha)
    requires Steps(store, have, tip, n, x)
    ensures Steps(store, {}, tip, n, x)
  {
    if n > 0 {
      var y :| Steps(store, have, tip, n - 1, y) && y !in have && ParentOf(store, y, x);
      StepsWeaken(store, have, tip, n - 1, y);
    }
  }

  /** Any path either avoids `have` all the way or passes a first `have` commit. */
  lemma {:induction false} StepsAvoidOrHit(store: Store, have: set<Sha>, tip: Sha, n: nat, x: Sha)
    requires Steps(store, {}, tip, n, x)
    ensures Steps(store, have, tip, n, x)
         || exists m: nat, h :: m < n && h in have && Steps(store, have, tip, m, h) && Ancestor(store, h, x)
  {
    if n > 0 {
      var y :| Steps(store, {}, tip, n - 1, y) && ParentOf(store, y, x);
      StepsAvoidOrHit(store, have, tip, n - 1, y);
      if Steps(store, have, tip, n - 1, y) {
        if y in have {
          AncestorSelf(store, y);
          AncestorParent(store, y, y, x);
          var m: nat := n - 1;
          assert m < n && y in have && Steps(store, have, tip, m, y) && Ancestor(store, y, x);
        }
      } else {
        var m: nat, h :| m < n - 1 && h in have && Steps(store, have, tip, m, h) && Ancestor(store, h, y);
        AncestorParent(store, h, y, x);
        assert m < n && h in have && Steps(store, have, tip, m, h) && Ancestor(store, h, x);
      }
    }
  }

  lemma InTreeSelf(store: Store, root: Sha)
    ensures InTree(store, root, root)
  {
    assert Below(store, root, 0, root);
  }

  lemma InTreeRef(store: Store, root: Sha, t: Sha, x: Sha)
    requires InTree(store, root, t) && TreeRef(store, t, x)
    ensures InTree(store, root, x)
  {
    var n: nat :| Below(store, root, n, t);
    assert Below(store, root, n + 1, x);
  }

  /** A set that holds root and every entry of each tree it holds contains the closure of root. */
  lemma {:induction false} ClosedSetHoldsTree(store: Store, root: Sha, s: set<Sha>, n: nat, x: Sha)
    requires root in s
    requires forall t, y :: t in s && TreeRef(store, t, y) ==> y in s
    requires Below(store, root, n, x)
    ensures x in s
  {
    if n > 0 {
      var y :| Below(store, root, n - 1, y) && TreeRef(store, y, x);
      ClosedSetHoldsTree(store, root, s, n - 1, y);
    }
  }

  // ---- content-addressed stores ----

  /** The id s and everything it names, down to the blobs, is stored under its own id with its announced kind. */
  predicate OnDisk(store: Store, s: Sha)
    decreases s
  {
    && s in store && store[s] == s.content
    && match s.content
       case Blob(_) => true
       case Tree(entries) =>
         forall e :: e in entries ==>
               OnDisk(store, e.sha) && (if e.isTree then e.sha.content.Tree? else e.sha.content.Blob?)
       case Commit(tree, parents) =>
         && tree.content.Tree? && OnDisk(store, tree)
         && forall p :: p in parents ==> p.content.Commit? && OnDisk(store, p)
  }

  /** Each object is stored under its own id. */
  predicate ContentAddressed(store: Store) {
    forall s :: s in store ==> store[s] == s.content
  }

  /** Adds an object under its id; an id already present is left alone. */
  function AddObject(store: Store, o: Object): (later: Store)
    ensures Grows(store, later) && Sha(o) in later
    ensures ContentAddressed(store) ==> ContentAddressed(later)
    ensures forall s :: s in later ==> s in store || s == Sha(o)
  {
    if Sha(o) in store then store else store[Sha(o) := o]
  }

  /** later holds all that store holds. */
  predicate Grows(store: Store, later: Store) {
    forall s :: s in store ==> s in later && later[s] == store[s]
  }

  /** A store only written by growing keeps every closure it had. */
  lemma {:induction false} OnDiskGrows(store: Store, later: Store, s: Sha)
    requires OnDisk(store, s) && Grows(store, later)
    ensures OnDisk(later, s)
    decreases s
  {
    match s.content
    case Blob(_) =>
    case Tree(entries) =>
      forall e | e in entries
        ensures OnDisk(later, e.sha)
      {
        OnDiskGrows(store, later, e.sha);
      }
    case Commit(tree, parents) =>
      OnDiskGrows(store, later, tree);
      forall p | p in parents
        ensures OnDisk(later, p)
      {
        OnDiskGrows(store, later, p);
      }
  }

  lemma {:induction false} OnDiskBelow(store: Store, root: Sha, n: nat, x: Sha)
    requires OnDisk(store, root) && root.content.Tree? && Below(store, root, n, x)
    ensures OnDisk(store, x) && !x.content.Commit?
  {
    if n > 0 {
      var y :| Below(store, root, n - 1, y) && TreeRef(store, y, x);
      OnDiskBelow(store, root, n - 1, y);
    }
  }

  lemma {:induction false} OnDiskAncestor(store: Store, c: Sha, n: nat, a: Sha)
    requires OnDisk(store, c) && c.content.Commit? && Steps(store, {}, c, n, a)
    ensures OnDisk(store, a) && a.content.Commit?
  {
    if n > 0 {
      var y :| Steps(store, {}, c, n - 1, y) && ParentOf(store, y, a);
      OnDiskAncestor(store, c, n - 1, y);
    }
  }

  /** A commit whose closure is on disk serves a complete history to any fetch. */
  lemma OnDiskComplete(store: Store, c: Sha)
    requires OnDisk(store, c) && c.content.Commit?
    ensures HistoryComplete(store, c)
  {
    forall a | Ancestor(store, c, a)
      ensures CommitComplete(store, a)
    {
      var n: nat :| Steps(store, {}, c, n, a);
      OnDiskAncestor(store, c, n, a);
      var root := store[a].tree;
      forall t | InTree(store, root, t) && IsTree(store, t)
        ensures EntriesStored(store, t)
      {
        var m: nat :| Below(store, root, m, t);
        OnDiskBelow(store, root, m, t);
      }
    }
  }

  /** Growing a store keeps every parent path. */
  lemma {:induction false} StepsGrow(store: Store, later: Store, c: Sha, n: nat, a: Sha)
    requires Grows(store, later) && Steps(store, {}, c, n, a)
    ensures Steps(later, {}, c, n, a)
  {
    if n > 0 {
      var y :| Steps(store, {}, c, n - 1, y) && ParentOf(store, y, a);
      StepsGrow(store, later, c, n - 1, y);
      assert ParentOf(later, y, a);
    }
  }

  lemma AncestorGrows(store: Store, later: Store, c: Sha, a: Sha)
    requires Grows(store, later) && Ancestor(store, c, a)
    ensures Ancestor(later, c, a)
  {
    var n: nat :| Steps(store, {}, c, n, a);
    StepsGrow(store, later, c, n, a);
  }

  /** Later writes add nothing under a complete tree. */
  lemma {:induction false} BelowSame(store: Store, later: Store, root: Sha, n: nat, x: Sha)
    requires Grows(store, later) && TreeComplete(store, root)
    ensures Below(later, root, n, x) <==> Below(store, root, n, x)
    ensures Below(store, root, n, x) ==> x in store
  {
    if n > 0 {
      forall y
        ensures Below(later, root, n - 1, y) <==> Below(store, root, n - 1, y)
        ensures Below(store, root, n - 1, y) ==> y in store
      {
        BelowSame(store, later, root, n - 1, y);
      }
      if Below(store, root, n, x) {
        var y :| Below(store, root, n - 1, y) && TreeRef(store, y, x);
        assert InTree(store, root, y) && EntriesStored(store, y);
        assert TreeRef(later, y, x);
      }
      if Below(later, root, n, x) {
        var y :| Below(later, root, n - 1, y) && TreeRef(later, y, x);
        assert TreeRef(store, y, x);
      }
    }
  }

  lemma InTreeSame(store: Store, later: Store, root: Sha, x: Sha)
    requires Grows(store, later) && TreeComplete(store, root)
    ensures InTree(later, root, x) <==> InTree(store, root, x)
    ensures InTree(store, root, x) ==> x in store
  {
    if InTree(later, root, x) {
      var n: nat :| Below(later, root, n, x);
      BelowSame(store, later, root, n, x);
    }
    if InTree(store, root, x) {
      var n: nat :| Below(store, root, n, x);
      BelowSame(store, later, root, n, x);
    }
  }

  lemma TreeCompleteGrows(store: Store, later: Store, root: Sha)
    requires Grows(store, later) && TreeComplete(store, root)
    ensures TreeComplete(later, root)
  {
    forall t | InTree(later, root, t) && IsTree(later, t)
      ensures EntriesStored(later, t)
    {
      InTreeSame(store, later, root, t);
      assert EntriesStored(store, t);
      forall e | e in later[t].entries
        ensures EntryStored(later, e)
      {
        assert EntryStored(store, e);
      }
    }
  }

  lemma CommitCompleteGrows(store: Store, later: Store, c: Sha)
    requires Grows(store, later) && CommitComplete(store, c)
    ensures CommitComplete(later, c)
  {
    TreeCompleteGrows(store, later, store[c].tree);
  }

  /** A path's first link. */
  lemma {:induction false} StepsFront(store: Store, c: Sha, n: nat, a: Sha) returns (p: Sha)
    requires n > 0 && Steps(store, {}, c, n, a)
    ensures ParentOf(store, c, p) && Steps(store, {}, p, n - 1, a)
  {
    var y :| Steps(store, {}, c, n - 1, y) && ParentOf(store, y, a);
    if n == 1 {
      p := a;
      assert Steps(store, {}, p, 0, a);
    } else {
      p := StepsFront(store, c, n - 1, y);
      var m: nat := n - 2;
      assert Steps(store, {}, p, m, y);
      assert Steps(store, {}, p, m + 1, a);
    }
  }

  /** The ancestors of c are c and the ancestors of its parents. */
  lemma AncestorCases(store: Store, c: Sha, a: Sha)
    requires Ancestor(store, c, a)
    ensures a == c || exists p :: ParentOf(store, c, p) && Ancestor(store, p, a)
  {
    var n: nat :| Steps(store, {}, c, n, a);
    if n > 0 {
      var p := StepsFront(store, c, n, a);
      assert ParentOf(store, c, p) && Ancestor(store, p, a);
    }
  }

  /** Later writes give a complete commit no new history. */
  lemma {:induction false} StepsShrink(store: Store, later: Store, c: Sha, n: nat, a: Sha)
    requires OnDisk(store, c) && c.content.Commit? && Grows(store, later) && Steps(later, {}, c, n, a)
    ensures Steps(store, {}, c, n, a)
  {
    if n > 0 {
      var y :| Steps(later, {}, c, n - 1, y) && ParentOf(later, y, a);
      StepsShrink(store, later, c, n - 1, y);
      OnDiskAncestor(store, c, n - 1, y);
      assert ParentOf(store, y, a);
    }
  }

  lemma AncestorShrinks(store: Store, later: Store, c: Sha, a: Sha)
    requires OnDisk(store, c) && c.content.Commit? && Grows(store, later) && Ancestor(later, c, a)
    ensures Ancestor(store, c, a)
  {
    var n: nat :| Steps(later, {}, c, n, a);
    StepsShrink(store, later, c, n, a);
  }

  /** The number of commits an id unfolds to; a parent unfolds to fewer. */
  ghost function Weight(s: Sha): nat {
    match s.content
    case Blob(_) => 0
    case Tree(_) => 0
    case Commit(_, parents) => 1 + TotalWeight(parents)
  }

  ghost function TotalWeight(parents: seq<Sha>): nat {
    if parents == [] then 0 else Weight(parents[0]) + TotalWeight(parents[1..])
  }

  lemma {:induction false} ParentWeight(parents: seq<Sha>, p: Sha)
    requires p in parents
    ensures Weight(p) <= TotalWeight(parents)
  {
    if parents[0] != p {
      ParentWeight(parents[1..], p);
    }
  }

  lemma {:induction false} AncestorWeight(store: Store, c: Sha, n: nat, a: Sha)
    requires ContentAddressed(store) && Steps(store, {}, c, n, a)
    ensures Weight(a) + n <= Weight(c)
  {
    if n > 0 {
      var y :| Steps(store, {}, c, n - 1, y) && ParentOf(store, y, a);
      AncestorWeight(store, c, n - 1, y);
      ParentWeight(y.content.parents, a);
    }
  }

  /** A content-addressed history has no cycle. */
  lemma AncestorAntisymmetric(store: Store, c: Sha, a: Sha)
    requires ContentAddressed(store) && Ancestor(store, c, a) && Ancestor(store, a, c)
    ensures a == c
  {
    var n: nat :| Steps(store, {}, c, n, a);
    var m: nat :| Steps(store, {}, a, m, c);
    AncestorWeight(store, c, n, a);
    AncestorWeight(store, a, m, c);
  }
}
