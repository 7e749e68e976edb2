/**
  The tap's tree builder: nested git trees from a flat path-to-blob map, entries in git's
  canonical order. Building visits paths and directories in no fixed order.
 */
module TapTree {
  import opened Wrappers
  import opened Strings
  import opened Sorting
  import opened GitObjects

  type Files = map<string, Sha>

  /** git compares a directory as if its name ended in a slash. */
  function SortKey(e: TreeEntry): string {
    if e.isTree then e.name + "/" else e.name
  }

  /** The byte git compares at place k of an entry's name: a directory's name ends in a slash, then nothing. */
  function ByteAt(e: TreeEntry, k: nat): int {
    if k < |e.name| then e.name[k] as int
    else if k == |e.name| && e.isTree then '/' as int
    else -1
  }

  /** git's order: at the first place where they differ, a has the smaller byte or has ended. */
  ghost predicate GitBefore(a: TreeEntry, b: TreeEntry) {
    exists k: nat :: ByteAt(a, k) < ByteAt(b, k) && forall j: nat :: j < k ==> ByteAt(a, j) == ByteAt(b, j)
  }

  lemma KeyByte(e: TreeEntry, k: nat)
    ensures ByteAt(e, k) == if k < |SortKey(e)| then SortKey(e)[k] as int else -1
  {
  }

  /** Comparing the sort keys is git's order. */
  lemma LessIsGitBefore(a: TreeEntry, b: TreeEntry)
    ensures Less(SortKey(a), SortKey(b)) <==> GitBefore(a, b)
  {
    var s, t := SortKey(a), SortKey(b);
    LessIff(s, t);
    if i :| DiffersAt(s, t, i) && (i == |s| || (i < |t| && s[i] < t[i])) {
      forall j: nat | j < i
        ensures ByteAt(a, j) == ByteAt(b, j)
      {
        KeyByte(a, j);
        KeyByte(b, j);
        assert s[..i][j] == t[..i][j];
      }
      KeyByte(a, i);
      KeyByte(b, i);
      assert ByteAt(a, i) < ByteAt(b, i);
    }
    if k: nat :| ByteAt(a, k) < ByteAt(b, k) && forall j: nat :: j < k ==> ByteAt(a, j) == ByteAt(b, j) {
      KeyBytes(a, k);
      KeyBytes(b, k);
      assert k < |t|;
      SameUpTo(a, b, k);
      assert DiffersAt(s, t, k);
    }
  }

  lemma SameUpTo(a: TreeEntry, b: TreeEntry, k: nat)
    requires k < |SortKey(b)| && forall j: nat :: j < k ==> ByteAt(a, j) == ByteAt(b, j)
    ensures k <= |SortKey(a)| && SortKey(a)[..k] == SortKey(b)[..k]
  {
    EndsFirst(a, b);
    KeyBytes(a, k);
    KeyBytes(b, k);
  }

  lemma EndsFirst(a: TreeEntry, b: TreeEntry)
    ensures |SortKey(a)| < |SortKey(b)| ==> ByteAt(a, |SortKey(a)|) != ByteAt(b, |SortKey(a)|)
  {
    KeyByte(a, |SortKey(a)|);
    KeyByte(b, |SortKey(a)|);
  }

  lemma KeyBytes(e: TreeEntry, k: nat)
    ensures forall j: nat :: j <= k ==> ByteAt(e, j) == if j < |SortKey(e)| then SortKey(e)[j] as int else -1
  {
    forall j: nat | j <= k
      ensures ByteAt(e, j) == if j < |SortKey(e)| then SortKey(e)[j] as int else -1
    {
      KeyByte(e, j);
    }
  }

  predicate Sorted(entries: seq<TreeEntry>) {
    forall i, j :: 0 <= i < j < |entries| ==> Less(SortKey(entries[i]), SortKey(entries[j]))
  }

  /** The paths of blobs below one directory, from there. */
  function Rests(blobs: Files, dir: string): (rests: set<string>)
    ensures forall r :: r in rests ==> '/' !in dir && Join(dir, r) in blobs
    ensures '/' !in dir ==> forall r :: Join(dir, r) in blobs ==> r in rests
  {
    var rests := set p | p in blobs && InDir(p, dir) :: Rest(p, dir);
    assert forall p :: p in blobs && InDir(p, dir) ==> Join(dir, Rest(p, dir)) == p;
    assert '/' !in dir ==> forall r :: InDir(Join(dir, r), dir) && Rest(Join(dir, r), dir) == r;
    rests
  }

  /** The files of blobs below one directory, by their path there. */
  function Sub(blobs: Files, dir: string): Files {
    map r | r in Rests(blobs, dir) :: blobs[Join(dir, r)]
  }

  /** An entry says what blobs has at its name: a file there, or a tree of the files below. */
  ghost predicate EntryFor(blobs: Files, e: TreeEntry)
    decreases e.sha, 1
  {
    if e.isTree then
      && '/' !in e.name && (exists p :: p in blobs && InDir(p, e.name))
      && TreeFor(Sub(blobs, e.name), e.sha)
    else
      !Nested(e.name) && e.name in blobs && blobs[e.name] == e.sha
  }

  /** e is the entry the path p goes through. */
  predicate Covers(e: TreeEntry, p: string) {
    if e.isTree then InDir(p, e.name) else e.name == p
  }

  /** t is the canonical tree of blobs. */
  ghost predicate TreeFor(blobs: Files, t: Sha)
    decreases t, 0
  {
    && t.content.Tree? && Sorted(t.content.entries)
    && (forall e :: e in t.content.entries ==> EntryFor(blobs, e))
    && (forall p {:trigger p in blobs} :: p in blobs ==> exists e :: e in t.content.entries && Covers(e, p))
  }

  /** The path below the tree t leads to the blob b: one entry name a level, joined by slashes. */
  ghost predicate HasFile(t: Sha, path: string, b: Sha)
    decreases t
  {
    && t.content.Tree?
    && exists e :: e in t.content.entries &&
        if e.isTree then InDir(path, e.name) && HasFile(e.sha, Rest(path, e.name), b)
        else e.name == path && e.sha == b
  }

  /** Flattening the canonical tree of a map gives back the map. */
  lemma {:induction false} FlattenBuild(blobs: Files, t: Sha, path: string, b: Sha)
    requires TreeFor(blobs, t)
    ensures HasFile(t, path, b) <==> path in blobs && blobs[path] == b
    decreases t
  {
    if HasFile(t, path, b) {
      var e :| e in t.content.entries &&
        if e.isTree then InDir(path, e.name) && HasFile(e.sha, Rest(path, e.name), b) else e.name == path && e.sha == b;
      assert EntryFor(blobs, e);
      if e.isTree {
        FlattenBuild(Sub(blobs, e.name), e.sha, Rest(path, e.name), b);
        JoinRest(path, e.name);
      }
    }
    if path in blobs && blobs[path] == b {
      var e :| e in t.content.entries && Covers(e, path);
      assert EntryFor(blobs, e);
      if e.isTree {
        JoinRest(path, e.name);
        FlattenBuild(Sub(blobs, e.name), e.sha, Rest(path, e.name), b);
      }
    }
  }

  /** Strictly sorted sequences with the same elements are the same sequence. */
  lemma {:induction false} SortedUnique(s: seq<TreeEntry>, t: seq<TreeEntry>)
    requires Sorted(s) && Sorted(t) && forall e :: e in s <==> e in t
    ensures s == t
    decreases |s|
  {
    if s == [] {
      NonEmptyHas(t);
    } else {
      assert s[0] in t;
      assert t[0] in s;
      var i :| 0 <= i < |t| && t[i] == s[0];
      var j :| 0 <= j < |s| && s[j] == t[0];
      if 0 < i && 0 < j {
        LessTransitive(SortKey(s[0]), SortKey(t[0]), SortKey(s[0]));
        LessIrreflexive(SortKey(s[0]));
      }
      assert s[0] == t[0];
      forall e
        ensures e in s[1..] <==> e in t[1..]
      {
        SortedTail(s, e);
        SortedTail(t, e);
      }
      SortedUnique(s[1..], t[1..]);
      assert s == [s[0]] + s[1..] && t == [t[0]] + t[1..];
    }
  }

  lemma SortedTail(s: seq<TreeEntry>, e: TreeEntry)
    requires s != [] && Sorted(s)
    ensures e in s[1..] <==> e in s && e != s[0]
  {
    LessIrreflexive(SortKey(s[0]));
    assert s == [s[0]] + s[1..];
  }

  /** A map has one canonical tree, whatever order built it. */
  lemma {:induction false} TreeUnique(blobs: Files, t: Sha, t': Sha)
    requires TreeFor(blobs, t) && TreeFor(blobs, t')
    ensures t == t'
    decreases t
  {
    forall e | e in t.content.entries
      ensures e in t'.content.entries
    {
      assert EntryFor(blobs, e);
      var p :| p in blobs && Covers(e, p);
      var e' :| e' in t'.content.entries && Covers(e', p);
      assert EntryFor(blobs, e');
      SameEntry(e, e', p);
      if e.isTree {
        TreeUnique(Sub(blobs, e.name), e.sha, e'.sha);
      }
    }
    forall e' | e' in t'.content.entries
      ensures e' in t.content.entries
    {
      assert EntryFor(blobs, e');
      var p :| p in blobs && Covers(e', p);
      var e :| e in t.content.entries && Covers(e, p);
      assert EntryFor(blobs, e);
      SameEntry(e, e', p);
      if e.isTree {
        TreeUnique(Sub(blobs, e.name), e.sha, e'.sha);
      }
    }
    SortedUnique(t.content.entries, t'.content.entries);
  }

  /** Two entries on the way to one path have one name and one kind. */
  lemma SameEntry(e: TreeEntry, e': TreeEntry, p: string)
    requires Covers(e, p) && Covers(e', p)
    requires !e.isTree ==> !Nested(e.name)
    requires !e'.isTree ==> !Nested(e'.name)
    ensures e.isTree == e'.isTree && e.name == e'.name
  {
    if e.isTree {
      DirUnique(p, e.name);
    }
    if e'.isTree {
      DirUnique(p, e'.name);
    }
  }

  /** Different maps have different trees. */
  lemma TreeInjective(blobs: Files, blobs': Files, t: Sha)
    requires TreeFor(blobs, t) && TreeFor(blobs', t)
    ensures blobs == blobs'
  {
    forall p | p in blobs
      ensures p in blobs' && blobs'[p] == blobs[p]
    {
      SameFile(blobs, blobs', t, p);
    }
    forall p | p in blobs'
      ensures p in blobs
    {
      SameFile(blobs', blobs, t, p);
    }
  }

  lemma SameFile(blobs: Files, blobs': Files, t: Sha, p: string)
    requires TreeFor(blobs, t) && TreeFor(blobs', t) && p in blobs
    ensures p in blobs' && blobs'[p] == blobs[p]
  {
    FlattenBuild(blobs, t, p, blobs[p]);
    FlattenBuild(blobs', t, p, blobs[p]);
  }

  // ---- building ----

  /** No two entries share a sort key. */
  ghost predicate DistinctKeys(entries: seq<TreeEntry>) {
    NoDup(entries) && forall e, e' :: e in entries && e' in entries && SortKey(e) == SortKey(e') ==> e == e'
  }

  /** Entries in canonical order. */
  function SortEntries(entries: seq<TreeEntry>): (r: seq<TreeEntry>)
    requires DistinctKeys(entries)
    ensures Sorted(r) && forall e :: e in r <==> e in entries
  {
    assert DistinctBy(SortKey, entries);
    SortDistinct(SortKey, entries);
    SortBy(SortKey, entries)
  }

  /** The entries of the files that lie directly in the tree, except those still to visit. */
  ghost predicate FileEntries(blobs: Files, entries: seq<TreeEntry>, todo: set<string>) {
    && (forall e :: e in entries ==>
          !e.isTree && !Nested(e.name) && e.name in blobs && blobs[e.name] == e.sha && e.name !in todo)
    && (forall p {:trigger p in blobs} :: p in blobs && p !in todo && !Nested(p) ==>
          TreeEntry(p, false, blobs[p]) in entries)
    && NoDup(entries)
  }

  /** The nested files grouped by their first directory, except those still to visit. */
  ghost predicate Grouped(blobs: Files, subdirs: map<string, Files>, todo: set<string>) {
    && (forall d :: d in subdirs ==> '/' !in d && subdirs[d] != map[])
    && (forall d, r {:trigger Join(d, r)} :: d in subdirs && r in subdirs[d] ==>
          Join(d, r) in blobs && Join(d, r) !in todo && subdirs[d][r] == blobs[Join(d, r)])
    && (forall p {:trigger p in blobs} :: p in blobs && p !in todo && Nested(p) ==>
          var d := p[..IndexOf(p, '/')]; InDir(p, d) && d in subdirs && Rest(p, d) in subdirs[d])
  }

  lemma GroupOne(blobs: Files, subdirs: map<string, Files>, todo: set<string>, p: string, sub: Files)
    requires Grouped(blobs, subdirs, todo) && p in todo && p in blobs && Nested(p)
    requires sub == if p[..IndexOf(p, '/')] in subdirs then subdirs[p[..IndexOf(p, '/')]] else map[]
    ensures InDir(p, p[..IndexOf(p, '/')])
    ensures Grouped(blobs, subdirs[p[..IndexOf(p, '/')] := sub[Rest(p, p[..IndexOf(p, '/')]) := blobs[p]]], todo - {p})
  {
    NestedInDir(p);
    var d := p[..IndexOf(p, '/')];
    JoinRest(p, d);
    var sub' := sub[Rest(p, d) := blobs[p]];
    var subdirs' := subdirs[d := sub'];
    assert Rest(p, d) in sub';
    forall d', r {:trigger Join(d', r)} | d' in subdirs' && r in subdirs'[d']
      ensures Join(d', r) in blobs && Join(d', r) !in todo - {p} && subdirs'[d'][r] == blobs[Join(d', r)]
    {
      if d' != d || r != Rest(p, d) {
        assert d' in subdirs && r in subdirs[d'] && subdirs'[d'][r] == subdirs[d'][r];
      }
    }
  }

  /** Splits the paths at their first slash, in any order. */
  method SplitPaths(blobs: Files) returns (entries: seq<TreeEntry>, subdirs: map<string, Files>)
    ensures FileEntries(blobs, entries, {})
    ensures Grouped(blobs, subdirs, {})
  {
    entries, subdirs := [], map[];
    var todo := blobs.Keys;
    while todo != {}
      invariant todo <= blobs.Keys
      invariant FileEntries(blobs, entries, todo)
      invariant Grouped(blobs, subdirs, todo)
      decreases |todo|
    {
      var p :| p in todo;
      if !Nested(p) {
        assert forall d, r {:trigger Join(d, r)} :: Nested(Join(d, r)) by {
          assert forall d, r {:trigger Join(d, r)} :: Join(d, r)[|d|] == '/';
        }
        entries := entries + [TreeEntry(p, false, blobs[p])];
      } else {
        var d := p[..IndexOf(p, '/')];
        var sub := if d in subdirs then subdirs[d] else map[];
        GroupOne(blobs, subdirs, todo, p, sub);
        subdirs := subdirs[d := sub[Rest(p, d) := blobs[p]]];
      }
      todo := todo - {p};
    }
  }

  lemma GroupedIsSub(blobs: Files, subdirs: map<string, Files>, d: string)
    requires Grouped(blobs, subdirs, {}) && d in subdirs
    ensures subdirs[d] == Sub(blobs, d) && exists p :: p in blobs && InDir(p, d)
  {
    forall r
      ensures r in subdirs[d] <==> r in Sub(blobs, d)
    {
      RestJoin(d, r);
      if Join(d, r) in blobs {
        DirUnique(Join(d, r), d);
      }
    }
    var r :| r in subdirs[d];
    RestJoin(d, r);
    assert Join(d, r) in blobs && InDir(Join(d, r), d);
  }

  /** The length of the longest path; it shrinks from a map to each of its directories. */
  ghost function Longest(paths: set<string>): (n: nat)
    ensures forall p :: p in paths ==> |p| <= n
    ensures paths != {} ==> exists p :: p in paths && |p| == n
  {
    if paths == {} then 0
    else
      var p :| p in paths;
      var n := Longest(paths - {p});
      if n < |p| then |p| else n
  }

  lemma LongestShrinks(blobs: Files, dir: string)
    requires exists p :: p in blobs && InDir(p, dir)
    ensures Longest(Sub(blobs, dir).Keys) < Longest(blobs.Keys)
  {
    var p :| p in blobs && InDir(p, dir);
    JoinRest(p, dir);
    var sub := Sub(blobs, dir);
    assert Rest(p, dir) in sub;
    var r :| r in sub.Keys && |r| == Longest(sub.Keys);
    assert Join(dir, r) in blobs.Keys;
  }

  /** The entries gathered so far: the files, and a canonical tree for each directory not still to visit. */
  ghost predicate Gathered(blobs: Files, subdirs: map<string, Files>, entries: seq<TreeEntry>, todo: set<string>) {
    && (forall e :: e in entries ==> EntryFor(blobs, e) && (e.isTree ==> e.name !in todo))
    && (forall p {:trigger p in blobs} :: p in blobs && !Nested(p) ==> TreeEntry(p, false, blobs[p]) in entries)
    && (forall d :: d in subdirs && d !in todo ==> exists e :: e in entries && e.isTree && e.name == d)
    && DistinctKeys(entries)
  }

  lemma GatherFiles(blobs: Files, subdirs: map<string, Files>, entries: seq<TreeEntry>)
    requires FileEntries(blobs, entries, {})
    ensures Gathered(blobs, subdirs, entries, subdirs.Keys)
  {
  }

  /** A directory's key is no file's key and no other directory's. */
  lemma KeysApart(o: TreeEntry, d: string)
    requires if o.isTree then o.name != d else !Nested(o.name)
    ensures SortKey(o) != d + "/"
  {
    var key := d + "/";
    assert key[|d|] in key;
    assert key[..|d|] == d;
    assert (o.name + "/")[..|o.name|] == o.name;
  }

  lemma GatherDir(blobs: Files, subdirs: map<string, Files>, entries: seq<TreeEntry>, todo: set<string>, d: string,
                  t: Sha)
    requires Gathered(blobs, subdirs, entries, todo) && d in todo
    requires EntryFor(blobs, TreeEntry(d, true, t))
    ensures Gathered(blobs, subdirs, entries + [TreeEntry(d, true, t)], todo - {d})
  {
    var e := TreeEntry(d, true, t);
    var all := entries + [e];
    forall o | o in entries
      ensures SortKey(o) != SortKey(e)
    {
      assert EntryFor(blobs, o);
      KeysApart(o, d);
    }
    assert e in all;
    forall d' | d' in subdirs && d' !in todo - {d}
      ensures exists e' :: e' in all && e'.isTree && e'.name == d'
    {
      if d' != d {
        var e' :| e' in entries && e'.isTree && e'.name == d';
        assert e' in all;
      }
    }
  }

  /** Once every directory is gathered, the sorted entries are the canonical tree. */
  lemma GatheredIsTree(blobs: Files, subdirs: map<string, Files>, entries: seq<TreeEntry>, sorted: seq<TreeEntry>)
    requires Grouped(blobs, subdirs, {}) && Gathered(blobs, subdirs, entries, {})
    requires Sorted(sorted) && forall e :: e in sorted <==> e in entries
    ensures TreeFor(blobs, Sha(Tree(sorted)))
  {
    forall p | p in blobs
      ensures exists e :: e in sorted && Covers(e, p)
    {
      if Nested(p) {
        NestedInDir(p);
        var d := p[..IndexOf(p, '/')];
        assert d in subdirs;
        var e :| e in entries && e.isTree && e.name == d;
        assert e in sorted && Covers(e, p);
      } else {
        var e := TreeEntry(p, false, blobs[p]);
        assert e in sorted && Covers(e, p);
      }
    }
  }

  /** The blobs a tree is built over are stored. */
  ghost predicate BlobsOnDisk(objects: Store, blobs: Files) {
    forall p {:trigger blobs[p]} :: p in blobs ==> OnDisk(objects, blobs[p]) && blobs[p].content.Blob?
  }

  /** Every entry's object is stored with its announced kind. */
  ghost predicate EntriesOnDisk(objects: Store, entries: seq<TreeEntry>) {
    forall e :: e in entries ==>
          OnDisk(objects, e.sha) && (if e.isTree then e.sha.content.Tree? else e.sha.content.Blob?)
  }

  lemma EntriesStay(objects: Store, later: Store, entries: seq<TreeEntry>, e: TreeEntry)
    requires EntriesOnDisk(objects, entries) && Grows(objects, later)
    requires OnDisk(later, e.sha) && e.isTree && e.sha.content.Tree?
    ensures EntriesOnDisk(later, entries + [e])
  {
    forall o | o in entries + [e]
      ensures OnDisk(later, o.sha) && (if o.isTree then o.sha.content.Tree? else o.sha.content.Blob?)
    {
      if o in entries {
        OnDiskGrows(objects, later, o.sha);
      }
    }
  }

  lemma BlobsStay(objects: Store, later: Store, blobs: Files)
    requires BlobsOnDisk(objects, blobs) && Grows(objects, later)
    ensures BlobsOnDisk(later, blobs) && forall dir :: BlobsOnDisk(later, Sub(blobs, dir))
  {
    forall p | p in blobs
      ensures OnDisk(later, blobs[p]) && blobs[p].content.Blob?
    {
      OnDiskGrows(objects, later, blobs[p]);
    }
  }

  /**
    Builds the canonical tree of blobs at any depth and adds its trees to objects, visiting
    the paths and the directories in no fixed order.
   */
  method BuildTree(objects0: Store, blobs: Files) returns (objects: Store, t: Sha)
    requires ContentAddressed(objects0)
    ensures TreeFor(blobs, t)
    ensures Grows(objects0, objects) && ContentAddressed(objects)
    ensures BlobsOnDisk(objects0, blobs) ==> OnDisk(objects, t)
    decreases Longest(blobs.Keys)
  {
    objects := objects0;
    var entries, subdirs := SplitPaths(blobs);
    GatherFiles(blobs, subdirs, entries);
    ghost var good := BlobsOnDisk(objects0, blobs);
    var todo := subdirs.Keys;
    while todo != {}
      invariant todo <= subdirs.Keys
      invariant Grows(objects0, objects) && ContentAddressed(objects)
      invariant Gathered(blobs, subdirs, entries, todo)
      invariant good ==> EntriesOnDisk(objects, entries)
      decreases |todo|
    {
      var d :| d in todo;
      GroupedIsSub(blobs, subdirs, d);
      LongestShrinks(blobs, d);
      if good {
        BlobsStay(objects0, objects, blobs);
      }
      var later, sub := BuildTree(objects, subdirs[d]);
      var e := TreeEntry(d, true, sub);
      assert EntryFor(blobs, e);
      if good {
        EntriesStay(objects, later, entries, e);
      }
      GatherDir(blobs, subdirs, entries, todo, d, sub);
      objects, entries, todo := later, entries + [e], todo - {d};
    }
    var sorted := SortEntries(entries);
    GatheredIsTree(blobs, subdirs, entries, sorted);
    objects, t := StoreTree(objects, sorted);
  }

  method StoreTree(objects0: Store, entries: seq<TreeEntry>) returns (objects: Store, t: Sha)
    requires ContentAddressed(objects0)
    ensures t == Sha(Tree(entries)) && Grows(objects0, objects) && ContentAddressed(objects)
    ensures EntriesOnDisk(objects0, entries) ==> OnDisk(objects, t)
  {
    t := Sha(Tree(entries));
    objects := AddObject(objects0, Tree(entries));
    if EntriesOnDisk(objects0, entries) {
      forall e | e in entries
        ensures OnDisk(objects, e.sha)
      {
        OnDiskGrows(objects0, objects, e.sha);
      }
    }
  }
}
