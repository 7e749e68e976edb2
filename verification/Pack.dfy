/**
  The object list of a fetch's pack: every walked commit, then the tree closure of each,
  minus the tree closures of the boundary commits the client already holds.
 */
module Pack {
  import opened Wrappers
  import opened GitObjects

  /** The id whose object is missing or has the wrong kind. */
  datatype PackError = BadObject(sha: Sha)

  /** Some entry of the given kind names x. */
  ghost predicate Names(entries: seq<TreeEntry>, isTree: bool, x: Sha) {
    exists e :: e in entries && e.isTree == isTree && e.sha == x
  }

  /** Whatever a tree in seen names is in seen or on the stack. */
  ghost predicate ClosedBut(store: Store, seen: set<Sha>, stack: seq<Sha>) {
    forall t, y {:trigger TreeRef(store, t, y)} :: t in seen && TreeRef(store, t, y) ==> y in seen || y in stack
  }

  ghost predicate TreeClosed(store: Store, seen: set<Sha>) {
    ClosedBut(store, seen, [])
  }

  ghost predicate AllUnder(store: Store, root: Sha, s: seq<Sha>) {
    forall x {:trigger InTree(store, root, x)} :: x in s ==> InTree(store, root, x) && IsTree(store, x)
  }

  lemma ClosedHoldsTree(store: Store, root: Sha, seen: set<Sha>, x: Sha)
    requires TreeClosed(store, seen) && root in seen && InTree(store, root, x)
    ensures x in seen
  {
    var n: nat :| Below(store, root, n, x);
    ClosedSetHoldsTree(store, root, seen, n, x);
  }

  /** In a complete tree whatever a reached tree names is reached, stored and of its announced kind. */
  lemma EntryUnder(store: Store, root: Sha, t: Sha, e: TreeEntry)
    requires TreeComplete(store, root) && InTree(store, root, t) && IsTree(store, t) && e in store[t].entries
    ensures InTree(store, root, e.sha) && EntryStored(store, e)
  {
    assert TreeRef(store, t, e.sha);
    InTreeRef(store, root, t, e.sha);
  }

  /** A complete tree's closure holds only trees and blobs. */
  lemma UnderIsTreeOrBlob(store: Store, root: Sha, x: Sha)
    requires TreeComplete(store, root) && InTree(store, root, x)
    ensures IsTree(store, x) || IsBlob(store, x)
  {
    var n: nat :| Below(store, root, n, x);
    if n > 0 {
      var t :| Below(store, root, n - 1, t) && TreeRef(store, t, x);
      var m: nat := n - 1;
      assert Below(store, root, m, t);
      var e :| e in store[t].entries && e.sha == x;
      EntryUnder(store, root, t, e);
    }
  }

  // ---- marking what the client holds ----

  method MarkEntries(entries: seq<TreeEntry>, seen0: set<Sha>, stack0: seq<Sha>)
    returns (seen: set<Sha>, stack: seq<Sha>)
    ensures forall x :: x in seen <==> x in seen0 || Names(entries, false, x)
    ensures forall x :: x in stack <==> x in stack0 || Names(entries, true, x)
  {
    seen, stack := seen0, stack0;
    for i := 0 to |entries|
      invariant forall x :: x in seen <==> x in seen0 || Names(entries[..i], false, x)
      invariant forall x :: x in stack <==> x in stack0 || Names(entries[..i], true, x)
    {
      var e := entries[i];
      NamesNext(entries, i);
      if e.isTree {
        stack := stack + [e.sha];
      } else {
        seen := seen + {e.sha};
      }
    }
    assert entries[..|entries|] == entries;
  }

  lemma NamesNext(entries: seq<TreeEntry>, i: nat)
    requires i < |entries|
    ensures forall b, x :: Names(entries[..i + 1], b, x) <==>
              Names(entries[..i], b, x) || (entries[i].isTree == b && entries[i].sha == x)
  {
    assert entries[..i + 1] == entries[..i] + [entries[i]];
    forall b, x
      ensures Names(entries[..i + 1], b, x) <==>
              Names(entries[..i], b, x) || (entries[i].isTree == b && entries[i].sha == x)
    {
      if Names(entries[..i], b, x) {
        var e :| e in entries[..i] && e.isTree == b && e.sha == x;
        assert e in entries[..i + 1];
      }
      if entries[i].isTree == b && entries[i].sha == x {
        assert entries[i] in entries[..i + 1];
      }
    }
  }

  /** One more tree read: its blobs are seen, and its subtrees are seen or stacked. */
  lemma MarkStep(store: Store, root: Sha, seen0: set<Sha>, stack0: seq<Sha>, t: Sha, seen: set<Sha>, stack: seq<Sha>)
    requires TreeComplete(store, root) && InTree(store, root, t) && IsTree(store, t)
    requires ClosedBut(store, seen0, stack0 + [t]) && AllUnder(store, root, stack0)
    requires forall x :: x in seen <==> x in seen0 || x == t || Names(store[t].entries, false, x)
    requires forall x :: x in stack0 ==> x in stack
    requires forall x :: x in stack ==> x in stack0 || Names(store[t].entries, true, x)
    requires forall x :: Names(store[t].entries, true, x) ==> x in seen || x in stack
    ensures ClosedBut(store, seen, stack) && AllUnder(store, root, stack)
    ensures forall x :: x in seen ==> x in seen0 || InTree(store, root, x)
  {
    forall q | Names(store[t].entries, false, q)
      ensures !IsTree(store, q)
    {
      var e :| e in store[t].entries && !e.isTree && e.sha == q;
      EntryUnder(store, root, t, e);
    }
    forall q, y | q in seen && TreeRef(store, q, y)
      ensures y in seen || y in stack
    {
      if q == t {
        var e :| e in store[t].entries && e.sha == y;
        assert Names(store[t].entries, e.isTree, y);
      }
    }
    forall x | x in stack
      ensures InTree(store, root, x) && IsTree(store, x)
    {
      if x !in stack0 {
        var e :| e in store[t].entries && e.isTree && e.sha == x;
        EntryUnder(store, root, t, e);
      }
    }
    forall x | x in seen
      ensures x in seen0 || InTree(store, root, x)
    {
      if x !in seen0 && x != t {
        var e :| e in store[t].entries && !e.isTree && e.sha == x;
        EntryUnder(store, root, t, e);
      }
    }
  }

  /**
    Adds the tree of a commit and everything under it to seen. When the commit and its tree
    are complete and seen held whole closures, the result is exactly that union.
   */
  method MarkTreeClosure(store: Store, commit: Sha, seen0: set<Sha>) returns (r: Result<set<Sha>, PackError>)
    ensures CommitComplete(store, commit) && TreeClosed(store, seen0) ==>
              r.Ok? && TreeClosed(store, r.value)
              && forall x :: x in r.value <==> x in seen0 || InTree(store, store[commit].tree, x)
  {
    if !IsCommit(store, commit) {
      return Err(BadObject(commit));
    }
    var root := store[commit].tree;
    ghost var good := CommitComplete(store, commit) && TreeClosed(store, seen0);
    var seen, stack := seen0, [root];
    ghost var read: set<Sha> := {};
    InTreeSelf(store, root);
    while |stack| > 0
      invariant read <= store.Keys && forall x :: x in read ==> x in seen
      invariant good ==> ClosedBut(store, seen, stack) && AllUnder(store, root, stack)
      invariant good ==> forall x {:trigger InTree(store, root, x)} :: x in seen && x !in seen0 ==>
              InTree(store, root, x)
      invariant forall x :: x in seen0 ==> x in seen
      invariant root in seen || root in stack
      decreases |store.Keys| - |read|, |stack|
    {
      var t := stack[|stack| - 1];
      ghost var before := stack;
      stack := stack[..|stack| - 1];
      assert before == stack + [t];
      SubsetSize(read, store.Keys);
      assert good ==> t in before && InTree(store, root, t);
      if t !in seen {
        if !IsTree(store, t) {
          return Err(BadObject(t));
        }
        ghost var seen1, stack1 := seen, stack;
        read := read + {t};
        SubsetSize(read, store.Keys);
        seen := seen + {t};
        seen, stack := MarkEntries(store[t].entries, seen, stack);
        if good {
          MarkStep(store, root, seen1, stack1, t, seen, stack);
        }
      }
    }
    if good {
      forall x
        ensures x in seen <==> x in seen0 || InTree(store, root, x)
      {
        if InTree(store, root, x) {
          ClosedHoldsTree(store, root, seen, x);
        }
      }
    }
    return Ok(seen);
  }

  // ---- collecting what the pack carries ----

  /** seen is what was marked and what was listed, and nothing is listed twice or after being marked. */
  ghost predicate CollectInv(marked: set<Sha>, seen: set<Sha>, entries: seq<Sha>) {
    && NoDup(entries)
    && (forall x :: x in seen <==> x in marked || x in entries)
    && (forall x :: x in entries ==> x !in marked)
  }

  lemma CollectAdd(marked: set<Sha>, seen: set<Sha>, entries: seq<Sha>, x: Sha)
    requires CollectInv(marked, seen, entries) && x !in seen
    ensures CollectInv(marked, seen + {x}, entries + [x])
  {
  }

  /**
    The entries of one listed tree: an unseen subtree is stacked, an unseen blob is listed once it
    is known to exist.
   */
  method CollectRefs(store: Store, refs: seq<TreeEntry>, seen0: set<Sha>, stack0: seq<Sha>, entries0: seq<Sha>,
                     ghost marked: set<Sha>)
    returns (missing: Option<Sha>, seen: set<Sha>, stack: seq<Sha>, entries: seq<Sha>)
    ensures missing.Some? ==> exists e :: e in refs && !e.isTree && e.sha !in store
    ensures missing.None? ==>
      && (CollectInv(marked, seen0, entries0) ==> CollectInv(marked, seen, entries))
      && (forall x :: x in seen <==> x in seen0 || Names(refs, false, x))
      && (forall x :: x in stack0 ==> x in stack)
      && (forall x :: x in stack ==> x in stack0 || Names(refs, true, x))
      && (forall x :: Names(refs, true, x) ==> x in seen || x in stack)
  {
    seen, stack, entries, missing := seen0, stack0, entries0, None;
    ghost var tidy := CollectInv(marked, seen0, entries0);
    for i := 0 to |refs|
      invariant tidy ==> CollectInv(marked, seen, entries)
      invariant forall x :: x in seen <==> x in seen0 || Names(refs[..i], false, x)
      invariant forall x :: x in stack0 ==> x in stack
      invariant forall x :: x in stack ==> x in stack0 || Names(refs[..i], true, x)
      invariant forall x :: Names(refs[..i], true, x) ==> x in seen || x in stack
    {
      var e := refs[i];
      NamesNext(refs, i);
      if e.sha !in seen {
        if e.isTree {
          stack := stack + [e.sha];
        } else if e.sha !in store {
          missing := Some(e.sha);
          return;
        } else {
          if tidy {
            CollectAdd(marked, seen, entries, e.sha);
          }
          seen, entries := seen + {e.sha}, entries + [e.sha];
        }
      } else if !e.isTree {
        assert e.sha in seen0 || Names(refs[..i], false, e.sha);
      }
    }
    assert refs[..|refs|] == refs;
  }

  /** Lists the unseen part of one tree closure. */
  method CollectTree(store: Store, root: Sha, seen0: set<Sha>, entries0: seq<Sha>, ghost marked: set<Sha>)
    returns (r: Result<(set<Sha>, seq<Sha>), PackError>)
    ensures TreeComplete(store, root) && TreeClosed(store, seen0) ==> r.Ok?
    ensures r.Ok? && CollectInv(marked, seen0, entries0) ==> CollectInv(marked, r.value.0, r.value.1)
    ensures r.Ok? && TreeComplete(store, root) && TreeClosed(store, seen0) ==>
      TreeClosed(store, r.value.0) && forall x :: x in r.value.0 <==> x in seen0 || InTree(store, root, x)
  {
    ghost var good := TreeComplete(store, root) && TreeClosed(store, seen0);
    ghost var tidy := CollectInv(marked, seen0, entries0);
    var seen, entries, stack := seen0, entries0, [root];
    ghost var read: set<Sha> := {};
    InTreeSelf(store, root);
    while |stack| > 0
      invariant read <= store.Keys && forall x :: x in read ==> x in seen
      invariant tidy ==> CollectInv(marked, seen, entries)
      invariant good ==> ClosedBut(store, seen, stack) && AllUnder(store, root, stack)
      invariant good ==> forall x {:trigger InTree(store, root, x)} :: x in seen && x !in seen0 ==>
              InTree(store, root, x)
      invariant forall x :: x in seen0 ==> x in seen
      invariant root in seen || root in stack
      decreases |store.Keys| - |read|, |stack|
    {
      var t := stack[|stack| - 1];
      ghost var before := stack;
      stack := stack[..|stack| - 1];
      assert before == stack + [t];
      SubsetSize(read, store.Keys);
      assert good ==> t in before && InTree(store, root, t);
      if t !in seen {
        if !IsTree(store, t) {
          return Err(BadObject(t));
        }
        ghost var seen1, stack1 := seen, stack;
        read := read + {t};
        SubsetSize(read, store.Keys);
        if tidy {
          CollectAdd(marked, seen, entries, t);
        }
        var missing;
        missing, seen, stack, entries := CollectRefs(store, store[t].entries, seen + {t}, stack, entries + [t], marked);
        if missing.Some? {
          if good {
            RefsPresent(store, root, t);
          }
          return Err(BadObject(missing.value));
        }
        if good {
          MarkStep(store, root, seen1, stack1, t, seen, stack);
        }
      }
    }
    if good {
      forall x
        ensures x in seen <==> x in seen0 || InTree(store, root, x)
      {
        if InTree(store, root, x) {
          ClosedHoldsTree(store, root, seen, x);
        }
      }
    }
    return Ok((seen, entries));
  }

  lemma RefsPresent(store: Store, root: Sha, t: Sha)
    requires TreeComplete(store, root) && InTree(store, root, t) && IsTree(store, t)
    ensures forall e :: e in store[t].entries ==> e.sha in store
  {
    forall e | e in store[t].entries
      ensures e.sha in store
    {
      EntryUnder(store, root, t, e);
    }
  }

  /** x is in the tree closure of one of the commits. */
  ghost predicate InTrees(store: Store, commits: seq<Sha>, x: Sha) {
    exists c :: c in commits && IsCommit(store, c) && InTree(store, store[c].tree, x)
  }

  ghost predicate AllComplete(store: Store, commits: seq<Sha>) {
    forall c :: c in commits ==> CommitComplete(store, c)
  }

  /** Each walked commit, and whatever its tree holds that no boundary commit's tree holds, once. */
  ghost predicate PackSpec(store: Store, commits: seq<Sha>, boundary: seq<Sha>, entries: seq<Sha>) {
    && NoDup(entries)
    && forall x :: x in entries <==> x in commits || (InTrees(store, commits, x) && !InTrees(store, boundary, x))
  }

  lemma AllCompleteGrows(store: Store, later: Store, commits: seq<Sha>)
    requires Grows(store, later) && AllComplete(store, commits)
    ensures AllComplete(later, commits)
  {
    forall c | c in commits
      ensures CommitComplete(later, c)
    {
      CommitCompleteGrows(store, later, c);
    }
  }

  lemma InTreesSame(store: Store, later: Store, commits: seq<Sha>, x: Sha)
    requires Grows(store, later) && AllComplete(store, commits)
    ensures InTrees(later, commits, x) <==> InTrees(store, commits, x)
  {
    if InTrees(later, commits, x) {
      var c :| c in commits && IsCommit(later, c) && InTree(later, later[c].tree, x);
      assert CommitComplete(store, c);
      InTreeSame(store, later, store[c].tree, x);
    }
    if InTrees(store, commits, x) {
      var c :| c in commits && IsCommit(store, c) && InTree(store, store[c].tree, x);
      assert CommitComplete(store, c);
      InTreeSame(store, later, store[c].tree, x);
    }
  }

  /** A pack of complete commits is the same whatever else was written meanwhile. */
  lemma PackSpecSame(store: Store, later: Store, commits: seq<Sha>, boundary: seq<Sha>, entries: seq<Sha>)
    requires Grows(store, later) && AllComplete(store, commits) && AllComplete(store, boundary)
    ensures PackSpec(later, commits, boundary, entries) <==> PackSpec(store, commits, boundary, entries)
  {
    forall x
      ensures InTrees(later, commits, x) <==> InTrees(store, commits, x)
      ensures InTrees(later, boundary, x) <==> InTrees(store, boundary, x)
    {
      InTreesSame(store, later, commits, x);
      InTreesSame(store, later, boundary, x);
    }
  }

  lemma InTreesNext(store: Store, commits: seq<Sha>, i: nat)
    requires i < |commits| && IsCommit(store, commits[i])
    ensures forall x :: InTrees(store, commits[..i + 1], x) <==>
              InTrees(store, commits[..i], x) || InTree(store, store[commits[i]].tree, x)
  {
    assert commits[..i + 1] == commits[..i] + [commits[i]];
    forall x
      ensures InTrees(store, commits[..i + 1], x) <==>
              InTrees(store, commits[..i], x) || InTree(store, store[commits[i]].tree, x)
    {
      if InTree(store, store[commits[i]].tree, x) {
        assert commits[i] in commits[..i + 1];
      }
      if InTrees(store, commits[..i], x) {
        var c :| c in commits[..i] && IsCommit(store, c) && InTree(store, store[c].tree, x);
        assert c in commits[..i + 1];
      }
    }
  }

  /** Marks the tree closures of all boundary commits. */
  method MarkBoundary(store: Store, boundary: seq<Sha>) returns (r: Result<set<Sha>, PackError>)
    ensures AllComplete(store, boundary) ==>
      r.Ok? && TreeClosed(store, r.value) && forall x :: x in r.value <==> InTrees(store, boundary, x)
  {
    var seen: set<Sha> := {};
    ghost var good := AllComplete(store, boundary);
    for i := 0 to |boundary|
      invariant good ==> TreeClosed(store, seen) && forall x :: x in seen <==> InTrees(store, boundary[..i], x)
    {
      assert good ==> boundary[i] in boundary && CommitComplete(store, boundary[i]);
      var m := MarkTreeClosure(store, boundary[i], seen);
      if m.Err? {
        return m;
      }
      if good {
        InTreesNext(store, boundary, i);
      }
      seen := m.value;
    }
    assert boundary[..|boundary|] == boundary;
    return Ok(seen);
  }

  /** Lists the walked commits first. */
  method ListCommits(commits: seq<Sha>, marked: set<Sha>) returns (seen: set<Sha>, entries: seq<Sha>)
    ensures entries == commits
    ensures forall x :: x in seen <==> x in marked || x in commits
  {
    seen, entries := marked, [];
    for i := 0 to |commits|
      invariant entries == commits[..i]
      invariant forall x :: x in seen <==> x in marked || x in commits[..i]
    {
      assert commits[..i + 1] == commits[..i] + [commits[i]];
      seen, entries := seen + {commits[i]}, entries + [commits[i]];
    }
    assert commits[..|commits|] == commits;
  }

  /** Marked ids are trees and blobs, so no commit is marked and listing commits leaves the marks closed. */
  lemma CommitsStart(store: Store, commits: seq<Sha>, boundary: seq<Sha>, marked: set<Sha>, seen: set<Sha>)
    requires NoDup(commits) && AllComplete(store, commits) && AllComplete(store, boundary)
    requires TreeClosed(store, marked) && forall x :: x in marked <==> InTrees(store, boundary, x)
    requires forall x :: x in seen <==> x in marked || x in commits
    ensures CollectInv(marked, seen, commits) && TreeClosed(store, seen)
  {
    forall x | x in marked
      ensures !IsCommit(store, x)
    {
      var b :| b in boundary && IsCommit(store, b) && InTree(store, store[b].tree, x);
      assert CommitComplete(store, b);
      UnderIsTreeOrBlob(store, store[b].tree, x);
    }
    forall x | x in commits
      ensures IsCommit(store, x)
    {
      assert CommitComplete(store, x);
    }
  }

  /**
    The full object list of a pack. When every walked commit and every boundary commit is
    complete it succeeds, and lists exactly the walked commits and the part of their trees
    that no boundary commit's tree holds, each id once.
   */
  method CollectPackEntries(store: Store, commits: seq<Sha>, boundary: seq<Sha>)
    returns (r: Result<seq<Sha>, PackError>)
    requires forall c :: c in commits ==> IsCommit(store, c)
    ensures NoDup(commits) && AllComplete(store, commits) && AllComplete(store, boundary) ==>
      r.Ok? && PackSpec(store, commits, boundary, r.value)
  {
    ghost var good := NoDup(commits) && AllComplete(store, commits) && AllComplete(store, boundary);
    var m := MarkBoundary(store, boundary);
    if m.Err? {
      return Err(m.error);
    }
    ghost var marked := m.value;
    var seen, entries := ListCommits(commits, m.value);
    if good {
      CommitsStart(store, commits, boundary, marked, seen);
    }
    for i := 0 to |commits|
      invariant good ==> CollectInv(marked, seen, entries) && TreeClosed(store, seen)
      invariant good ==> forall x :: x in seen <==> x in marked || x in commits || InTrees(store, commits[..i], x)
    {
      assert commits[i] in commits;
      assert good ==> CommitComplete(store, commits[i]);
      var t := CollectTree(store, store[commits[i]].tree, seen, entries, marked);
      if t.Err? {
        return Err(t.error);
      }
      InTreesNext(store, commits, i);
      seen, entries := t.value.0, t.value.1;
    }
    assert commits[..|commits|] == commits;
    if good {
      CommitsUnmarked(store, commits, boundary);
    }
    return Ok(entries);
  }

  lemma CommitsUnmarked(store: Store, commits: seq<Sha>, boundary: seq<Sha>)
    requires AllComplete(store, commits) && AllComplete(store, boundary)
    ensures forall x :: x in commits ==> !InTrees(store, boundary, x)
  {
    forall x | x in commits && InTrees(store, boundary, x)
      ensures false
    {
      var b :| b in boundary && IsCommit(store, b) && InTree(store, store[b].tree, x);
      assert CommitComplete(store, b) && CommitComplete(store, x);
      UnderIsTreeOrBlob(store, store[b].tree, x);
    }
  }
}
