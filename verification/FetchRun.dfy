/** A fetch served while refreshes go on: what a run of the lineage published, a client can still get whole. */
module FetchRun {
  import opened Wrappers
  import opened GitObjects
  import opened Fetch
  import opened Lineage

  /** Later writes do not change whether a client holds a complete commit. */
  lemma HoldsSame(store: Store, later: Store, client: iset<Sha>, c: Sha)
    requires Grows(store, later) && CommitComplete(store, c)
    ensures Holds(later, client, c) <==> Holds(store, client, c)
  {
    forall x
      ensures InTree(later, later[c].tree, x) <==> InTree(store, store[c].tree, x)
    {
      InTreeSame(store, later, store[c].tree, x);
    }
  }

  /** Later writes add nothing to the history of a commit on disk. */
  lemma HistorySame(store: Store, later: Store, c: Sha, a: Sha)
    requires OnDisk(store, c) && c.content.Commit? && Grows(store, later)
    ensures Ancestor(later, c, a) <==> Ancestor(store, c, a)
    ensures Ancestor(store, c, a) ==> CommitComplete(store, a)
  {
    OnDiskComplete(store, c);
    if Ancestor(later, c, a) {
      AncestorShrinks(store, later, c, a);
    }
    if Ancestor(store, c, a) {
      AncestorGrows(store, later, c, a);
    }
  }

  /** The request begins when the run has reached directory j and is over before it leaves directory k. */
  ghost predicate During(disks: seq<Disk>, j: nat, k: nat, views: Reads) {
    && j <= k < |disks| && Grows(disks[j].objects, views.wants) && OnlyGrows(views)
    && Grows(views.pack, disks[k].objects)
  }

  /** The client holds the whole history of each of its haves that lies in the history of c. */
  ghost predicate HoldsBelow(store: Store, c: Sha, haves: seq<Sha>, client: iset<Sha>) {
    forall h, a :: h in haves && Ancestor(store, c, h) && Ancestor(store, h, a) ==> Holds(store, client, a)
  }

  lemma HoldsHavesNow(store: Store, views: Reads, c: Sha, req: Request, client: iset<Sha>)
    requires OnlyGrows(views) && Grows(views.pack, store) && OnDisk(views.walk, c) && c.content.Commit?
    requires HoldsBelow(store, c, req.haves, client)
    ensures HoldsHaves(views, c, req, client)
  {
    forall h, a |
      h in req.haves && IsCommit(views.haves, h) && Ancestor(views.walk, c, h) && Ancestor(views.walk, h, a)
      ensures Holds(views.walk, client, a)
    {
      AncestorGrows(views.walk, store, c, h);
      AncestorGrows(views.walk, store, h, a);
      AncestorTransitive(views.walk, c, h, a);
      HistorySame(views.walk, store, c, a);
      HoldsSame(views.walk, store, client, a);
    }
  }

  /**
    A final request without a depth, whose first want either ref named at any earlier time, is
    answered with a pack unless refs/heads/main has never been written, whatever refreshes write
    meanwhile. The pack completes the history of that commit.
   */
  lemma PublishedIsServed(disks: seq<Disk>, events: seq<Event>, i: nat, j: nat, m: nat, k: nat, c: Sha, views: Reads,
                          tip: Option<Sha>, req: Request, resp: Response, client: iset<Sha>)
    requires IsRun(disks, events) && i <= j <= m <= k && During(disks, j, k, views) && tip == disks[m].main
    requires disks[i].main == Some(c) || disks[i].infoRefs == Some(c)
    requires req.done && req.depth == 0 && req.wants != [] && req.wants[0] == c
    requires Answers(views, tip, req, resp) && HoldsBelow(disks[k].objects, c, req.haves, client)
    ensures resp.Packed? <==> tip.Some?
    ensures disks[i].main.Some? ==> resp.Packed?
    ensures resp.Packed? ==> forall a :: Ancestor(disks[k].objects, c, a) ==>
              Holds(disks[k].objects, Unpacked(client, resp.entries), a)
  {
    RunFastForwards(disks, events, i, m);
    if tip.Some? {
      PublishedOnDisk(disks, events, i, j, c);
      OnDiskGrows(disks[j].objects, views.walk, c);
      OnDiskComplete(views.walk, c);
      assert Target(views.wants, tip.value, req.wants) == c;
      HoldsHavesNow(disks[k].objects, views, c, req, client);
      ServedFetchCompletes(views, tip.value, req, resp, client);
      forall a | Ancestor(disks[k].objects, c, a)
        ensures Holds(disks[k].objects, Unpacked(client, resp.entries), a)
      {
        HistorySame(views.walk, disks[k].objects, c, a);
        HoldsSame(views.walk, disks[k].objects, Unpacked(client, resp.entries), a);
      }
    }
  }
}
