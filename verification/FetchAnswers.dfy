/**
  What a fetch response says, read from the request and the response alone: which haves count and
  in what order they are acknowledged, what is left out of the pack for them, and what a request
  that makes no have common is sent.
 */
module FetchAnswers {
  import opened Wrappers
  import opened Strings
  import opened GitObjects
  import opened CommitWalk
  import opened Pack
  import opened Fetch

  /** The request makes the haves it names common. */
  predicate NamesHaves(req: Request) {
    req.multiAckDetailed && !req.hasDeepen
  }

  /** h is one of the haves, and found stored as a commit. */
  predicate Known(store: Store, haves: seq<Sha>, h: Sha) {
    h in haves && IsCommit(store, h)
  }

  /** h comes before g for the first time. */
  predicate Earlier(haves: seq<Sha>, h: Sha, g: Sha) {
    IndexOf(haves, h) < IndexOf(haves, g)
  }

  /** The listed ids are exactly the known haves, in the order in which each first occurs. */
  ghost predicate ListsKnown(store: Store, haves: seq<Sha>, common: seq<Sha>) {
    && (forall h :: h in common <==> Known(store, haves, h))
    && (forall i, j :: 0 <= i < j < |common| ==> Earlier(haves, common[i], common[j]))
  }

  lemma IndexSnoc(haves: seq<Sha>, last: Sha, h: Sha)
    ensures h in haves ==> IndexOf(haves + [last], h) == IndexOf(haves, h) < |haves|
    ensures last !in haves ==> IndexOf(haves + [last], last) == |haves|
  {
    var all := haves + [last];
    if h in haves {
      var i := IndexOf(haves, h);
      assert haves[..|haves|] == haves;
      assert all[..i] == haves[..i];
      IndexIs(all, h, i);
    }
    if last !in haves {
      IndexAt(haves, last, []);
      assert haves + [last] + [] == all;
    }
  }

  lemma {:induction false} CommonListsKnown(store: Store, haves: seq<Sha>)
    ensures ListsKnown(store, haves, CommonOf(store, haves))
  {
    CommonExact(store, haves);
    if haves != [] {
      var before, last := haves[..|haves| - 1], haves[|haves| - 1];
      assert haves == before + [last];
      CommonListsKnown(store, before);
      var earlier, common := CommonOf(store, before), CommonOf(store, haves);
      forall i, j | 0 <= i < j < |common|
        ensures Earlier(haves, common[i], common[j])
      {
        assert common[i] == earlier[i] && earlier[i] in earlier;
        IndexSnoc(before, last, common[i]);
        if j < |earlier| {
          assert earlier[j] in earlier;
          IndexSnoc(before, last, earlier[j]);
          assert Earlier(before, earlier[i], earlier[j]);
        }
      }
    }
  }

  /**
    A negotiation round lists exactly the haves found stored, in the order of their first
    occurrence, or nothing when the request makes none common.
   */
  lemma RoundLists(views: Reads, tip: Sha, req: Request, resp: Response)
    requires ServeSpec(views, tip, req, resp) && resp.Negotiation?
    ensures NamesHaves(req) ==> ListsKnown(views.haves, req.haves, resp.common)
    ensures !NamesHaves(req) ==> resp.common == [] && !resp.ready
    ensures NamesHaves(req) ==>
            (resp.ready <==> exists h ::
                Known(views.haves, req.haves, h) && Ancestor(views.walk, Target(views.wants, tip, req.wants), h))
  {
    CommonListsKnown(views.haves, req.haves);
    if NamesHaves(req) {
      assert forall h :: h in resp.common <==> Known(views.haves, req.haves, h);
    }
  }

  /** The known have whose first occurrence is last, if any have is known. */
  ghost predicate AcksLast(store: Store, haves: seq<Sha>, ack: Option<Sha>) {
    match ack
    case None => forall h :: !Known(store, haves, h)
    case Some(a) => Known(store, haves, a) && forall h :: Known(store, haves, h) && h != a ==> Earlier(haves, h, a)
  }

  lemma LastIsLast(store: Store, haves: seq<Sha>, common: seq<Sha>)
    requires ListsKnown(store, haves, common)
    ensures AcksLast(store, haves, if common == [] then None else Some(common[|common| - 1]))
  {
    if common != [] {
      var a := common[|common| - 1];
      assert a in common;
      forall h | Known(store, haves, h) && h != a
        ensures Earlier(haves, h, a)
      {
        assert h in common;
        var i :| 0 <= i < |common| && common[i] == h;
      }
    }
  }

  /** A final round acknowledges the known have whose first occurrence is last; it acknowledges none otherwise. */
  lemma AckSays(views: Reads, tip: Sha, req: Request, resp: Response)
    requires ServeSpec(views, tip, req, resp) && resp.Packed?
    ensures NamesHaves(req) ==> AcksLast(views.haves, req.haves, resp.ack)
    ensures !NamesHaves(req) ==> resp.ack == None
  {
    CommonListsKnown(views.haves, req.haves);
    LastIsLast(views.haves, req.haves, CommonOf(views.haves, req.haves));
  }

  lemma InTreesNoCommit(store: Store, commits: seq<Sha>, x: Sha)
    requires AllComplete(store, commits) && InTrees(store, commits, x)
    ensures !IsCommit(store, x)
  {
    var c :| c in commits && IsCommit(store, c) && InTree(store, store[c].tree, x);
    assert CommitComplete(store, c);
    UnderIsTreeOrBlob(store, store[c].tree, x);
  }

  /** No known have is sent; a target among them leaves nothing to send. */
  lemma KnownIsNotSent(views: Reads, tip: Sha, req: Request, resp: Response, h: Sha)
    requires OnlyGrows(views) && ServeSpec(views, tip, req, resp) && resp.Packed?
    requires HistoryComplete(views.walk, Target(views.wants, tip, req.wants))
    requires NamesHaves(req) && Known(views.haves, req.haves, h)
    ensures h !in resp.entries
    ensures h == Target(views.wants, tip, req.wants) ==> resp.entries == []
  {
    var target, common := Target(views.wants, tip, req.wants), CommonOf(views.haves, req.haves);
    CommonListsKnown(views.haves, req.haves);
    var have := HaveSet(common);
    var w :| PackedSpec(views.walk, target, req, common, w, resp);
    WalkedComplete(views.walk, target, req.depth, req.clientShallow, have, w);
    assert h in have && IsCommit(views.walk, h);
    if h in resp.entries {
      InTreesNoCommit(views.walk, w.commits, h);
    }
    if h == target {
      forall x | x in w.commits
        ensures false
      {
        PastKnownTarget(views.walk, target, have, req.depth, x);
      }
      NonEmptyHas(resp.entries);
    }
  }

  lemma PastKnownTarget(store: Store, target: Sha, have: set<Sha>, depth: int, x: Sha)
    requires target in have && Reached(store, target, depth, have, x)
    ensures x in have
  {
    var n: nat :| InDepth(depth, n) && Steps(store, have, target, n, x);
    OnlyTarget(store, target, have, n, x);
  }

  lemma {:induction false} OnlyTarget(store: Store, target: Sha, have: set<Sha>, n: nat, x: Sha)
    requires target in have && Steps(store, have, target, n, x)
    ensures x == target
  {
    if n > 0 {
      var y :| Steps(store, have, target, n - 1, y) && y !in have && ParentOf(store, y, x);
      OnlyTarget(store, target, have, n - 1, y);
      assert false;
    }
  }

  /** The haves a request makes common: the known ones when it names haves, none otherwise. */
  function KnownOf(views: Reads, req: Request): set<Sha> {
    set h | h in req.haves && NamesHaves(req) && IsCommit(views.haves, h)
  }

  /**
    Nothing is sent that the client does not need: each id is a commit to which a path leads from
    the target, within the depth and past no known have, or is in the tree of such a commit.
   */
  lemma OnlyNeededIsSent(views: Reads, tip: Sha, req: Request, resp: Response, x: Sha) returns (c: Sha, n: nat)
    requires ServeSpec(views, tip, req, resp) && resp.Packed? && x in resp.entries
    requires HistoryComplete(views.walk, Target(views.wants, tip, req.wants))
    ensures Steps(views.walk, KnownOf(views, req), Target(views.wants, tip, req.wants), n, c)
    ensures c !in KnownOf(views, req) && (req.depth == 0 || n < req.depth) && IsCommit(views.walk, c)
    ensures x == c || InTree(views.walk, views.walk[c].tree, x)
  {
    var target, common := Target(views.wants, tip, req.wants), RequestCommon(views.haves, req);
    CommonExact(views.haves, req.haves);
    assert HaveSet(common) == KnownOf(views, req);
    var w :| PackedSpec(views.walk, target, req, common, w, resp);
    if x in w.commits {
      c := x;
    } else {
      c :| c in w.commits && IsCommit(views.walk, c) && InTree(views.walk, views.walk[c].tree, x);
    }
    assert Reached(views.walk, target, req.depth, KnownOf(views, req), c);
    n :| InDepth(req.depth, n) && Steps(views.walk, KnownOf(views, req), target, n, c);
  }

  /** Without common haves, every commit the target reaches within the depth is sent, with its whole tree. */
  lemma PlainFetchSendsAll(views: Reads, tip: Sha, req: Request, resp: Response, n: nat, c: Sha)
    requires ServeSpec(views, tip, req, resp) && resp.Packed?
    requires HistoryComplete(views.walk, Target(views.wants, tip, req.wants))
    requires !NamesHaves(req) && (req.depth == 0 || n < req.depth)
    requires Steps(views.walk, {}, Target(views.wants, tip, req.wants), n, c)
    ensures c in resp.entries && IsCommit(views.walk, c)
    ensures forall x :: InTree(views.walk, views.walk[c].tree, x) ==> x in resp.entries
  {
    var target := Target(views.wants, tip, req.wants);
    var w :| PackedSpec(views.walk, target, req, [], w, resp);
    assert HaveSet([]) == {};
    assert Reached(views.walk, target, req.depth, {}, c);
    forall x | InTree(views.walk, views.walk[c].tree, x)
      ensures x in resp.entries
    {
      assert InTrees(views.walk, w.commits, x);
    }
  }

  /** The shallow section of a response, when it has one. */
  function SectionOf(resp: Response): Option<Shallows> {
    match resp
    case DepthRound(cuts) => Some(cuts)
    case Packed(section, _, _) => section
    case _ => None
  }

  /**
    The shallow section answers a deepen request and no other. It lists as shallow the commits
    with parents that are exactly depth links from the target counting it as one, and as unshallow
    the client's shallow commits that are nearer.
   */
  lemma SectionSays(views: Reads, tip: Sha, req: Request, resp: Response)
    requires ServeSpec(views, tip, req, resp) && (resp.Packed? || resp.DepthRound?)
    ensures SectionOf(resp).Some? <==> req.hasDeepen
    ensures req.hasDeepen && req.depth > 0 ==>
            SectionLists(views.walk, Target(views.wants, tip, req.wants), req.depth, req.clientShallow,
                         SectionOf(resp).value)
  {
    if req.hasDeepen && req.depth > 0 {
      var target := Target(views.wants, tip, req.wants);
      var w := SectionWalk(views, tip, req, resp);
      DepthWalk(views.walk, target, req.depth, req.clientShallow, w);
    }
  }

  lemma SectionWalk(views: Reads, tip: Sha, req: Request, resp: Response) returns (w: Walk)
    requires ServeSpec(views, tip, req, resp) && (resp.Packed? || resp.DepthRound?) && req.hasDeepen
    ensures WalkSpec(views.walk, Target(views.wants, tip, req.wants), req.depth, req.clientShallow, {}, w)
    ensures SectionOf(resp) == Some(Shallows(w.shallow, w.unshallow))
  {
    var target := Target(views.wants, tip, req.wants);
    assert HaveSet([]) == {};
    if resp.Packed? {
      w :| PackedSpec(views.walk, target, req, [], w, resp);
    } else {
      w :| WalkSpec(views.walk, target, req.depth, req.clientShallow, {}, w)
          && resp.cuts == Shallows(w.shallow, w.unshallow);
    }
  }

  ghost predicate SectionLists(store: Store, target: Sha, depth: nat, clientShallow: seq<Sha>, cuts: Shallows)
    requires depth > 0
  {
    && (forall x :: x in cuts.shallow <==>
          Distance(store, target, {}, depth - 1, x) && IsCommit(store, x) && store[x].parents != [])
    && (forall x :: x in cuts.unshallow <==>
          x in clientShallow && x !in cuts.shallow && exists n: nat :: n < depth && Distance(store, target, {}, n, x))
  }
}
