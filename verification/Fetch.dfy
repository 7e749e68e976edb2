/**
  One smart fetch (upload-pack, protocol v0): the target commit, the common haves, the
  negotiation round, the walk and the pack; and what a client holds after it.
 */
module Fetch {
  import opened Wrappers
  import opened GitObjects
  import opened CommitWalk
  import opened Pack

  datatype Request = Request(
    wants: seq<Sha>,
    haves: seq<Sha>,
    clientShallow: seq<Sha>,
    depth: nat,
    hasDeepen: bool,
    done: bool,
    multiAckDetailed: bool)

  datatype Shallows = Shallows(shallow: seq<Sha>, unshallow: seq<Sha>)

  datatype Response =
    | InternalError
    | Negotiation(common: seq<Sha>, ready: bool)
    | DepthRound(cuts: Shallows)
    | Packed(section: Option<Shallows>, ack: Option<Sha>, entries: seq<Sha>)
    | Abandoned

  /**
    What one request finds in the store, phase by phase. Refreshes may write while it is served,
    so each phase may see more than the one before; within a phase every id is read once.
   */
  datatype Reads = Reads(wants: Store, haves: Store, walk: Store, pack: Store)

  predicate OnlyGrows(views: Reads) {
    Grows(views.wants, views.haves) && Grows(views.haves, views.walk) && Grows(views.walk, views.pack)
  }

  /** The first want that is the tip or a stored commit; the tip when there is none. */
  function Target(store: Store, tip: Sha, wants: seq<Sha>): Sha {
    if wants == [] then tip
    else if wants[0] == tip then tip
    else if IsCommit(store, wants[0]) then wants[0]
    else Target(store, tip, wants[1..])
  }

  /** A want the lineage can serve. */
  predicate Servable(store: Store, tip: Sha, want: Sha) {
    want == tip || IsCommit(store, want)
  }

  /** The target is the want at the least index that can be served, or the tip when none can. */
  lemma {:induction false} TargetIsFirst(store: Store, tip: Sha, wants: seq<Sha>)
    ensures var t := Target(store, tip, wants);
      || (exists i :: FirstServable(store, tip, wants, i) && t == wants[i])
      || (t == tip && NoneServable(store, tip, wants))
  {
    if wants != [] && !Servable(store, tip, wants[0]) {
      TargetIsFirst(store, tip, wants[1..]);
      var t := Target(store, tip, wants);
      if i :| FirstServable(store, tip, wants[1..], i) && t == wants[1..][i] {
        assert wants[..i + 1] == [wants[0]] + wants[1..][..i];
        assert FirstServable(store, tip, wants, i + 1);
      } else {
        assert wants == [wants[0]] + wants[1..];
      }
    } else if wants != [] {
      assert FirstServable(store, tip, wants, 0);
    }
  }

  /** The i-th want can be served and no earlier one can. */
  predicate FirstServable(store: Store, tip: Sha, wants: seq<Sha>, i: int) {
    0 <= i < |wants| && Servable(store, tip, wants[i]) && NoneServable(store, tip, wants[..i])
  }

  predicate NoneServable(store: Store, tip: Sha, wants: seq<Sha>) {
    forall w :: w in wants ==> !Servable(store, tip, w)
  }

  /** The commits the store holds among haves, each at its first place. */
  function CommonOf(store: Store, haves: seq<Sha>): seq<Sha> {
    if haves == [] then []
    else
      var before, last := haves[..|haves| - 1], haves[|haves| - 1];
      CommonOf(store, before) + (if last !in before && IsCommit(store, last) then [last] else [])
  }

  lemma {:induction false} CommonExact(store: Store, haves: seq<Sha>)
    ensures NoDup(CommonOf(store, haves))
    ensures forall x :: x in CommonOf(store, haves) <==> x in haves && IsCommit(store, x)
  {
    if haves != [] {
      var before := haves[..|haves| - 1];
      CommonExact(store, before);
      assert haves == before + [haves[|haves| - 1]];
    }
  }

  method CommonHaves(store: Store, haves: seq<Sha>) returns (common: seq<Sha>)
    ensures common == CommonOf(store, haves)
  {
    common := [];
    var seen: set<Sha> := {};
    for i := 0 to |haves|
      invariant forall x :: x in seen <==> x in haves[..i]
      invariant common == CommonOf(store, haves[..i])
    {
      var s := haves[i];
      assert haves[..i + 1][..i] == haves[..i];
      assert haves[..i + 1] == haves[..i] + [s];
      if s !in seen {
        seen := seen + {s};
        if IsCommit(store, s) {
          common := common + [s];
        }
      }
    }
    assert haves[..|haves|] == haves;
  }

  method ChooseTarget(store: Store, tip: Sha, wants: seq<Sha>) returns (target: Sha)
    ensures target == Target(store, tip, wants)
  {
    target := tip;
    var i := 0;
    while i < |wants|
      invariant 0 <= i <= |wants| && target == tip
      invariant Target(store, tip, wants) == Target(store, tip, wants[i..])
    {
      if wants[i] == target {
        return;
      }
      if IsCommit(store, wants[i]) {
        target := wants[i];
        return;
      }
      assert wants[i..][1..] == wants[i + 1..];
      i := i + 1;
    }
  }

  function HaveSet(common: seq<Sha>): set<Sha> {
    set h | h in common
  }

  /** The commits a request makes common: none unless it speaks multi_ack_detailed and asks for no depth. */
  function RequestCommon(store: Store, req: Request): seq<Sha> {
    if req.multiAckDetailed && !req.hasDeepen then CommonOf(store, req.haves) else []
  }

  /** A response to a final round: the walk and the pack cut from it. */
  ghost predicate PackedSpec(store: Store, target: Sha, req: Request, common: seq<Sha>, w: Walk, resp: Response) {
    && resp.Packed?
    && WalkSpec(store, target, req.depth, req.clientShallow, HaveSet(common), w)
    && (HistoryComplete(store, target) ==> PackSpec(store, w.commits, w.boundary, resp.entries))
    && resp.section == (if req.hasDeepen then Some(Shallows(w.shallow, w.unshallow)) else None)
    && resp.ack == (if common == [] then None else Some(common[|common| - 1]))
  }

  ghost predicate NegotiationSpec(store: Store, target: Sha, common: seq<Sha>, resp: Response) {
    && resp.Negotiation? && resp.common == common
    && (resp.ready <==> exists h :: h in common && Ancestor(store, target, h))
  }

  /** What each kind of response says; the error kinds need a missing tip or an incomplete history. */
  ghost predicate ServeSpec(views: Reads, tip: Sha, req: Request, resp: Response) {
    var target, common := Target(views.wants, tip, req.wants), RequestCommon(views.haves, req);
    match resp
    case InternalError => !HistoryComplete(views.walk, target)
    case Abandoned => !HistoryComplete(views.walk, target)
    case Negotiation(_, _) =>
      && !req.hasDeepen && !req.done
      && NegotiationSpec(views.walk, target, common, resp)
    case DepthRound(cuts) =>
      && req.hasDeepen && !req.done
      && exists w :: WalkSpec(views.walk, target, req.depth, req.clientShallow, {}, w)
          && cuts == Shallows(w.shallow, w.unshallow)
    case Packed(_, _, _) =>
      && req.done
      && exists w :: PackedSpec(views.walk, target, req, common, w, resp)
  }

  /** What a request is answered, with no tip to serve when the directory never had one. */
  ghost predicate Answers(views: Reads, tip: Option<Sha>, req: Request, resp: Response) {
    if tip.None? then resp == InternalError else ServeSpec(views, tip.value, req, resp)
  }

  /** Serves one upload-pack request from the lineage's store and persisted tip. */
  method ServeUploadPack(views: Reads, tip: Option<Sha>, req: Request) returns (resp: Response)
    requires OnlyGrows(views)
    ensures Answers(views, tip, req, resp)
  {
    if tip.None? {
      return InternalError;
    }
    var target := ChooseTarget(views.wants, tip.value, req.wants);
    var common: seq<Sha> := [];
    if req.multiAckDetailed && !req.hasDeepen {
      common := CommonHaves(views.haves, req.haves);
    }
    var have := HaveSet(common);

    if !req.hasDeepen && !req.done {
      var ready := false;
      if |common| > 0 {
        var probe := ReachesAny(views.walk, target, have);
        if probe.Err? {
          return InternalError;
        }
        ready := probe.value;
      }
      resp := Negotiation(common, ready);
      assert NegotiationSpec(views.walk, target, common, resp);
      return;
    }

    var walk := WalkCommits(views.walk, target, req.depth, req.clientShallow, have);
    if walk.Err? {
      ReachedIsAncestor(views.walk, target, req.depth, have, walk.error.sha);
      return InternalError;
    }
    var w := walk.value;
    if req.hasDeepen && !req.done {
      assert have == {};
      return DepthRound(Shallows(w.shallow, w.unshallow));
    }
    var ack := if |common| > 0 then Some(common[|common| - 1]) else None;
    var section := if req.hasDeepen then Some(Shallows(w.shallow, w.unshallow)) else None;
    var entries := PackWalked(views, target, req.depth, req.clientShallow, have, w);
    if entries.Err? {
      return Abandoned;
    }
    resp := Packed(section, ack, entries.value);
    assert common == RequestCommon(views.haves, req);
    assert PackedSpec(views.walk, target, req, RequestCommon(views.haves, req), w, resp);
  }

  /** The pack's ids for a walk. What was written since the walk does not show in it. */
  method PackWalked(views: Reads, target: Sha, depth: int, clientShallow: seq<Sha>, have: set<Sha>, w: Walk)
    returns (r: Result<seq<Sha>, PackError>)
    requires OnlyGrows(views) && WalkSpec(views.walk, target, depth, clientShallow, have, w)
    ensures HistoryComplete(views.walk, target) ==> r.Ok? && PackSpec(views.walk, w.commits, w.boundary, r.value)
  {
    forall c | c in w.commits
      ensures IsCommit(views.pack, c)
    {
      assert IsCommit(views.walk, c);
    }
    r := CollectPackEntries(views.pack, w.commits, w.boundary);
    if HistoryComplete(views.walk, target) {
      WalkedComplete(views.walk, target, depth, clientShallow, have, w);
      AllCompleteGrows(views.walk, views.pack, w.commits);
      AllCompleteGrows(views.walk, views.pack, w.boundary);
      PackSpecSame(views.walk, views.pack, w.commits, w.boundary, r.value);
    }
  }

  lemma ReachedIsAncestor(store: Store, tip: Sha, depth: int, have: set<Sha>, x: Sha)
    requires Reached(store, tip, depth, have, x)
    ensures Ancestor(store, tip, x)
  {
    var n: nat :| InDepth(depth, n) && Steps(store, have, tip, n, x);
    StepsWeaken(store, have, tip, n, x);
  }

  lemma WalkedComplete(store: Store, target: Sha, depth: int, clientShallow: seq<Sha>, have: set<Sha>, w: Walk)
    requires HistoryComplete(store, target) && WalkSpec(store, target, depth, clientShallow, have, w)
    ensures AllComplete(store, w.commits) && AllComplete(store, w.boundary)
  {
    forall c | c in w.commits || c in w.boundary
      ensures CommitComplete(store, c)
    {
      ReachedIsAncestor(store, target, depth, have, c);
    }
  }

  // ---- what the client holds afterwards ----

  /** The client holds the commit c and its whole tree. */
  ghost predicate Holds(store: Store, client: iset<Sha>, c: Sha) {
    c in client && IsCommit(store, c) && forall x :: InTree(store, store[c].tree, x) ==> x in client
  }

  /** The client's objects once it unpacked the entries. */
  ghost function Unpacked(client: iset<Sha>, entries: seq<Sha>): iset<Sha> {
    client + iset x | x in entries
  }

  /**
    Completeness and thinness of one pack, at any depth: with the client holding each boundary
    commit and its tree, every walked commit arrives with its whole tree; each of its parents
    arrives, is held, or is cut by a reported shallow commit; no id is sent twice and nothing
    of a boundary commit's tree is sent.
   */
  lemma PackDelivers(store: Store, target: Sha, req: Request, common: seq<Sha>, w: Walk, resp: Response,
                     client: iset<Sha>)
    requires HistoryComplete(store, target) && PackedSpec(store, target, req, common, w, resp)
    requires forall h :: h in w.boundary ==> Holds(store, client, h)
    ensures forall c :: c in w.commits ==> Holds(store, Unpacked(client, resp.entries), c)
    ensures forall c, p :: c in w.commits && ParentOf(store, c, p) ==>
              Holds(store, Unpacked(client, resp.entries), p) || c in w.shallow
    ensures NoDup(resp.entries)
    ensures forall b, x :: b in w.boundary && IsCommit(store, b) && InTree(store, store[b].tree, x) ==>
            x !in resp.entries
  {
    var have := HaveSet(common);
    var after := Unpacked(client, resp.entries);
    WalkedComplete(store, target, req.depth, req.clientShallow, have, w);
    forall c | c in w.commits
      ensures Holds(store, after, c)
    {
      forall x | InTree(store, store[c].tree, x)
        ensures x in after
      {
        assert InTrees(store, w.commits, x);
        if InTrees(store, w.boundary, x) {
          var b :| b in w.boundary && IsCommit(store, b) && InTree(store, store[b].tree, x);
          assert Holds(store, client, b);
        }
      }
    }
    forall c, p | c in w.commits && ParentOf(store, c, p) && c !in w.shallow
      ensures Holds(store, after, p)
    {
      UncutParent(store, target, req.depth, req.clientShallow, have, w, c, p);
      if p in w.boundary {
        assert Holds(store, client, p);
      }
    }
    forall b, x | b in w.boundary && IsCommit(store, b) && InTree(store, store[b].tree, x)
      ensures x !in resp.entries
    {
      assert InTrees(store, w.boundary, x);
      CommitsUnmarked(store, w.commits, w.boundary);
    }
  }

  /** A walked commit that was not cut has each parent walked or met. */
  lemma UncutParent(store: Store, target: Sha, depth: int, clientShallow: seq<Sha>, have: set<Sha>, w: Walk, c: Sha,
                    p: Sha)
    requires WalkSpec(store, target, depth, clientShallow, have, w)
    requires c in w.commits && ParentOf(store, c, p) && c !in w.shallow
    ensures p in w.commits || p in w.boundary
  {
    var n: nat :| InDepth(depth, n) && Steps(store, have, target, n, c);
    var m := ShortestPath(store, target, have, n, c);
    assert InDepth(depth, m + 1);
    assert Steps(store, have, target, m + 1, p);
    assert Reached(store, target, depth, have, p);
  }

  /**
    A fetch without a depth request completes the target's whole history, for any client that
    holds the whole history of each common commit that lies in the target's own.
   */
  lemma FetchCompletesHistory(store: Store, target: Sha, req: Request, common: seq<Sha>, w: Walk, resp: Response,
                              client: iset<Sha>)
    requires HistoryComplete(store, target) && PackedSpec(store, target, req, common, w, resp) && req.depth == 0
    requires forall h, a :: h in common && Ancestor(store, target, h) && Ancestor(store, h, a) ==>
              Holds(store, client, a)
    ensures forall a :: Ancestor(store, target, a) ==> Holds(store, Unpacked(client, resp.entries), a)
  {
    var have := HaveSet(common);
    forall h | h in w.boundary
      ensures Holds(store, client, h)
    {
      ReachedIsAncestor(store, target, req.depth, have, h);
      AncestorSelf(store, h);
    }
    PackDelivers(store, target, req, common, w, resp, client);
    forall a | Ancestor(store, target, a)
      ensures Holds(store, Unpacked(client, resp.entries), a)
    {
      var n: nat :| Steps(store, {}, target, n, a);
      StepsAvoidOrHit(store, have, target, n, a);
      if Steps(store, have, target, n, a) {
        assert InDepth(0, n) && Reached(store, target, 0, have, a);
        if a in have {
          AncestorSelf(store, a);
          assert Holds(store, client, a);
        }
      } else {
        var m: nat, h :| m < n && h in have && Steps(store, have, target, m, h) && Ancestor(store, h, a);
        StepsWeaken(store, have, target, m, h);
        assert Holds(store, client, a);
      }
    }
  }

  /**
    The same, stated on the request and its response alone: a client that holds the whole
    history of every have that lies in the target's history ends up with all of it.
   */
  lemma ServedFetchCompletes(views: Reads, tip: Sha, req: Request, resp: Response, client: iset<Sha>)
    requires ServeSpec(views, tip, req, resp) && resp.Packed? && req.depth == 0
    requires HistoryComplete(views.walk, Target(views.wants, tip, req.wants))
    requires HoldsHaves(views, Target(views.wants, tip, req.wants), req, client)
    ensures forall a :: Ancestor(views.walk, Target(views.wants, tip, req.wants), a) ==>
            Holds(views.walk, Unpacked(client, resp.entries), a)
  {
    var target, common := Target(views.wants, tip, req.wants), RequestCommon(views.haves, req);
    var w :| PackedSpec(views.walk, target, req, common, w, resp);
    CommonExact(views.haves, req.haves);
    FetchCompletesHistory(views.walk, target, req, common, w, resp, client);
  }

  /** The client holds the whole history of each have that was found stored and lies in the target's history. */
  ghost predicate HoldsHaves(views: Reads, target: Sha, req: Request, client: iset<Sha>) {
    forall h, a ::
      h in req.haves && IsCommit(views.haves, h) && Ancestor(views.walk, target, h) && Ancestor(views.walk, h, a) ==>
        Holds(views.walk, client, a)
  }

  /** A round answers "ready" exactly when the final round's walk would meet a commit the client has. */
  lemma ReadyIffCut(store: Store, target: Sha, common: seq<Sha>, round: Response, clientShallow: seq<Sha>, w: Walk)
    requires NegotiationSpec(store, target, common, round)
    requires WalkSpec(store, target, 0, clientShallow, HaveSet(common), w)
    ensures round.ready <==> w.boundary != []
  {
    BoundaryIffReachable(store, target, clientShallow, HaveSet(common), w);
  }
}
