/**
  The commit-graph walks behind a smart fetch: the breadth-first walk bounded by a
  depth and by the commits the client has, and the negotiation's reachability probe.
  A queue node's distance is kept in a map, and a walked commit's tree is read from
  the store.
 */
module CommitWalk {
  import opened Wrappers
  import opened GitObjects

  datatype Walk = Walk(commits: seq<Sha>, shallow: seq<Sha>, unshallow: seq<Sha>, boundary: seq<Sha>)

  /** The id whose object is missing, or is not a commit. */
  datatype WalkError = NotACommit(sha: Sha)

  /** A depth of zero or less bounds nothing; otherwise n parent links stay inside it when n < depth. */
  predicate InDepth(depth: int, n: int) {
    depth <= 0 || n < depth
  }

  /** The walk from tip meets x: on a path inside the depth that goes past no commit in have. */
  ghost predicate Reached(store: Store, tip: Sha, depth: int, have: set<Sha>, x: Sha) {
    exists n: nat :: InDepth(depth, n) && Steps(store, have, tip, n, x)
  }

  /** The shortest such path to x has exactly n links. */
  ghost predicate Distance(store: Store, tip: Sha, have: set<Sha>, n: nat, x: Sha) {
    Steps(store, have, tip, n, x) && forall m: nat :: m < n ==> !Steps(store, have, tip, m, x)
  }

  /** The elements of s that are in seen and not in cut, in order. */
  function Select(s: seq<Sha>, seen: set<Sha>, cut: seq<Sha>): seq<Sha> {
    if s == [] then []
    else (if s[0] in seen && s[0] !in cut then [s[0]] else []) + Select(s[1..], seen, cut)
  }

  ghost predicate IsReachedSet(store: Store, tip: Sha, depth: int, have: set<Sha>, seen: set<Sha>) {
    forall x :: x in seen <==> Reached(store, tip, depth, have, x)
  }

  /** What a successful walk returns, stated on the graph alone. */
  ghost predicate WalkSpec(store: Store, tip: Sha, depth: int, clientShallow: seq<Sha>, have: set<Sha>, w: Walk) {
    && NoDup(w.commits) && NoDup(w.boundary) && NoDup(w.shallow)
    && (forall x :: x in w.commits <==> Reached(store, tip, depth, have, x) && x !in have)
    && (forall x :: x in w.boundary <==> Reached(store, tip, depth, have, x) && x in have)
    && (forall x :: x in w.commits ==> IsCommit(store, x))
    && (forall x :: x in w.shallow <==>
          depth > 0 && x in w.commits && Distance(store, tip, have, depth - 1, x) && IsCommit(store, x)
              && store[x].parents != [])
    && exists seen: set<Sha> ::
        IsReachedSet(store, tip, depth, have, seen) && w.unshallow == Select(clientShallow, seen, w.shallow)
  }

  // ---- the invariant of the walk ----

  /** Where a seen commit is: walked, waiting in the queue, or met because the client has it. */
  datatype Part = Walked | Queued | Met

  /** dist counts a real path to x; the tip itself is at 1. */
  ghost predicate Located(store: Store, have: set<Sha>, tip: Sha, dist: map<Sha, nat>, x: Sha) {
    x in dist && dist[x] >= 1 && Steps(store, have, tip, dist[x] - 1, x)
  }

  /** Every seen commit has a real distance inside the depth, and is in the part that fits it. */
  ghost predicate SeenInv(store: Store, tip: Sha, depth: int, have: set<Sha>, dist: map<Sha, nat>,
                          part: map<Sha, Part>) {
    && tip in dist && dist[tip] == 1
    && (forall x {:trigger dist[x]} :: x in dist ==> dist[x] >= 1 && InDepth(depth, dist[x] - 1))
    && (forall x {:trigger Located(store, have, tip, dist, x)} :: x in dist ==> Located(store, have, tip, dist, x))
    && (forall x :: x in part <==> x in dist)
    && (forall x {:trigger part[x]} :: x in part ==>
          (part[x] == Met <==> x in have) && (part[x] == Walked ==> IsCommit(store, x)))
  }

  /**
    The parents of each walked commit inside the depth, except those in open, were seen no farther
    than one link on.
   */
  ghost predicate ExpandedInv(store: Store, depth: int, dist: map<Sha, nat>, part: map<Sha, Part>, open: set<Sha>) {
    forall q, p {:trigger ParentOf(store, q, p)} ::
      q in part && part[q] == Walked && q !in open && q in dist && InDepth(depth, dist[q]) && ParentOf(store, q, p) ==>
        p in dist && dist[p] <= dist[q] + 1
  }

  /** The queue is in distance order between base and base + 1, and nothing seen is farther. */
  ghost predicate FrontierInv(queue: seq<Sha>, dist: map<Sha, nat>, base: nat) {
    && (forall i :: 0 <= i < |queue| ==> queue[i] in dist && base <= dist[queue[i]])
    && (forall i, j :: 0 <= i < j < |queue| ==> dist[queue[i]] <= dist[queue[j]])
    && (forall x {:trigger dist[x]} :: x in dist ==> dist[x] <= base + 1)
  }

  /** s lists the commits of one part, each once. */
  ghost predicate ListsPart(s: seq<Sha>, part: map<Sha, Part>, k: Part) {
    NoDup(s) && forall x :: x in s <==> x in part && part[x] == k
  }

  ghost predicate IsCut(store: Store, depth: int, dist: map<Sha, nat>, part: map<Sha, Part>, x: Sha) {
    x in part && part[x] == Walked && x in dist && !InDepth(depth, dist[x]) && IsCommit(store, x)
        && store[x].parents != []
  }

  /** shallow lists the walked commits at the depth that have parents. */
  ghost predicate ListsCut(store: Store, depth: int, dist: map<Sha, nat>, part: map<Sha, Part>, shallow: seq<Sha>) {
    NoDup(shallow) && forall x :: x in shallow <==> IsCut(store, depth, dist, part, x)
  }

  /** When the queue is empty every commit within reach was seen, at its shortest distance or nearer. */
  lemma {:induction false} WalkComplete(store: Store, tip: Sha, depth: int, have: set<Sha>,
                                        dist: map<Sha, nat>, part: map<Sha, Part>, n: nat, x: Sha)
    requires tip in dist && dist[tip] == 1
    requires forall y :: y in dist && y !in have ==> y in part && part[y] == Walked
    requires ExpandedInv(store, depth, dist, part, {})
    requires InDepth(depth, n) && Steps(store, have, tip, n, x)
    ensures x in dist && dist[x] <= n + 1
    decreases n
  {
    if n > 0 {
      var y :| Steps(store, have, tip, n - 1, y) && y !in have && ParentOf(store, y, x);
      WalkComplete(store, tip, depth, have, dist, part, n - 1, y);
    }
  }

  lemma SeenReached(store: Store, tip: Sha, depth: int, have: set<Sha>, dist: map<Sha, nat>, part: map<Sha, Part>,
                    x: Sha)
    requires SeenInv(store, tip, depth, have, dist, part) && x in dist
    ensures Reached(store, tip, depth, have, x)
  {
    assert Located(store, have, tip, dist, x);
    var n: nat := dist[x] - 1;
    assert InDepth(depth, n) && Steps(store, have, tip, n, x);
  }

  lemma ReachedSeen(store: Store, tip: Sha, depth: int, have: set<Sha>, dist: map<Sha, nat>, part: map<Sha, Part>,
                    x: Sha)
    requires tip in dist && dist[tip] == 1
    requires forall y :: y in dist && y !in have ==> y in part && part[y] == Walked
    requires ExpandedInv(store, depth, dist, part, {})
    requires Reached(store, tip, depth, have, x)
    ensures x in dist
  {
    var n: nat :| InDepth(depth, n) && Steps(store, have, tip, n, x);
    WalkComplete(store, tip, depth, have, dist, part, n, x);
  }

  /** A seen commit sits at the last layer exactly when its shortest distance is depth - 1. */
  lemma SeenDistance(store: Store, tip: Sha, depth: int, have: set<Sha>, dist: map<Sha, nat>, part: map<Sha, Part>,
                     x: Sha)
    requires SeenInv(store, tip, depth, have, dist, part)
    requires forall y :: y in dist && y !in have ==> y in part && part[y] == Walked
    requires ExpandedInv(store, depth, dist, part, {})
    requires depth > 0 && x in dist
    ensures !InDepth(depth, dist[x]) <==> Distance(store, tip, have, depth - 1, x)
  {
    forall m: nat | m < depth && Steps(store, have, tip, m, x)
      ensures dist[x] <= m + 1
    {
      WalkComplete(store, tip, depth, have, dist, part, m, x);
    }
    assert Located(store, have, tip, dist, x);
  }

  // ---- the steps: the head is walked; inside the depth its parents are seen one by one ----

  lemma PopSeen(store: Store, tip: Sha, depth: int, have: set<Sha>, dist: map<Sha, nat>, part: map<Sha, Part>, c: Sha)
    requires SeenInv(store, tip, depth, have, dist, part) && ExpandedInv(store, depth, dist, part, {})
    requires c in part && part[c] == Queued && IsCommit(store, c)
    ensures SeenInv(store, tip, depth, have, dist, part[c := Walked])
    ensures ExpandedInv(store, depth, dist, part[c := Walked], {c})
    ensures !InDepth(depth, dist[c]) ==> ExpandedInv(store, depth, dist, part[c := Walked], {})
  {
  }

  lemma PopFrontier(queue: seq<Sha>, dist: map<Sha, nat>, base: nat)
    requires queue != [] && FrontierInv(queue, dist, base)
    ensures FrontierInv(queue[1..], dist, dist[queue[0]])
  {
    var rest := queue[1..];
    assert forall i :: 0 <= i < |rest| ==> rest[i] == queue[i + 1];
  }

  lemma PopLists(queue: seq<Sha>, commits: seq<Sha>, boundary: seq<Sha>, part: map<Sha, Part>)
    requires queue != [] && ListsPart(queue, part, Queued) && ListsPart(commits, part, Walked)
    requires ListsPart(boundary, part, Met)
    ensures queue[0] in part && part[queue[0]] == Queued
    ensures ListsPart(queue[1..], part[queue[0] := Walked], Queued)
    ensures ListsPart(commits + [queue[0]], part[queue[0] := Walked], Walked)
    ensures ListsPart(boundary, part[queue[0] := Walked], Met)
  {
    var c := queue[0];
    assert c in queue && queue == [c] + queue[1..];
    assert c !in commits && c !in queue[1..];
  }

  lemma PopCut(store: Store, depth: int, dist: map<Sha, nat>, part: map<Sha, Part>, shallow: seq<Sha>, c: Sha)
    requires ListsCut(store, depth, dist, part, shallow)
    requires c in part && part[c] == Queued && c in dist && IsCommit(store, c)
    ensures !InDepth(depth, dist[c]) && store[c].parents != [] ==>
            ListsCut(store, depth, dist, part[c := Walked], shallow + [c])
    ensures InDepth(depth, dist[c]) || store[c].parents == [] ==>
            ListsCut(store, depth, dist, part[c := Walked], shallow)
  {
    assert !IsCut(store, depth, dist, part, c);
    assert forall x :: x != c ==>
          (IsCut(store, depth, dist, part, x) <==> IsCut(store, depth, dist, part[c := Walked], x));
  }

  lemma AddSeen(store: Store, tip: Sha, depth: int, have: set<Sha>, dist: map<Sha, nat>, part: map<Sha, Part>, c: Sha,
                p: Sha)
    requires SeenInv(store, tip, depth, have, dist, part) && ExpandedInv(store, depth, dist, part, {c})
    requires c in part && part[c] == Walked && c in dist && InDepth(depth, dist[c])
    requires ParentOf(store, c, p) && p !in dist
    ensures SeenInv(store, tip, depth, have, dist[p := dist[c] + 1], part[p := if p in have then Met else Queued])
    ensures ExpandedInv(store, depth, dist[p := dist[c] + 1], part[p := if p in have then Met else Queued], {c})
  {
    var dist' := dist[p := dist[c] + 1];
    forall x | x in dist'
      ensures Located(store, have, tip, dist', x)
    {
      if x == p {
        assert Located(store, have, tip, dist, c);
        var n: nat := dist[c] - 1;
        assert Steps(store, have, tip, n, c) && c !in have && ParentOf(store, c, x);
        assert Steps(store, have, tip, n + 1, x);
      } else {
        assert Located(store, have, tip, dist, x);
      }
    }
  }

  lemma AddFrontier(queue: seq<Sha>, dist: map<Sha, nat>, base: nat, p: Sha)
    requires FrontierInv(queue, dist, base) && p !in dist
    ensures FrontierInv(queue, dist[p := base + 1], base)
    ensures FrontierInv(queue + [p], dist[p := base + 1], base)
  {
  }

  lemma AddLists(s: seq<Sha>, part: map<Sha, Part>, k: Part, p: Sha, k': Part)
    requires ListsPart(s, part, k) && p !in part
    ensures k == k' ==> ListsPart(s + [p], part[p := k'], k)
    ensures k != k' ==> ListsPart(s, part[p := k'], k)
  {
    assert p !in s;
  }

  lemma AddCut(store: Store, depth: int, dist: map<Sha, nat>, part: map<Sha, Part>, shallow: seq<Sha>, p: Sha, d: nat,
               k: Part)
    requires ListsCut(store, depth, dist, part, shallow) && p !in part && k != Walked
    ensures ListsCut(store, depth, dist[p := d], part[p := k], shallow)
  {
    assert forall x :: IsCut(store, depth, dist, part, x) <==> IsCut(store, depth, dist[p := d], part[p := k], x);
  }

  // ---- the loops ----

  /** The walk's variables. */
  datatype Progress = Progress(
    dist: map<Sha, nat>,
    queue: seq<Sha>,
    commits: seq<Sha>,
    shallow: seq<Sha>,
    boundary: seq<Sha>)

  ghost predicate ListsInv(store: Store, depth: int, p: Progress, part: map<Sha, Part>) {
    && ListsPart(p.queue, part, Queued) && ListsPart(p.commits, part, Walked) && ListsPart(p.boundary, part, Met)
    && ListsCut(store, depth, p.dist, part, p.shallow)
  }

  ghost predicate WalkInv(store: Store, tip: Sha, depth: int, have: set<Sha>, p: Progress, part: map<Sha, Part>,
                          base: nat, open: set<Sha>) {
    && SeenInv(store, tip, depth, have, p.dist, part)
    && ExpandedInv(store, depth, p.dist, part, open)
    && FrontierInv(p.queue, p.dist, base)
    && ListsInv(store, depth, p, part)
  }

  /** The walk once it has seen the parent x of c. */
  function Saw(have: set<Sha>, p: Progress, c: Sha, x: Sha): Progress
    requires c in p.dist
  {
    var dist := p.dist[x := p.dist[c] + 1];
    if x in have then p.(dist := dist, boundary := p.boundary + [x]) else p.(dist := dist, queue := p.queue + [x])
  }

  /** One unseen parent of the open commit c is queued, or is a boundary when the client has it. */
  method SeeParent(store: Store, tip: Sha, depth: int, have: set<Sha>, p0: Progress, c: Sha, x: Sha,
                   ghost part0: map<Sha, Part>)
    returns (p: Progress, ghost part: map<Sha, Part>)
    requires c in p0.dist && c in part0 && part0[c] == Walked && InDepth(depth, p0.dist[c])
    requires ParentOf(store, c, x) && x !in p0.dist
    requires WalkInv(store, tip, depth, have, p0, part0, p0.dist[c], {c})
    ensures p.dist == p0.dist[x := p0.dist[c] + 1] && c in part && part[c] == Walked
    ensures WalkInv(store, tip, depth, have, p, part, p.dist[c], {c})
  {
    p, part := Saw(have, p0, c, x), part0[x := if x in have then Met else Queued];
    SawKeeps(store, tip, depth, have, p0, c, x, part0);
  }

  lemma SawKeeps(store: Store, tip: Sha, depth: int, have: set<Sha>, p: Progress, c: Sha, x: Sha, part: map<Sha, Part>)
    requires c in p.dist && c in part && part[c] == Walked && InDepth(depth, p.dist[c])
    requires ParentOf(store, c, x) && x !in p.dist
    requires WalkInv(store, tip, depth, have, p, part, p.dist[c], {c})
    ensures var p', part' := Saw(have, p, c, x), part[x := if x in have then Met else Queued];
      WalkInv(store, tip, depth, have, p', part', p'.dist[c], {c}) && x != c
  {
    SawSeen(store, tip, depth, have, p, c, x, part);
    SawFrontier(have, p, c, x);
    SawLists(store, depth, have, p, c, x, part);
  }

  lemma SawSeen(store: Store, tip: Sha, depth: int, have: set<Sha>, p: Progress, c: Sha, x: Sha, part: map<Sha, Part>)
    requires c in p.dist && c in part && part[c] == Walked && InDepth(depth, p.dist[c])
    requires ParentOf(store, c, x) && x !in p.dist
    requires SeenInv(store, tip, depth, have, p.dist, part) && ExpandedInv(store, depth, p.dist, part, {c})
    ensures var p', part' := Saw(have, p, c, x), part[x := if x in have then Met else Queued];
      SeenInv(store, tip, depth, have, p'.dist, part') && ExpandedInv(store, depth, p'.dist, part', {c})
    ensures x !in part && x != c
  {
    AddSeen(store, tip, depth, have, p.dist, part, c, x);
  }

  lemma SawFrontier(have: set<Sha>, p: Progress, c: Sha, x: Sha)
    requires c in p.dist && x !in p.dist && FrontierInv(p.queue, p.dist, p.dist[c])
    ensures FrontierInv(Saw(have, p, c, x).queue, Saw(have, p, c, x).dist, Saw(have, p, c, x).dist[c])
  {
    AddFrontier(p.queue, p.dist, p.dist[c], x);
  }

  lemma SawLists(store: Store, depth: int, have: set<Sha>, p: Progress, c: Sha, x: Sha, part: map<Sha, Part>)
    requires c in p.dist && ListsInv(store, depth, p, part) && x !in part
    ensures ListsInv(store, depth, Saw(have, p, c, x), part[x := if x in have then Met else Queued])
  {
    AddAllLists(store, depth, p, Saw(have, p, c, x), part, x, p.dist[c] + 1, if x in have then Met else Queued);
  }

  lemma AddAllLists(store: Store, depth: int, p0: Progress, p: Progress, part: map<Sha, Part>, x: Sha, d: nat, k: Part)
    requires ListsInv(store, depth, p0, part) && x !in part && k != Walked
    requires p.dist == p0.dist[x := d] && p.commits == p0.commits && p.shallow == p0.shallow
    requires p.queue == (if k == Queued then p0.queue + [x] else p0.queue)
    requires p.boundary == (if k == Met then p0.boundary + [x] else p0.boundary)
    ensures ListsInv(store, depth, p, part[x := k])
  {
    AddLists(p0.queue, part, Queued, x, k);
    AddLists(p0.commits, part, Walked, x, k);
    AddLists(p0.boundary, part, Met, x, k);
    AddCut(store, depth, p0.dist, part, p0.shallow, x, d, k);
  }

  /** The head is walked; at the depth it is reported shallow when it has parents. */
  method WalkHead(store: Store, tip: Sha, depth: int, have: set<Sha>, p0: Progress, ghost part0: map<Sha, Part>,
                  ghost base: nat)
    returns (p: Progress, ghost part: map<Sha, Part>)
    requires WalkInv(store, tip, depth, have, p0, part0, base, {})
    requires p0.queue != [] && IsCommit(store, p0.queue[0])
    ensures p.dist == p0.dist && p.queue == p0.queue[1..]
    ensures p0.queue[0] in p.dist && p0.queue[0] in part && part[p0.queue[0]] == Walked
    ensures WalkInv(store, tip, depth, have, p, part, p.dist[p0.queue[0]],
                    if InDepth(depth, p.dist[p0.queue[0]]) then {p0.queue[0]} else {})
  {
    var c := p0.queue[0];
    PopLists(p0.queue, p0.commits, p0.boundary, part0);
    PopSeen(store, tip, depth, have, p0.dist, part0, c);
    PopFrontier(p0.queue, p0.dist, base);
    PopCut(store, depth, p0.dist, part0, p0.shallow, c);
    part := part0[c := Walked];
    p := p0.(queue := p0.queue[1..], commits := p0.commits + [c]);
    if !InDepth(depth, p0.dist[c]) && |store[c].parents| > 0 {
      p := p.(shallow := p0.shallow + [c]);
    }
  }

  /** The commits a walk has yet to see, counted in a finite set that holds every parent. */
  ghost predicate Bounded(store: Store, universe: set<Sha>, dist: map<Sha, nat>) {
    && (forall c, p {:trigger ParentOf(store, c, p)} :: ParentOf(store, c, p) ==> p in universe)
    && dist.Keys <= universe
  }

  lemma SomeUniverse(store: Store, tip: Sha) returns (universe: set<Sha>)
    ensures Bounded(store, universe, map[tip := 1])
  {
    universe := {tip} + set c, p | c in store && store[c].Commit? && p in store[c].parents :: p;
  }

  /** The first i parents of c are seen, and the walk is otherwise as it should be. */
  ghost predicate Visiting(store: Store, tip: Sha, depth: int, have: set<Sha>, p0: Progress, p: Progress, c: Sha,
                           part: map<Sha, Part>, universe: set<Sha>, i: nat) {
    && c in p.dist && c in part && part[c] == Walked && InDepth(depth, p.dist[c])
    && WalkInv(store, tip, depth, have, p, part, p.dist[c], {c})
    && Bounded(store, universe, p.dist) && (|p.dist| > |p0.dist| || p == p0)
    && IsCommit(store, c) && i <= |store[c].parents| && forall j :: 0 <= j < i ==> store[c].parents[j] in p.dist
  }

  /** One parent: it is seen now if it was not. */
  method VisitParent(store: Store, tip: Sha, depth: int, have: set<Sha>, ghost p0: Progress, q: Progress, c: Sha,
                     ghost partQ: map<Sha, Part>, ghost universe: set<Sha>, i: nat)
    returns (p: Progress, ghost part: map<Sha, Part>)
    requires Visiting(store, tip, depth, have, p0, q, c, partQ, universe, i) && i < |store[c].parents|
    ensures Visiting(store, tip, depth, have, p0, p, c, part, universe, i + 1)
  {
    p, part := q, partQ;
    var x := store[c].parents[i];
    assert ParentOf(store, c, x);
    if x !in q.dist {
      p, part := SeeParent(store, tip, depth, have, q, c, x, partQ);
      assert |p.dist.Keys| == |q.dist.Keys| + 1;
    }
  }

  /** The parents of the open commit c, each unseen one queued or met; afterwards c is expanded. */
  method VisitParents(store: Store, tip: Sha, depth: int, have: set<Sha>, p0: Progress, c: Sha,
                      ghost part0: map<Sha, Part>, ghost universe: set<Sha>)
    returns (p: Progress, ghost part: map<Sha, Part>)
    requires IsCommit(store, c) && c in p0.dist && c in part0 && part0[c] == Walked && InDepth(depth, p0.dist[c])
    requires WalkInv(store, tip, depth, have, p0, part0, p0.dist[c], {c})
    requires Bounded(store, universe, p0.dist)
    ensures c in p.dist && WalkInv(store, tip, depth, have, p, part, p.dist[c], {})
    ensures Bounded(store, universe, p.dist)
    ensures |p.dist| > |p0.dist| || p == p0
  {
    p, part := p0, part0;
    for i := 0 to |store[c].parents|
      invariant Visiting(store, tip, depth, have, p0, p, c, part, universe, i)
    {
      p, part := VisitParent(store, tip, depth, have, p0, p, c, part, universe, i);
    }
    Closed(store, depth, p.dist, part, c);
  }

  lemma Closed(store: Store, depth: int, dist: map<Sha, nat>, part: map<Sha, Part>, c: Sha)
    requires IsCommit(store, c) && c in dist
    requires ExpandedInv(store, depth, dist, part, {c})
    requires forall j :: 0 <= j < |store[c].parents| ==> store[c].parents[j] in dist
    requires forall x {:trigger dist[x]} :: x in dist ==> dist[x] <= dist[c] + 1
    ensures ExpandedInv(store, depth, dist, part, {})
  {
  }

  lemma StartInv(store: Store, tip: Sha, depth: int, have: set<Sha>, p: Progress, part: map<Sha, Part>)
    requires tip in have ==> p == Progress(map[tip := 1], [], [], [], [tip])
    requires tip !in have ==> p == Progress(map[tip := 1], [tip], [], [], [])
    requires part == map[tip := if tip in have then Met else Queued]
    ensures WalkInv(store, tip, depth, have, p, part, 1, {})
  {
    assert Steps(store, have, tip, 0, tip);
    assert Located(store, have, tip, p.dist, tip);
  }

  /** The invariant with an empty queue is the graph statement of the walk. */
  lemma WalkDone(store: Store, tip: Sha, depth: int, clientShallow: seq<Sha>, have: set<Sha>,
                 p: Progress, part: map<Sha, Part>, base: nat, w: Walk)
    requires WalkInv(store, tip, depth, have, p, part, base, {}) && p.queue == []
    requires w == Walk(p.commits, p.shallow, Select(clientShallow, p.dist.Keys, p.shallow), p.boundary)
    ensures WalkSpec(store, tip, depth, clientShallow, have, w)
  {
    forall y | y in p.dist && y !in have
      ensures y in part && part[y] == Walked
    {
      assert part[y] == Queued ==> y in p.queue;
    }
    forall x
      ensures x in p.dist.Keys <==> Reached(store, tip, depth, have, x)
    {
      if x in p.dist {
        SeenReached(store, tip, depth, have, p.dist, part, x);
      } else if Reached(store, tip, depth, have, x) {
        ReachedSeen(store, tip, depth, have, p.dist, part, x);
      }
    }
    assert IsReachedSet(store, tip, depth, have, p.dist.Keys);
    forall x | depth > 0 && x in p.dist
      ensures !InDepth(depth, p.dist[x]) <==> Distance(store, tip, have, depth - 1, x)
    {
      SeenDistance(store, tip, depth, have, p.dist, part, x);
    }
  }

  /** The client's shallow commits the walk saw and did not cut. */
  method Unshallow(clientShallow: seq<Sha>, seen: set<Sha>, shallow: seq<Sha>) returns (unshallow: seq<Sha>)
    ensures unshallow == Select(clientShallow, seen, shallow)
  {
    unshallow := [];
    for i := 0 to |clientShallow|
      invariant unshallow + Select(clientShallow[i..], seen, shallow) == Select(clientShallow, seen, shallow)
    {
      var cs := clientShallow[i];
      assert clientShallow[i..][1..] == clientShallow[i + 1..];
      if cs in seen && cs !in shallow {
        Reassociate(unshallow, [cs], Select(clientShallow[i + 1..], seen, shallow));
        unshallow := unshallow + [cs];
      }
    }
  }

  /**
    Breadth-first walk from tip. It stops at the commits in have and at the depth.
    It fails only on a commit it must read that is missing or is not a commit.
   */
  method WalkCommits(store: Store, tip: Sha, depth: int, clientShallow: seq<Sha>, have: set<Sha>)
    returns (r: Result<Walk, WalkError>)
    ensures r.Ok? ==> WalkSpec(store, tip, depth, clientShallow, have, r.value)
    ensures r.Err? ==>
            Reached(store, tip, depth, have, r.error.sha) && r.error.sha !in have && !IsCommit(store, r.error.sha)
  {
    var p := Progress(map[tip := 1], [], [], [], []);
    if tip in have {
      p := p.(boundary := [tip]);
    } else {
      p := p.(queue := [tip]);
    }
    ghost var part: map<Sha, Part> := map[tip := if tip in have then Met else Queued];
    ghost var base: nat := 1;
    ghost var universe := SomeUniverse(store, tip);
    StartInv(store, tip, depth, have, p, part);

    while |p.queue| > 0
      invariant WalkInv(store, tip, depth, have, p, part, base, {})
      invariant Bounded(store, universe, p.dist)
      decreases |universe| - |p.dist|, |p.queue|
    {
      SubsetSize(p.dist.Keys, universe);
      var c := p.queue[0];
      if !IsCommit(store, c) {
        assert c in p.queue;
        SeenReached(store, tip, depth, have, p.dist, part, c);
        return Err(NotACommit(c));
      }
      p, part := WalkHead(store, tip, depth, have, p, part, base);
      if InDepth(depth, p.dist[c]) {
        p, part := VisitParents(store, tip, depth, have, p, c, part, universe);
        SubsetSize(p.dist.Keys, universe);
      }
      base := p.dist[c];
    }

    var unshallow := Unshallow(clientShallow, p.dist.Keys, p.shallow);
    var w := Walk(p.commits, p.shallow, unshallow, p.boundary);
    WalkDone(store, tip, depth, clientShallow, have, p, part, base, w);
    return Ok(w);
  }

  // ---- the negotiation probe ----

  /** The seen commits are ancestors of the tip; `seen` tells whether one is still queued. */
  ghost predicate ProbeInv(store: Store, tip: Sha, have: set<Sha>, queue: seq<Sha>, seen: map<Sha, bool>,
                           open: set<Sha>) {
    && tip in seen
    && (forall x {:trigger Ancestor(store, tip, x)} :: x in seen ==> Ancestor(store, tip, x))
    && NoDup(queue) && (forall x :: x in queue <==> x in seen && seen[x])
    && (forall x {:trigger seen[x]} :: x in seen && !seen[x] ==> x !in have && IsCommit(store, x))
    && (forall x, p {:trigger ParentOf(store, x, p)} :: x in seen && !seen[x] && x !in open && ParentOf(store, x, p) ==>
          p in seen)
  }

  lemma ProbePop(store: Store, tip: Sha, have: set<Sha>, queue: seq<Sha>, seen: map<Sha, bool>)
    requires ProbeInv(store, tip, have, queue, seen, {}) && queue != []
    requires queue[0] !in have && IsCommit(store, queue[0])
    ensures queue[0] in seen && ProbeInv(store, tip, have, queue[1..], seen[queue[0] := false], {queue[0]})
  {
    assert queue[0] in queue && queue == [queue[0]] + queue[1..];
  }

  lemma ProbeAdd(store: Store, tip: Sha, have: set<Sha>, queue: seq<Sha>, seen: map<Sha, bool>, c: Sha, x: Sha)
    requires ProbeInv(store, tip, have, queue, seen, {c}) && c in seen && ParentOf(store, c, x) && x !in seen
    ensures ProbeInv(store, tip, have, queue + [x], seen[x := true], {c})
  {
    assert Ancestor(store, tip, c);
    AncestorParent(store, tip, c, x);
    assert x !in queue;
  }

  /** When the queue is empty no ancestor of the tip is in have. */
  lemma {:induction false} ProbeDone(store: Store, tip: Sha, have: set<Sha>, seen: map<Sha, bool>, n: nat, x: Sha)
    requires ProbeInv(store, tip, have, [], seen, {}) && Steps(store, {}, tip, n, x)
    ensures x in seen && !seen[x]
  {
    if n > 0 {
      var y :| Steps(store, {}, tip, n - 1, y) && ParentOf(store, y, x);
      ProbeDone(store, tip, have, seen, n - 1, y);
    }
    assert seen[x] ==> x in [];
  }

  /** Whether a commit in have is the tip or one of its ancestors; the probe stops at the first one it meets. */
  method ReachesAny(store: Store, tip: Sha, have: set<Sha>) returns (r: Result<bool, WalkError>)
    ensures r.Ok? ==> (r.value <==> exists h :: h in have && Ancestor(store, tip, h))
    ensures r.Err? ==> Ancestor(store, tip, r.error.sha) && !IsCommit(store, r.error.sha)
  {
    var queue, seen := [tip], map[tip := true];
    AncestorSelf(store, tip);
    ghost var universe := SomeUniverse(store, tip);
    while |queue| > 0
      invariant ProbeInv(store, tip, have, queue, seen, {})
      invariant seen.Keys <= universe
      decreases |universe| - |seen|, |queue|
    {
      SubsetSize(seen.Keys, universe);
      var c := queue[0];
      assert c in queue && Ancestor(store, tip, c);
      if c in have {
        return Ok(true);
      }
      if !IsCommit(store, c) {
        return Err(NotACommit(c));
      }
      ProbePop(store, tip, have, queue, seen);
      ghost var before := seen;
      queue, seen := queue[1..], seen[c := false];
      assert seen.Keys == before.Keys;
      queue, seen := ProbeParents(store, tip, have, queue, seen, c, universe);
      SubsetSize(seen.Keys, universe);
    }
    forall h | h in have
      ensures !Ancestor(store, tip, h)
    {
      if Ancestor(store, tip, h) {
        var n: nat :| Steps(store, {}, tip, n, h);
        ProbeDone(store, tip, have, seen, n, h);
      }
    }
    return Ok(false);
  }

  method ProbeParents(store: Store, tip: Sha, have: set<Sha>, queue0: seq<Sha>, seen0: map<Sha, bool>, c: Sha,
                      ghost universe: set<Sha>)
    returns (queue: seq<Sha>, seen: map<Sha, bool>)
    requires IsCommit(store, c) && c in seen0 && ProbeInv(store, tip, have, queue0, seen0, {c})
    requires forall q, p {:trigger ParentOf(store, q, p)} :: ParentOf(store, q, p) ==> p in universe
    requires seen0.Keys <= universe
    ensures ProbeInv(store, tip, have, queue, seen, {}) && seen.Keys <= universe
    ensures |seen| > |seen0| || (seen == seen0 && queue == queue0)
  {
    queue, seen := queue0, seen0;
    var parents := store[c].parents;
    for i := 0 to |parents|
      invariant c in seen && ProbeInv(store, tip, have, queue, seen, {c})
      invariant seen.Keys <= universe
      invariant forall j :: 0 <= j < i ==> parents[j] in seen
      invariant |seen| > |seen0| || (seen == seen0 && queue == queue0)
    {
      var x := parents[i];
      assert ParentOf(store, c, x);
      if x !in seen {
        ProbeAdd(store, tip, have, queue, seen, c, x);
        queue, seen := queue + [x], seen[x := true];
      }
    }
  }

  // ---- what the walk's graph statement gives a fetch ----

  /**
    The unbounded walk meets a commit of the client exactly when one is the tip or one of its
    ancestors, which is what the negotiation probe answers.
   */
  lemma BoundaryIffReachable(store: Store, tip: Sha, clientShallow: seq<Sha>, have: set<Sha>, w: Walk)
    requires WalkSpec(store, tip, 0, clientShallow, have, w)
    ensures w.boundary != [] <==> exists h :: h in have && Ancestor(store, tip, h)
  {
    if w.boundary != [] {
      var h := w.boundary[0];
      assert h in w.boundary;
      var n: nat :| InDepth(0, n) && Steps(store, have, tip, n, h);
      StepsWeaken(store, have, tip, n, h);
    }
    if h :| h in have && Ancestor(store, tip, h) {
      var n: nat :| Steps(store, {}, tip, n, h);
      StepsAvoidOrHit(store, have, tip, n, h);
      if Steps(store, have, tip, n, h) {
        assert InDepth(0, n) && Reached(store, tip, 0, have, h);
      } else {
        var m: nat, g :| m < n && g in have && Steps(store, have, tip, m, g) && Ancestor(store, g, h);
        assert InDepth(0, m) && Reached(store, tip, 0, have, g);
      }
    }
  }

  /** Every path has a shortest one. */
  lemma {:induction false} ShortestPath(store: Store, tip: Sha, have: set<Sha>, n: nat, x: Sha) returns (m: nat)
    requires Steps(store, have, tip, n, x)
    ensures m <= n && Distance(store, tip, have, m, x)
  {
    if k: nat :| k < n && Steps(store, have, tip, k, x) {
      m := ShortestPath(store, tip, have, k, x);
    } else {
      m := n;
    }
  }

  /**
    The depth-bounded walk of a client with no common commit: the commits at shortest distance
    below the depth, the last layer's commits with parents shallow, and every commit reported
    unshallow with all its parents in the result.
   */
  lemma DepthWalk(store: Store, tip: Sha, depth: int, clientShallow: seq<Sha>, w: Walk)
    requires depth > 0 && WalkSpec(store, tip, depth, clientShallow, {}, w)
    ensures forall x :: x in w.commits <==> exists n: nat :: n < depth && Distance(store, tip, {}, n, x)
    ensures forall x :: x in w.shallow <==>
            Distance(store, tip, {}, depth - 1, x) && IsCommit(store, x) && store[x].parents != []
    ensures forall x :: x in w.unshallow <==> x in clientShallow && x in w.commits && x !in w.shallow
    ensures forall x, p :: x in w.unshallow && ParentOf(store, x, p) ==> x in w.commits && p in w.commits
  {
    forall x
      ensures x in w.unshallow <==> x in clientShallow && x in w.commits && x !in w.shallow
    {
      UnshallowIff(store, tip, depth, clientShallow, w, x);
    }
    forall x
      ensures x in w.commits <==> exists n: nat :: n < depth && Distance(store, tip, {}, n, x)
    {
      if x in w.commits {
        var n: nat :| InDepth(depth, n) && Steps(store, {}, tip, n, x);
        var m := ShortestPath(store, tip, {}, n, x);
      }
      if n: nat :| n < depth && Distance(store, tip, {}, n, x) {
        assert InDepth(depth, n) && Reached(store, tip, depth, {}, x);
      }
    }
    forall x, p | x in w.unshallow && ParentOf(store, x, p)
      ensures x in w.commits && p in w.commits
    {
      UnshallowParents(store, tip, depth, clientShallow, w, x, p);
    }
  }

  lemma UnshallowIff(store: Store, tip: Sha, depth: int, clientShallow: seq<Sha>, w: Walk, x: Sha)
    requires WalkSpec(store, tip, depth, clientShallow, {}, w)
    ensures x in w.unshallow <==> x in clientShallow && x in w.commits && x !in w.shallow
  {
    var seen: set<Sha> :| IsReachedSet(store, tip, depth, {}, seen)
        && w.unshallow == Select(clientShallow, seen, w.shallow);
    SelectOnly(clientShallow, seen, w.shallow, x);
  }

  lemma UnshallowParents(store: Store, tip: Sha, depth: int, clientShallow: seq<Sha>, w: Walk, x: Sha, p: Sha)
    requires depth > 0 && WalkSpec(store, tip, depth, clientShallow, {}, w)
    requires x in w.unshallow && ParentOf(store, x, p)
    ensures x in w.commits && p in w.commits
  {
    var seen: set<Sha> :| IsReachedSet(store, tip, depth, {}, seen)
        && w.unshallow == Select(clientShallow, seen, w.shallow);
    SelectOnly(clientShallow, seen, w.shallow, x);
    var n: nat :| InDepth(depth, n) && Steps(store, {}, tip, n, x);
    var m := ShortestPath(store, tip, {}, n, x);
    assert m < depth - 1;
    assert Steps(store, {}, tip, m + 1, p) && InDepth(depth, m + 1);
  }

  lemma {:induction false} SelectOnly(s: seq<Sha>, seen: set<Sha>, cut: seq<Sha>, x: Sha)
    ensures x in Select(s, seen, cut) <==> x in s && x in seen && x !in cut
  {
    if s != [] {
      SelectOnly(s[1..], seen, cut, x);
    }
  }
}
