/** The projects an install adds repositories for: everything reachable over stored dependencies. */
module InstallClosure {
  import opened Wrappers
  import opened Strings
  import opened Sorting
  import opened Registry
  import opened Graph
  import opened DependsGraph
  import opened ProjectStore

  /** A stored name along the way no longer resolves. */
  ghost predicate Broken(s: Reg, id: int) {
    exists x, n :: Reaches(Edges(s), id, x) && x in s.projects && n in Deps(s.projects[x]) && Resolve(s, n) == None
  }

  /** The name resolves to a project already collected. */
  ghost predicate Settled(s: Reg, n: string, seen: set<int>) {
    Resolve(s, n).Some? && Resolve(s, n).value in seen
  }

  ghost predicate Stored(s: Reg, n: string, seen: set<int>) {
    exists x :: x in seen && x in s.projects && n in Deps(s.projects[x])
  }

  ghost predicate Collecting(s: Reg, id: int, seen: set<int>, queue: seq<string>) {
    && id in seen
    && (forall x :: x in seen ==> x in s.projects && Reaches(Edges(s), id, x))
    && (forall x, n :: x in seen && x in s.projects && n in Deps(s.projects[x]) ==> n in queue || Settled(s, n, seen))
    && (forall n :: n in queue ==> Stored(s, n, seen))
  }

  lemma CollectSkip(s: Reg, id: int, seen: set<int>, queue: seq<string>)
    requires queue != [] && Collecting(s, id, seen, queue) && Settled(s, queue[0], seen)
    ensures Collecting(s, id, seen, queue[1..])
  {
    assert queue == [queue[0]] + queue[1..];
  }

  lemma CollectGrow(s: Reg, id: int, seen: set<int>, queue: seq<string>, p: int)
    requires queue != [] && Collecting(s, id, seen, queue) && Resolve(s, queue[0]) == Some(p) && p in s.projects
    ensures Collecting(s, id, seen + {p}, queue[1..] + Deps(s.projects[p]))
  {
    assert queue == [queue[0]] + queue[1..];
    var queue', seen' := queue[1..] + Deps(s.projects[p]), seen + {p};
    StoredReaches(s, id, seen, queue, p);
    forall x, n | x in seen' && x in s.projects && n in Deps(s.projects[x])
      ensures n in queue' || Settled(s, n, seen')
    {
      if x in seen && n !in queue {
        assert Settled(s, n, seen);
      }
    }
    forall n | n in queue'
      ensures Stored(s, n, seen')
    {
      if n in queue {
        assert Stored(s, n, seen);
      }
    }
  }

  lemma StoredReaches(s: Reg, id: int, seen: set<int>, queue: seq<string>, p: int)
    requires queue != [] && Collecting(s, id, seen, queue) && Resolve(s, queue[0]) == Some(p)
    ensures Reaches(Edges(s), id, p)
  {
    assert Stored(s, queue[0], seen);
    var x :| x in seen && x in s.projects && queue[0] in Deps(s.projects[x]);
    assert Edges(s)(x, p);
    ReachesEdge(Edges(s), id, x, p);
  }

  lemma StoredBroken(s: Reg, id: int, seen: set<int>, queue: seq<string>)
    requires queue != [] && Collecting(s, id, seen, queue) && Resolve(s, queue[0]) == None
    ensures Broken(s, id)
  {
    assert Stored(s, queue[0], seen);
    var x :| x in seen && x in s.projects && queue[0] in Deps(s.projects[x]);
    assert Reaches(Edges(s), id, x);
  }

  /** With nothing left to look up, every edge from a collected project leads to one. */
  lemma CollectedNext(s: Reg, id: int, seen: set<int>, x: int, y: int)
    requires Collecting(s, id, seen, []) && x in seen && Edge(s, x, y)
    ensures y in seen
  {
    var n :| n in Deps(s.projects[x]) && Resolve(s, n) == Some(y);
    assert Settled(s, n, seen);
  }

  lemma CollectedExact(s: Reg, id: int, seen: set<int>)
    requires Collecting(s, id, seen, [])
    ensures forall y :: y in seen <==> Reaches(Edges(s), id, y)
    ensures !Broken(s, id)
  {
    var e := Edges(s);
    forall x, y | x in seen && e(x, y)
      ensures y in seen
    {
      CollectedNext(s, id, seen, x, y);
    }
    forall y | Reaches(e, id, y)
      ensures y in seen
    {
      var k: nat :| Walk(e, k, id, y);
      ClosedHolds(e, seen, k, id, y);
    }
    forall x, n | Reaches(Edges(s), id, x) && x in s.projects && n in Deps(s.projects[x])
      ensures Resolve(s, n) != None
    {
      assert Settled(s, n, seen);
    }
  }

  function NameOf(s: Reg): int -> string {
    (x: int) => if x in s.projects then s.projects[x].name else ""
  }

  /** The found projects, once each. */
  ghost predicate Found(s: Reg, id: int, seen: set<int>, deps: seq<int>) {
    && (forall x :: x in deps <==> x in seen && x != id)
    && NoDup(deps)
  }

  ghost predicate Unseen(s: Reg, seen: set<int>, unseen: set<int>) {
    forall x :: x in s.projects ==> x in seen || x in unseen
  }

  lemma FoundGrow(s: Reg, id: int, seen: set<int>, deps: seq<int>, unseen: set<int>, p: int)
    requires Found(s, id, seen, deps) && Unseen(s, seen, unseen) && p in s.projects && p !in seen && id in seen
    ensures Found(s, id, seen + {p}, deps + [p]) && Unseen(s, seen + {p}, unseen - {p})
    ensures |unseen - {p}| < |unseen|
  {
  }

  lemma FoundSorted(s: Reg, id: int, seen: set<int>, deps: seq<int>)
    requires UniqueNames(s) && Found(s, id, seen, deps) && forall x :: x in seen ==> x in s.projects
    ensures StrictBy(NameOf(s), SortBy(NameOf(s), deps)) && forall x :: x in SortBy(NameOf(s), deps) <==>
            x in seen && x != id
  {
    forall i, j | 0 <= i < j < |deps|
      ensures NameOf(s)(deps[i]) != NameOf(s)(deps[j])
    {
      var a, b := deps[i], deps[j];
      assert a in seen && b in seen && a != b;
    }
    SortDistinct(NameOf(s), deps);
  }

  /**
    Every project reachable from id over stored dependencies, sorted by name; None when a name
    along the way resolves to nothing.
   */
  method DependsClosure(s: Reg, id: int) returns (r: Option<seq<int>>)
    requires UniqueNames(s) && id in s.projects
    ensures r.None? <==> Broken(s, id)
    ensures r.Some? ==> forall x :: x in r.value <==> x != id && Reaches(Edges(s), id, x)
    ensures r.Some? ==> forall x :: x in r.value ==> x in s.projects
    ensures r.Some? ==> forall i, j :: 0 <= i < j < |r.value| ==>
              var a, b := r.value[i], r.value[j];
              a in s.projects && b in s.projects && Less(s.projects[a].name, s.projects[b].name)
  {
    var seen := {id};
    var deps: seq<int> := [];
    var queue := Deps(s.projects[id]);
    ghost var unseen := s.projects.Keys - {id};
    ReachesSelf(Edges(s), id);
    assert forall n :: n in queue ==> Stored(s, n, seen);
    while queue != []
      invariant Collecting(s, id, seen, queue) && Found(s, id, seen, deps)
      invariant Unseen(s, seen, unseen)
      decreases |unseen|, |queue|
    {
      var dep := FindProject(s, queue[0]);
      if dep.None? {
        StoredBroken(s, id, seen, queue);
        return None;
      }
      var p := dep.value;
      if p in seen {
        CollectSkip(s, id, seen, queue);
        queue := queue[1..];
        continue;
      }
      CollectGrow(s, id, seen, queue, p);
      FoundGrow(s, id, seen, deps, unseen, p);
      seen, deps, queue := seen + {p}, deps + [p], queue[1..] + Deps(s.projects[p]);
      unseen := unseen - {p};
    }
    CollectedExact(s, id, seen);
    FoundSorted(s, id, seen, deps);
    return Some(SortBy(NameOf(s), deps));
  }

  /** In a registry whose dependencies are live, no closure ever breaks. */
  lemma NeverBroken(s: Reg, id: int)
    requires Inv(s)
    ensures !Broken(s, id)
  {
    if Broken(s, id) {
      var x, n :| Reaches(Edges(s), id, x) && x in s.projects && n in Deps(s.projects[x]) && Resolve(s, n) == None;
      assert OwnDepsLive(s, x, Deps(s.projects[x]));
      assert DepLive(s, x, n);
      NoneIff(s, n);
      assert false;
    }
  }

  /** dependsClosure never fails in a state some run of guarded operations and merges reaches. */
  lemma RunNeverBroken(states: seq<Reg>, actions: seq<Action>, i: nat, id: int)
    requires IsRun(states, actions) && i < |states|
    ensures !Broken(states[i], id)
  {
    RunKeeps(states, actions, i);
    NeverBroken(states[i], id);
  }
}
