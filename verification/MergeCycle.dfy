/** Merges and the dependency graph: exactly when joining two projects closes a cycle. */
module MergeCycle {
  import opened Strings
  import opened Registry
  import opened Graph
  import opened DependsGraph

  /** What one surviving project stores after the merge. */
  lemma MergedDep(s: Reg, src: int, dst: int, a: int, b: int)
    requires Inv(s) && src in s.projects && dst in s.projects && src != dst
    requires a in s.projects && b in s.projects && a != src && b != src
    ensures var deps, name := Deps(s.projects[a]), s.projects[b].name;
      name in Deps(Merged(s, src, dst).projects[a])
      <==> name in deps || (b == dst && a != dst && s.projects[src].name in deps)
  {
    NamesOf(s, a);
    FollowedDeps(s.projects[a], a == dst, s.projects[src].name, s.projects[dst].name, s.projects[b].name);
  }

  lemma MergedNames(s: Reg, src: int, dst: int, a: int)
    requires src in s.projects && dst in s.projects
    ensures a in Merged(s, src, dst).projects <==> a in s.projects && a != src
    ensures a in s.projects && a != src ==> Merged(s, src, dst).projects[a].name == s.projects[a].name
  {
  }

  lemma MergedEdgeIff(s: Reg, src: int, dst: int, a: int, b: int)
    requires Inv(s) && src in s.projects && dst in s.projects && src != dst
    ensures Edge(Merged(s, src, dst), a, b)
       <==> && a in s.projects && a != src && b in s.projects && b != src && a != b
            && s.projects[b].name in Deps(Merged(s, src, dst).projects[a])
  {
    MergeKeepsNames(s, src, dst);
    MergeKeepsDeps(s, src, dst);
    MergedNames(s, src, dst, a);
    MergedNames(s, src, dst, b);
    EdgeIff(Merged(s, src, dst), a, b);
  }

  /** After the merge a project depends on the target if it did before, or if it depended on the source. */
  lemma MergeEdges(s: Reg, src: int, dst: int, a: int, b: int)
    requires Inv(s) && src in s.projects && dst in s.projects && src != dst
    ensures Edge(Merged(s, src, dst), a, b)
       <==> a != src && b != src && (Edge(s, a, b) || (b == dst && a != dst && Edge(s, a, src)))
  {
    EdgeIff(s, a, b);
    EdgeIff(s, a, src);
    MergedEdgeIff(s, src, dst, a, b);
    if a in s.projects && b in s.projects && a != src && b != src {
      MergedDep(s, src, dst, a, b);
    }
  }

  /** Something the target depends on, at any distance, depends directly on the source. */
  ghost predicate ClosesCycle(s: Reg, src: int, dst: int) {
    exists x :: x != dst && Edge(s, x, src) && Reaches(Edges(s), dst, x)
  }

  /** A merge keeps an acyclic graph acyclic exactly when nothing the target depends on depends on the source. */
  lemma MergeAcyclicIff(s: Reg, src: int, dst: int)
    requires Inv(s) && src in s.projects && dst in s.projects && src != dst && Acyclic(Edges(s))
    ensures Acyclic(Edges(Merged(s, src, dst))) <==> !ClosesCycle(s, src, dst)
  {
    var e, e' := Edges(s), Edges(Merged(s, src, dst));
    forall a, b
      ensures e'(a, b) <==> a != src && b != src && (e(a, b) || (b == dst && a != dst && e(a, src)))
    {
      MergeEdges(s, src, dst, a, b);
    }
    if ClosesCycle(s, src, dst) {
      var x :| x != dst && Edge(s, x, src) && Reaches(e, dst, x);
      var n: nat :| Walk(e, n, dst, x);
      AvoidOrPass(e, e', src, n, dst, x);
      if Reaches(e, src, x) {
        CycleThrough(e, x, src);
      }
      EdgeIff(s, x, src);
      CycleThrough(e', x, dst);
    } else {
      forall n: nat, a | n > 0
        ensures !Walk(e', n, a, a)
      {
        if Walk(e', n, a, a) {
          var x, y, x', y' := CycleUsesNewEdges(e, e', n, a);
        }
      }
    }
  }

  /** Tool "d" depends on "x", which depends on "s": the two repositories to be joined are "d" and "s". */
  const Chain: Reg := Reg(
    map[1 := Project("d", "x", "7", false), 2 := Project("x", "s", "8", false), 3 := Project("s", "", "7", false)],
    map[], 4)

  lemma ChainDeps()
    ensures Deps(Chain.projects[1]) == ["x"] && Deps(Chain.projects[2]) == ["s"] && Deps(Chain.projects[3]) == []
  {
    SplitOne("x", ',');
    SplitOne("s", ',');
  }

  lemma ChainDepsLive()
    ensures DepsLive(Chain)
  {
    ChainDeps();
    assert Named(Chain, "x", 2) && Named(Chain, "s", 3);
    assert OwnDepsLive(Chain, 1, ["x"]);
    assert OwnDepsLive(Chain, 2, ["s"]);
  }

  lemma ChainNames()
    ensures UniqueNames(Chain) && AliasesApart(Chain)
  {
  }

  lemma ChainProper()
    ensures ProperNames(Chain)
  {
  }

  lemma ChainInv()
    ensures Inv(Chain)
  {
    ChainNames();
    ChainProper();
    ChainDepsLive();
  }

  lemma ChainEdges(a: int, b: int)
    ensures Edge(Chain, a, b) <==> (a == 1 && b == 2) || (a == 2 && b == 3)
  {
    ChainInv();
    ChainDeps();
    EdgeIff(Chain, a, b);
  }

  lemma ChainAcyclic()
    ensures Acyclic(Edges(Chain))
  {
    var e := Edges(Chain);
    forall a, b | e(a, b)
      ensures a < b
    {
      ChainEdges(a, b);
    }
    RankAcyclic(e, (x: int) => x);
  }

  lemma ChainCloses()
    ensures ClosesCycle(Chain, 3, 1)
  {
    ChainEdges(1, 2);
    ChainEdges(2, 3);
    ReachesSelf(Edges(Chain), 1);
    ReachesEdge(Edges(Chain), 1, 1, 2);
  }

  /** Merging them turns an acyclic graph into a cyclic one. */
  lemma MergeCanCloseCycle()
    ensures Inv(Chain) && Acyclic(Edges(Chain)) && !Acyclic(Edges(Merged(Chain, 3, 1)))
  {
    ChainInv();
    ChainAcyclic();
    ChainCloses();
    MergeAcyclicIff(Chain, 3, 1);
  }
}
