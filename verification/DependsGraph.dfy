/**
  The dependency graph over project ids. Stored lists name projects, so an edge goes through
  name resolution; the search that refuses a cycle and the install closure both walk names.
 */
module DependsGraph {
  import opened Wrappers
  import opened DependsText
  import opened Registry
  import opened Graph

  /** Some stored dependency of a resolves to b. */
  ghost predicate Edge(s: Reg, a: int, b: int) {
    a in s.projects && exists n :: n in Deps(s.projects[a]) && Resolve(s, n) == Some(b)
  }

  ghost function Edges(s: Reg): (int, int) -> bool {
    (a, b) => Edge(s, a, b)
  }

  /** With live dependencies, an edge is a stored current name. */
  lemma EdgeIff(s: Reg, a: int, b: int)
    requires Inv(s)
    ensures Edge(s, a, b) <==> a in s.projects && b in s.projects && b != a && s.projects[b].name in Deps(s.projects[a])
  {
    if a in s.projects && b in s.projects && s.projects[b].name in Deps(s.projects[a]) {
      var n := s.projects[b].name;
      assert Named(s, n, b);
      ResolveIff(s, n, b);
      assert OwnDepsLive(s, a, Deps(s.projects[a]));
      assert DepLive(s, a, n);
    }
    if Edge(s, a, b) {
      var n :| n in Deps(s.projects[a]) && Resolve(s, n) == Some(b);
      assert OwnDepsLive(s, a, Deps(s.projects[a]));
      DepResolves(s, a, n, b);
    }
  }

  lemma DepResolves(s: Reg, a: int, n: string, b: int)
    requires UniqueNames(s) && AliasesApart(s) && DepLive(s, a, n) && Resolve(s, n) == Some(b)
    ensures Named(s, n, b) && b != a
  {
    var x :| Named(s, n, x) && x != a;
    ResolveIff(s, n, x);
  }

  // ---- steps on the graph ----

  lemma CreateEdges(s: Reg, name: string, repoId: string, semver: bool, a: int, b: int)
    requires Inv(s) && Resolve(s, name) == None && IsName(name)
    ensures Edge(Created(s, name, repoId, semver), a, b) ==> Edge(s, a, b)
  {
    var s' := Created(s, name, repoId, semver);
    CreateKeeps(s, name, repoId, semver);
    EdgeIff(s, a, b);
    EdgeIff(s', a, b);
    NoneIff(s, name);
    if a in s.projects {
      NotADep(s, a, name);
    }
  }

  /** A name no project has is in no stored list. */
  lemma NotADep(s: Reg, a: int, name: string)
    requires DepsLive(s) && a in s.projects && forall b :: !Named(s, name, b)
    ensures name !in Deps(s.projects[a])
  {
    assert OwnDepsLive(s, a, Deps(s.projects[a]));
    assert !DepLive(s, a, name);
  }

  /** A guarded rename changes no edge: every dependent follows it. */
  lemma RenameEdges(s: Reg, id: int, name: string, a: int, b: int)
    requires Inv(s) && id in s.projects && name != s.projects[id].name && IsName(name) && NameAvailableTo(s, name, id)
    ensures Edge(Renamed(s, id, name), a, b) <==> Edge(s, a, b)
  {
    var s' := Renamed(s, id, name);
    RenameKeepsNames(s, id, name);
    RenameKeepsDeps(s, id, name);
    EdgeIff(s, a, b);
    EdgeIff(s', a, b);
    if a in s.projects && b in s.projects && a != b {
      RenamedDep(s, id, name, a, b);
    }
  }

  lemma RenamedDep(s: Reg, id: int, name: string, a: int, b: int)
    requires Inv(s) && id in s.projects && name != s.projects[id].name && IsName(name) && NameAvailableTo(s, name, id)
    requires a in s.projects && b in s.projects && a != b
    ensures Renamed(s, id, name).projects[b].name in Deps(Renamed(s, id, name).projects[a]) <==>
            s.projects[b].name in Deps(s.projects[a])
  {
    AvailableIff(s, name, id);
    NamesOf(s, a);
    NotADep(s, a, name);
    RenamedRow(s, id, name, a, if b == id then name else s.projects[b].name);
    if b != id {
      assert !Named(s, name, b);
    }
  }

  lemma RenamedRow(s: Reg, id: int, name: string, a: int, n: string)
    requires id in s.projects && a in s.projects && AreNames(Deps(s.projects[a])) && IsName(name)
    requires IsName(s.projects[id].name)
    ensures var deps, oldName := Deps(s.projects[a]), s.projects[id].name;
      n in Deps(Renamed(s, id, name).projects[a])
      <==> (n != oldName && n in deps) || (n == name && oldName in deps && a != id)
  {
    FollowedDeps(s.projects[a], a == id, s.projects[id].name, name, n);
    FollowedDeps(s.projects[a].(name := name), a == id, s.projects[id].name, name, n);
  }

  /** Some project in names leads back to id. */
  ghost predicate LeadsBack(s: Reg, names: seq<string>, id: int) {
    exists n, d :: n in names && Resolve(s, n) == Some(d) && Reaches(Edges(s), d, id)
  }

  lemma SetDependsEdges(s: Reg, id: int, names: seq<string>, a: int, b: int)
    requires Inv(s) && id in s.projects && CanonicalDeps(s, id, names)
    ensures a != id ==> (Edge(DependsSet(s, id, names), a, b) <==> Edge(s, a, b))
    ensures Edge(DependsSet(s, id, names), id, b) <==> b in s.projects && b != id && s.projects[b].name in names
  {
    SetDependsKeeps(s, id, names);
    EdgeIff(s, a, b);
    EdgeIff(DependsSet(s, id, names), a, b);
    EdgeIff(DependsSet(s, id, names), id, b);
  }

  /** A new dependency of id is one of the names. */
  lemma NewDep(s: Reg, id: int, names: seq<string>, d: int)
    requires Inv(s) && id in s.projects && CanonicalDeps(s, id, names)
    ensures Edge(DependsSet(s, id, names), id, d) <==> exists n :: n in names && Resolve(s, n) == Some(d)
  {
    SetDependsEdges(s, id, names, id, d);
    if d in s.projects && s.projects[d].name in names {
      ResolveIff(s, s.projects[d].name, d);
    }
    if n :| n in names && Resolve(s, n) == Some(d) {
      assert DepLive(s, id, n);
      DepResolves(s, id, n, d);
    }
  }

  /** Storing dependencies keeps the graph acyclic exactly when none of them leads back: the refusal is exact. */
  lemma SetDependsAcyclic(s: Reg, id: int, names: seq<string>)
    requires Inv(s) && id in s.projects && CanonicalDeps(s, id, names) && Acyclic(Edges(s))
    ensures Acyclic(Edges(DependsSet(s, id, names))) <==> !LeadsBack(s, names, id)
  {
    var e, e' := Edges(s), Edges(DependsSet(s, id, names));
    forall x, y | x != id
      ensures e(x, y) == e'(x, y)
    {
      SetDependsEdges(s, id, names, x, y);
    }
    ReplaceOut(e, e', id);
    forall d
      ensures e'(id, d) <==> exists n :: n in names && Resolve(s, n) == Some(d)
    {
      NewDep(s, id, names, d);
    }
  }

  // ---- acyclicity over runs without merges ----

  ghost predicate GuardedStep(s: Reg, a: Action, s': Reg) {
    Step(s, a, s') && !a.Merge? && (a.SetDepends? ==> !LeadsBack(s, a.names, a.id))
  }

  lemma StepAcyclic(s: Reg, a: Action, s': Reg)
    requires Inv(s) && Acyclic(Edges(s)) && GuardedStep(s, a, s')
    ensures Acyclic(Edges(s'))
  {
    match a
    case Create(name, repoId, semver) =>
      forall x, y
        ensures Edge(s', x, y) ==> Edge(s, x, y)
      {
        CreateEdges(s, name, repoId, semver, x, y);
      }
      SubgraphAcyclic(Edges(s'), Edges(s));
    case Rename(id, name) =>
      forall x, y
        ensures Edge(s', x, y) ==> Edge(s, x, y)
      {
        RenameEdges(s, id, name, x, y);
      }
      SubgraphAcyclic(Edges(s'), Edges(s));
    case SetDepends(id, names) =>
      SetDependsAcyclic(s, id, names);
  }

  ghost predicate GuardedAt(states: seq<Reg>, actions: seq<Action>, i: int) {
    0 <= i < |actions| && i + 1 < |states| && GuardedStep(states[i], actions[i], states[i + 1])
  }

  ghost predicate IsGuardedRun(states: seq<Reg>, actions: seq<Action>) {
    && |states| == |actions| + 1 && states[0] == Empty
    && forall i {:trigger GuardedAt(states, actions, i)} :: 0 <= i < |actions| ==> GuardedAt(states, actions, i)
  }

  lemma EmptyAcyclic()
    ensures Inv(Empty) && Acyclic(Edges(Empty))
  {
    var e := Edges(Empty);
    forall n: nat, a | n > 0
      ensures !Walk(e, n, a, a)
    {
      assert forall y :: !e(y, a);
    }
  }

  /** The dependency graph is acyclic over every run of creations, guarded renames and depends updates. */
  lemma {:induction false} RunAcyclic(states: seq<Reg>, actions: seq<Action>, i: nat)
    requires IsGuardedRun(states, actions) && i < |states|
    ensures Inv(states[i]) && Acyclic(Edges(states[i]))
  {
    if i == 0 {
      EmptyAcyclic();
    } else {
      RunAcyclic(states, actions, i - 1);
      assert GuardedAt(states, actions, i - 1);
      StepKeeps(states[i - 1], actions[i - 1], states[i]);
      StepAcyclic(states[i - 1], actions[i - 1], states[i]);
    }
  }
}
