/** The operations that change the project tables: provisioning, renames, and depends updates. */
module ProjectOps {
  import opened Wrappers
  import opened Strings
  import opened DependsText
  import opened Registry
  import opened Graph
  import opened DependsGraph
  import opened ProjectStore

  /** The name sits under a root the registry mirror keeps for itself. */
  predicate ReservedProjectName(n: string) {
    n[..IndexOf(n, '/')] in {"dockerhub", "ghcr"}
  }

  /** A name a write may provision: slash-separated segments of at most 128 characters, under no reserved root. */
  predicate ValidNamespacedName(n: string) {
    && n != "" && !ReservedProjectName(n) && NameStart(n[0])
    && (forall i :: 0 <= i < |n| ==> n[i] == '/' || NameChar(n[i]))
    && (forall i :: 0 <= i < |n| && n[i] == '/' ==> i + 1 < |n| && NameStart(n[i + 1]))
    && forall i :: 0 <= i < |n| ==> !LongFrom(n, i)
  }

  predicate LongFrom(n: string, i: nat) {
    i + 129 <= |n| && '/' !in n[i..i + 129]
  }

  lemma {:induction false} ReplaceSnoc(names: seq<string>, n: string, oldName: string, replacement: seq<string>)
    ensures Replace(names + [n], oldName, replacement)
         == Replace(names, oldName, replacement) + (if n == oldName then replacement else [n])
  {
    if names != [] {
      assert (names + [n])[0] == names[0] && (names + [n])[1..] == names[1..] + [n];
      ReplaceSnoc(names[1..], n, oldName, replacement);
    }
  }

  /** A dependent's list with the old name replaced; the renamed project itself drops it. */
  method FollowNames(stored: seq<string>, own: bool, oldName: string, newName: string) returns (names: seq<string>)
    ensures names == Replace(stored, oldName, if own then [] else [newName])
  {
    names := [];
    for i := 0 to |stored|
      invariant names == Replace(stored[..i], oldName, if own then [] else [newName])
    {
      ReplaceSnoc(stored[..i], stored[i], oldName, if own then [] else [newName]);
      assert stored[..i + 1] == stored[..i] + [stored[i]];
      if stored[i] != oldName {
        names := names + [stored[i]];
      } else if !own {
        names := names + [newName];
      }
    }
    assert stored[..|stored|] == stored;
  }

  method FollowRow(row: Project, own: bool, oldName: string, newName: string) returns (row': Project)
    requires Probe(row.depends, oldName)
    ensures row' == Followed(row, own, oldName, newName)
  {
    var names := FollowNames(Deps(row), own, oldName, newName);
    row' := row.(depends := JoinDepends(names));
  }

  /** The dependents still to rewrite are as they were; every other row has followed. */
  ghost predicate RowsLeft(rows: map<int, Project>, now: map<int, Project>, todo: set<int>, oldName: string,
                           newName: string, newId: int) {
    && now.Keys == rows.Keys && todo <= rows.Keys
    && (forall id :: id in todo ==> Probe(rows[id].depends, oldName))
    && forall id :: id in rows ==>
          now[id] == if id in todo then rows[id] else Followed(rows[id], id == newId, oldName, newName)
  }

  lemma RowDone(rows: map<int, Project>, now: map<int, Project>, todo: set<int>, oldName: string, newName: string,
                newId: int, id: int)
    requires RowsLeft(rows, now, todo, oldName, newName, newId) && id in todo
    ensures var row := Followed(rows[id], id == newId, oldName, newName);
      RowsLeft(rows, now[id := row], todo - {id}, oldName, newName, newId)
  {
  }

  lemma RowsDone(rows: map<int, Project>, now: map<int, Project>, oldName: string, newName: string, newId: int)
    requires RowsLeft(rows, now, {}, oldName, newName, newId)
    ensures now == RenameDepends(rows, oldName, newName, newId)
  {
  }

  /** Rewrites every stored list that names oldName. */
  method RenameDependsRows(rows: map<int, Project>, oldName: string, newName: string, newId: int)
    returns (now: map<int, Project>)
    ensures now == RenameDepends(rows, oldName, newName, newId)
  {
    now := rows;
    var todo := set id | id in rows && Probe(rows[id].depends, oldName);
    while todo != {}
      invariant RowsLeft(rows, now, todo, oldName, newName, newId)
      decreases |todo|
    {
      var id := AnyOf(todo);
      var row := FollowRow(rows[id], id == newId, oldName, newName);
      RowDone(rows, now, todo, oldName, newName, newId, id);
      now := now[id := row];
      todo := todo - {id};
    }
    RowsDone(rows, now, oldName, newName, newId);
  }

  // ---- declared dependencies ----

  /** Each declared name is valid, leads to a project the caller can read, and not to the project itself. */
  ghost predicate Declarable(s: Reg, id: int, readable: set<int>, n: string) {
    && ValidProjectName(n)
    && match Resolve(s, n)
       case None => false
       case Some(d) => d in readable && d != id
  }

  /** n is the canonical name of a declared project. */
  ghost predicate CanonicalOf(s: Reg, names: seq<string>, n: string) {
    exists m, d :: m in names && Resolve(s, m) == Some(d) && Named(s, n, d)
  }

  /** Canonical names lead back exactly when the declared names do. */
  lemma SameLeads(s: Reg, names: seq<string>, resolved: seq<string>, id: int)
    requires Inv(s) && forall n :: n in resolved <==> CanonicalOf(s, names, n)
    requires forall m :: m in names ==> Resolve(s, m).Some? && Resolve(s, m).value in s.projects
    ensures LeadsBack(s, resolved, id) <==> LeadsBack(s, names, id)
  {
    if LeadsBack(s, resolved, id) {
      var n, d :| n in resolved && Resolve(s, n) == Some(d) && Reaches(Edges(s), d, id);
      var m, e :| m in names && Resolve(s, m) == Some(e) && Named(s, n, e);
      ResolveIff(s, n, e);
    }
    if LeadsBack(s, names, id) {
      var m, d :| m in names && Resolve(s, m) == Some(d) && Reaches(Edges(s), d, id);
      var n := s.projects[d].name;
      assert Named(s, n, d);
      assert CanonicalOf(s, names, n);
      ResolveIff(s, n, d);
    }
  }

  /** What stopped the declaration. */
  ghost predicate Refused(s: Reg, id: int, names: seq<string>, readable: set<int>, e: DependsError) {
    match e
    case TooMany => |names| > MaxDepends
    case BadName(n) => n in names && !ValidProjectName(n)
    case Unknown(n) => n in names && (Resolve(s, n) == None || Resolve(s, n).value !in readable)
    case OnItself => exists n :: n in names && Resolve(s, n) == Some(id)
    case Cycle => LeadsBack(s, names, id)
  }

  /** One canonical name for each declared name, in order. */
  ghost predicate ResolvedSoFar(s: Reg, names: seq<string>, resolved: seq<string>) {
    |resolved| == |names|
    && forall n :: n in resolved <==> CanonicalOf(s, names, n)
  }

  lemma ResolvedSnoc(s: Reg, names: seq<string>, resolved: seq<string>, m: string, d: int)
    requires ResolvedSoFar(s, names, resolved) && Resolve(s, m) == Some(d) && d in s.projects
    ensures ResolvedSoFar(s, names + [m], resolved + [s.projects[d].name])
  {
    var names', resolved' := names + [m], resolved + [s.projects[d].name];
    forall n
      ensures n in resolved' <==> CanonicalOf(s, names', n)
    {
      if n in resolved {
        var x, y :| x in names && Resolve(s, x) == Some(y) && Named(s, n, y);
        assert x in names';
      }
      if n == s.projects[d].name {
        assert m in names' && Named(s, n, d);
      }
      if CanonicalOf(s, names', n) && n != s.projects[d].name {
        var x, y :| x in names' && Resolve(s, x) == Some(y) && Named(s, n, y);
        assert x in names;
      }
    }
  }

  /** A list the limit allows, of declarable names, none of which leads back. */
  ghost predicate Acceptable(s: Reg, id: int, names: seq<string>, readable: set<int>) {
    && |names| <= MaxDepends && !LeadsBack(s, names, id)
    && forall n :: n in names ==> Declarable(s, id, readable, n)
  }

  /** A declaration is accepted exactly when none of the five reasons to refuse it holds. */
  lemma AcceptableSays(s: Reg, id: int, names: seq<string>, readable: set<int>)
    ensures Acceptable(s, id, names, readable) <==>
            && |names| <= 32
            && (forall n :: n in names ==> ValidProjectName(n))
            && (forall n :: n in names ==> Resolve(s, n).Some? && Resolve(s, n).value in readable)
            && (forall n :: n in names ==> Resolve(s, n) != Some(id))
            && (forall n, d :: n in names && Resolve(s, n) == Some(d) ==> !Reaches(Edges(s), d, id))
  {
    if Acceptable(s, id, names, readable) {
      forall n | n in names
        ensures ValidProjectName(n) && Resolve(s, n).Some? && Resolve(s, n).value in readable
        ensures Resolve(s, n) != Some(id)
      {
        assert Declarable(s, id, readable, n);
      }
    }
  }

  /** Each reason given is one that holds, and is about a declared name. */
  lemma RefusedSays(s: Reg, id: int, names: seq<string>, readable: set<int>, e: DependsError)
    requires Refused(s, id, names, readable, e)
    ensures e == TooMany ==> |names| > 32
    ensures e.BadName? ==> e.name in names && !ValidProjectName(e.name)
    ensures e.Unknown? ==> e.name in names && (Resolve(s, e.name).Some? ==> Resolve(s, e.name).value !in readable)
    ensures e == OnItself ==> exists n :: n in names && Resolve(s, n) == Some(id)
    ensures e == Cycle ==> exists n, d :: n in names && Resolve(s, n) == Some(d) && Reaches(Edges(s), d, id)
  {
  }

  /** Turns declared names into canonical ones, or says why the declaration is refused. */
  method ResolveDepends(s: Reg, id: int, names: seq<string>, readable: set<int>)
    returns (r: Result<seq<string>, DependsError>)
    requires Inv(s) && id in s.projects
    ensures r.Ok? <==> Acceptable(s, id, names, readable)
    ensures r.Ok? ==> StrictlyAscending(r.value) && forall n :: n in r.value <==> CanonicalOf(s, names, n)
    ensures r.Ok? ==> CanonicalDeps(s, id, r.value) && !LeadsBack(s, r.value, id) && |r.value| <= MaxDepends
    ensures r.Err? ==> Refused(s, id, names, readable, r.error)
    ensures r == Err(TooMany) <==> |names| > 32
  {
    if |names| > MaxDepends {
      return Err(TooMany);
    }
    var resolved: seq<string> := [];
    for i := 0 to |names|
      invariant ResolvedSoFar(s, names[..i], resolved)
      invariant forall n :: n in names[..i] ==> Declarable(s, id, readable, n)
      invariant forall n :: n in names[..i] ==> Resolve(s, n).value in s.projects
    {
      var name := names[i];
      assert names[..i + 1] == names[..i] + [name];
      assert name in names;
      if !ValidProjectName(name) {
        assert !Declarable(s, id, readable, name);
        return Err(BadName(name));
      }
      var dep := FindProject(s, name);
      if dep.None? || dep.value !in readable {
        return Err(Unknown(name));
      }
      if dep.value == id {
        return Err(OnItself);
      }
      ResolvedSnoc(s, names[..i], resolved, name, dep.value);
      resolved := resolved + [s.projects[dep.value].name];
    }
    assert names[..|names|] == names;
    var canonical := Canonical(resolved);
    CanonicalIsLive(s, id, names, canonical, readable);
    SameLeads(s, names, canonical, id);
    var cycle := RefuseDependsCycle(s, id, canonical);
    if cycle {
      return Err(Cycle);
    }
    return Ok(canonical);
  }

  lemma CanonicalIsLive(s: Reg, id: int, names: seq<string>, canonical: seq<string>, readable: set<int>)
    requires Inv(s) && forall n :: n in canonical <==> CanonicalOf(s, names, n)
    requires forall n :: n in names ==> Declarable(s, id, readable, n)
    ensures CanonicalDeps(s, id, canonical)
  {
    forall n | n in canonical
      ensures DepLive(s, id, n)
    {
      var m, d :| m in names && Resolve(s, m) == Some(d) && Named(s, n, d);
      assert Declarable(s, id, readable, m);
    }
  }

  // ---- renames that follow a repository ----

  /** The project's name is under root. */
  predicate UnderRoot(s: Reg, p: int, root: string) {
    p in s.projects && RenamedNamespaceName(s.projects[p].name, root) == ""
  }

  /** The name the project should move to is another project's. */
  ghost predicate Blocked(s: Reg, p: int, root: string) {
    p in s.projects && !NameAvailableTo(s, RenamedNamespaceName(s.projects[p].name, root), p)
  }

  /** Every name still leads where it led, and the dependency graph is the same. */
  ghost predicate Follows(s: Reg, s': Reg) {
    && (forall n, id :: Resolve(s, n) == Some(id) ==> Resolve(s', n) == Some(id))
    && (forall a, b :: Edge(s, a, b) <==> Edge(s', a, b))
    && s.projects.Keys == s'.projects.Keys
  }

  lemma RenameFollows(s: Reg, id: int, name: string)
    requires Inv(s) && id in s.projects && name != s.projects[id].name && IsName(name) && NameAvailableTo(s, name, id)
    ensures Inv(Renamed(s, id, name)) && Follows(s, Renamed(s, id, name))
  {
    var s' := Renamed(s, id, name);
    StepKeeps(s, Rename(id, name), s');
    forall n, x | Resolve(s, n) == Some(x)
      ensures Resolve(s', n) == Some(x)
    {
      StepResolves(s, Rename(id, name), s', n, x);
    }
    forall a, b
      ensures Edge(s, a, b) <==> Edge(s', a, b)
    {
      RenameEdges(s, id, name, a, b);
    }
  }

  lemma FollowsTransitive(s: Reg, s': Reg, s'': Reg)
    requires Follows(s, s') && Follows(s', s'')
    ensures Follows(s, s'')
  {
  }

  /** A project already dealt with stays so while another is renamed. */
  lemma DealtStays(s: Reg, id: int, name: string, p: int, root: string)
    requires Inv(s) && id in s.projects && name != s.projects[id].name && IsName(name) && NameAvailableTo(s, name, id)
    requires p in s.projects && p != id && IsName(root) && '/' !in root
    ensures UnderRoot(s, p, root) ==> UnderRoot(Renamed(s, id, name), p, root)
    ensures !UnderRoot(s, p, root) && Blocked(s, p, root) ==> Blocked(Renamed(s, id, name), p, root)
  {
    var s' := Renamed(s, id, name);
    var want := RenamedNamespaceName(s.projects[p].name, root);
    assert s'.projects[p].name == s.projects[p].name;
    if want != "" {
      RenamedNamespaceUnderRoot(s.projects[p].name, root);
      StayBlocked(s, id, name, p, want);
    }
  }

  lemma StayBlocked(s: Reg, id: int, name: string, p: int, want: string)
    requires Inv(s) && id in s.projects && name != s.projects[id].name && IsName(name) && NameAvailableTo(s, name, id)
    requires p in s.projects && p != id && want != s.projects[p].name
    ensures !NameAvailableTo(s, want, p) ==> !NameAvailableTo(Renamed(s, id, name), want, p)
  {
    if !NameAvailableTo(s, want, p) {
      RenameFollows(s, id, name);
      BlockedByOther(s, want, p);
      StillOther(s, Renamed(s, id, name), want, p);
    }
  }

  /** What blocks a name that is not the project's own is another project. */
  lemma BlockedByOther(s: Reg, want: string, p: int)
    requires p in s.projects && want != s.projects[p].name && !NameAvailableTo(s, want, p)
    ensures Resolve(s, want).Some? && Resolve(s, want).value != p
  {
    assert !Named(s, want, p);
  }

  /** A blocked project's name under the root is answered by another project. */
  lemma BlockedSays(s: Reg, p: int, root: string)
    requires Blocked(s, p, root) && !UnderRoot(s, p, root) && IsName(root) && '/' !in root
    ensures var holder := Resolve(s, RenamedNamespaceName(s.projects[p].name, root));
      holder.Some? && holder.value != p
  {
    RenamedNamespaceUnderRoot(s.projects[p].name, root);
    BlockedByOther(s, RenamedNamespaceName(s.projects[p].name, root), p);
  }

  lemma StillOther(s: Reg, s': Reg, want: string, p: int)
    requires Follows(s, s') && Resolve(s, want).Some? && Resolve(s, want).value != p
    ensures !NameAvailableTo(s', want, p)
  {
    assert Resolve(s', want) == Some(Resolve(s, want).value);
  }

  class Store {
    var reg: Reg

    constructor ()
      ensures reg == Empty
    {
      reg := Empty;
    }

    /** A write under a name that resolves finds its project; under a free name it makes one. */
    method Provision(name: string, repoId: string, semver: bool) returns (id: Option<int>)
      requires Inv(reg)
      modifies this
      ensures Inv(reg)
      ensures Resolve(old(reg), name).Some? ==> id == Resolve(old(reg), name) && reg == old(reg)
      ensures Resolve(old(reg), name).None? && !ValidNamespacedName(name) ==> id == None && reg == old(reg)
      ensures Resolve(old(reg), name).None? && ValidNamespacedName(name) ==>
                id == Some(old(reg).next) && Step(old(reg), Create(name, repoId, semver), reg)
      ensures Resolve(old(reg), name).None? && ValidNamespacedName(name) ==>
                && reg.projects == old(reg).projects[old(reg).next := Project(name, "", repoId, semver)]
                && reg.aliases == old(reg).aliases
    {
      id := FindProject(reg, name);
      if id.Some? || !ValidNamespacedName(name) {
        return;
      }
      CreateKeeps(reg, name, repoId, semver);
      id := Some(reg.next);
      reg := reg.(projects := reg.projects[reg.next := Project(name, "", repoId, semver)], next := reg.next + 1);
    }

    /** Moves a project to a name that is available to it, keeping the old one as an alias. */
    method RenameProject(id: int, newName: string)
      requires Inv(reg) && id in reg.projects && newName != reg.projects[id].name && IsName(newName)
      requires NameAvailableTo(reg, newName, id)
      modifies this
      ensures reg == Renamed(old(reg), id, newName)
      ensures Inv(reg) && Follows(old(reg), reg)
    {
      RenameFollows(reg, id, newName);
      var oldName := reg.projects[id].name;
      reg := reg.(aliases := reg.aliases - {newName});
      reg := reg.(projects := reg.projects[id := reg.projects[id].(name := newName)]);
      reg := reg.(aliases := reg.aliases - {oldName});
      reg := reg.(aliases := reg.aliases[oldName := id]);
      AliasReplaced(old(reg).aliases, newName, oldName, id);
      var rows := RenameDependsRows(reg.projects, oldName, newName, id);
      reg := reg.(projects := rows);
    }

    /** Moves one more project under the root, unless its new name is answered by another. */
    method ReconcileOne(p: int, root: string, ghost was: Reg, ghost done: seq<int>)
      requires Inv(reg) && IsName(root) && '/' !in root && p in reg.projects && Reconciled(was, reg, done, root)
      modifies this
      ensures Inv(reg) && Reconciled(was, reg, done + [p], root)
    {
      var want := RenamedNamespaceName(reg.projects[p].name, root);
      if want == "" {
        return;
      }
      var taken := FindProject(reg, want);
      RenamedNamespaceUnderRoot(reg.projects[p].name, root);
      if taken.Some? && !(taken.value == p && reg.projects[p].name != want) {
        return;
      }
      ReconciledMore(was, reg, done, p, root);
      RenameProject(p, want);
    }

    /**
      Renames a repository's projects onto its root; a project whose new name another project
      answers to is left alone.
     */
    method ReconcileNamespace(ids: seq<int>, root: string)
      requires Inv(reg) && (root == "" || (IsName(root) && '/' !in root))
      requires forall p :: p in ids ==> p in reg.projects
      modifies this
      ensures Inv(reg) && Follows(old(reg), reg)
      ensures root == "" ==> reg == old(reg)
      ensures root != "" ==> forall p :: p in ids ==> UnderRoot(reg, p, root) || Blocked(reg, p, root)
      ensures root != "" ==> NamesMoved(old(reg), reg, ids, root)
    {
      if root == "" {
        return;
      }
      for i := 0 to |ids|
        invariant Inv(reg) && Reconciled(old(reg), reg, ids[..i], root)
      {
        assert ids[..i + 1] == ids[..i] + [ids[i]] && ids[i] in ids;
        ReconcileOne(ids[i], root, old(reg), ids[..i]);
      }
      assert ids[..|ids|] == ids;
    }

    /** Stores canonical names; an over-long list or an improper name is refused. */
    method SetProjectDepends(id: int, names: seq<string>) returns (ok: bool)
      requires id in reg.projects
      modifies this
      ensures ok <==> |names| <= MaxDepends && AreNames(names)
      ensures reg == if ok then DependsSet(old(reg), id, names) else old(reg)
    {
      ok := |names| <= MaxDepends && forall n :: n in names ==> IsName(n);
      if ok {
        reg := reg.(projects := reg.projects[id := reg.projects[id].(depends := JoinDepends(names))]);
      }
    }

    /** Validates and stores a declared list; no declaration leaves everything as it was. */
    method ApplyDepends(id: int, names: Option<seq<string>>, readable: set<int>) returns (refused: Option<DependsError>)
      requires Inv(reg) && id in reg.projects
      modifies this
      ensures Inv(reg) && id in reg.projects
      ensures Acyclic(Edges(old(reg))) ==> Acyclic(Edges(reg))
      ensures refused.Some? ==>
              names.Some? && Refused(old(reg), id, names.value, readable, refused.value) && reg == old(reg)
      ensures refused.None? && names.None? ==> reg == old(reg)
      ensures refused.None? && names.Some? ==>
                forall n :: n in Deps(reg.projects[id]) <==> CanonicalOf(old(reg), names.value, n)
      ensures reg == old(reg).(projects := old(reg).projects[id := reg.projects[id]])
      ensures reg.projects[id] == old(reg).projects[id].(depends := reg.projects[id].depends)
    {
      if names.None? {
        return None;
      }
      var r := ResolveDepends(reg, id, names.value, readable);
      if r.Err? {
        return Some(r.error);
      }
      if r.value == Deps(reg.projects[id]) {
        return None;
      }
      CanonicalAreNames(reg, id, r.value);
      SetDependsKeeps(reg, id, r.value);
      if Acyclic(Edges(reg)) {
        SetDependsAcyclic(reg, id, r.value);
      }
      var ok := SetProjectDepends(id, r.value);
      assert ok;
      return None;
    }
  }

  lemma AliasReplaced(aliases: map<string, int>, newName: string, oldName: string, id: int)
    ensures (aliases - {newName} - {oldName})[oldName := id] == (aliases - {newName})[oldName := id]
  {
  }

  /**
    Only listed projects have another name, and it is their old one moved under the root. Nothing
    else of a row changed but its dependencies.
   */
  ghost predicate NamesMoved(s0: Reg, s: Reg, ids: seq<int>, root: string) {
    && s.projects.Keys == s0.projects.Keys
    && forall p :: p in s0.projects ==>
          && s.projects[p].repoId == s0.projects[p].repoId && s.projects[p].semver == s0.projects[p].semver
          && (s.projects[p].name == s0.projects[p].name
              || (p in ids && !UnderRoot(s0, p, root)
                  && s.projects[p].name == RenamedNamespaceName(s0.projects[p].name, root)))
  }

  /** The listed projects are dealt with, and nothing else changed but what follows from their new names. */
  ghost predicate Reconciled(s0: Reg, s: Reg, ids: seq<int>, root: string) {
    && Follows(s0, s) && NamesMoved(s0, s, ids, root)
    && forall p :: p in ids ==> UnderRoot(s, p, root) || Blocked(s, p, root)
  }

  lemma ReconciledMore(s0: Reg, s: Reg, ids: seq<int>, id: int, root: string)
    requires Inv(s) && Reconciled(s0, s, ids, root) && id in s.projects && !UnderRoot(s, id, root)
    requires IsName(root) && '/' !in root
    requires NameAvailableTo(s, RenamedNamespaceName(s.projects[id].name, root), id)
    ensures Reconciled(s0, Renamed(s, id, RenamedNamespaceName(s.projects[id].name, root)), ids + [id], root)
  {
    var want := RenamedNamespaceName(s.projects[id].name, root);
    RenamedNamespaceUnderRoot(s.projects[id].name, root);
    OthersStay(s, id, want, root, ids);
    NameMoves(s0, s, ids, id, root);
    FollowsBoth(s0, s, id, want);
  }

  lemma NameMoves(s0: Reg, s: Reg, ids: seq<int>, id: int, root: string)
    requires NamesMoved(s0, s, ids, root) && id in s.projects && IsName(root) && '/' !in root
    requires IsName(s.projects[id].name) && !UnderRoot(s, id, root)
    ensures NamesMoved(s0, Renamed(s, id, RenamedNamespaceName(s.projects[id].name, root)), ids + [id], root)
  {
    var want := RenamedNamespaceName(s.projects[id].name, root);
    RenamedNamespaceUnderRoot(s.projects[id].name, root);
    RenamedSays(s, id, want);
    if s.projects[id].name != s0.projects[id].name {
      RenamedNamespaceUnderRoot(s0.projects[id].name, root);
    }
  }

  lemma OthersStay(s: Reg, id: int, name: string, root: string, ids: seq<int>)
    requires Inv(s) && id in s.projects && name != s.projects[id].name && IsName(name) && NameAvailableTo(s, name, id)
    requires IsName(root) && '/' !in root && RenamedNamespaceName(name, root) == ""
    requires forall p :: p in ids ==> UnderRoot(s, p, root) || Blocked(s, p, root)
    ensures forall p :: p in ids + [id] ==>
            UnderRoot(Renamed(s, id, name), p, root) || Blocked(Renamed(s, id, name), p, root)
  {
    assert UnderRoot(Renamed(s, id, name), id, root);
    forall p | p in ids && p != id
      ensures UnderRoot(Renamed(s, id, name), p, root) || Blocked(Renamed(s, id, name), p, root)
    {
      DealtStays(s, id, name, p, root);
    }
  }

  lemma FollowsBoth(s0: Reg, s: Reg, id: int, name: string)
    requires Follows(s0, s)
    requires Inv(s) && id in s.projects && name != s.projects[id].name && IsName(name) && NameAvailableTo(s, name, id)
    ensures Follows(s0, Renamed(s, id, name))
  {
    RenameFollows(s, id, name);
    FollowsTransitive(s0, s, Renamed(s, id, name));
  }
}
