/**
  Project identity: names, the aliases left by renames and merges, and stored dependencies.
  Each guarded operation is one step on the two tables.
 */
module Registry {
  import opened Wrappers
  import opened DependsText

  datatype Project = Project(name: string, depends: string, repoId: string, semver: bool)

  /** The projects and alias tables; `next` is above every id ever given out. */
  datatype Reg = Reg(projects: map<int, Project>, aliases: map<string, int>, next: int)

  function Deps(p: Project): seq<string> {
    ParseDepends(p.depends)
  }

  predicate Named(s: Reg, n: string, id: int) {
    id in s.projects && s.projects[id].name == n
  }

  /** A name is looked up as a project, then as an alias. */
  ghost function Resolve(s: Reg, n: string): Option<int> {
    if exists id :: Named(s, n, id) then
      var id :| Named(s, n, id);
      Some(id)
    else if n in s.aliases && s.aliases[n] in s.projects then Some(s.aliases[n])
    else None
  }

  /** A name is free for a project when nothing answers to it, or only an alias of that project does. */
  ghost predicate NameAvailableTo(s: Reg, n: string, id: int) {
    match Resolve(s, n)
    case None => true
    case Some(other) => other == id && !Named(s, n, id)
  }

  // ---- the invariant ----

  ghost predicate UniqueNames(s: Reg) {
    forall a, b :: a in s.projects && b in s.projects && s.projects[a].name == s.projects[b].name ==> a == b
  }

  /** Aliases lead to projects, and no alias is a project's name. */
  ghost predicate AliasesApart(s: Reg) {
    && (forall n :: n in s.aliases ==> s.aliases[n] in s.projects)
    && (forall id :: id in s.projects ==> s.projects[id].name !in s.aliases)
  }

  ghost predicate ProperNames(s: Reg) {
    && (forall id :: id in s.projects ==> id < s.next && IsName(s.projects[id].name))
  }

  /** Every stored dependency is the current name of another project. */
  ghost predicate DepsLive(s: Reg) {
    forall id :: id in s.projects ==> OwnDepsLive(s, id, Deps(s.projects[id]))
  }

  ghost predicate OwnDepsLive(s: Reg, id: int, names: seq<string>) {
    forall n :: n in names ==> IsName(n) && DepLive(s, id, n)
  }

  ghost predicate DepLive(s: Reg, id: int, n: string) {
    exists b :: Named(s, n, b) && b != id
  }

  ghost predicate Inv(s: Reg) {
    UniqueNames(s) && AliasesApart(s) && ProperNames(s) && DepsLive(s)
  }

  /** What answers to a name, when names and aliases are apart. */
  lemma ResolveIff(s: Reg, n: string, id: int)
    requires UniqueNames(s) && AliasesApart(s)
    ensures Resolve(s, n) == Some(id) <==> Named(s, n, id) || (n in s.aliases && s.aliases[n] == id)
  {
  }

  lemma NoneIff(s: Reg, n: string)
    requires AliasesApart(s)
    ensures Resolve(s, n) == None <==> (forall id :: !Named(s, n, id)) && n !in s.aliases
  {
  }

  // ---- renaming a stored dependency ----

  /** Every old name in the list becomes the replacement. */
  function Replace(names: seq<string>, oldName: string, replacement: seq<string>): seq<string> {
    if names == [] then []
    else (if names[0] == oldName then replacement else [names[0]]) + Replace(names[1..], oldName, replacement)
  }

  lemma {:induction false} ReplaceHas(names: seq<string>, oldName: string, replacement: seq<string>, n: string)
    ensures n in Replace(names, oldName, replacement) <==>
            (n != oldName && n in names) || (oldName in names && n in replacement)
  {
    if names != [] {
      ReplaceHas(names[1..], oldName, replacement, n);
    }
  }

  /** One row of the rewrite: a dependent's list follows the rename; the renamed project itself drops the entry. */
  function Followed(p: Project, own: bool, oldName: string, newName: string): Project {
    if Probe(p.depends, oldName) then
      p.(depends := JoinDepends(Replace(Deps(p), oldName, if own then [] else [newName])))
    else p
  }

  function RenameDepends(projects: map<int, Project>, oldName: string, newName: string, newId: int): map<int, Project> {
    map id | id in projects :: Followed(projects[id], id == newId, oldName, newName)
  }

  lemma FollowedDeps(p: Project, own: bool, oldName: string, newName: string, n: string)
    requires IsName(oldName) && IsName(newName) && AreNames(Deps(p))
    ensures n in Deps(Followed(p, own, oldName, newName)) <==>
            (n != oldName && n in Deps(p)) || (n == newName && oldName in Deps(p) && !own)
    ensures AreNames(Deps(Followed(p, own, oldName, newName)))
  {
    ProbeIff(p.depends, oldName);
    if Probe(p.depends, oldName) {
      var names := Replace(Deps(p), oldName, if own then [] else [newName]);
      forall m
        ensures m in names <==> (m != oldName && m in Deps(p)) || (m == newName && oldName in Deps(p) && !own)
      {
        ReplaceHas(Deps(p), oldName, if own then [] else [newName], m);
      }
      StoredNames(names);
    }
  }

  /** The rewrite touches no field of a row but its dependencies, and those only in a dependent's row. */
  lemma RewriteKeeps(projects: map<int, Project>, oldName: string, newName: string, newId: int, x: int)
    requires x in projects && IsName(oldName)
    ensures x in RenameDepends(projects, oldName, newName, newId)
    ensures var row := RenameDepends(projects, oldName, newName, newId)[x];
      && row.name == projects[x].name && row.repoId == projects[x].repoId && row.semver == projects[x].semver
      && (oldName !in Deps(projects[x]) ==> row == projects[x])
  {
    ProbeIff(projects[x].depends, oldName);
  }

  // ---- the steps ----

  function Created(s: Reg, name: string, repoId: string, semver: bool): Reg {
    s.(projects := s.projects[s.next := Project(name, "", repoId, semver)], next := s.next + 1)
  }

  function Renamed(s: Reg, id: int, newName: string): Reg
    requires id in s.projects
  {
    var oldName := s.projects[id].name;
    s.(
      projects := RenameDepends(s.projects[id := s.projects[id].(name := newName)], oldName, newName, id),
      aliases := (s.aliases - {newName})[oldName := id])
  }

  /** A rename changes the project's name, the aliases of the two names, and its dependents' lists. */
  lemma RenamedSays(s: Reg, id: int, newName: string)
    requires id in s.projects && IsName(s.projects[id].name) && s.projects[id].name != newName
    ensures var s', oldName := Renamed(s, id, newName), s.projects[id].name;
      && s'.projects.Keys == s.projects.Keys && s'.next == s.next
      && (forall x :: x in s.projects ==>
            && s'.projects[x].name == (if x == id then newName else s.projects[x].name)
            && s'.projects[x].repoId == s.projects[x].repoId && s'.projects[x].semver == s.projects[x].semver
            && (oldName !in Deps(s.projects[x]) ==> s'.projects[x].depends == s.projects[x].depends))
      && (forall n :: n in s'.aliases <==> n == oldName || (n in s.aliases && n != newName))
      && (forall n :: n in s'.aliases ==> s'.aliases[n] == if n == oldName then id else s.aliases[n])
  {
    var oldName, rows := s.projects[id].name, s.projects[id := s.projects[id].(name := newName)];
    forall x | x in s.projects
      ensures var row := Renamed(s, id, newName).projects[x];
        && row.name == rows[x].name && row.repoId == rows[x].repoId && row.semver == rows[x].semver
        && (oldName !in Deps(rows[x]) ==> row == rows[x])
    {
      RewriteKeeps(rows, oldName, newName, id, x);
    }
  }

  /** A merge takes the source's row, gives its name and aliases to the target, and changes lists of its dependents. */
  lemma MergedSays(s: Reg, src: int, dst: int)
    requires src in s.projects && dst in s.projects && src != dst && IsName(s.projects[src].name)
    ensures var s', srcName := Merged(s, src, dst), s.projects[src].name;
      && s'.projects.Keys == s.projects.Keys - {src} && s'.next == s.next
      && (forall x :: x in s'.projects ==>
            && s'.projects[x].name == s.projects[x].name
            && s'.projects[x].repoId == s.projects[x].repoId && s'.projects[x].semver == s.projects[x].semver
            && (srcName !in Deps(s.projects[x]) ==> s'.projects[x].depends == s.projects[x].depends))
      && (forall n :: n in s'.aliases <==> n == srcName || n in s.aliases)
      && (forall n :: n in s'.aliases ==>
            s'.aliases[n] == if n == srcName || s.aliases[n] == src then dst else s.aliases[n])
  {
    var srcName := s.projects[src].name;
    forall x | x in s.projects && x != src
      ensures x in Merged(s, src, dst).projects
      ensures var row := Merged(s, src, dst).projects[x];
        && row.name == s.projects[x].name && row.repoId == s.projects[x].repoId && row.semver == s.projects[x].semver
        && (srcName !in Deps(s.projects[x]) ==> row == s.projects[x])
    {
      RewriteKeeps(s.projects, srcName, s.projects[dst].name, dst, x);
    }
  }

  function Redirected(aliases: map<string, int>, src: int, dst: int): map<string, int> {
    map n | n in aliases :: if aliases[n] == src then dst else aliases[n]
  }

  function Merged(s: Reg, src: int, dst: int): Reg
    requires src in s.projects && dst in s.projects
  {
    s.(
      projects := RenameDepends(s.projects, s.projects[src].name, s.projects[dst].name, dst) - {src},
      aliases := Redirected(s.aliases, src, dst)[s.projects[src].name := dst])
  }

  function DependsSet(s: Reg, id: int, names: seq<string>): Reg
    requires id in s.projects
  {
    s.(projects := s.projects[id := s.projects[id].(depends := JoinDepends(names))])
  }

  /** Every name is the current name of another project. */
  ghost predicate CanonicalDeps(s: Reg, id: int, names: seq<string>) {
    forall n :: n in names ==> DepLive(s, id, n)
  }

  datatype Action =
    | Create(name: string, repoId: string, semver: bool)
    | Rename(id: int, name: string)
    | Merge(src: int, dst: int)
    | SetDepends(id: int, names: seq<string>)

  ghost predicate Step(s: Reg, a: Action, s': Reg) {
    match a
    case Create(name, repoId, semver) =>
      Resolve(s, name) == None && IsName(name) && s' == Created(s, name, repoId, semver)
    case Rename(id, name) =>
      id in s.projects && name != s.projects[id].name && IsName(name) && NameAvailableTo(s, name, id)
          && s' == Renamed(s, id, name)
    case Merge(src, dst) =>
      src in s.projects && dst in s.projects && src != dst && s' == Merged(s, src, dst)
    case SetDepends(id, names) =>
      id in s.projects && CanonicalDeps(s, id, names) && s' == DependsSet(s, id, names)
  }

  /** Where a project's names lead after the action. */
  function Forward(a: Action, id: int): int {
    if a.Merge? && id == a.src then a.dst else id
  }

  /** A dependency stays live while the project it names keeps its name. */
  lemma DepStaysLive(s: Reg, s': Reg, id: int, n: string)
    requires DepLive(s, id, n) && forall b :: Named(s, n, b) ==> Named(s', n, b)
    ensures DepLive(s', id, n)
  {
    var b :| Named(s, n, b) && b != id;
    assert Named(s', n, b);
  }

  lemma CreateKeeps(s: Reg, name: string, repoId: string, semver: bool)
    requires Inv(s) && Resolve(s, name) == None && IsName(name)
    ensures Inv(Created(s, name, repoId, semver))
  {
    var s' := Created(s, name, repoId, semver);
    NoneIff(s, name);
    assert s.next !in s.projects;
    forall b | b in s.projects
      ensures s.projects[b].name != name
    {
      assert !Named(s, name, b);
    }
    forall id | id in s'.projects
      ensures OwnDepsLive(s', id, Deps(s'.projects[id]))
    {
      forall n | n in Deps(s'.projects[id])
        ensures IsName(n) && DepLive(s', id, n)
      {
        DepStaysLive(s, s', id, n);
      }
    }
  }

  lemma AvailableIff(s: Reg, n: string, id: int)
    requires UniqueNames(s) && AliasesApart(s)
    ensures NameAvailableTo(s, n, id) <==> (forall b :: !Named(s, n, b)) && (n in s.aliases ==> s.aliases[n] == id)
  {
    ResolveIff(s, n, id);
    NoneIff(s, n);
    if n in s.aliases {
      ResolveIff(s, n, s.aliases[n]);
    }
  }

  /** After a rename each project keeps its name but the renamed one. */
  lemma RenamedName(s: Reg, id: int, name: string, x: int)
    requires id in s.projects
    ensures x in Renamed(s, id, name).projects <==> x in s.projects
    ensures x in s.projects ==> Renamed(s, id, name).projects[x].name == if x == id then name else s.projects[x].name
  {
  }

  lemma RenameKeepsUnique(s: Reg, id: int, name: string)
    requires UniqueNames(s) && id in s.projects && forall b :: !Named(s, name, b)
    ensures UniqueNames(Renamed(s, id, name))
  {
    var s' := Renamed(s, id, name);
    forall a, b | a in s'.projects && b in s'.projects && s'.projects[a].name == s'.projects[b].name
      ensures a == b
    {
      RenamedName(s, id, name, a);
      RenamedName(s, id, name, b);
      assert !Named(s, name, a) && !Named(s, name, b);
    }
  }

  lemma RenameKeepsApart(s: Reg, id: int, name: string)
    requires UniqueNames(s) && AliasesApart(s) && id in s.projects && name != s.projects[id].name
    requires forall b :: !Named(s, name, b)
    ensures AliasesApart(Renamed(s, id, name))
  {
    var s' := Renamed(s, id, name);
    forall x | x in s'.projects
      ensures s'.projects[x].name !in s'.aliases
    {
      RenamedName(s, id, name, x);
    }
  }

  lemma RenameKeepsNames(s: Reg, id: int, name: string)
    requires Inv(s) && id in s.projects && name != s.projects[id].name && IsName(name) && NameAvailableTo(s, name, id)
    ensures UniqueNames(Renamed(s, id, name)) && AliasesApart(Renamed(s, id, name)) && ProperNames(Renamed(s, id, name))
  {
    AvailableIff(s, name, id);
    RenameKeepsUnique(s, id, name);
    RenameKeepsApart(s, id, name);
    forall x | x in s.projects
      ensures Renamed(s, id, name).projects[x].name == if x == id then name else s.projects[x].name
    {
      RenamedName(s, id, name, x);
    }
  }

  lemma RenameDepLive(s: Reg, id: int, name: string, x: int, n: string)
    requires DepsLive(s) && id in s.projects && IsName(name) && IsName(s.projects[id].name) && x in s.projects
    requires n in Deps(Renamed(s, id, name).projects[x])
    ensures IsName(n) && DepLive(Renamed(s, id, name), x, n)
  {
    var s' := Renamed(s, id, name);
    var oldName := s.projects[id].name;
    NamesOf(s, x);
    FollowedDeps(s.projects[x], x == id, oldName, name, n);
    FollowedDeps(s.projects[x].(name := name), x == id, oldName, name, n);
    if n != oldName && n in Deps(s.projects[x]) {
      DepStaysLive(s, s', x, n);
    } else {
      assert Named(s', name, id) && x != id;
    }
  }

  lemma RenameKeepsDeps(s: Reg, id: int, name: string)
    requires DepsLive(s) && id in s.projects && IsName(name) && IsName(s.projects[id].name)
    ensures DepsLive(Renamed(s, id, name))
  {
    var s' := Renamed(s, id, name);
    forall x | x in s'.projects
      ensures OwnDepsLive(s', x, Deps(s'.projects[x]))
    {
      forall n | n in Deps(s'.projects[x])
        ensures IsName(n) && DepLive(s', x, n)
      {
        RenameDepLive(s, id, name, x, n);
      }
    }
  }

  lemma NamesOf(s: Reg, x: int)
    requires DepsLive(s) && x in s.projects
    ensures AreNames(Deps(s.projects[x]))
  {
  }

  lemma MergeKeepsNames(s: Reg, src: int, dst: int)
    requires Inv(s) && src in s.projects && dst in s.projects && src != dst
    ensures UniqueNames(Merged(s, src, dst)) && AliasesApart(Merged(s, src, dst)) && ProperNames(Merged(s, src, dst))
  {
    var s' := Merged(s, src, dst);
    forall x | x in s'.projects
      ensures MergedRow(s, s', src, x)
    {
    }
    MergedUnique(s, s', src);
    MergedApart(s, src, dst);
  }

  /** A project other than the merged one keeps its id and its name. */
  predicate MergedRow(s: Reg, s': Reg, src: int, x: int) {
    x in s.projects && x in s'.projects && x != src && s'.projects[x].name == s.projects[x].name
  }

  lemma MergedApart(s: Reg, src: int, dst: int)
    requires UniqueNames(s) && AliasesApart(s) && src in s.projects && dst in s.projects && src != dst
    ensures AliasesApart(Merged(s, src, dst))
  {
    var s' := Merged(s, src, dst);
    forall n | n in s'.aliases
      ensures s'.aliases[n] in s'.projects
    {
      assert n in s.aliases || n == s.projects[src].name;
    }
    forall id | id in s'.projects
      ensures s'.projects[id].name !in s'.aliases
    {
      assert s'.projects[id].name == s.projects[id].name && id != src;
    }
  }

  lemma MergedUnique(s: Reg, s': Reg, src: int)
    requires UniqueNames(s) && forall x :: x in s'.projects ==> MergedRow(s, s', src, x)
    ensures UniqueNames(s')
  {
    forall a, b | a in s'.projects && b in s'.projects && s'.projects[a].name == s'.projects[b].name
      ensures a == b
    {
      assert MergedRow(s, s', src, a) && MergedRow(s, s', src, b);
    }
  }

  lemma MergeDepLive(s: Reg, src: int, dst: int, x: int, n: string)
    requires DepsLive(s) && src in s.projects && dst in s.projects && src != dst && x in s.projects && x != src
    requires IsName(s.projects[src].name) && IsName(s.projects[dst].name)
    requires n in Deps(Merged(s, src, dst).projects[x])
    ensures IsName(n) && DepLive(Merged(s, src, dst), x, n)
  {
    var s' := Merged(s, src, dst);
    NamesOf(s, x);
    FollowedDeps(s.projects[x], x == dst, s.projects[src].name, s.projects[dst].name, n);
    if n != s.projects[src].name && n in Deps(s.projects[x]) {
      DepStaysLive(s, s', x, n);
    } else {
      assert Named(s', n, dst) && x != dst;
    }
  }

  lemma MergeKeepsDeps(s: Reg, src: int, dst: int)
    requires DepsLive(s) && src in s.projects && dst in s.projects && src != dst
    requires IsName(s.projects[src].name) && IsName(s.projects[dst].name)
    ensures DepsLive(Merged(s, src, dst))
  {
    var s' := Merged(s, src, dst);
    forall x | x in s'.projects
      ensures OwnDepsLive(s', x, Deps(s'.projects[x]))
    {
      forall n | n in Deps(s'.projects[x])
        ensures IsName(n) && DepLive(s', x, n)
      {
        MergeDepLive(s, src, dst, x, n);
      }
    }
  }

  lemma DependsSetNames(s: Reg, id: int, names: seq<string>)
    requires UniqueNames(s) && AliasesApart(s) && ProperNames(s) && id in s.projects
    ensures var s' := DependsSet(s, id, names); UniqueNames(s') && AliasesApart(s') && ProperNames(s')
    ensures forall n, b :: Named(s, n, b) ==> Named(DependsSet(s, id, names), n, b)
  {
  }

  lemma SetDependsKeeps(s: Reg, id: int, names: seq<string>)
    requires Inv(s) && id in s.projects && CanonicalDeps(s, id, names)
    ensures Inv(DependsSet(s, id, names))
    ensures forall n :: n in Deps(DependsSet(s, id, names).projects[id]) <==> n in names
  {
    var s' := DependsSet(s, id, names);
    DependsSetNames(s, id, names);
    CanonicalAreNames(s, id, names);
    StoredNames(names);
    forall x | x in s'.projects
      ensures OwnDepsLive(s', x, Deps(s'.projects[x]))
    {
      forall n | n in Deps(s'.projects[x])
        ensures IsName(n) && DepLive(s', x, n)
      {
        assert DepLive(s, x, n);
        DepStaysLive(s, s', x, n);
      }
    }
  }

  lemma CanonicalAreNames(s: Reg, id: int, names: seq<string>)
    requires ProperNames(s) && CanonicalDeps(s, id, names)
    ensures AreNames(names)
  {
    forall n | n in names
      ensures IsName(n)
    {
      assert DepLive(s, id, n);
    }
  }

  /** Every step keeps names unique and apart from aliases, and every stored dependency live. */
  lemma StepKeeps(s: Reg, a: Action, s': Reg)
    requires Inv(s) && Step(s, a, s')
    ensures Inv(s')
  {
    match a
    case Create(name, repoId, semver) => CreateKeeps(s, name, repoId, semver);
    case Rename(id, name) =>
      RenameKeepsNames(s, id, name);
      RenameKeepsDeps(s, id, name);
    case Merge(src, dst) =>
      MergeKeepsNames(s, src, dst);
      MergeKeepsDeps(s, src, dst);
    case SetDepends(id, names) => SetDependsKeeps(s, id, names);
  }

  /** Something answers to the name: a project of that name, or an alias. */
  ghost predicate Answers(s: Reg, n: string, id: int) {
    Named(s, n, id) || (n in s.aliases && s.aliases[n] == id)
  }

  lemma RenameAnswers(s: Reg, x: int, name: string, n: string, id: int)
    requires UniqueNames(s) && AliasesApart(s) && x in s.projects && NameAvailableTo(s, name, x) && Answers(s, n, id)
    ensures Answers(Renamed(s, x, name), n, id)
  {
    AvailableIff(s, name, x);
    assert Named(Renamed(s, x, name), name, x);
  }

  lemma MergeAnswers(s: Reg, src: int, dst: int, n: string, id: int)
    requires AliasesApart(s) && src in s.projects && dst in s.projects && src != dst && Answers(s, n, id)
    ensures Answers(Merged(s, src, dst), n, if id == src then dst else id)
  {
  }

  /** A name that resolved before a step resolves after it, to the same project or the one it was merged into. */
  lemma StepResolves(s: Reg, a: Action, s': Reg, n: string, id: int)
    requires Inv(s) && Step(s, a, s') && Resolve(s, n) == Some(id)
    ensures Resolve(s', n) == Some(Forward(a, id))
  {
    StepKeeps(s, a, s');
    ResolveIff(s, n, id);
    ResolveIff(s', n, Forward(a, id));
    match a
    case Create(_, _, _) =>
      assert s.next !in s.projects;
    case Rename(x, name) => RenameAnswers(s, x, name, n, id);
    case Merge(src, dst) => MergeAnswers(s, src, dst, n, id);
    case SetDepends(_, _) =>
  }

  // ---- whole runs ----

  const Empty: Reg := Reg(map[], map[], 1)

  ghost predicate IsRun(states: seq<Reg>, actions: seq<Action>) {
    && |states| == |actions| + 1 && states[0] == Empty
    && forall i {:trigger StepAt(states, actions, i)} :: 0 <= i < |actions| ==> StepAt(states, actions, i)
  }

  ghost predicate StepAt(states: seq<Reg>, actions: seq<Action>, i: int) {
    0 <= i < |actions| && i + 1 < |states| && Step(states[i], actions[i], states[i + 1])
  }

  lemma RunStep(states: seq<Reg>, actions: seq<Action>, i: nat)
    requires IsRun(states, actions) && i < |actions|
    ensures Step(states[i], actions[i], states[i + 1])
  {
    assert StepAt(states, actions, i);
  }

  /** Names and aliases stay unique and apart, and no dependency dangles, over every run. */
  lemma {:induction false} RunKeeps(states: seq<Reg>, actions: seq<Action>, i: nat)
    requires IsRun(states, actions) && i < |states|
    ensures Inv(states[i])
  {
    if i > 0 {
      RunKeeps(states, actions, i - 1);
      RunStep(states, actions, i - 1);
      StepKeeps(states[i - 1], actions[i - 1], states[i]);
    }
  }

  /** Where the merges among these actions take a project. */
  function ForwardAll(actions: seq<Action>, id: int): int {
    if actions == [] then id else Forward(actions[|actions| - 1], ForwardAll(actions[..|actions| - 1], id))
  }

  /**
    Resolution is never lost: a name that once led to a project leads to it, or to what it was
    merged into, ever after.
   */
  lemma {:induction false} ResolutionKept(states: seq<Reg>, actions: seq<Action>, i: nat, j: nat, n: string, id: int)
    requires IsRun(states, actions) && i <= j < |states| && Resolve(states[i], n) == Some(id)
    ensures Resolve(states[j], n) == Some(ForwardAll(actions[i..j], id))
    decreases j
  {
    if i < j {
      var k := j - 1;
      ResolutionKept(states, actions, i, k, n, id);
      ForwardOne(actions, i, k, id);
      RunResolves(states, actions, k, n, ForwardAll(actions[i..k], id));
    }
  }

  lemma RunResolves(states: seq<Reg>, actions: seq<Action>, k: nat, n: string, id: int)
    requires IsRun(states, actions) && k < |actions| && Resolve(states[k], n) == Some(id)
    ensures Resolve(states[k + 1], n) == Some(Forward(actions[k], id))
  {
    RunKeeps(states, actions, k);
    RunStep(states, actions, k);
    StepResolves(states[k], actions[k], states[k + 1], n, id);
  }

  lemma ForwardOne(actions: seq<Action>, i: nat, k: nat, id: int)
    requires i <= k < |actions|
    ensures ForwardAll(actions[i..k + 1], id) == Forward(actions[k], ForwardAll(actions[i..k], id))
  {
    assert actions[i..k + 1][..k - i] == actions[i..k];
  }
}
