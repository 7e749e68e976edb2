/**
  Visibility: a project is private or not by its own mode, over the longest folder rule that
  covers it, over what its source says. The answer is cached on the project row.
 */
module Visibility {

  datatype Mode = Auto | Public | Private

  /** The private state a mode gives over an inherited one. */
  function Apply(mode: Mode, inherited: bool): bool {
    match mode
    case Public => false
    case Private => true
    case Auto => inherited
  }

  /** A rule on prefix applies to the project of that name and to every project below it. */
  predicate FolderCovers(prefix: string, name: string) {
    name == prefix || (|name| > |prefix| && name[..|prefix|] == prefix && name[|prefix|] == '/')
  }

  /** strings.Trim(s, "/") */
  function Trim(s: string): string
    decreases |s|
  {
    if s != "" && s[0] == '/' then Trim(s[1..])
    else if s != "" && s[|s| - 1] == '/' then Trim(s[..|s| - 1])
    else s
  }

  predicate AllSlashes(s: string) {
    forall i :: 0 <= i < |s| ==> s[i] == '/'
  }

  lemma {:induction false} TrimEnds(s: string)
    ensures Trim(s) != "" ==> Trim(s)[0] != '/' && Trim(s)[|Trim(s)| - 1] != '/'
    ensures Trim(s) == "" <==> AllSlashes(s)
    decreases |s|
  {
    if s != "" && s[0] == '/' {
      TrimEnds(s[1..]);
      assert s == [s[0]] + s[1..];
    } else if s != "" && s[|s| - 1] == '/' {
      TrimEnds(s[..|s| - 1]);
      assert s[..|s| - 1][0] == s[0];
    }
  }

  /** Trimming takes off slashes at both ends and nothing else. */
  lemma {:induction false} TrimCuts(s: string) returns (i: nat, j: nat)
    ensures i <= j <= |s| && Trim(s) == s[i..j] && AllSlashes(s[..i]) && AllSlashes(s[j..])
    decreases |s|
  {
    if s != "" && s[0] == '/' {
      i, j := TrimCuts(s[1..]);
      assert s[1..][i..j] == s[i + 1..j + 1] && s[1..][j..] == s[j + 1..];
      assert forall x :: 0 < x < i + 1 ==> s[x] == s[1..][..i][x - 1];
      i, j := i + 1, j + 1;
    } else if s != "" && s[|s| - 1] == '/' {
      var t := s[..|s| - 1];
      i, j := TrimCuts(t);
      assert t[i..j] == s[i..j] && t[..i] == s[..i];
      assert forall x :: j <= x < |t| ==> t[j..][x - j] == s[x];
    } else {
      i, j := 0, |s|;
    }
  }

  // ---- the rule that governs a name ----

  type Folders = map<string, Mode>

  /** The longest rule that covers the name among its first n characters, or "". */
  function LongestUpTo(folders: Folders, name: string, n: nat): string
    requires n <= |name|
  {
    if n == 0 then ""
    else if name[..n] in folders && (n == |name| || name[n] == '/') then name[..n]
    else LongestUpTo(folders, name, n - 1)
  }

  function Longest(folders: Folders, name: string): string {
    LongestUpTo(folders, name, |name|)
  }

  lemma CoversIffCut(prefix: string, name: string)
    ensures FolderCovers(prefix, name)
       <==> |prefix| <= |name| && name[..|prefix|] == prefix && (|prefix| == |name| || name[|prefix|] == '/')
  {
    if |prefix| == |name| {
      assert name[..|prefix|] == name;
    }
  }

  lemma {:induction false} LongestUpToIs(folders: Folders, name: string, n: nat)
    requires n <= |name|
    ensures var p := LongestUpTo(folders, name, n); p != "" ==> p in folders && FolderCovers(p, name) && |p| <= n
    ensures forall q :: q in folders && q != "" && FolderCovers(q, name) && |q| <= n ==>
            |q| <= |LongestUpTo(folders, name, n)|
  {
    if n > 0 {
      CoversIffCut(name[..n], name);
      if !(name[..n] in folders && (n == |name| || name[n] == '/')) {
        LongestUpToIs(folders, name, n - 1);
        forall q | q in folders && q != "" && FolderCovers(q, name) && |q| <= n
          ensures |q| <= n - 1
        {
          CoversIffCut(q, name);
        }
      }
    }
  }

  /** The governing rule covers the name, and every other rule that covers it is shorter: no two tie. */
  lemma LongestIs(folders: Folders, name: string, q: string)
    requires q in folders && q != "" && FolderCovers(q, name)
    ensures Longest(folders, name) in folders && FolderCovers(Longest(folders, name), name)
    ensures q == Longest(folders, name) || |q| < |Longest(folders, name)|
  {
    LongestUpToIs(folders, name, |name|);
    CoversIffCut(q, name);
    CoversIffCut(Longest(folders, name), name);
  }

  function FolderMode(folders: Folders, name: string): Mode {
    var p := Longest(folders, name);
    if p in folders && p != "" then folders[p] else Auto
  }

  /** A change to a rule that does not cover the name leaves its governing rule as it was. */
  lemma {:induction false} UncoveredUpTo(folders: Folders, folders': Folders, prefix: string, name: string, n: nat)
    requires !FolderCovers(prefix, name) && n <= |name|
    requires forall q :: q != prefix ==>
            (q in folders <==> q in folders') && (q in folders ==> folders[q] == folders'[q])
    ensures LongestUpTo(folders', name, n) == LongestUpTo(folders, name, n)
    ensures LongestUpTo(folders, name, n) != prefix || prefix == ""
  {
    if n > 0 {
      CoversIffCut(name[..n], name);
      CoversIffCut(prefix, name);
      UncoveredUpTo(folders, folders', prefix, name, n - 1);
    }
  }

  // ---- the tables ----

  datatype Row = Row(mode: Mode, autoPrivate: bool)
  datatype Project = Project(name: string, isPrivate: bool)

  datatype State = State(projects: map<int, Project>, rows: map<int, Row>, folders: Folders, next: int)

  /** The override row; a project without one reads as automatic, in its present state. */
  function RowOf(s: State, id: int): Row
    requires id in s.projects
  {
    if id in s.rows then s.rows[id] else Row(Auto, s.projects[id].isPrivate)
  }

  /** What the rules say: the mode over the governing folder rule over the automatic value. */
  function Resolved(name: string, row: Row, folders: Folders): bool {
    Apply(row.mode, Apply(FolderMode(folders, name), row.autoPrivate))
  }

  /** The row is made if it is missing, and the cached state set to what the rules say. */
  function Refreshed(s: State, id: int): State
    requires id in s.projects
  {
    var row := RowOf(s, id);
    s.(rows := s.rows[id := row],
       projects := s.projects[id := s.projects[id].(isPrivate := Resolved(s.projects[id].name, row, s.folders))])
  }

  function RowSet(s: State, id: int, row: Row): State {
    s.(rows := s.rows[id := row])
  }

  predicate Taken(s: State, name: string) {
    exists id :: id in s.projects && s.projects[id].name == name
  }

  datatype Action =
    | Create(name: string, private: bool)
    | Sync(id: int, autoPrivate: bool)
    | SetMode(id: int, mode: Mode)
    | SetFolder(prefix: string, mode: Mode)

  function FoldersAfter(folders: Folders, prefix: string, mode: Mode): Folders {
    if mode == Auto then folders - {prefix} else folders[prefix := mode]
  }

  /** A folder change re-resolves the projects it covers and no others. */
  function FolderChanged(s: State, prefix: string, mode: Mode): State {
    var folders := FoldersAfter(s.folders, prefix, mode);
    s.(folders := folders,
       rows := map id | id in s.projects && (id in s.rows || FolderCovers(prefix, s.projects[id].name)) :: RowOf(s, id),
       projects := map id | id in s.projects :: ProjectAfter(s, folders, prefix, id))
  }

  /** A project after a change to the rule on prefix left these folders. */
  function ProjectAfter(s: State, folders: Folders, prefix: string, id: int): Project
    requires id in s.projects
  {
    if FolderCovers(prefix, s.projects[id].name)
    then s.projects[id].(isPrivate := Resolved(s.projects[id].name, RowOf(s, id), folders))
    else s.projects[id]
  }

  /** A new project and its override row, before its cached answer is set. */
  function Inserted(s: State, name: string, private: bool): State {
    s.(projects := s.projects[s.next := Project(name, private)],
       rows := s.rows[s.next := Row(Auto, private)],
       next := s.next + 1)
  }

  function Next(s: State, a: Action): State {
    match a
    case Create(name, private) =>
      if Taken(s, name) then s
      else
        Refreshed(Inserted(s, name, private), s.next)
    case Sync(id, autoPrivate) =>
      if id !in s.projects then s else Refreshed(RowSet(s, id, RowOf(s, id).(autoPrivate := autoPrivate)), id)
    case SetMode(id, mode) =>
      if id !in s.projects then s else Refreshed(RowSet(s, id, RowOf(s, id).(mode := mode)), id)
    case SetFolder(prefix, mode) =>
      if Trim(prefix) == "" then s else FolderChanged(s, Trim(prefix), mode)
  }

  // ---- the cache agrees with the rules ----

  ghost predicate Agrees(s: State, id: int)
    requires id in s.projects
  {
    && s.projects[id].isPrivate == Resolved(s.projects[id].name, RowOf(s, id), s.folders)
    && (id !in s.rows ==> Longest(s.folders, s.projects[id].name) == "")
  }

  /** Override rows belong to projects. */
  ghost predicate RowsOfProjects(s: State) {
    forall id :: id in s.rows ==> id in s.projects
  }

  ghost predicate Inv(s: State) {
    && RowsOfProjects(s)
    && (forall id :: id in s.projects ==> id < s.next && Agrees(s, id))
    && "" !in s.folders
  }

  /** What the rules are evaluated over: names, override rows and folder rules, with no cached answer. */
  datatype Rules = Rules(names: map<int, string>, rows: map<int, Row>, folders: Folders, next: int)

  function RulesOf(s: State): Rules {
    Rules(map id | id in s.projects :: s.projects[id].name,
          map id | id in s.projects :: RowOf(s, id),
          s.folders,
          s.next)
  }

  /** The same actions on the rules alone. */
  function NextRules(r: Rules, a: Action): Rules {
    match a
    case Create(name, private) =>
      if exists id :: id in r.names && r.names[id] == name then r
      else Rules(r.names[r.next := name], r.rows[r.next := Row(Auto, private)], r.folders, r.next + 1)
    case Sync(id, autoPrivate) =>
      if id !in r.rows then r else r.(rows := r.rows[id := r.rows[id].(autoPrivate := autoPrivate)])
    case SetMode(id, mode) =>
      if id !in r.rows then r else r.(rows := r.rows[id := r.rows[id].(mode := mode)])
    case SetFolder(prefix, mode) =>
      if Trim(prefix) == "" then r else r.(folders := FoldersAfter(r.folders, Trim(prefix), mode))
  }

  lemma RefreshedAgrees(s: State, id: int, x: int)
    requires id in s.projects && id in s.rows && x in s.projects && (x != id ==> Agrees(s, x))
    ensures Agrees(Refreshed(s, id), x)
  {
  }

  lemma RefreshedRules(s: State, id: int)
    requires id in s.projects && id in s.rows
    ensures RulesOf(Refreshed(s, id)) == RulesOf(s)
  {
    assert RulesOf(Refreshed(s, id)).names == RulesOf(s).names;
    assert RulesOf(Refreshed(s, id)).rows == RulesOf(s).rows;
  }

  lemma RefreshedKeeps(s: State, id: int)
    requires id in s.projects && id in s.rows
    requires RowsOfProjects(s) && "" !in s.folders
    requires forall x :: x in s.projects ==> x < s.next && (x != id ==> Agrees(s, x))
    ensures Inv(Refreshed(s, id)) && RulesOf(Refreshed(s, id)) == RulesOf(s)
  {
    forall x | x in s.projects
      ensures Agrees(Refreshed(s, id), x)
    {
      RefreshedAgrees(s, id, x);
    }
    RefreshedRules(s, id);
  }

  lemma FolderChangedAgrees(s: State, prefix: string, mode: Mode, id: int)
    requires Inv(s) && prefix != "" && id in s.projects
    ensures Agrees(FolderChanged(s, prefix, mode), id)
    ensures RowOf(FolderChanged(s, prefix, mode), id) == RowOf(s, id)
  {
    assert Agrees(s, id);
    var name := s.projects[id].name;
    if !FolderCovers(prefix, name) {
      UncoveredUpTo(s.folders, FoldersAfter(s.folders, prefix, mode), prefix, name, |name|);
    }
  }

  lemma FolderChangedKeeps(s: State, prefix: string, mode: Mode)
    requires Inv(s) && prefix != ""
    ensures Inv(FolderChanged(s, prefix, mode))
    ensures RulesOf(FolderChanged(s, prefix, mode)) == RulesOf(s).(folders := FoldersAfter(s.folders, prefix, mode))
  {
    forall id | id in s.projects
      ensures Agrees(FolderChanged(s, prefix, mode), id)
    {
      FolderChangedAgrees(s, prefix, mode, id);
    }
    FolderChangedRules(s, prefix, mode);
  }

  lemma FolderChangedRules(s: State, prefix: string, mode: Mode)
    requires RowsOfProjects(s)
    ensures RulesOf(FolderChanged(s, prefix, mode)) == RulesOf(s).(folders := FoldersAfter(s.folders, prefix, mode))
  {
    var s' := FolderChanged(s, prefix, mode);
    assert RulesOf(s').names == RulesOf(s).names;
    assert RulesOf(s').rows == RulesOf(s).rows;
  }

  lemma InsertedRules(s: State, name: string, private: bool)
    requires s.next !in s.projects && s.next !in s.rows
    ensures RulesOf(Inserted(s, name, private)).names == RulesOf(s).names[s.next := name]
    ensures RulesOf(Inserted(s, name, private)).rows == RulesOf(s).rows[s.next := Row(Auto, private)]
  {
  }

  lemma InsertedAgrees(s: State, name: string, private: bool, x: int)
    requires Inv(s) && x in s.projects
    ensures x != s.next && Agrees(Inserted(s, name, private), x)
  {
    assert Agrees(s, x);
  }

  lemma CreateKeeps(s: State, name: string, private: bool)
    requires Inv(s)
    ensures Inv(Refreshed(Inserted(s, name, private), s.next))
    ensures RulesOf(Refreshed(Inserted(s, name, private), s.next)) == RulesOf(Inserted(s, name, private))
  {
    forall x | x in s.projects
      ensures x != s.next && Agrees(Inserted(s, name, private), x)
    {
      InsertedAgrees(s, name, private, x);
    }
    RefreshedKeeps(Inserted(s, name, private), s.next);
  }

  lemma RowSetKeeps(s: State, id: int, row: Row)
    requires Inv(s) && id in s.projects
    ensures Inv(Refreshed(RowSet(s, id, row), id))
    ensures RulesOf(Refreshed(RowSet(s, id, row), id)) == RulesOf(s).(rows := RulesOf(s).rows[id := row])
  {
    var rowed := RowSet(s, id, row);
    forall x | x in rowed.projects && x != id
      ensures Agrees(rowed, x)
    {
      assert Agrees(s, x);
    }
    RefreshedKeeps(rowed, id);
    assert RulesOf(rowed).names == RulesOf(s).names;
    assert RulesOf(rowed).rows == RulesOf(s).rows[id := row];
  }

  /** Every action keeps the cached answers right, and does to the rules what it says and no more. */
  lemma NextKeeps(s: State, a: Action)
    requires Inv(s)
    ensures Inv(Next(s, a)) && RulesOf(Next(s, a)) == NextRules(RulesOf(s), a)
  {
    match a
    case Create(name, private) =>
      if Taken(s, name) {
        var id :| id in s.projects && s.projects[id].name == name;
        assert RulesOf(s).names[id] == name;
      } else {
        CreateKeeps(s, name, private);
        assert s.next !in s.projects;
        InsertedRules(s, name, private);
      }
    case Sync(id, autoPrivate) =>
      if id in s.projects {
        RowSetKeeps(s, id, RowOf(s, id).(autoPrivate := autoPrivate));
      }
    case SetMode(id, mode) =>
      if id in s.projects {
        RowSetKeeps(s, id, RowOf(s, id).(mode := mode));
      }
    case SetFolder(prefix, mode) =>
      if Trim(prefix) != "" {
        FolderChangedKeeps(s, Trim(prefix), mode);
      }
  }

  // ---- whole runs ----

  function Run(s: State, actions: seq<Action>): State {
    if actions == [] then s else Next(Run(s, actions[..|actions| - 1]), actions[|actions| - 1])
  }

  function RunRules(r: Rules, actions: seq<Action>): Rules {
    if actions == [] then r else NextRules(RunRules(r, actions[..|actions| - 1]), actions[|actions| - 1])
  }

  lemma {:induction false} RunKeeps(s: State, actions: seq<Action>)
    requires Inv(s)
    ensures Inv(Run(s, actions)) && RulesOf(Run(s, actions)) == RunRules(RulesOf(s), actions)
  {
    if actions != [] {
      RunKeeps(s, actions[..|actions| - 1]);
      NextKeeps(Run(s, actions[..|actions| - 1]), actions[|actions| - 1]);
    }
  }

  /** Tables from before the override table existed: no rows and no rules. */
  ghost predicate Migrated(s: State) {
    s.rows == map[] && s.folders == map[] && forall id :: id in s.projects ==> id < s.next
  }

  lemma {:induction false} NoRules(name: string, n: nat)
    requires n <= |name|
    ensures LongestUpTo(map[], name, n) == ""
  {
    if n > 0 {
      NoRules(name, n - 1);
    }
  }

  lemma MigratedInv(s: State)
    requires Migrated(s)
    ensures Inv(s)
  {
    forall x | x in s.projects
      ensures Agrees(s, x)
    {
      NoRules(s.projects[x].name, |s.projects[x].name|);
    }
  }

  /**
    Over every run, from migrated tables, each project's cached answer is what its mode, the
    governing folder rule and its automatic value give when the same actions are applied to the
    rules alone.
   */
  lemma CachedIsResolved(s: State, actions: seq<Action>, id: int)
    requires Migrated(s) && id in Run(s, actions).projects
    ensures var r := RunRules(RulesOf(s), actions);
      id in r.names && id in r.rows
          && Run(s, actions).projects[id].isPrivate == Resolved(r.names[id], r.rows[id], r.folders)
  {
    MigratedInv(s);
    RunKeeps(s, actions);
    var after := Run(s, actions);
    assert Agrees(after, id);
    assert RulesOf(after).names[id] == after.projects[id].name && RulesOf(after).rows[id] == RowOf(after, id);
  }
}
