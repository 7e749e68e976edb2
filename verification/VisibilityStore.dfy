/**
  The visibility operations on the tables. A caller hands in its own copy of the project row; the
  copy's private flag may be stale once the project has an override row.
 */
module VisibilityStore {
  import opened Wrappers
  import opened Visibility

  datatype Info = Info(row: Row, folderPrefix: string, folderMode: Mode, private: bool)

  /** Reads the rules in any order and keeps the longest that covers the name. */
  method ResolveProject(name: string, row: Row, folders: Folders) returns (info: Info)
    ensures info.row == row && info.folderPrefix == Longest(folders, name)
    ensures info.folderMode == FolderMode(folders, name) && info.private == Resolved(name, row, folders)
  {
    var prefix, mode := "", Auto;
    var todo := folders.Keys;
    while todo != {}
      invariant todo <= folders.Keys
      invariant prefix == "" || (prefix in folders && FolderCovers(prefix, name) && mode == folders[prefix])
      invariant prefix == "" ==> mode == Auto
      invariant forall q :: q in folders && q !in todo && FolderCovers(q, name) ==> |q| <= |prefix|
      decreases |todo|
    {
      var f := AnyOf(todo);
      if FolderCovers(f, name) && |f| > |prefix| {
        prefix, mode := f, folders[f];
      }
      todo := todo - {f};
    }
    if prefix != "" {
      LongestIs(folders, name, prefix);
    } else {
      LongestUpToIs(folders, name, |name|);
    }
    return Info(row, prefix, mode, Apply(row.mode, Apply(mode, row.autoPrivate)));
  }

  /** The caller's copy names the project, and its flag is current unless an override row says otherwise. */
  predicate IsCopy(s: State, id: int, p: Project) {
    id in s.projects && p.name == s.projects[id].name && (id !in s.rows ==> p.isPrivate == s.projects[id].isPrivate)
  }

  /** The projects still to visit are as they were; every other one the folder covers is re-resolved. */
  ghost predicate Changing(s: State, prefix: string, mode: Mode, todo: set<int>, now: State) {
    && now == s.(folders := FoldersAfter(s.folders, prefix, mode), rows := now.rows, projects := now.projects)
    && now.projects.Keys == s.projects.Keys && todo <= s.projects.Keys
    && (forall id :: id in now.rows <==>
          id in s.rows || (id in s.projects && id !in todo && FolderCovers(prefix, s.projects[id].name)))
    && (forall id :: id in now.rows && id in s.projects ==> now.rows[id] == RowOf(s, id))
    && (forall id :: id in todo ==> now.projects[id] == s.projects[id])
    && (forall id :: id in s.projects && id !in todo ==> now.projects[id] == ProjectAfter(s, now.folders, prefix, id))
  }

  lemma ChangeStart(s: State, prefix: string, mode: Mode)
    requires RowsOfProjects(s)
    ensures Changing(s, prefix, mode, s.projects.Keys, s.(folders := FoldersAfter(s.folders, prefix, mode)))
  {
  }

  lemma ChangeSkip(s: State, prefix: string, mode: Mode, todo: set<int>, now: State, id: int)
    requires Changing(s, prefix, mode, todo, now) && id in todo && !FolderCovers(prefix, s.projects[id].name)
    ensures Changing(s, prefix, mode, todo - {id}, now)
  {
  }

  lemma ChangeOne(s: State, prefix: string, mode: Mode, todo: set<int>, now: State, id: int)
    requires Changing(s, prefix, mode, todo, now) && id in todo && FolderCovers(prefix, s.projects[id].name)
    ensures id in now.projects && Changing(s, prefix, mode, todo - {id}, Refreshed(now, id))
  {
  }

  lemma Changed(s: State, prefix: string, mode: Mode, now: State)
    requires RowsOfProjects(s) && Changing(s, prefix, mode, {}, now)
    ensures now == FolderChanged(s, prefix, mode)
  {
    var after := FolderChanged(s, prefix, mode);
    forall id | id in s.projects
      ensures now.projects[id] == after.projects[id]
    {
    }
    assert now.projects == after.projects;
    forall id
      ensures id in now.rows <==> id in after.rows
      ensures id in now.rows ==> now.rows[id] == after.rows[id]
    {
      assert id in s.rows ==> id in s.projects;
    }
    assert now.rows == after.rows;
  }

  class Store {
    var projects: map<int, Project>
    var rows: map<int, Row>
    var folders: Folders
    var next: int

    ghost function View(): State
      reads this
    {
      State(projects, rows, folders, next)
    }

    constructor (found: map<int, Project>, nextId: int)
      requires Migrated(State(found, map[], map[], nextId))
      ensures View() == State(found, map[], map[], nextId) && Inv(View())
    {
      projects, rows, folders, next := found, map[], map[], nextId;
      MigratedInv(State(found, map[], map[], nextId));
    }

    /** The override row, made from the caller's copy when there is none. */
    method ProjectVisibilityRow(id: int, p: Project) returns (row: Row)
      requires IsCopy(View(), id, p)
      modifies this`rows
      ensures row == RowOf(old(View()), id) && View() == RowSet(old(View()), id, row)
    {
      if id in rows {
        row := rows[id];
        assert rows == rows[id := row];
      } else {
        row := Row(Auto, p.isPrivate);
        rows := rows[id := row];
      }
    }

    /** Writes the resolved state to the project row, where every read looks. */
    method ApplyProjectVisibility(id: int, p: Project)
      requires IsCopy(View(), id, p)
      modifies this`rows, this`projects
      ensures View() == Refreshed(old(View()), id)
    {
      var row := ProjectVisibilityRow(id, p);
      var info := ResolveProject(p.name, row, folders);
      if projects[id].isPrivate != info.private {
        projects := projects[id := projects[id].(isPrivate := info.private)];
      }
      assert projects == old(projects)[id := old(projects)[id].(isPrivate := info.private)];
    }

    /** A name already taken is refused. */
    method CreateProject(name: string, private: bool) returns (id: Option<int>)
      modifies this
      ensures View() == Next(old(View()), Create(name, private))
      ensures id == if Taken(old(View()), name) then None else Some(old(next))
    {
      if exists x :: x in projects && projects[x].name == name {
        return None;
      }
      id := Some(next);
      projects, next := projects[next := Project(name, private)], next + 1;
      rows := rows[id.value := Row(Auto, private)];
      assert View() == Inserted(old(View()), name, private);
      ApplyProjectVisibility(id.value, Project(name, private));
    }

    /** Records what the source says, then re-resolves. */
    method SyncAutoPrivate(id: int, p: Project, autoPrivate: bool)
      requires IsCopy(View(), id, p)
      modifies this
      ensures View() == Next(old(View()), Sync(id, autoPrivate))
    {
      var row := ProjectVisibilityRow(id, p);
      if row.autoPrivate != autoPrivate {
        rows := rows[id := row.(autoPrivate := autoPrivate)];
      }
      assert View() == RowSet(old(View()), id, row.(autoPrivate := autoPrivate));
      ApplyProjectVisibility(id, p);
    }

    /** Sets the project's own override. */
    method SetProjectVisibilityMode(id: int, p: Project, mode: Mode)
      requires IsCopy(View(), id, p)
      modifies this
      ensures View() == Next(old(View()), SetMode(id, mode))
      ensures id in projects
      ensures (mode == Private ==> projects[id].isPrivate) && (mode == Public ==> !projects[id].isPrivate)
    {
      var row := ProjectVisibilityRow(id, p);
      rows := rows[id := row.(mode := mode)];
      assert View() == RowSet(old(View()), id, row.(mode := mode));
      ApplyProjectVisibility(id, p);
    }

    method SetRule(prefix: string, mode: Mode)
      modifies this`folders
      ensures View() == old(View()).(folders := FoldersAfter(old(folders), prefix, mode))
    {
      if mode == Auto {
        folders := folders - {prefix};
      } else {
        folders := folders[prefix := mode];
      }
    }

    /** Sets or clears a folder's rule, then re-resolves every project the folder covers. */
    method SetVisibilityFolder(prefix0: string, mode: Mode) returns (ok: bool)
      requires RowsOfProjects(View())
      modifies this
      ensures View() == Next(old(View()), SetFolder(prefix0, mode))
      ensures ok <==> !AllSlashes(prefix0)
    {
      TrimEnds(prefix0);
      var prefix := Trim(prefix0);
      if prefix == "" {
        return false;
      }
      ghost var was := View();
      SetRule(prefix, mode);
      ChangeStart(was, prefix, mode);
      var listed := projects;
      var todo := listed.Keys;
      while todo != {}
        invariant Changing(was, prefix, mode, todo, View()) && listed == was.projects
        decreases |todo|
      {
        var id := AnyOf(todo);
        if FolderCovers(prefix, listed[id].name) {
          ChangeOne(was, prefix, mode, todo, View(), id);
          CopyIsCurrent(was, prefix, mode, todo, View(), id);
          ApplyProjectVisibility(id, listed[id]);
        } else {
          ChangeSkip(was, prefix, mode, todo, View(), id);
        }
        todo := todo - {id};
      }
      Changed(was, prefix, mode, View());
      return true;
    }
  }

  lemma CopyIsCurrent(s: State, prefix: string, mode: Mode, todo: set<int>, now: State, id: int)
    requires Changing(s, prefix, mode, todo, now) && id in todo
    ensures IsCopy(now, id, s.projects[id])
  {
  }
}
