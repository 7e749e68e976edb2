/**
  Planning a merge reads the tables; applying it plans again, refuses when the plan changed, and
  runs one transaction whose statements fail on a broken constraint and roll everything back.
 */
module MergeTx {
  import opened Wrappers
  import opened Registry
  import opened ProjectOps
  import opened Merge
  import opened MergeConserves

  datatype PlanError = SameProject | NoSource | NoTarget

  // ---- the queries ----

  /** COALESCE(MAX(version_num), 0) */
  method MaxReleaseVersionNum(releases: map<int, Release>, project: int) returns (m: int)
    ensures IsMaxNum(releases, project, m)
  {
    m := 0;
    var any := false;
    var todo := releases.Keys;
    while todo != {}
      invariant todo <= releases.Keys
      invariant forall r :: r in releases && r !in todo && releases[r].project == project ==>
              any && releases[r].num <= m
      invariant any ==> exists r :: r in releases && releases[r].project == project && releases[r].num == m
      invariant !any ==> m == 0
      decreases |todo|
    {
      var r := AnyOf(todo);
      if releases[r].project == project && (!any || releases[r].num > m) {
        any, m := true, releases[r].num;
      }
      todo := todo - {r};
    }
  }

  /** A release of the set with the lowest number. */
  method LowestNum(releases: map<int, Release>, todo: set<int>) returns (low: int)
    requires todo != {} && forall r :: r in todo ==> r in releases
    ensures low in todo && forall r :: r in todo ==> releases[low].num <= releases[r].num
  {
    low := AnyOf(todo);
    var rest := todo;
    while rest != {}
      invariant rest <= todo && low in todo
      invariant forall r :: r in todo && r !in rest ==> releases[low].num <= releases[r].num
      decreases |rest|
    {
      var r := AnyOf(rest);
      if releases[r].num < releases[low].num {
        low := r;
      }
      rest := rest - {r};
    }
  }

  /** The rows are in order, and none still to come ranks below them. */
  ghost predicate OrderedSoFar(releases: map<int, Release>, project: int, rows: seq<int>, todo: set<int>) {
    && NoDup(rows)
    && (forall i :: 0 <= i < |rows| ==> rows[i] in releases)
    && (forall r :: r in rows <==> r in releases && releases[r].project == project && r !in todo)
    && (forall i, j :: 0 <= i < j < |rows| ==> releases[rows[i]].num <= releases[rows[j]].num)
    && (forall r, i :: r in todo && r in releases && 0 <= i < |rows| ==> releases[rows[i]].num <= releases[r].num)
  }

  /** SELECT ... WHERE project_id = ? ORDER BY version_num */
  method ListReleasesForMerge(releases: map<int, Release>, project: int) returns (rows: seq<int>)
    ensures IsOrdered(releases, project, rows)
  {
    rows := [];
    var todo := set r | r in releases && releases[r].project == project;
    while todo != {}
      invariant forall r :: r in todo ==> r in releases && releases[r].project == project
      invariant OrderedSoFar(releases, project, rows, todo)
      decreases |todo|
    {
      var r := LowestNum(releases, todo);
      rows := rows + [r];
      todo := todo - {r};
    }
  }

  /** The labels both projects have, each once. */
  method SharedLabels(rows: map<int, Labelled>, src: int, dst: int) returns (names: seq<string>)
    requires UniqueLabels(rows)
    ensures NoDup(names) && forall n :: n in names <==> Shared(rows, src, dst, n)
  {
    var taken := set r | r in rows && rows[r].project == dst :: rows[r].name;
    names := [];
    var todo := set r | r in rows && rows[r].project == src;
    while todo != {}
      invariant forall r :: r in todo ==> r in rows && rows[r].project == src && rows[r].name !in names
      invariant NoDup(names)
      invariant forall n :: n in names ==> n in taken && HasLabel(rows, src, n)
      invariant forall r :: r in rows && rows[r].project == src && r !in todo && rows[r].name in taken ==>
              rows[r].name in names
      decreases |todo|
    {
      var r := AnyOf(todo);
      assert rows[r] == Labelled(src, rows[r].name);
      if rows[r].name in taken {
        names := names + [rows[r].name];
      }
      todo := todo - {r};
      assert forall x :: x in todo && rows[x].name == rows[r].name ==> rows[x] == rows[r];
    }
    forall n
      ensures n in taken <==> HasLabel(rows, dst, n)
    {
      if n in taken {
        var r :| r in rows && rows[r].project == dst && rows[r].name == n;
        assert rows[r] == Labelled(dst, n);
      }
    }
  }

  // ---- the plan ----

  /** The project of exactly this name; aliases do not count. */
  method GetProject(s: Reg, name: string) returns (r: Option<int>)
    ensures r.Some? ==> Named(s, name, r.value)
    ensures r.None? ==> forall id :: !Named(s, name, id)
  {
    if id :| id in s.projects && s.projects[id].name == name {
      return Some(id);
    }
    return None;
  }

  /** The numbers and versions the source's releases take, with the versions a semver merge cannot rename. */
  method PlanReleases(db: Db, src: int, dst: int) returns (moves: seq<MergeRelease>, taken: seq<string>)
    requires src in db.reg.projects && dst in db.reg.projects
    ensures IsRenumbered(db, src, dst, moves)
    ensures forall v :: v in taken <==>
            KeepsVersions(db.reg, src, dst) && HasVersion(db.releases, src, v) && HasVersion(db.releases, dst, v)
  {
    var max := MaxReleaseVersionNum(db.releases, dst);
    var rows := ListReleasesForMerge(db.releases, src);
    moves, taken := [], [];
    var next := max;
    for i := 0 to |rows|
      invariant next == max + i && IsRenumbering(db, src, dst, max, rows[..i], moves)
      invariant forall v :: v in taken <==> TakenBy(db, src, dst, rows[..i], v)
    {
      var id := rows[i];
      assert id in rows && rows[..i + 1] == rows[..i] + [id];
      next := next + 1;
      var r := db.releases[id];
      forall v
        ensures TakenBy(db, src, dst, rows[..i + 1], v)
           <==> TakenBy(db, src, dst, rows[..i], v) || (TakenVersion(db, src, dst, v) && v == r.version)
      {
        TakenSnoc(db, src, dst, rows[..i], id, v);
      }
      if KeepsVersions(db.reg, src, dst) && HasVersion(db.releases, dst, r.version) {
        taken := taken + [r.version];
      }
      var version := if KeepsVersions(db.reg, src, dst) then r.version else FormatInt(next);
      var m := MergeRelease(id, r.version, version, r.num, next);
      RenumberSnoc(db, src, dst, max, rows[..i], moves, id, m);
      moves := moves + [m];
    }
    assert rows[..|rows|] == rows;
    TakenByAll(db, src, dst, rows);
  }

  lemma RenumberSnoc(db: Db, src: int, dst: int, max: int, rows: seq<int>, moves: seq<MergeRelease>, id: int,
                     m: MergeRelease)
    requires IsRenumbering(db, src, dst, max, rows, moves) && id in db.releases
    requires m == MergeRelease(id, db.releases[id].version,
                               NewVersion(db, src, dst, id, max + 1 + |rows|),
                               db.releases[id].num, max + 1 + |rows|)
    ensures IsRenumbering(db, src, dst, max, rows + [id], moves + [m])
  {
    forall i | 0 <= i < |moves|
      ensures (rows + [id])[i] == rows[i] && (moves + [m])[i] == moves[i]
    {
    }
  }

  lemma TakenByAll(db: Db, src: int, dst: int, rows: seq<int>)
    requires IsOrdered(db.releases, src, rows)
    ensures forall v :: TakenBy(db, src, dst, rows, v) <==>
            KeepsVersions(db.reg, src, dst) && HasVersion(db.releases, src, v) && HasVersion(db.releases, dst, v)
  {
    forall v | HasVersion(db.releases, src, v)
      ensures exists r :: r in rows && r in db.releases && db.releases[r].version == v
    {
      var r :| r in db.releases && db.releases[r].project == src && db.releases[r].version == v;
      assert r in rows;
    }
  }

  /** One more release: its version is taken when the target has it. */
  lemma TakenSnoc(db: Db, src: int, dst: int, rows: seq<int>, id: int, v: string)
    requires id in db.releases
    ensures TakenBy(db, src, dst, rows + [id], v)
       <==> TakenBy(db, src, dst, rows, v) || (TakenVersion(db, src, dst, v) && v == db.releases[id].version)
  {
    if TakenBy(db, src, dst, rows, v) {
      var r :| r in rows && r in db.releases && db.releases[r].version == v;
      assert r in rows + [id];
    }
    assert id in rows + [id];
  }

  /** A semver merge would have to rename this version of the target. */
  predicate TakenVersion(db: Db, src: int, dst: int, v: string) {
    KeepsVersions(db.reg, src, dst) && HasVersion(db.releases, dst, v)
  }

  ghost predicate TakenBy(db: Db, src: int, dst: int, rows: seq<int>, v: string) {
    && KeepsVersions(db.reg, src, dst) && HasVersion(db.releases, dst, v)
    && exists r :: r in rows && r in db.releases && db.releases[r].version == v
  }

  ghost predicate IsRepoConflict(s: Reg, src: int, dst: int, c: Conflict)
    requires src in s.projects && dst in s.projects
  {
    var a, b := s.projects[src].repoId, s.projects[dst].repoId;
    (c == NoRepoId && (a == "" || b == "")) || (c == DifferentRepos && a != "" && b != "" && a != b)
  }

  /** The conflicts gathered table by table are all there are. */
  lemma ConflictsExact(db: Db, src: int, dst: int, repos: seq<Conflict>, taken: seq<string>, branches: seq<string>,
                       tags: seq<string>)
    requires src in db.reg.projects && dst in db.reg.projects
    requires forall c :: c in repos <==> IsRepoConflict(db.reg, src, dst, c)
    requires forall v :: v in taken <==>
            KeepsVersions(db.reg, src, dst) && HasVersion(db.releases, src, v) && HasVersion(db.releases, dst, v)
    requires forall n :: n in branches <==> Shared(db.sites, src, dst, n)
    requires forall n :: n in tags <==> Shared(db.tags, src, dst, n)
    ensures forall c :: c in repos + VersionConflicts(taken) + SiteConflicts(branches) + TagConflicts(tags) <==>
            IsConflict(db, src, dst, c)
  {
  }

  /** Whether the two projects are proven to be one repository. */
  method RepoConflicts(s: Reg, src: int, dst: int) returns (conflicts: seq<Conflict>)
    requires src in s.projects && dst in s.projects
    ensures forall c :: c in conflicts <==> IsRepoConflict(s, src, dst, c)
  {
    if s.projects[src].repoId == "" || s.projects[dst].repoId == "" {
      return [NoRepoId];
    }
    if s.projects[src].repoId != s.projects[dst].repoId {
      return [DifferentRepos];
    }
    return [];
  }

  function VersionConflicts(taken: seq<string>): (cs: seq<Conflict>)
    ensures forall c :: c in cs <==> c.VersionTaken? && c.version in taken
  {
    if taken == [] then [] else [VersionTaken(taken[0])] + VersionConflicts(taken[1..])
  }

  function SiteConflicts(branches: seq<string>): (cs: seq<Conflict>)
    ensures forall c :: c in cs <==> c.SiteBranch? && c.branch in branches
  {
    if branches == [] then [] else [SiteBranch(branches[0])] + SiteConflicts(branches[1..])
  }

  function TagConflicts(tags: seq<string>): (cs: seq<Conflict>)
    ensures forall c :: c in cs <==> c.OciTag? && c.tag in tags
  {
    if tags == [] then [] else [OciTag(tags[0])] + TagConflicts(tags[1..])
  }

  /** Computes the merge of the project named from into the one named into; it changes nothing. */
  method PlanProjectMerge(db: Db, from: string, into: string) returns (r: Result<Plan, PlanError>)
    requires Sound(db)
    ensures r.Ok? <==> from != into && (exists a :: Named(db.reg, from, a)) && exists b :: Named(db.reg, into, b)
    ensures r.Ok? ==> IsPlan(db, r.value.from, r.value.into, r.value)
    ensures r.Ok? ==> Named(db.reg, from, r.value.from) && Named(db.reg, into, r.value.into)
  {
    if from == into {
      return Err(SameProject);
    }
    var source := GetProject(db.reg, from);
    if source.None? {
      return Err(NoSource);
    }
    var target := GetProject(db.reg, into);
    if target.None? {
      return Err(NoTarget);
    }
    var plan := PlanTables(db, source.value, target.value);
    return Ok(plan);
  }

  /** The names that lead to the source now. */
  function PlannedAliases(s: Reg, src: int): (names: set<string>)
    requires src in s.projects
    ensures forall n :: n in names <==> n == s.projects[src].name || (n in s.aliases && s.aliases[n] == src)
  {
    {s.projects[src].name} + set n | n in s.aliases && s.aliases[n] == src
  }

  /** The plan for two different projects. */
  method PlanTables(db: Db, src: int, dst: int) returns (plan: Plan)
    requires Uniques(db) && src in db.reg.projects && dst in db.reg.projects && src != dst
    ensures IsPlan(db, src, dst, plan)
  {
    var from, into := db.reg.projects[src].name, db.reg.projects[dst].name;
    var conflicts := RepoConflicts(db.reg, src, dst);
    var moves, taken := PlanReleases(db, src, dst);
    var branches := SharedLabels(db.sites, src, dst);
    var tags := SharedLabels(db.tags, src, dst);
    var dups := SharedLabels(db.links, src, dst);
    var aliases := PlannedAliases(db.reg, src);
    var all := conflicts + VersionConflicts(taken) + SiteConflicts(branches) + TagConflicts(tags);
    ConflictsExact(db, src, dst, conflicts, taken, branches, tags);
    plan := Plan(src, dst, from, into, moves, aliases, dups, CountsOf(db, src, dups), all);
  }

  // ---- applying ----

  /** The plan made again does what the operator confirmed. */
  predicate SamePlan(a: Plan, b: Plan) {
    a.from == b.from && a.into == b.into && a.releases == b.releases && b.conflicts == []
  }

  lemma ProperSuffix(releases: map<int, Release>, src: int, dst: int, moves: seq<MergeRelease>, i: nat)
    requires ProperMoves(releases, src, dst, moves) && i <= |moves|
    ensures ProperMoves(releases, src, dst, moves[i..])
  {
    assert forall k :: 0 <= k < |moves[i..]| ==> moves[i..][k] == moves[i + k];
  }

  /** No label of the source is one of the target's. */
  predicate CanReassign(db: Db, src: int, dst: int) {
    && UniqueLabels(Reassigned(db.sites, src, dst)) && UniqueLabels(Reassigned(db.tags, src, dst))
    && UniqueLabels(Reassigned(db.links, src, dst))
  }

  /** The source's name is no alias yet, and nothing will point at the source. */
  predicate CanRetire(db: Db, src: int, dst: int)
    requires src in db.reg.projects
  {
    var name := db.reg.projects[src].name;
    name !in db.reg.aliases && !References(db.(reg := db.reg.(aliases := db.reg.aliases[name := dst])), src)
  }

  /**
    The confirmed plan had no conflict and there is none now, its names still belong to its
    projects, the renumbering made again is the confirmed one, and the target has none of its
    versions.
   */
  ghost predicate StillApplies(db: Db, confirmed: Plan, current: Result<Plan, PlanError>) {
    && confirmed.conflicts == [] && current.Ok? && current.value.conflicts == []
    && current.value.from == confirmed.from && current.value.into == confirmed.into
    && current.value.releases == confirmed.releases
    && forall m :: m in confirmed.releases ==> !HasVersion(db.releases, confirmed.into, m.newVersion)
  }

  lemma WithoutOne(rows: map<int, Labelled>, src: int, keys: seq<string>, key: string)
    ensures WithoutDups(WithoutDups(rows, src, keys), src, [key]) == WithoutDups(rows, src, keys + [key])
  {
  }

  class Tx {
    var db: Db

    constructor (tables: Db)
      ensures db == tables
    {
      db := tables;
    }

    /** Moves the releases, last first; it stops at the first move whose version the target already has. */
    method MoveReleases(src: int, dst: int, moves: seq<MergeRelease>) returns (ok: bool)
      requires UniqueVersions(db.releases) && ProperMoves(db.releases, src, dst, moves)
      modifies this
      ensures ok <==> !VersionClash(old(db).releases, moves, dst)
      ensures ok ==> db == old(db).(releases := MoveAll(old(db).releases, moves, dst))
    {
      ghost var was := db.releases;
      var i := |moves|;
      while i > 0
        invariant 0 <= i <= |moves|
        invariant db == old(db).(releases := MoveAll(was, moves[i..], dst))
        invariant UniqueVersions(db.releases) && !VersionClash(was, moves[i..], dst)
      {
        i := i - 1;
        ProperSuffix(was, src, dst, moves, i);
        assert moves[i..][1..] == moves[i + 1..] && moves[i..][0] == moves[i];
        ClashTail(was, moves[i..], dst);
        MoveUniqueIff(was, src, dst, moves[i..]);
        var next := MoveOne(db.releases, moves[i], dst);
        if !UniqueVersions(next) {
          ClashAny(was, moves, dst, i);
          return false;
        }
        db := db.(releases := next);
      }
      assert moves[0..] == moves;
      return true;
    }

    /** Drops the source's links for the keys both sides hold. */
    method DropDupLinks(src: int, keys: seq<string>)
      modifies this
      ensures db == old(db).(links := WithoutDups(old(db).links, src, keys))
    {
      ghost var was := db.links;
      assert WithoutDups(was, src, []) == was;
      for i := 0 to |keys|
        invariant db == old(db).(links := WithoutDups(was, src, keys[..i]))
      {
        assert keys[..i + 1] == keys[..i] + [keys[i]];
        WithoutOne(was, src, keys[..i], keys[i]);
        db := db.(links := WithoutDups(db.links, src, [keys[i]]));
      }
      assert keys[..|keys|] == keys;
    }

    /** Repoints every table at the target; a statement that breaks a uniqueness constraint fails. */
    method Reassign(src: int, dst: int) returns (ok: bool)
      modifies this
      ensures ok <==> CanReassign(old(db), src, dst)
      ensures ok ==> db == old(db).(
        sites := Reassigned(old(db).sites, src, dst),
        tags := Reassigned(old(db).tags, src, dst),
        links := Reassigned(old(db).links, src, dst),
        tokens := ReassignedOptional(old(db).tokens, src, dst),
        policies := ReassignedOptional(old(db).policies, src, dst),
        reg := old(db).reg.(aliases := Redirected(old(db).reg.aliases, src, dst)))
    {
      var sites := Reassigned(db.sites, src, dst);
      if !UniqueLabels(sites) {
        return false;
      }
      db := db.(sites := sites);
      var tags := Reassigned(db.tags, src, dst);
      if !UniqueLabels(tags) {
        return false;
      }
      db := db.(tags := tags);
      var links := Reassigned(db.links, src, dst);
      if !UniqueLabels(links) {
        return false;
      }
      db := db.(links := links);
      db := db.(tokens := ReassignedOptional(db.tokens, src, dst));
      db := db.(policies := ReassignedOptional(db.policies, src, dst));
      db := db.(reg := db.reg.(aliases := Redirected(db.reg.aliases, src, dst)));
      return true;
    }

    /** The source's name becomes an alias of the target, its dependents follow, and its row goes. */
    method Retire(src: int, dst: int) returns (ok: bool)
      requires src in db.reg.projects && dst in db.reg.projects
      modifies this
      ensures ok <==> CanRetire(old(db), src, dst)
      ensures ok ==> db == old(db).(reg := old(db).reg.(
        aliases := old(db).reg.aliases[old(db).reg.projects[src].name := dst],
        projects := RenameDepends(old(db).reg.projects, old(db).reg.projects[src].name,
                                  old(db).reg.projects[dst].name, dst) - {src}))
    {
      var name := db.reg.projects[src].name;
      if name in db.reg.aliases {
        return false;
      }
      db := db.(reg := db.reg.(aliases := db.reg.aliases[name := dst]));
      var rows := RenameDependsRows(db.reg.projects, name, db.reg.projects[dst].name, dst);
      db := db.(reg := db.reg.(projects := rows));
      if References(db, src) {
        return false;
      }
      db := db.(reg := db.reg.(projects := db.reg.projects - {src}));
      return true;
    }

    /** Applies a confirmed plan in one transaction. */
    method ApplyProjectMerge(confirmed: Plan) returns (ok: bool, current: Result<Plan, PlanError>)
      requires Sound(db)
      modifies this
      ensures current.Ok? ==> IsPlan(old(db), current.value.from, current.value.into, current.value)
      ensures ok <==> StillApplies(old(db), confirmed, current)
      ensures db == if ok then Applied(old(db), current.value) else old(db)
      ensures ok ==> db.releases == MoveAll(old(db).releases, confirmed.releases, confirmed.into)
      ensures !IsRenumbered(old(db), confirmed.from, confirmed.into, confirmed.releases) ==> !ok
      ensures ok ==> Named(old(db).reg, confirmed.fromName, confirmed.from)
      ensures ok ==> Named(old(db).reg, confirmed.intoName, confirmed.into)
      ensures Sound(db)
      ensures ok ==> Conserved(old(db), confirmed.from, confirmed.into, db) && !References(db, confirmed.from)
    {
      current := Err(SameProject);
      if confirmed.conflicts != [] {
        return false, current;
      }
      current := PlanProjectMerge(db, confirmed.fromName, confirmed.intoName);
      if current.Err? || !SamePlan(confirmed, current.value) {
        return false, current;
      }
      var was := db;
      ok := Run(current.value);
      if !ok {
        db := was;
      }
    }

    /** The transaction's statements in order. */
    method Run(plan: Plan) returns (ok: bool)
      requires Sound(db) && IsPlan(db, plan.from, plan.into, plan) && plan.conflicts == []
      modifies this
      ensures ok <==> !VersionClash(old(db).releases, plan.releases, plan.into)
      ensures ok ==> db == Applied(old(db), plan) && Sound(db)
      ensures ok ==> Conserved(old(db), plan.from, plan.into, db) && !References(db, plan.from)
    {
      var src, dst := plan.from, plan.into;
      ghost var was := db;
      PlanMoves(db, src, dst, plan.releases);
      ok := MoveReleases(src, dst, plan.releases);
      if !ok {
        return;
      }
      ApplyConserves(was, src, dst, plan);
      DropDupLinks(src, plan.dupLinks);
      ok := Reassign(src, dst);
      assert ok;
      RetireSucceeds(was, src, dst, plan, db);
      ok := Retire(src, dst);
      assert db == Applied(was, plan);
      ok := !References(db, src);
    }
  }

  lemma ClashAny(releases: map<int, Release>, moves: seq<MergeRelease>, dst: int, i: nat)
    requires i <= |moves| && VersionClash(releases, moves[i..], dst)
    ensures VersionClash(releases, moves, dst)
  {
    var k :| 0 <= k < |moves[i..]| && HasVersion(releases, dst, moves[i..][k].newVersion);
    assert moves[i + k] == moves[i..][k];
  }

  /** Once every table is repointed, nothing keeps the source's row. */
  lemma RetireSucceeds(was: Db, src: int, dst: int, plan: Plan, now: Db)
    requires Sound(was) && IsPlan(was, src, dst, plan) && src != dst
    requires now == Applied(was, plan).(reg := was.reg.(aliases := Redirected(was.reg.aliases, src, dst)))
    ensures CanRetire(now, src, dst)
  {
    var name := was.reg.projects[src].name;
    Drained(was, src, dst, plan);
    assert now.reg.aliases[name := dst] == Merged(was.reg, src, dst).aliases;
    SameReferences(Applied(was, plan), now.(reg := now.reg.(aliases := now.reg.aliases[name := dst])), src);
  }

  lemma SameReferences(a: Db, b: Db, id: int)
    requires a == b.(reg := a.reg) && a.reg.aliases == b.reg.aliases
    ensures References(a, id) <==> References(b, id)
  {
  }
}
