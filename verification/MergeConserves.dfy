/** What a merge conserves, and exactly when its renumbered versions collide. */
module MergeConserves {
  import opened Wrappers
  import opened Registry
  import opened Merge

  // ---- version strings ----

  /** Outside semver the moves collide exactly when the target has a decimal version among the new numbers. */
  lemma AutoClashIff(db: Db, src: int, dst: int, max: int, rows: seq<int>, moves: seq<MergeRelease>)
    requires IsRenumbering(db, src, dst, max, rows, moves) && !KeepsVersions(db.reg, src, dst)
    ensures VersionClash(db.releases, moves, dst)
       <==> exists k :: max < k <= max + |moves| && HasVersion(db.releases, dst, FormatInt(k))
  {
    if VersionClash(db.releases, moves, dst) {
      var i :| 0 <= i < |moves| && HasVersion(db.releases, dst, moves[i].newVersion);
      assert moves[i].newVersion == FormatInt(max + 1 + i);
    }
    if k :| max < k <= max + |moves| && HasVersion(db.releases, dst, FormatInt(k)) {
      var i := k - max - 1;
      assert moves[i].newVersion == FormatInt(k);
    }
  }

  /** So a target whose decimal versions are all at most its highest number never collides. */
  lemma DecimalsBelowMax(db: Db, src: int, dst: int, max: int, rows: seq<int>, moves: seq<MergeRelease>)
    requires IsRenumbering(db, src, dst, max, rows, moves) && !KeepsVersions(db.reg, src, dst)
    requires forall k :: HasVersion(db.releases, dst, FormatInt(k)) ==> k <= max
    ensures !VersionClash(db.releases, moves, dst)
  {
    AutoClashIff(db, src, dst, max, rows, moves);
  }

  /** A semver plan without conflicts never collides. */
  lemma SemverNeverClashes(db: Db, src: int, dst: int, plan: Plan)
    requires IsPlan(db, src, dst, plan) && plan.conflicts == [] && KeepsVersions(db.reg, src, dst)
    ensures !VersionClash(db.releases, plan.releases, dst)
  {
    var moves := plan.releases;
    var max, rows :|
      IsMaxNum(db.releases, dst, max) && IsOrdered(db.releases, src, rows)
          && IsRenumbering(db, src, dst, max, rows, moves);
    forall i | 0 <= i < |moves|
      ensures !HasVersion(db.releases, dst, moves[i].newVersion)
    {
      assert rows[i] in rows;
      assert HasVersion(db.releases, src, moves[i].newVersion);
      assert !IsConflict(db, src, dst, VersionTaken(moves[i].newVersion));
    }
  }

  // ---- releases ----

  /** The release belonged to the source and now has its new number and version in the target. */
  ghost predicate MovedRelease(db: Db, src: int, dst: int, after: map<int, Release>, r: int)
    requires r in db.releases && r in after
  {
    && after[r].project == dst
    && after[r].version == (if src in db.reg.projects && dst in db.reg.projects
                               && (db.reg.projects[src].semver || db.reg.projects[dst].semver)
                            then db.releases[r].version
                            else FormatInt(after[r].num))
  }

  /** Every release is kept; the source's are the target's now, the others are untouched. */
  ghost predicate ReleasesConserved(db: Db, src: int, dst: int, after: map<int, Release>) {
    && after.Keys == db.releases.Keys
    && (forall r :: r in db.releases && db.releases[r].project != src ==> after[r] == db.releases[r])
    && (forall r :: r in db.releases && db.releases[r].project == src ==> MovedRelease(db, src, dst, after, r))
  }

  predicate RefersTo(db: Db, r: int, project: int) {
    r in db.releases && db.releases[r].project == project
  }

  predicate RankedBelow(db: Db, src: int, a: int, b: int)
    requires a in db.releases && b in db.releases
  {
    db.releases[a].project == src && db.releases[b].project == src && db.releases[a].num < db.releases[b].num
  }

  /** The source's releases rank after all of the target's, in their old order. */
  ghost predicate RanksAfter(db: Db, src: int, dst: int, after: map<int, Release>)
    requires after.Keys == db.releases.Keys
  {
    && (forall a, b :: RefersTo(db, a, src) && RefersTo(db, b, dst) ==> after[b].num < after[a].num)
    && (forall a, b :: a in db.releases && b in db.releases && RankedBelow(db, src, a, b) ==>
          after[a].num < after[b].num)
  }

  lemma MovedAt(db: Db, src: int, dst: int, max: int, rows: seq<int>, moves: seq<MergeRelease>, r: int) returns (i: nat)
    requires IsOrdered(db.releases, src, rows) && IsRenumbering(db, src, dst, max, rows, moves)
    requires DistinctIds(moves) && r in db.releases && db.releases[r].project == src
    ensures i < |rows| && rows[i] == r && i < |moves|
    ensures r in MoveAll(db.releases, moves, dst)
    ensures MoveAll(db.releases, moves, dst)[r] == Release(dst, moves[i].newVersion, max + 1 + i)
  {
    assert r in rows;
    i :| 0 <= i < |rows| && rows[i] == r;
    assert moves[i].id == r;
    MoveAllAt(db.releases, moves, dst, r);
  }

  lemma ReleaseMoves(db: Db, src: int, dst: int, max: int, rows: seq<int>, moves: seq<MergeRelease>, r: int)
    requires IsOrdered(db.releases, src, rows) && IsRenumbering(db, src, dst, max, rows, moves)
    requires DistinctIds(moves) && r in db.releases
    requires forall x :: Moves(moves, x) <==> x in db.releases && db.releases[x].project == src
    ensures r in MoveAll(db.releases, moves, dst)
    ensures db.releases[r].project != src ==> MoveAll(db.releases, moves, dst)[r] == db.releases[r]
    ensures db.releases[r].project == src ==>
              MovedRelease(db, src, dst, MoveAll(db.releases, moves, dst), r)
                  && MoveAll(db.releases, moves, dst)[r].num > max
  {
    MoveAllAt(db.releases, moves, dst, r);
    if db.releases[r].project == src {
      MovedAbove(db, src, dst, max, rows, moves, r);
    }
  }

  lemma MovedAbove(db: Db, src: int, dst: int, max: int, rows: seq<int>, moves: seq<MergeRelease>, r: int)
    requires IsOrdered(db.releases, src, rows) && IsRenumbering(db, src, dst, max, rows, moves)
    requires DistinctIds(moves) && r in db.releases && db.releases[r].project == src
    ensures r in MoveAll(db.releases, moves, dst)
    ensures MovedRelease(db, src, dst, MoveAll(db.releases, moves, dst), r)
    ensures MoveAll(db.releases, moves, dst)[r].num > max
  {
    var i := MovedAt(db, src, dst, max, rows, moves, r);
  }

  lemma RankKept(db: Db, src: int, dst: int, max: int, rows: seq<int>, moves: seq<MergeRelease>, a: int, b: int)
    requires IsOrdered(db.releases, src, rows) && IsRenumbering(db, src, dst, max, rows, moves) && DistinctIds(moves)
    requires a in db.releases && b in db.releases && RankedBelow(db, src, a, b)
    ensures a in MoveAll(db.releases, moves, dst) && b in MoveAll(db.releases, moves, dst)
    ensures MoveAll(db.releases, moves, dst)[a].num < MoveAll(db.releases, moves, dst)[b].num
  {
    var i := MovedAt(db, src, dst, max, rows, moves, a);
    var j := MovedAt(db, src, dst, max, rows, moves, b);
    OrderedBelow(db.releases, src, rows, i, j);
  }

  lemma OrderedBelow(releases: map<int, Release>, project: int, rows: seq<int>, i: nat, j: nat)
    requires IsOrdered(releases, project, rows) && i < |rows| && j < |rows|
    requires rows[i] in releases && rows[j] in releases && releases[rows[i]].num < releases[rows[j]].num
    ensures i < j
  {
  }

  lemma ReleasesMove(db: Db, src: int, dst: int, moves: seq<MergeRelease>)
    requires UniqueVersions(db.releases) && src != dst && IsRenumbered(db, src, dst, moves)
    ensures ReleasesConserved(db, src, dst, MoveAll(db.releases, moves, dst))
    ensures RanksAfter(db, src, dst, MoveAll(db.releases, moves, dst))
  {
    var max, rows :|
      IsMaxNum(db.releases, dst, max) && IsOrdered(db.releases, src, rows)
          && IsRenumbering(db, src, dst, max, rows, moves);
    PlanMoves(db, src, dst, moves);
    MoveAllAt(db.releases, moves, dst, 0);
    forall r | r in db.releases
      ensures db.releases[r].project != src ==> MoveAll(db.releases, moves, dst)[r] == db.releases[r]
      ensures db.releases[r].project == src ==>
                MovedRelease(db, src, dst, MoveAll(db.releases, moves, dst), r)
                    && MoveAll(db.releases, moves, dst)[r].num > max
    {
      ReleaseMoves(db, src, dst, max, rows, moves, r);
    }
    forall a, b | a in db.releases && b in db.releases && RankedBelow(db, src, a, b)
      ensures MoveAll(db.releases, moves, dst)[a].num < MoveAll(db.releases, moves, dst)[b].num
    {
      RankKept(db, src, dst, max, rows, moves, a, b);
    }
  }

  // ---- labelled rows ----

  /** No label is on both sides. */
  ghost predicate Disjoint(rows: map<int, Labelled>, src: int, dst: int) {
    forall n :: !Shared(rows, src, dst, n)
  }

  lemma ReassignUnique(rows: map<int, Labelled>, src: int, dst: int)
    requires UniqueLabels(rows) && Disjoint(rows, src, dst)
    ensures UniqueLabels(Reassigned(rows, src, dst))
  {
    var after := Reassigned(rows, src, dst);
    forall a, b | a in after && b in after && after[a] == after[b]
      ensures a == b
    {
      assert !Shared(rows, src, dst, rows[a].name);
      if rows[a].project != rows[b].project {
        assert HasLabel(rows, src, rows[a].name) || !HasLabel(rows, src, rows[a].name);
        assert rows[a] == Labelled(rows[a].project, rows[a].name);
        assert rows[b] == Labelled(rows[b].project, rows[b].name);
      }
    }
  }

  lemma LinksUnique(rows: map<int, Labelled>, src: int, dst: int, keys: seq<string>)
    requires UniqueLabels(rows) && src != dst && forall k :: k in keys <==> Shared(rows, src, dst, k)
    ensures UniqueLabels(Reassigned(WithoutDups(rows, src, keys), src, dst))
  {
    var left := WithoutDups(rows, src, keys);
    forall k
      ensures !Shared(left, src, dst, k)
    {
      assert HasLabel(left, src, k) ==> HasLabel(rows, src, k) && k !in keys;
      assert HasLabel(left, dst, k) ==> HasLabel(rows, dst, k);
    }
    ReassignUnique(left, src, dst);
  }

  /** The target holds a blob key afterwards exactly when either side held it before. */
  lemma LinksConserved(rows: map<int, Labelled>, src: int, dst: int, keys: seq<string>, k: string)
    requires src != dst && forall x :: x in keys <==> Shared(rows, src, dst, x)
    ensures HasLabel(Reassigned(WithoutDups(rows, src, keys), src, dst), dst, k) <==>
            HasLabel(rows, src, k) || HasLabel(rows, dst, k)
  {
    var after := Reassigned(WithoutDups(rows, src, keys), src, dst);
    if HasLabel(rows, dst, k) {
      var r :| r in rows && rows[r] == Labelled(dst, k);
      assert after[r] == Labelled(dst, k);
    } else if HasLabel(rows, src, k) {
      var r :| r in rows && rows[r] == Labelled(src, k);
      assert k !in keys;
      assert after[r] == Labelled(dst, k);
    }
    if HasLabel(after, dst, k) {
      var r :| r in after && after[r] == Labelled(dst, k);
      assert rows[r] == Labelled(src, k) || rows[r] == Labelled(dst, k);
    }
  }

  /** Dropping the links of distinct keys the source holds leaves that many rows fewer. */
  lemma {:induction false} DroppedLinks(rows: map<int, Labelled>, src: int, keys: seq<string>)
    requires UniqueLabels(rows) && NoDup(keys) && forall k :: k in keys ==> HasLabel(rows, src, k)
    ensures |LabelRows(WithoutDups(rows, src, keys), src)| == |LabelRows(rows, src)| - |keys|
  {
    if keys == [] {
      assert LabelRows(WithoutDups(rows, src, keys), src) == LabelRows(rows, src);
    } else {
      var last := |keys| - 1;
      var front, key := keys[..last], keys[last];
      assert key in keys && keys == front + [key];
      DroppedLinks(rows, src, front);
      var r :| r in rows && rows[r] == Labelled(src, key);
      var before, after := LabelRows(WithoutDups(rows, src, front), src), LabelRows(WithoutDups(rows, src, keys), src);
      forall x
        ensures x in after <==> x in before && x != r
      {
      }
      assert after == before - {r};
    }
  }

  /** The count of blob links a plan shows is the number of links that move. */
  lemma CountedLinksMove(db: Db, src: int, dst: int, plan: Plan)
    requires Uniques(db) && IsPlan(db, src, dst, plan)
    ensures plan.counts.ociBlobs == |LabelRows(WithoutDups(db.links, src, plan.dupLinks), src)|
  {
    DroppedLinks(db.links, src, plan.dupLinks);
  }

  /** Every row of the table is kept with its label; the source's rows are the target's now. */
  ghost predicate RowsConserved(rows: map<int, Labelled>, src: int, dst: int, after: map<int, Labelled>) {
    && after.Keys == rows.Keys
    && forall r :: r in rows ==>
          after[r].name == rows[r].name && after[r].project == if rows[r].project == src then dst else rows[r].project
  }

  /** Every row is kept; those of the source are the target's now, and no other row changed. */
  ghost predicate OptionalConserved(rows: map<int, Option<int>>, src: int, dst: int, after: map<int, Option<int>>) {
    && after.Keys == rows.Keys
    && forall r :: r in rows ==> after[r] == if rows[r] == Some(src) then Some(dst) else rows[r]
  }

  // ---- the whole merge ----

  ghost predicate Conserved(db: Db, src: int, dst: int, after: Db) {
    && ReleasesConserved(db, src, dst, after.releases) && RanksAfter(db, src, dst, after.releases)
    && RowsConserved(db.sites, src, dst, after.sites) && RowsConserved(db.tags, src, dst, after.tags)
    && OptionalConserved(db.tokens, src, dst, after.tokens) && OptionalConserved(db.policies, src, dst, after.policies)
    && (forall k :: HasLabel(after.links, dst, k) <==> HasLabel(db.links, src, k) || HasLabel(db.links, dst, k))
    && OthersKept(db.links, src, dst, after.links)
  }

  /** Links of other projects are as they were. */
  ghost predicate OthersKept(rows: map<int, Labelled>, src: int, dst: int, after: map<int, Labelled>) {
    forall r, row: Labelled ::
      row.project != src && row.project != dst ==> (r in rows && rows[r] == row <==> r in after && after[r] == row)
  }

  lemma NoConflictDisjoint(db: Db, src: int, dst: int, plan: Plan)
    requires IsPlan(db, src, dst, plan) && plan.conflicts == []
    ensures Disjoint(db.sites, src, dst) && Disjoint(db.tags, src, dst)
  {
    forall n
      ensures !Shared(db.sites, src, dst, n) && !Shared(db.tags, src, dst, n)
    {
      assert !IsConflict(db, src, dst, SiteBranch(n)) && !IsConflict(db, src, dst, OciTag(n));
    }
  }

  lemma LabelsDrained(rows: map<int, Labelled>, src: int, dst: int)
    requires src != dst
    ensures forall id :: RefLabels(Reassigned(rows, src, dst), id) ==> id != src && (id == dst || RefLabels(rows, id))
  {
  }

  lemma LinksDrained(rows: map<int, Labelled>, src: int, dst: int, keys: seq<string>)
    requires src != dst
    ensures forall id :: RefLabels(Reassigned(WithoutDups(rows, src, keys), src, dst), id) ==>
            id != src && (id == dst || RefLabels(rows, id))
  {
    LabelsDrained(WithoutDups(rows, src, keys), src, dst);
  }

  lemma OptionalDrained(rows: map<int, Option<int>>, src: int, dst: int)
    requires src != dst
    ensures forall id :: RefOptional(ReassignedOptional(rows, src, dst), id) ==>
            id != src && (id == dst || RefOptional(rows, id))
  {
  }

  lemma ReleasesDrained(db: Db, src: int, dst: int, after: map<int, Release>)
    requires src != dst && ReleasesConserved(db, src, dst, after)
    ensures forall id :: RefReleases(after, id) ==> id != src && (id == dst || RefReleases(db.releases, id))
  {
    forall r | r in after
      ensures after[r].project != src && (after[r].project == dst || RefReleases(db.releases, after[r].project))
    {
      if db.releases[r].project == src {
        assert MovedRelease(db, src, dst, after, r);
      }
    }
  }

  lemma AliasesDrained(s: Reg, src: int, dst: int)
    requires src in s.projects && dst in s.projects && src != dst
    ensures forall id :: RefAliases(Merged(s, src, dst).aliases, id) ==>
            id != src && (id == dst || RefAliases(s.aliases, id))
  {
    var after := Merged(s, src, dst).aliases;
    forall n | n in after
      ensures after[n] != src && (after[n] == dst || RefAliases(s.aliases, after[n]))
    {
      if n != s.projects[src].name {
        assert n in s.aliases;
      }
    }
  }

  /** Nothing points at the source afterwards. */
  lemma Drained(db: Db, src: int, dst: int, plan: Plan)
    requires UniqueVersions(db.releases) && IsPlan(db, src, dst, plan)
    ensures forall id :: References(Applied(db, plan), id) ==> id != src && (id == dst || References(db, id))
  {
    ReleasesMove(db, src, dst, plan.releases);
    ReleasesDrained(db, src, dst, MoveAll(db.releases, plan.releases, dst));
    LabelsDrained(db.sites, src, dst);
    LabelsDrained(db.tags, src, dst);
    LinksDrained(db.links, src, dst, plan.dupLinks);
    OptionalDrained(db.tokens, src, dst);
    OptionalDrained(db.policies, src, dst);
    AliasesDrained(db.reg, src, dst);
  }

  lemma MergedUniques(db: Db, src: int, dst: int, plan: Plan)
    requires Uniques(db) && IsPlan(db, src, dst, plan) && plan.conflicts == []
    requires !VersionClash(db.releases, plan.releases, dst)
    ensures Uniques(Applied(db, plan))
  {
    PlanMoves(db, src, dst, plan.releases);
    MovesUniqueIff(db.releases, src, dst, plan.releases);
    NoConflictDisjoint(db, src, dst, plan);
    ReassignUnique(db.sites, src, dst);
    ReassignUnique(db.tags, src, dst);
    LinksUnique(db.links, src, dst, plan.dupLinks);
  }

  lemma MergeConserved(db: Db, src: int, dst: int, plan: Plan)
    requires UniqueVersions(db.releases) && IsPlan(db, src, dst, plan)
    ensures Conserved(db, src, dst, Applied(db, plan))
  {
    ReleasesMove(db, src, dst, plan.releases);
    RowsMove(db.sites, src, dst);
    RowsMove(db.tags, src, dst);
    OptionalMoves(db.tokens, src, dst);
    OptionalMoves(db.policies, src, dst);
    LinksMove(db.links, src, dst, plan.dupLinks);
  }

  lemma RowsMove(rows: map<int, Labelled>, src: int, dst: int)
    ensures RowsConserved(rows, src, dst, Reassigned(rows, src, dst))
  {
  }

  lemma OptionalMoves(rows: map<int, Option<int>>, src: int, dst: int)
    ensures OptionalConserved(rows, src, dst, ReassignedOptional(rows, src, dst))
  {
  }

  lemma LinksMove(rows: map<int, Labelled>, src: int, dst: int, keys: seq<string>)
    requires src != dst && forall x :: x in keys <==> Shared(rows, src, dst, x)
    ensures var after := Reassigned(WithoutDups(rows, src, keys), src, dst);
      && (forall k :: HasLabel(after, dst, k) <==> HasLabel(rows, src, k) || HasLabel(rows, dst, k))
      && OthersKept(rows, src, dst, after)
  {
    forall k
      ensures HasLabel(Reassigned(WithoutDups(rows, src, keys), src, dst), dst, k) <==>
              HasLabel(rows, src, k) || HasLabel(rows, dst, k)
    {
      LinksConserved(rows, src, dst, keys, k);
    }
  }

  lemma MergedReferences(db: Db, src: int, dst: int, plan: Plan)
    requires UniqueVersions(db.releases) && IsPlan(db, src, dst, plan)
    requires forall id :: References(db, id) ==> id in db.reg.projects
    ensures forall id :: References(Applied(db, plan), id) ==> id != src && id in Merged(db.reg, src, dst).projects
  {
    Drained(db, src, dst, plan);
  }

  lemma MergedInv(s: Reg, src: int, dst: int)
    requires Inv(s) && src in s.projects && dst in s.projects && src != dst
    ensures Inv(Merged(s, src, dst))
  {
    MergeKeepsNames(s, src, dst);
    MergeKeepsDeps(s, src, dst);
  }

  lemma MergedSound(db: Db, src: int, dst: int, plan: Plan)
    requires Sound(db) && IsPlan(db, src, dst, plan) && plan.conflicts == []
    requires !VersionClash(db.releases, plan.releases, dst)
    ensures Sound(Applied(db, plan)) && !References(Applied(db, plan), src)
  {
    MergedUniques(db, src, dst, plan);
    MergedInv(db.reg, src, dst);
    MergedReferences(db, src, dst, plan);
  }

  /** An applicable plan without a version collision keeps the schema's constraints and conserves every table. */
  lemma ApplyConserves(db: Db, src: int, dst: int, plan: Plan)
    requires Sound(db) && IsPlan(db, src, dst, plan) && plan.conflicts == []
    requires !VersionClash(db.releases, plan.releases, dst)
    ensures Sound(Applied(db, plan)) && Conserved(db, src, dst, Applied(db, plan))
    ensures !References(Applied(db, plan), src)
  {
    MergedSound(db, src, dst, plan);
    MergeConserved(db, src, dst, plan);
  }
}
