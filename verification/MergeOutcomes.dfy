/**
  What a merge plan shows and what its application leaves, in the tables' own terms: which
  conflicts, counts and numbers, and that no row of any table is left with the source.
 */
module MergeOutcomes {
  import opened Wrappers
  import opened Registry
  import opened Merge
  import opened MergeConserves

  /** Exactly when each conflict is in the plan. */
  lemma ConflictsSay(db: Db, src: int, dst: int, plan: Plan, v: string)
    requires IsPlan(db, src, dst, plan)
    ensures var a, b := db.reg.projects[src], db.reg.projects[dst];
      && (NoRepoId in plan.conflicts <==> a.repoId == "" || b.repoId == "")
      && (DifferentRepos in plan.conflicts <==> a.repoId != "" && b.repoId != "" && a.repoId != b.repoId)
      && (VersionTaken(v) in plan.conflicts <==> (a.semver || b.semver) && VersionOnBoth(db.releases, src, dst, v))
      && (SiteBranch(v) in plan.conflicts <==> LabelOnBoth(db.sites, src, dst, v))
      && (OciTag(v) in plan.conflicts <==> LabelOnBoth(db.tags, src, dst, v))
  {
    VersionBoth(db.releases, src, dst, v);
    LabelBoth(db.sites, src, dst, v);
    LabelBoth(db.tags, src, dst, v);
    assert NoRepoId in plan.conflicts <==> IsConflict(db, src, dst, NoRepoId);
    assert DifferentRepos in plan.conflicts <==> IsConflict(db, src, dst, DifferentRepos);
    assert VersionTaken(v) in plan.conflicts <==> IsConflict(db, src, dst, VersionTaken(v));
    assert SiteBranch(v) in plan.conflicts <==> IsConflict(db, src, dst, SiteBranch(v));
    assert OciTag(v) in plan.conflicts <==> IsConflict(db, src, dst, OciTag(v));
  }

  /** A release of each project carries the version. */
  ghost predicate VersionOnBoth(releases: map<int, Release>, src: int, dst: int, v: string) {
    exists a, b :: a in releases && b in releases && releases[a].project == src && releases[b].project == dst
        && releases[a].version == v == releases[b].version
  }

  /** A row of each project carries the label. */
  ghost predicate LabelOnBoth(rows: map<int, Labelled>, src: int, dst: int, name: string) {
    exists a, b :: a in rows && b in rows && rows[a] == Labelled(src, name) && rows[b] == Labelled(dst, name)
  }

  lemma VersionBoth(releases: map<int, Release>, src: int, dst: int, v: string)
    ensures VersionOnBoth(releases, src, dst, v) <==> HasVersion(releases, src, v) && HasVersion(releases, dst, v)
  {
    if HasVersion(releases, src, v) && HasVersion(releases, dst, v) {
      var a :| a in releases && releases[a].project == src && releases[a].version == v;
      var b :| b in releases && releases[b].project == dst && releases[b].version == v;
      assert releases[a].version == v == releases[b].version;
    }
  }

  lemma LabelBoth(rows: map<int, Labelled>, src: int, dst: int, name: string)
    ensures LabelOnBoth(rows, src, dst, name) <==> Shared(rows, src, dst, name)
  {
    if Shared(rows, src, dst, name) {
      var a :| a in rows && rows[a] == Labelled(src, name);
      var b :| b in rows && rows[b] == Labelled(dst, name);
      assert rows[a] == Labelled(src, name) && rows[b] == Labelled(dst, name);
    }
  }

  /** What the plan counts is the source's rows, for blob keys those the target lacks. */
  lemma CountsSay(db: Db, src: int, dst: int, plan: Plan)
    requires Uniques(db) && IsPlan(db, src, dst, plan)
    ensures plan.counts.sites == |set r | r in db.sites && db.sites[r].project == src|
    ensures plan.counts.ociTags == |set r | r in db.tags && db.tags[r].project == src|
    ensures plan.counts.tokens == |set r | r in db.tokens && db.tokens[r] == Some(src)|
    ensures plan.counts.policies == |set r | r in db.policies && db.policies[r] == Some(src)|
    ensures plan.counts.ociBlobs ==
            |set r | r in db.links && db.links[r].project == src && !LabelOnBoth(db.links, src, dst, db.links[r].name)|
  {
    CountedLinksMove(db, src, dst, plan);
    var links := WithoutDups(db.links, src, plan.dupLinks);
    forall r | r in db.links
      ensures LabelOnBoth(db.links, src, dst, db.links[r].name) <==> db.links[r].name in plan.dupLinks
    {
      LabelBoth(db.links, src, dst, db.links[r].name);
    }
    assert LabelRows(links, src) ==
      set r | r in db.links && db.links[r].project == src && !LabelOnBoth(db.links, src, dst, db.links[r].name);
    assert LabelRows(db.sites, src) == set r | r in db.sites && db.sites[r].project == src;
    assert LabelRows(db.tags, src) == set r | r in db.tags && db.tags[r].project == src;
    assert OptionalRows(db.tokens, src) == set r | r in db.tokens && db.tokens[r] == Some(src);
    assert OptionalRows(db.policies, src) == set r | r in db.policies && db.policies[r] == Some(src);
  }

  /** The highest number among the project's releases, zero when it has none. */
  ghost predicate IsHighest(releases: map<int, Release>, project: int, m: int) {
    && (forall r :: r in releases && releases[r].project == project ==> releases[r].num <= m)
    && if exists r :: r in releases && releases[r].project == project
       then exists r :: r in releases && releases[r].project == project && releases[r].num == m
       else m == 0
  }

  /** The moved releases take the numbers after the target's highest, one each, with no gap. */
  lemma NumbersSay(db: Db, src: int, dst: int, plan: Plan) returns (highest: int)
    requires UniqueVersions(db.releases) && IsPlan(db, src, dst, plan)
    ensures IsHighest(db.releases, dst, highest)
    ensures forall n :: highest < n <= highest + |plan.releases| <==>
              MovedTo(db, src, MoveAll(db.releases, plan.releases, dst), n)
  {
    var max, rows :|
      IsMaxNum(db.releases, dst, max) && IsOrdered(db.releases, src, rows)
          && IsRenumbering(db, src, dst, max, rows, plan.releases);
    PlanMoves(db, src, dst, plan.releases);
    highest := max;
    forall n
      ensures max < n <= max + |plan.releases| <==> MovedTo(db, src, MoveAll(db.releases, plan.releases, dst), n)
    {
      NumberTaken(db, src, dst, max, rows, plan.releases, n);
    }
  }

  /** Some release of the source has the number n afterwards. */
  ghost predicate MovedTo(db: Db, src: int, after: map<int, Release>, n: int) {
    exists r :: r in db.releases && db.releases[r].project == src && r in after && after[r].num == n
  }

  lemma NumberTaken(db: Db, src: int, dst: int, max: int, rows: seq<int>, moves: seq<MergeRelease>, n: int)
    requires IsOrdered(db.releases, src, rows) && IsRenumbering(db, src, dst, max, rows, moves) && DistinctIds(moves)
    ensures max < n <= max + |moves| <==> MovedTo(db, src, MoveAll(db.releases, moves, dst), n)
  {
    var after := MoveAll(db.releases, moves, dst);
    if max < n <= max + |moves| {
      var r := rows[n - max - 1];
      assert r in rows;
      var i := MovedAt(db, src, dst, max, rows, moves, r);
      assert i == n - max - 1;
    }
    if MovedTo(db, src, after, n) {
      var r :| r in db.releases && db.releases[r].project == src && r in after && after[r].num == n;
      var i := MovedAt(db, src, dst, max, rows, moves, r);
    }
  }

  /** After the merge no row of any table names the source, and what named it names the target. */
  lemma DrainedSays(db: Db, src: int, dst: int, plan: Plan)
    requires Sound(db) && IsPlan(db, src, dst, plan) && plan.conflicts == []
    requires !VersionClash(db.releases, plan.releases, dst)
    ensures var after := Applied(db, plan);
      && src !in after.reg.projects
      && (forall r :: r in after.releases ==> after.releases[r].project != src)
      && (forall r :: r in after.sites ==> after.sites[r].project != src)
      && (forall r :: r in after.tags ==> after.tags[r].project != src)
      && (forall r :: r in after.links ==> after.links[r].project != src)
      && (forall r :: r in after.tokens ==> after.tokens[r] != Some(src))
      && (forall r :: r in after.policies ==> after.policies[r] != Some(src))
      && (forall n :: n in after.reg.aliases ==> after.reg.aliases[n] != src)
  {
    MergedSays(db.reg, src, dst);
    MergedSound(db, src, dst, plan);
    UnreferencedSays(Applied(db, plan), src);
  }

  /** Nothing points at a project: no row of any of the seven tables names it. */
  lemma UnreferencedSays(db: Db, id: int)
    requires !References(db, id)
    ensures forall r :: r in db.releases ==> db.releases[r].project != id
    ensures forall r :: r in db.sites ==> db.sites[r].project != id
    ensures forall r :: r in db.tags ==> db.tags[r].project != id
    ensures forall r :: r in db.links ==> db.links[r].project != id
    ensures forall r :: r in db.tokens ==> db.tokens[r] != Some(id)
    ensures forall r :: r in db.policies ==> db.policies[r] != Some(id)
    ensures forall n :: n in db.reg.aliases ==> db.reg.aliases[n] != id
  {
  }

  /** Version numbers print as plain decimals. */
  lemma FormatExamples()
    ensures FormatInt(0) == "0" && FormatInt(7) == "7" && FormatInt(10) == "10" && FormatInt(2024) == "2024"
    ensures FormatInt(-15) == "-15"
  {
    assert FormatNat(2024) == FormatNat(202) + "4" && FormatNat(202) == FormatNat(20) + "2";
    assert FormatNat(20) == FormatNat(2) + "0" && FormatNat(15) == FormatNat(1) + "5";
    assert FormatNat(10) == FormatNat(1) + "0";
  }
}
