/**
  How a merge plan without conflicts can still fail. A semver merge keeps a release's version
  string and gives it the target's next number, so a decimal version can end up above its own
  number; a later merge with automatic versions then needs that very string.
 */
module MergeClash {
  import opened DependsText
  import opened Registry
  import opened Merge
  import opened MergeConserves

  /** Three projects of one repository: "a" is the target, "b" uses semver, "c" does not. */
  const Before: Db := Db(
    Reg(map[1 := Project("a", "", "7", false), 2 := Project("b", "", "7", true), 3 := Project("c", "", "7", false)],
        map[], 4),
    map[10 := Release(2, "2", 2000000), 11 := Release(3, "1", 1)],
    map[], map[], map[], map[], map[])

  const NoRowsCounted: Counts := Counts(0, 0, 0, 0, 0)

  const SemverPlan: Plan := Plan(2, 1, "b", "a", [MergeRelease(10, "2", "2", 2000000, 1)], {"b"}, [], NoRowsCounted, [])

  const AutoPlan: Plan := Plan(3, 1, "c", "a", [MergeRelease(11, "1", "2", 1, 2)], {"c"}, [], NoRowsCounted, [])

  lemma BeforeNames()
    ensures UniqueNames(Before.reg) && AliasesApart(Before.reg)
  {
  }

  lemma BeforeProper()
    ensures ProperNames(Before.reg)
  {
  }

  lemma BeforeDeps()
    ensures DepsLive(Before.reg)
  {
    var reg := Before.reg;
    forall id | id in reg.projects
      ensures OwnDepsLive(reg, id, Deps(reg.projects[id]))
    {
    }
  }

  lemma BeforeReferences(id: int)
    requires References(Before, id)
    ensures id in Before.reg.projects
  {
    assert RefReleases(Before.releases, id);
  }

  lemma BeforeIsSound()
    ensures Sound(Before)
  {
    BeforeNames();
    BeforeProper();
    BeforeDeps();
    assert Uniques(Before);
    forall id | References(Before, id)
      ensures id in Before.reg.projects
    {
      BeforeReferences(id);
    }
  }

  /** A project without rows of a table shares no label with another. */
  lemma NoRows(db: Db, src: int, dst: int, c: Conflict)
    requires src in db.reg.projects && dst in db.reg.projects
    requires db.sites == map[] && db.tags == map[]
    requires db.reg.projects[src].repoId == db.reg.projects[dst].repoId != ""
    requires KeepsVersions(db.reg, src, dst) ==> forall r :: r in db.releases ==> db.releases[r].project != dst
    ensures !IsConflict(db, src, dst, c)
  {
  }

  lemma NothingCounted(db: Db, src: int)
    requires db.sites == map[] && db.tags == map[] && db.links == map[] && db.tokens == map[] && db.policies == map[]
    ensures CountsOf(db, src, []) == NoRowsCounted
  {
    assert LabelRows(map[], src) == {} && OptionalRows(map[], src) == {};
  }

  lemma SemverMoves()
    ensures IsRenumbered(Before, 2, 1, SemverPlan.releases)
  {
    assert IsMaxNum(Before.releases, 1, 0);
    assert IsOrdered(Before.releases, 2, [10]);
    assert IsRenumbering(Before, 2, 1, 0, [10], SemverPlan.releases);
  }

  lemma SemverPlanIsPlan()
    ensures IsPlan(Before, 2, 1, SemverPlan) && !VersionClash(Before.releases, SemverPlan.releases, 1)
  {
    SemverMoves();
    NothingCounted(Before, 2);
    forall c
      ensures !IsConflict(Before, 2, 1, c)
    {
      NoRows(Before, 2, 1, c);
    }
  }

  /** The target after the semver merge: version "2" under number 1. */
  lemma AfterSemver()
    ensures var after := Applied(Before, SemverPlan);
      && after.releases == map[10 := Release(1, "2", 1), 11 := Release(3, "1", 1)]
      && after.reg.projects.Keys == {1, 3} && after.reg.aliases == map["b" := 1]
      && after.reg.projects[1] == Before.reg.projects[1] && after.reg.projects[3] == Before.reg.projects[3]
      && after.sites == map[] && after.tags == map[] && after.links == map[]
      && after.tokens == map[] && after.policies == map[]
  {
    var after := Applied(Before, SemverPlan);
    ProbeIff("", "b");
    assert SemverPlan.releases[1..] == [];
    assert MoveAll(Before.releases, [], 1) == Before.releases;
  }

  lemma AutoMoves(db: Db)
    requires db == Applied(Before, SemverPlan)
    ensures IsRenumbered(db, 3, 1, AutoPlan.releases)
  {
    AfterSemver();
    assert db.releases[10] == Release(1, "2", 1);
    assert IsMaxNum(db.releases, 1, 1);
    assert IsOrdered(db.releases, 3, [11]);
    assert FormatInt(2) == "2";
    assert IsRenumbering(db, 3, 1, 1, [11], AutoPlan.releases);
  }

  lemma AutoPlanIsPlan(db: Db)
    requires db == Applied(Before, SemverPlan)
    ensures IsPlan(db, 3, 1, AutoPlan)
  {
    AutoMoves(db);
    AutoCounts(db);
    AutoLabels(db);
    AfterSemver();
    forall c
      ensures !IsConflict(db, 3, 1, c)
    {
      AutoConflict(db, c);
    }
  }

  lemma AutoCounts(db: Db)
    requires db == Applied(Before, SemverPlan)
    ensures AutoPlan.counts == CountsOf(db, 3, AutoPlan.dupLinks)
  {
    AfterSemver();
    NothingCounted(db, 3);
  }

  lemma AutoLabels(db: Db)
    requires db == Applied(Before, SemverPlan)
    ensures forall n :: n in AutoPlan.aliases <==> n == "c" || (n in db.reg.aliases && db.reg.aliases[n] == 3)
    ensures forall k :: k in AutoPlan.dupLinks <==> Shared(db.links, 3, 1, k)
  {
    AfterSemver();
  }

  lemma AutoConflict(db: Db, c: Conflict)
    requires db == Applied(Before, SemverPlan)
    ensures 1 in db.reg.projects && 3 in db.reg.projects && !IsConflict(db, 3, 1, c)
  {
    AfterSemver();
    NoRows(db, 3, 1, c);
  }

  /** Two plans without conflicts, one after the other: the first applies, the second collides. */
  lemma SemverMergeThenClash() returns (db: Db)
    ensures Sound(Before) && IsPlan(Before, 2, 1, SemverPlan) && SemverPlan.conflicts == []
    ensures !VersionClash(Before.releases, SemverPlan.releases, 1)
    ensures db == Applied(Before, SemverPlan) && Sound(db)
    ensures IsPlan(db, 3, 1, AutoPlan) && AutoPlan.conflicts == []
    ensures VersionClash(db.releases, AutoPlan.releases, 1)
  {
    BeforeIsSound();
    SemverPlanIsPlan();
    db := Applied(Before, SemverPlan);
    MergedSound(Before, 2, 1, SemverPlan);
    AutoPlanIsPlan(db);
    AutoPlanClashes(db);
  }

  lemma AutoPlanClashes(db: Db)
    requires db == Applied(Before, SemverPlan)
    ensures VersionClash(db.releases, AutoPlan.releases, 1)
  {
    AfterSemver();
    assert db.releases[10] == Release(1, "2", 1);
    assert HasVersion(db.releases, 1, AutoPlan.releases[0].newVersion);
  }
}
