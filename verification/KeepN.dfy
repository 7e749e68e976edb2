/** The retention policy: which releases the selections name, and what the estimate promises. */
module KeepN {
  import opened Wrappers
  import opened Retention

  /** The published releases of one branch of one project. */
  function PublishedOn(db: Db, project: int, branch: string): set<int> {
    set r | r in db.releases && db.releases[r].project == project && db.releases[r].branch == branch
        && db.releases[r].published
  }

  /** The published releases of the same branch with a higher number. */
  function Newer(db: Db, id: int): set<int>
    requires id in db.releases
  {
    var it := db.releases[id];
    set r | r in PublishedOn(db, it.project, it.branch) && db.releases[r].num > it.num
  }

  function KeepCount(keepN: int): nat {
    if keepN > 1 then keepN else 1
  }

  predicate Tagged(db: Db, id: int) {
    exists t :: t in db.tags && db.tags[t] == id
  }

  predicate HasDocker(db: Db, id: int) {
    exists a :: a in db.artifacts && db.artifacts[a].release == id && db.artifacts[a].docker
  }

  /** A published release past keep-N, older than the cutoff, neither tagged nor pushed as an image. */
  predicate Evictable(db: Db, keepN: int, cutoff: int, id: int) {
    && id in db.releases && db.releases[id].published
    && db.releases[id].createdAt < cutoff
    && !Tagged(db, id) && !HasDocker(db, id)
    && |Newer(db, id)| >= KeepCount(keepN)
  }

  /** An unpublished release that is no draft and older than the cutoff. */
  predicate Abandoned(db: Db, cutoff: int, id: int) {
    id in db.releases && !db.releases[id].published && !db.releases[id].draft && db.releases[id].createdAt < cutoff
  }

  /** Every id is one the two selections name, each with its own cutoff. */
  ghost predicate Selected(db: Db, keepN: int, cutoff: int, abandonedCutoff: int, ids: seq<int>) {
    forall id :: id in ids ==> Evictable(db, keepN, cutoff, id) || Abandoned(db, abandonedCutoff, id)
  }

  /** The releases with fewer than n newer ones. */
  function Top(db: Db, project: int, branch: string, n: nat): set<int> {
    set r | r in PublishedOn(db, project, branch) && |Newer(db, r)| < n
  }

  /** A release of a set with the highest number. */
  lemma {:induction false} Highest(db: Db, rs: set<int>) returns (top: int)
    requires (exists r :: r in rs) && forall r :: r in rs ==> r in db.releases
    ensures top in rs && forall r :: r in rs ==> db.releases[r].num <= db.releases[top].num
  {
    var x :| x in rs;
    var rest := rs - {x};
    top := x;
    if exists r :: r in rest {
      var other := Highest(db, rest);
      if db.releases[x].num < db.releases[other].num {
        top := other;
      }
    }
    assert forall r :: r in rs ==> r == x || r in rest;
  }

  /** At least the n highest published releases have fewer than n newer ones, ties included. */
  lemma TopIsEnough(db: Db, project: int, branch: string, n: nat)
    ensures |Top(db, project, branch, n)| >= n || Top(db, project, branch, n) == PublishedOn(db, project, branch)
  {
    var all, top := PublishedOn(db, project, branch), Top(db, project, branch, n);
    if top != all {
      var r :| r in all && r !in top;
      assert r in all - top;
      var low := Highest(db, all - top);
      forall r | r in Newer(db, low)
        ensures r in top
      {
      }
      SubsetSize(Newer(db, low), top);
    }
  }

  /** A release with fewer than keepN newer ones, or none, is never selected, nor is a draft. */
  lemma NeverSelected(db: Db, keepN: int, cutoff: int, abandonedCutoff: int, ids: seq<int>, id: int)
    requires Selected(db, keepN, cutoff, abandonedCutoff, ids) && id in db.releases
    requires if db.releases[id].published then |Newer(db, id)| < keepN || |Newer(db, id)| == 0
             else db.releases[id].draft
    ensures id !in ids && id in DeletedAll(db, ids).releases
  {
    DeletedAllKeeps(db, ids);
  }

  /**
    Evicting any selected releases leaves every branch at least keepN published releases and at
    least one, or all it had; every release with fewer than keepN newer ones survives, and so does
    the newest.
   */
  lemma KeepNGuarantee(db: Db, keepN: int, cutoff: int, abandonedCutoff: int, ids: seq<int>, project: int,
                       branch: string)
    requires Selected(db, keepN, cutoff, abandonedCutoff, ids)
    ensures var before, after := PublishedOn(db, project, branch), PublishedOn(DeletedAll(db, ids), project, branch);
      && (forall r :: r in before && (|Newer(db, r)| < keepN || |Newer(db, r)| == 0) ==> r in after)
      && ((|after| >= keepN && |after| >= 1) || after == before)
  {
    var n := KeepCount(keepN);
    var before, after := PublishedOn(db, project, branch), PublishedOn(DeletedAll(db, ids), project, branch);
    var top := Top(db, project, branch, n);
    DeletedAllKeeps(db, ids);
    forall r | r in before && (|Newer(db, r)| < keepN || |Newer(db, r)| == 0)
      ensures r in after
    {
      NeverSelected(db, keepN, cutoff, abandonedCutoff, ids, r);
    }
    TopIsEnough(db, project, branch, n);
    SubsetSize(top, after);
    forall r | r in after
      ensures r in before
    {
    }
  }

  /**
    Exactly which releases the policy selects, in the tables' own terms: a published one older than
    the cutoff, neither tagged nor pushed as an image, with at least one and at least keepN newer
    published ones on its branch; or an unpublished one that is no draft and old enough.
   */
  lemma SelectedIff(db: Db, keepN: int, cutoff: int, abandonedCutoff: int, id: int)
    requires id in db.releases
    ensures var it := db.releases[id];
      var newer := set r | r in db.releases && db.releases[r].project == it.project
          && db.releases[r].branch == it.branch && db.releases[r].published && db.releases[r].num > it.num;
      Selected(db, keepN, cutoff, abandonedCutoff, [id]) <==>
        if it.published then
          && it.createdAt < cutoff && |newer| >= 1 && |newer| >= keepN
          && (forall t :: t in db.tags ==> db.tags[t] != id)
          && (forall a :: a in db.artifacts && db.artifacts[a].docker ==> db.artifacts[a].release != id)
        else !it.draft && it.createdAt < abandonedCutoff
  {
    var it := db.releases[id];
    var newer := set r | r in db.releases && db.releases[r].project == it.project
        && db.releases[r].branch == it.branch && db.releases[r].published && db.releases[r].num > it.num;
    assert newer == Newer(db, id);
    assert id in [id];
  }

  /** Once everything selected is gone, the same selections name nothing more. */
  lemma SecondSelectionIsEmpty(db: Db, keepN: int, cutoff: int, abandonedCutoff: int, ids: seq<int>, id: int)
    requires forall r :: Evictable(db, keepN, cutoff, r) || Abandoned(db, abandonedCutoff, r) ==> r in ids
    ensures !Evictable(DeletedAll(db, ids), keepN, cutoff, id) && !Abandoned(DeletedAll(db, ids), abandonedCutoff, id)
  {
    var after := DeletedAll(db, ids);
    DeletedAllKeeps(db, ids);
    if Evictable(after, keepN, cutoff, id) {
      forall r | r in Newer(after, id)
        ensures r in Newer(db, id)
      {
      }
      SubsetSize(Newer(after, id), Newer(db, id));
      assert false;
    }
  }

  // ---- the reclaimable estimate ----

  ghost function AnyKey<K(!new), V>(m: map<K, V>): (k: K)
    requires |m| > 0
    ensures k in m
  {
    assert m.Keys != {};
    var k :| k in m;
    k
  }

  ghost function Total<K(!new)>(sizes: map<K, int>): int
    decreases |sizes|
  {
    if |sizes| == 0 then 0
    else
      var k := AnyKey(sizes);
      RemoveSize(sizes, k);
      sizes[k] + Total(sizes - {k})
  }

  /** Any element may be taken out of a total first. */
  lemma {:induction false} TotalRemove<K(!new)>(sizes: map<K, int>, k: K)
    requires k in sizes
    ensures Total(sizes) == sizes[k] + Total(sizes - {k})
    decreases |sizes|
  {
    RemoveSize(sizes, k);
    var j := AnyKey(sizes);
    if j != k {
      RemoveSize(sizes, j);
      TotalRemove(sizes - {j}, k);
      TotalRemove(sizes - {k}, j);
      assert sizes - {j} - {k} == sizes - {k} - {j};
    }
  }

  predicate NoneNegative<K(!new)>(sizes: map<K, int>) {
    forall k :: k in sizes ==> sizes[k] >= 0
  }

  lemma {:induction false} TotalNonNegative<K(!new)>(sizes: map<K, int>)
    requires NoneNegative(sizes)
    ensures Total(sizes) >= 0
    decreases |sizes|
  {
    if |sizes| > 0 {
      assert sizes.Keys != {};
      var k :| k in sizes;
      TotalRemove(sizes, k);
      RemoveSize(sizes, k);
      TotalNonNegative(sizes - {k});
    }
  }

  /** Distinct sources of at least each part's size make a total at least as large. */
  lemma {:induction false} TotalInjects<J(!new), K(!new)>(part: map<J, int>, whole: map<K, int>, source: map<J, K>)
    requires NoneNegative(whole)
    requires forall j :: j in part ==> j in source && source[j] in whole && part[j] <= whole[source[j]]
    requires forall i, j :: i in part && j in part && i != j ==> source[i] != source[j]
    ensures Total(part) <= Total(whole)
    decreases |part|
  {
    if |part| == 0 {
      TotalNonNegative(whole);
    } else {
      assert part.Keys != {};
      var j :| j in part;
      TotalRemove(part, j);
      TotalRemove(whole, source[j]);
      RemoveSize(part, j);
      TotalInjects(part - {j}, whole - {source[j]}, source);
    }
  }

  /** A total taken in two parts. */
  lemma {:induction false} TotalSplit<K(!new)>(sizes: map<K, int>, yes: map<K, int>, no: map<K, int>)
    requires forall k :: k in sizes <==> k in yes || k in no
    requires forall k :: k in yes ==> k !in no && yes[k] == sizes[k]
    requires forall k :: k in no ==> no[k] == sizes[k]
    ensures Total(sizes) == Total(yes) + Total(no)
    decreases |sizes|
  {
    if |sizes| == 0 {
      assert sizes.Keys == {} && yes.Keys == {} && no.Keys == {};
    } else {
      assert sizes.Keys != {};
      var k :| k in sizes;
      TotalRemove(sizes, k);
      RemoveSize(sizes, k);
      if k in yes {
        TotalRemove(yes, k);
        TotalSplit(sizes - {k}, yes - {k}, no);
      } else {
        TotalRemove(no, k);
        TotalSplit(sizes - {k}, yes, no - {k});
      }
    }
  }

  /** A total of sums is the sum of the totals. */
  lemma {:induction false} TotalPlus<K(!new)>(sums: map<K, int>, a: map<K, int>, b: map<K, int>)
    requires sums.Keys == a.Keys && sums.Keys == b.Keys
    requires forall k :: k in sums ==> sums[k] == a[k] + b[k]
    ensures Total(sums) == Total(a) + Total(b)
    decreases |sums|
  {
    assert |a.Keys| == |sums.Keys| && |b.Keys| == |sums.Keys|;
    if |sums| > 0 {
      assert sums.Keys != {};
      var k :| k in sums;
      RemoveSize(sums, k);
      TotalRemove(sums, k);
      TotalRemove(a, k);
      TotalRemove(b, k);
      TotalPlus(sums - {k}, a - {k}, b - {k});
    }
  }

  /** The artifacts of these releases. */
  function ArtifactsOf(db: Db, ids: set<int>): set<int> {
    set a | a in db.artifacts && db.artifacts[a].release in ids
  }

  function RawSizes(db: Db, ids: set<int>): map<int, int> {
    map a | a in ArtifactsOf(db, ids) :: db.artifacts[a].raw.size
  }

  function StrippedSizes(db: Db, ids: set<int>): map<int, int> {
    map a | a in ArtifactsOf(db, ids) :: db.artifacts[a].stripped.size
  }

  function DebugSizes(db: Db, ids: set<int>): map<int, int> {
    map a | a in ArtifactsOf(db, ids) :: db.artifacts[a].debug.size
  }

  function ArtifactSizes(db: Db, ids: set<int>): map<int, int> {
    map a | a in ArtifactsOf(db, ids) ::
      db.artifacts[a].raw.size + db.artifacts[a].stripped.size + db.artifacts[a].debug.size
  }

  function PackagedSizes(db: Db, ids: set<int>): map<int, int> {
    map p | p in db.packaged && db.packaged[p].artifact in ArtifactsOf(db, ids) :: db.packaged[p].row.size
  }

  /** The logical sizes of the releases' artifacts and packaged artifacts. */
  ghost function Reclaimable(db: Db, ids: set<int>): int {
    Total(ArtifactSizes(db, ids)) + Total(PackagedSizes(db, ids))
  }

  /** The estimate counts the artifacts of the listed releases and the packages of those artifacts, no others. */
  lemma ReclaimableSays(db: Db, ids: set<int>)
    ensures Reclaimable(db, ids) ==
            Total(map a | a in db.artifacts && db.artifacts[a].release in ids ::
                    db.artifacts[a].raw.size + db.artifacts[a].stripped.size + db.artifacts[a].debug.size)
              + Total(map p | p in db.packaged && db.packaged[p].artifact in db.artifacts
                                && db.artifacts[db.packaged[p].artifact].release in ids :: db.packaged[p].row.size)
  {
    var artifacts := map a | a in db.artifacts && db.artifacts[a].release in ids ::
      db.artifacts[a].raw.size + db.artifacts[a].stripped.size + db.artifacts[a].debug.size;
    var packaged := map p | p in db.packaged && db.packaged[p].artifact in db.artifacts
        && db.artifacts[db.packaged[p].artifact].release in ids :: db.packaged[p].row.size;
    forall a
      ensures a in ArtifactsOf(db, ids) <==> a in db.artifacts && db.artifacts[a].release in ids
      ensures a in artifacts <==> a in ArtifactSizes(db, ids)
    {
    }
    forall p
      ensures p in packaged <==> p in PackagedSizes(db, ids)
    {
    }
    assert artifacts == ArtifactSizes(db, ids) && packaged == PackagedSizes(db, ids);
  }

  lemma ReclaimableSplit(db: Db, ids: set<int>)
    ensures Reclaimable(db, ids)
         == Total(RawSizes(db, ids)) + Total(StrippedSizes(db, ids))
          + Total(DebugSizes(db, ids)) + Total(PackagedSizes(db, ids))
  {
    var both := map a | a in ArtifactsOf(db, ids) :: db.artifacts[a].raw.size + db.artifacts[a].stripped.size;
    TotalPlus(both, RawSizes(db, ids), StrippedSizes(db, ids));
    TotalPlus(ArtifactSizes(db, ids), both, DebugSizes(db, ids));
  }

  /** The slot belongs to one of the releases and records this key and size. */
  predicate Records(db: Db, ids: set<int>, s: Slot, k: string, size: int) {
    HasSlot(db, s) && SlotArtifact(db, s) in ArtifactsOf(db, ids) && SlotRow(db, s) == Row(k, size)
  }

  /** Which of a release's four size columns a slot is. */
  function Column(s: Slot): nat {
    match s
    case Raw(_) => 0
    case Stripped(_) => 1
    case Debug(_) => 2
    case Pack(_) => 3
  }

  function IdOf(s: Slot): int {
    if s.Pack? then s.packaged else s.artifact
  }

  /** The freed keys whose chosen slot is in this column. */
  function Part(freed: map<string, int>, from: map<string, Slot>, column: nat): map<string, int> {
    map k | k in freed && k in from && Column(from[k]) == column :: freed[k]
  }

  /** The freed keys whose chosen slot is in this column or a later one. */
  function Later(freed: map<string, int>, from: map<string, Slot>, column: nat): map<string, int> {
    map k | k in freed && k in from && Column(from[k]) >= column :: freed[k]
  }

  function SizesOf(db: Db, ids: set<int>, column: nat): map<int, int> {
    match column
    case 0 => RawSizes(db, ids)
    case 1 => StrippedSizes(db, ids)
    case 2 => DebugSizes(db, ids)
    case _ => PackagedSizes(db, ids)
  }

  /** Each freed key has a slot that records it at the size counted for it. */
  predicate AllFrom(db: Db, ids: set<int>, freed: map<string, int>, from: map<string, Slot>) {
    forall k :: k in freed ==> k in from && Records(db, ids, from[k], k, freed[k])
  }

  lemma PartBound(db: Db, ids: set<int>, freed: map<string, int>, from: map<string, Slot>, column: nat)
    requires AllFrom(db, ids, freed, from)
    requires NoneNegative(SizesOf(db, ids, column)) && column < 4
    ensures Total(Part(freed, from, column)) <= Total(SizesOf(db, ids, column))
  {
    var part := Part(freed, from, column);
    var source := map k | k in part :: IdOf(from[k]);
    forall i, j | i in part && j in part && i != j
      ensures source[i] != source[j]
    {
      assert SlotRow(db, from[i]).key == i && SlotRow(db, from[j]).key == j;
    }
    forall k | k in part
      ensures source[k] in SizesOf(db, ids, column) && part[k] == SizesOf(db, ids, column)[source[k]]
    {
      assert Records(db, ids, from[k], k, freed[k]);
    }
    TotalInjects(part, SizesOf(db, ids, column), source);
  }

  /** Every row of these releases has a size of zero or more. */
  ghost predicate NonNegative(db: Db, ids: set<int>) {
    forall s :: HasSlot(db, s) && SlotArtifact(db, s) in ArtifactsOf(db, ids) ==> SlotRow(db, s).size >= 0
  }

  lemma SizesNonNegative(db: Db, ids: set<int>, column: nat)
    requires NonNegative(db, ids) && column < 4
    ensures NoneNegative(SizesOf(db, ids, column))
  {
    forall i | i in SizesOf(db, ids, column)
      ensures SizesOf(db, ids, column)[i] >= 0
    {
      var s := match column case 0 => Raw(i) case 1 => Stripped(i) case 2 => Debug(i) case _ => Pack(i);
      assert HasSlot(db, s) && SlotArtifact(db, s) in ArtifactsOf(db, ids);
    }
  }

  /** The estimate is at least the bytes of any keys freed, each at one of its recorded sizes. */
  lemma EstimateBounds(db: Db, ids: set<int>, freed: map<string, int>)
    requires NonNegative(db, ids)
    requires forall k :: k in freed ==> exists s :: Records(db, ids, s, k, freed[k])
    ensures Total(freed) <= Reclaimable(db, ids)
  {
    var from := Choose(db, ids, freed, freed.Keys);
    AllTotals(db, ids);
    LaterBound(db, ids, freed, from, 0);
    assert Later(freed, from, 0) == freed;
  }

  ghost function TotalsFrom(db: Db, ids: set<int>, column: nat): int
    decreases 4 - column
  {
    if column >= 4 then 0 else Total(SizesOf(db, ids, column)) + TotalsFrom(db, ids, column + 1)
  }

  lemma AllTotals(db: Db, ids: set<int>)
    ensures TotalsFrom(db, ids, 0) == Reclaimable(db, ids)
  {
    ReclaimableSplit(db, ids);
    assert TotalsFrom(db, ids, 2) == Total(DebugSizes(db, ids)) + Total(PackagedSizes(db, ids));
  }

  /** Column by column, the freed sizes are within the recorded ones. */
  lemma {:induction false} LaterBound(db: Db, ids: set<int>, freed: map<string, int>, from: map<string, Slot>,
                                      column: nat)
    requires NonNegative(db, ids) && AllFrom(db, ids, freed, from) && column <= 4
    ensures Total(Later(freed, from, column)) <= TotalsFrom(db, ids, column)
    decreases 4 - column
  {
    if column == 4 {
      assert |Later(freed, from, column).Keys| == 0;
    } else {
      SizesNonNegative(db, ids, column);
      PartBound(db, ids, freed, from, column);
      LaterBound(db, ids, freed, from, column + 1);
      TotalSplit(Later(freed, from, column), Part(freed, from, column), Later(freed, from, column + 1));
    }
  }

  /** A slot for each freed key. */
  lemma {:induction false} Choose(db: Db, ids: set<int>, freed: map<string, int>, keys: set<string>)
    returns (from: map<string, Slot>)
    requires keys <= freed.Keys
    requires forall k :: k in freed ==> exists s :: Records(db, ids, s, k, freed[k])
    ensures forall k :: k in keys ==> k in from && Records(db, ids, from[k], k, freed[k])
  {
    from := map[];
    if keys != {} {
      var k :| k in keys;
      var rest := Choose(db, ids, freed, keys - {k});
      var s :| Records(db, ids, s, k, freed[k]);
      from := rest[k := s];
    }
  }
}
