/**
  Retention: which releases may be evicted, what deleting releases leaves in the tables, and
  which content-addressed blobs nothing references afterwards.
 */
module Retention {

  /** A storage key with the size recorded beside it; the empty key names no blob. */
  datatype Row = Row(key: string, size: int)

  datatype Release = Release(project: int, branch: string, num: int, published: bool, draft: bool, createdAt: int)
  datatype Artifact = Artifact(release: int, docker: bool, raw: Row, stripped: Row, debug: Row)
  datatype Packaged = Packaged(artifact: int, row: Row)
  datatype Platform = Platform(artifact: int, release: int)

  /**
    The tables eviction reads and writes, by row id. `counts` and `events` hold the artifacts
    with a download count and with a download event; `otherKeys` the storage keys of sites, blob
    links, module zips, run files, cache entries and mirror blobs.
   */
  datatype Db = Db(
    releases: map<int, Release>,
    artifacts: map<int, Artifact>,
    packaged: map<int, Packaged>,
    platforms: map<int, Platform>,
    counts: set<int>,
    tags: map<int, int>,
    events: set<int>,
    otherKeys: set<string>)

  // ---- where a blob key is recorded ----

  datatype Slot = Raw(artifact: int) | Stripped(artifact: int) | Debug(artifact: int) | Pack(packaged: int)

  predicate HasSlot(db: Db, s: Slot) {
    if s.Pack? then s.packaged in db.packaged else s.artifact in db.artifacts
  }

  function SlotRow(db: Db, s: Slot): Row
    requires HasSlot(db, s)
  {
    match s
    case Raw(a) => db.artifacts[a].raw
    case Stripped(a) => db.artifacts[a].stripped
    case Debug(a) => db.artifacts[a].debug
    case Pack(p) => db.packaged[p].row
  }

  function SlotArtifact(db: Db, s: Slot): int
    requires HasSlot(db, s)
  {
    if s.Pack? then db.packaged[s.packaged].artifact else s.artifact
  }

  predicate IsOf(artifacts: map<int, Artifact>, a: int, id: int) {
    a in artifacts && artifacts[a].release == id
  }

  predicate OfRelease(db: Db, a: int, id: int) {
    IsOf(db.artifacts, a, id)
  }

  /** The slot belongs to a release, through its artifact. */
  predicate SlotOf(db: Db, s: Slot, id: int) {
    HasSlot(db, s) && OfRelease(db, SlotArtifact(db, s), id)
  }

  /** Some row of the release records the key. */
  ghost predicate HasRow(db: Db, id: int, k: string) {
    exists s :: SlotOf(db, s, id) && SlotRow(db, s).key == k
  }

  /** Some row of the release records the key with a size above zero. */
  ghost predicate HasPositive(db: Db, id: int, k: string) {
    exists s :: SlotOf(db, s, id) && SlotRow(db, s).key == k && SlotRow(db, s).size > 0
  }

  /** Any row of any table records the key. */
  ghost predicate Referenced(db: Db, k: string) {
    k in db.otherKeys || exists s :: HasSlot(db, s) && SlotRow(db, s).key == k
  }

  // ---- foreign keys ----

  predicate ForeignKeys(db: Db) {
    && (forall a :: a in db.artifacts ==> db.artifacts[a].release in db.releases)
    && (forall p :: p in db.packaged ==> db.packaged[p].artifact in db.artifacts)
    && (forall p :: p in db.platforms ==> db.platforms[p].artifact in db.artifacts)
    && (forall p :: p in db.platforms ==> db.platforms[p].release in db.releases)
    && (forall t :: t in db.tags ==> db.tags[t] in db.releases)
    && (forall a :: a in db.counts ==> a in db.artifacts)
    && (forall a :: a in db.events ==> a in db.artifacts)
  }

  /** Foreign keys hold, and a platform row names the release of its artifact. */
  predicate Sound(db: Db) {
    ForeignKeys(db) && forall p :: p in db.platforms ==>
          OfRelease(db, db.platforms[p].artifact, db.platforms[p].release)
  }

  predicate HasEvent(db: Db, id: int) {
    exists a :: a in db.events && OfRelease(db, a, id)
  }

  // ---- deleting releases ----

  function PackagedLeft(artifacts: map<int, Artifact>, packaged: map<int, Packaged>, id: int): map<int, Packaged> {
    map p | p in packaged && !IsOf(artifacts, packaged[p].artifact, id) :: packaged[p]
  }

  function CountsLeft(artifacts: map<int, Artifact>, counts: set<int>, id: int): set<int> {
    set a | a in counts && !IsOf(artifacts, a, id)
  }

  function TagsLeft(tags: map<int, int>, id: int): map<int, int> {
    map t | t in tags && tags[t] != id :: tags[t]
  }

  function PlatformsLeft(platforms: map<int, Platform>, id: int): map<int, Platform> {
    map p | p in platforms && platforms[p].release != id :: platforms[p]
  }

  function ArtifactsLeft(artifacts: map<int, Artifact>, id: int): map<int, Artifact> {
    map a | a in artifacts && !IsOf(artifacts, a, id) :: artifacts[a]
  }

  /** The tables without what hangs off the release's artifacts, its tags and its platform rows. */
  function Cleared(db: Db, id: int): Db {
    db.(
      packaged := PackagedLeft(db.artifacts, db.packaged, id),
      counts := CountsLeft(db.artifacts, db.counts, id),
      tags := TagsLeft(db.tags, id),
      platforms := PlatformsLeft(db.platforms, id))
  }

  /** The tables without the release and every row that hangs off it. */
  function Deleted(db: Db, id: int): Db {
    Cleared(db, id).(artifacts := ArtifactsLeft(db.artifacts, id), releases := db.releases - {id})
  }

  function DeletedAll(db: Db, ids: seq<int>): Db {
    if ids == [] then db else Deleted(DeletedAll(db, ids[..|ids| - 1]), ids[|ids| - 1])
  }

  lemma DeletedSlot(db: Db, x: int, s: Slot)
    ensures HasSlot(Deleted(db, x), s) <==> HasSlot(db, s) && !SlotOf(db, s, x)
    ensures HasSlot(Deleted(db, x), s) ==> SlotRow(Deleted(db, x), s) == SlotRow(db, s)
    ensures forall id :: SlotOf(Deleted(db, x), s, id) <==> id != x && SlotOf(db, s, id)
  {
  }

  predicate SlotOfAny(db: Db, s: Slot, ids: seq<int>) {
    exists id :: id in ids && SlotOf(db, s, id)
  }

  /** Deleting releases removes exactly their slots and changes no other. */
  lemma {:induction false} DeletedAllSlot(db: Db, ids: seq<int>, s: Slot)
    ensures HasSlot(DeletedAll(db, ids), s) <==> HasSlot(db, s) && !SlotOfAny(db, s, ids)
    ensures HasSlot(DeletedAll(db, ids), s) ==> SlotRow(DeletedAll(db, ids), s) == SlotRow(db, s)
    ensures forall id :: SlotOf(DeletedAll(db, ids), s, id) <==> id !in ids && SlotOf(db, s, id)
  {
    if ids != [] {
      var before, x := ids[..|ids| - 1], ids[|ids| - 1];
      DeletedAllSlot(db, before, s);
      DeletedSlot(DeletedAll(db, before), x, s);
      assert forall id :: id in ids <==> id in before || id == x;
    }
  }

  lemma {:induction false} DeletedAllKeeps(db: Db, ids: seq<int>)
    ensures DeletedAll(db, ids).otherKeys == db.otherKeys
    ensures DeletedAll(db, ids).events == db.events
    ensures forall r :: r in DeletedAll(db, ids).releases <==> r in db.releases && r !in ids
    ensures forall r :: r in DeletedAll(db, ids).releases ==> DeletedAll(db, ids).releases[r] == db.releases[r]
    ensures forall t :: t in DeletedAll(db, ids).tags <==> t in db.tags && db.tags[t] !in ids
    ensures forall t :: t in DeletedAll(db, ids).tags ==> DeletedAll(db, ids).tags[t] == db.tags[t]
    ensures forall a :: a in DeletedAll(db, ids).artifacts <==> a in db.artifacts && db.artifacts[a].release !in ids
    ensures forall a :: a in DeletedAll(db, ids).artifacts ==> DeletedAll(db, ids).artifacts[a] == db.artifacts[a]
  {
    if ids != [] {
      var before, x := ids[..|ids| - 1], ids[|ids| - 1];
      DeletedAllKeeps(db, before);
      assert forall id :: id in ids <==> id in before || id == x;
    }
  }

  /** Packages, download counts and platform rows go with their release and only then. */
  lemma {:induction false} DeletedAllKeepsRows(db: Db, ids: seq<int>)
    ensures var after := DeletedAll(db, ids);
      && (forall p :: p in after.packaged <==>
            p in db.packaged
                && !(db.packaged[p].artifact in db.artifacts && db.artifacts[db.packaged[p].artifact].release in ids))
      && (forall p :: p in after.packaged ==> after.packaged[p] == db.packaged[p])
      && (forall a :: a in after.counts <==> a in db.counts && !(a in db.artifacts && db.artifacts[a].release in ids))
      && (forall p :: p in after.platforms <==> p in db.platforms && db.platforms[p].release !in ids)
      && (forall p :: p in after.platforms ==> after.platforms[p] == db.platforms[p])
  {
    if ids != [] {
      var before, x := ids[..|ids| - 1], ids[|ids| - 1];
      DeletedAllKeepsRows(db, before);
      DeletedAllKeeps(db, before);
      assert forall id :: id in ids <==> id in before || id == x;
    }
  }

  lemma {:induction false} DeletedAllConcat(db: Db, a: seq<int>, b: seq<int>)
    ensures DeletedAll(db, a + b) == DeletedAll(DeletedAll(db, a), b)
    decreases |b|
  {
    if b == [] {
      assert a + b == a;
    } else {
      var front, x := b[..|b| - 1], b[|b| - 1];
      DeletedAllConcat(db, a, front);
      DeletedLast(db, a + front, x);
      DeletedLast(DeletedAll(db, a), front, x);
      assert b == front + [x] && a + b == a + front + [x];
    }
  }

  lemma DeletedLast(db: Db, ids: seq<int>, x: int)
    ensures DeletedAll(db, ids + [x]) == Deleted(DeletedAll(db, ids), x)
  {
    assert (ids + [x])[..|ids|] == ids;
  }

  lemma RowsAfter(db: Db, ids: seq<int>, id: int, k: string)
    ensures HasRow(DeletedAll(db, ids), id, k) <==> id !in ids && HasRow(db, id, k)
    ensures HasPositive(DeletedAll(db, ids), id, k) <==> id !in ids && HasPositive(db, id, k)
  {
    var after := DeletedAll(db, ids);
    if HasRow(after, id, k) {
      var s :| SlotOf(after, s, id) && SlotRow(after, s).key == k;
      DeletedAllSlot(db, ids, s);
    }
    if HasPositive(after, id, k) {
      var s :| SlotOf(after, s, id) && SlotRow(after, s).key == k && SlotRow(after, s).size > 0;
      DeletedAllSlot(db, ids, s);
    }
    if id !in ids && HasRow(db, id, k) {
      var s :| SlotOf(db, s, id) && SlotRow(db, s).key == k;
      DeletedAllSlot(db, ids, s);
      assert SlotOf(after, s, id);
    }
    if id !in ids && HasPositive(db, id, k) {
      var s :| SlotOf(db, s, id) && SlotRow(db, s).key == k && SlotRow(db, s).size > 0;
      DeletedAllSlot(db, ids, s);
      assert SlotOf(after, s, id);
    }
  }

  /** The key is recorded outside the releases in ids. */
  ghost predicate HeldOutside(db: Db, ids: seq<int>, k: string) {
    k in db.otherKeys || exists s :: HasSlot(db, s) && SlotRow(db, s).key == k && !SlotOfAny(db, s, ids)
  }

  lemma ReferencedAfter(db: Db, ids: seq<int>, k: string)
    ensures Referenced(DeletedAll(db, ids), k) <==> HeldOutside(db, ids, k)
  {
    var after := DeletedAll(db, ids);
    DeletedAllKeeps(db, ids);
    if exists s :: HasSlot(after, s) && SlotRow(after, s).key == k {
      var s :| HasSlot(after, s) && SlotRow(after, s).key == k;
      DeletedAllSlot(db, ids, s);
    }
    if exists s :: HasSlot(db, s) && SlotRow(db, s).key == k && !SlotOfAny(db, s, ids) {
      var s :| HasSlot(db, s) && SlotRow(db, s).key == k && !SlotOfAny(db, s, ids);
      DeletedAllSlot(db, ids, s);
      assert HasSlot(after, s);
    }
  }

  // ---- what one transaction frees ----

  /** A key the releases record with a size above zero. */
  ghost predicate Candidate(db: Db, ids: seq<int>, k: string) {
    k != "" && exists id :: id in ids && HasPositive(db, id, k)
  }

  /** One transaction over ids frees the key. */
  ghost predicate Frees(db: Db, ids: seq<int>, k: string) {
    Candidate(db, ids, k) && !Referenced(DeletedAll(db, ids), k)
  }

  const BatchSize: nat := 25

  function BatchEnd(ids: seq<int>, lo: nat): nat
    requires lo <= |ids|
  {
    if lo + BatchSize < |ids| then lo + BatchSize else |ids|
  }

  predicate IsBatch(ids: seq<int>, lo: nat) {
    lo < |ids| && lo % BatchSize == 0
  }

  /** The batch that starts at lo, run after the batches before it, frees the key. */
  ghost predicate BatchFrees(db: Db, ids: seq<int>, lo: nat, k: string)
    requires lo <= |ids|
  {
    Frees(DeletedAll(db, ids[..lo]), ids[lo..BatchEnd(ids, lo)], k)
  }

  /** Some batch of the committed run frees the key. */
  ghost predicate BatchedFrees(db: Db, ids: seq<int>, k: string) {
    exists lo: nat :: IsBatch(ids, lo) && BatchFrees(db, ids, lo, k)
  }

  /** Some batch of the committed run looks at the key. */
  ghost predicate BatchedCandidate(db: Db, ids: seq<int>, k: string) {
    exists lo: nat :: IsBatch(ids, lo) && Candidate(DeletedAll(db, ids[..lo]), ids[lo..BatchEnd(ids, lo)], k)
  }

  /** A release that an earlier batch has not deleted records the key, in this batch, with a size above zero. */
  ghost predicate FirstPositive(db: Db, ids: seq<int>, lo: nat, k: string)
    requires lo <= |ids|
  {
    exists id :: id in ids[lo..BatchEnd(ids, lo)] && id !in ids[..lo] && HasPositive(db, id, k)
  }

  lemma CandidateInBatch(db: Db, ids: seq<int>, lo: nat, k: string)
    requires lo <= |ids|
    ensures Candidate(DeletedAll(db, ids[..lo]), ids[lo..BatchEnd(ids, lo)], k) <==>
            k != "" && FirstPositive(db, ids, lo, k)
  {
    var before, batch := ids[..lo], ids[lo..BatchEnd(ids, lo)];
    forall id | id in batch
      ensures HasPositive(DeletedAll(db, before), id, k) <==> id !in before && HasPositive(db, id, k)
    {
      RowsAfter(db, before, id, k);
    }
  }

  lemma BatchFreesIff(db: Db, ids: seq<int>, lo: nat, k: string)
    requires lo <= |ids|
    ensures BatchFrees(db, ids, lo, k)
       <==> k != "" && FirstPositive(db, ids, lo, k) && !HeldOutside(db, ids[..BatchEnd(ids, lo)], k)
  {
    var before, batch := ids[..lo], ids[lo..BatchEnd(ids, lo)];
    assert before + batch == ids[..BatchEnd(ids, lo)];
    DeletedAllConcat(db, before, batch);
    ReferencedAfter(db, ids[..BatchEnd(ids, lo)], k);
    CandidateInBatch(db, ids, lo, k);
  }

  lemma HeldOutsideShrinks(db: Db, ids: seq<int>, n: nat, m: nat, k: string)
    requires n <= m <= |ids|
    ensures HeldOutside(db, ids[..m], k) ==> HeldOutside(db, ids[..n], k)
  {
    if HeldOutside(db, ids[..m], k) && k !in db.otherKeys {
      var s :| HasSlot(db, s) && SlotRow(db, s).key == k && !SlotOfAny(db, s, ids[..m]);
      assert forall id :: id in ids[..n] ==> id in ids[..m];
      assert !SlotOfAny(db, s, ids[..n]);
    }
  }

  /** The first occurrence of an id. */
  function FirstIndex(ids: seq<int>, id: int): (i: nat)
    requires id in ids
    ensures i < |ids| && ids[i] == id && id !in ids[..i]
  {
    if ids[0] == id then 0
    else
      var i := FirstIndex(ids[1..], id) + 1;
      assert ids[..i] == [ids[0]] + ids[1..][..i - 1];
      i
  }

  function BatchOf(i: nat): (lo: nat)
    ensures lo % BatchSize == 0 && lo <= i < lo + BatchSize
  {
    i - i % BatchSize
  }

  /** An id's first occurrence falls in a batch before which it does not occur. */
  lemma FirstInBatch(ids: seq<int>, i: nat)
    requires i < |ids| && ids[i] !in ids[..i]
    ensures IsBatch(ids, BatchOf(i)) && i < BatchEnd(ids, BatchOf(i))
    ensures ids[i] in ids[BatchOf(i)..BatchEnd(ids, BatchOf(i))] && ids[i] !in ids[..BatchOf(i)]
  {
    var lo := BatchOf(i);
    assert ids[lo..BatchEnd(ids, lo)][i - lo] == ids[i];
    assert forall x :: x in ids[..lo] ==> x in ids[..i];
  }

  lemma BatchedCandidateOnce(db: Db, ids: seq<int>, k: string)
    requires BatchedCandidate(db, ids, k)
    ensures Candidate(db, ids, k)
  {
    var lo: nat :| IsBatch(ids, lo) && Candidate(DeletedAll(db, ids[..lo]), ids[lo..BatchEnd(ids, lo)], k);
    CandidateInBatch(db, ids, lo, k);
    var id :| id in ids[lo..BatchEnd(ids, lo)] && id !in ids[..lo] && HasPositive(db, id, k);
    assert id in ids;
  }

  /** The committed batches look at exactly the keys the dry run looks at. */
  lemma SameCandidates(db: Db, ids: seq<int>, k: string)
    ensures BatchedCandidate(db, ids, k) <==> Candidate(db, ids, k)
  {
    if Candidate(db, ids, k) {
      var id :| id in ids && HasPositive(db, id, k);
      var i := FirstIndex(ids, id);
      FirstInBatch(ids, i);
      CandidateInBatch(db, ids, BatchOf(i), k);
      assert IsBatch(ids, BatchOf(i));
    }
    if BatchedCandidate(db, ids, k) {
      BatchedCandidateOnce(db, ids, k);
    }
  }

  /** The m-th id is the first occurrence of a release that records the key, and no later first occurrence is. */
  ghost predicate IsLastHolder(db: Db, ids: seq<int>, m: nat, k: string) {
    && m < |ids| && ids[m] !in ids[..m] && HasRow(db, ids[m], k)
    && forall j :: m < j < |ids| && HasRow(db, ids[j], k) ==> ids[j] in ids[..m + 1]
  }

  /** The batch of the last release that records the key holds a row of it with a size above zero. */
  ghost predicate ClearedByPositive(db: Db, ids: seq<int>, k: string) {
    exists m: nat :: IsLastHolder(db, ids, m, k) && FirstPositive(db, ids, BatchOf(m), k)
  }

  lemma FreesIff(db: Db, ids: seq<int>, k: string)
    ensures Frees(db, ids, k) <==> Candidate(db, ids, k) && !HeldOutside(db, ids, k)
  {
    ReferencedAfter(db, ids, k);
  }

  /** The shortest prefix of ids outside which the key is not held; its last release still held it. */
  lemma {:induction false} LastHolder(db: Db, ids: seq<int>, n: nat, k: string) returns (m: nat)
    requires n <= |ids| && HeldOutside(db, [], k) && !HeldOutside(db, ids[..n], k)
    ensures m < n && !HeldOutside(db, ids[..m + 1], k) && ids[m] !in ids[..m] && HasRow(db, ids[m], k)
  {
    assert ids[..0] == [];
    if HeldOutside(db, ids[..n - 1], k) {
      m := n - 1;
      var s :| HasSlot(db, s) && SlotRow(db, s).key == k && !SlotOfAny(db, s, ids[..m]);
      assert SlotOfAny(db, s, ids[..n]);
      var id :| id in ids[..n] && SlotOf(db, s, id);
      assert id == ids[m];
    } else {
      m := LastHolder(db, ids, n - 1, k);
    }
  }

  lemma HolderIsInside(db: Db, ids: seq<int>, id: int, k: string)
    requires !HeldOutside(db, ids, k) && HasRow(db, id, k)
    ensures id in ids
  {
    var s :| SlotOf(db, s, id) && SlotRow(db, s).key == k;
    assert SlotOfAny(db, s, ids);
  }

  /** The last holder is the release whose deletion leaves the key to nothing but rows outside the list. */
  lemma LastHolderIff(db: Db, ids: seq<int>, m: nat, k: string)
    requires m < |ids| && ids[m] !in ids[..m] && HasRow(db, ids[m], k) && !HeldOutside(db, ids, k)
    ensures IsLastHolder(db, ids, m, k) <==> !HeldOutside(db, ids[..m + 1], k)
  {
    if !HeldOutside(db, ids[..m + 1], k) {
      forall j | m < j < |ids| && HasRow(db, ids[j], k)
        ensures ids[j] in ids[..m + 1]
      {
        HolderIsInside(db, ids[..m + 1], ids[j], k);
      }
    }
    if IsLastHolder(db, ids, m, k) {
      forall s | HasSlot(db, s) && SlotRow(db, s).key == k
        ensures SlotOfAny(db, s, ids[..m + 1])
      {
        HolderInPrefix(db, ids, m, k, s);
      }
    }
  }

  lemma HolderInPrefix(db: Db, ids: seq<int>, m: nat, k: string, s: Slot)
    requires IsLastHolder(db, ids, m, k) && !HeldOutside(db, ids, k) && HasSlot(db, s) && SlotRow(db, s).key == k
    ensures SlotOfAny(db, s, ids[..m + 1])
  {
    assert SlotOfAny(db, s, ids);
    var id :| id in ids && SlotOf(db, s, id);
    var j :| 0 <= j < |ids| && ids[j] == id;
    assert HasRow(db, id, k);
    assert j <= m ==> ids[..m + 1][j] == id;
  }

  /** A batch frees the key only when the last holder is one of its releases. */
  lemma FreedByLastBatch(db: Db, ids: seq<int>, lo: nat, k: string)
    requires IsBatch(ids, lo) && BatchFrees(db, ids, lo, k)
    ensures Frees(db, ids, k) && ClearedByPositive(db, ids, k)
  {
    var hi := BatchEnd(ids, lo);
    BatchFreesIff(db, ids, lo, k);
    FreesIff(db, ids, k);
    assert ids[..|ids|] == ids;
    HeldOutsideShrinks(db, ids, hi, |ids|, k);
    var id :| id in ids[lo..hi] && id !in ids[..lo] && HasPositive(db, id, k);
    assert id in ids;
    CandidateIsHeld(db, ids, k);
    var m := LastHolder(db, ids, hi, k);
    HolderIsInside(db, ids[..m + 1], id, k);
    HolderBatch(ids, lo, m, id);
    HeldOutsideShrinks(db, ids, m + 1, |ids|, k);
    LastHolderIff(db, ids, m, k);
  }

  lemma HolderBatch(ids: seq<int>, lo: nat, m: nat, id: int)
    requires IsBatch(ids, lo) && m < BatchEnd(ids, lo) && id in ids[..m + 1] && id !in ids[..lo]
    ensures BatchOf(m) == lo
  {
  }

  /**
    The committed run frees exactly those of the dry run's keys for which the batch of the last
    release that records the key holds a positive row of it.
   */
  lemma BatchedFreesIff(db: Db, ids: seq<int>, k: string)
    ensures BatchedFrees(db, ids, k) <==> Frees(db, ids, k) && ClearedByPositive(db, ids, k)
  {
    if BatchedFrees(db, ids, k) {
      var lo: nat :| IsBatch(ids, lo) && BatchFrees(db, ids, lo, k);
      FreedByLastBatch(db, ids, lo, k);
    }
    if Frees(db, ids, k) && ClearedByPositive(db, ids, k) {
      FreesIff(db, ids, k);
      var m: nat :| IsLastHolder(db, ids, m, k) && FirstPositive(db, ids, BatchOf(m), k);
      LastHolderIff(db, ids, m, k);
      FirstInBatch(ids, m);
      HeldOutsideShrinks(db, ids, m + 1, BatchEnd(ids, BatchOf(m)), k);
      BatchFreesIff(db, ids, BatchOf(m), k);
    }
  }

  /** No key is freed by two batches. */
  lemma FreedOnce(db: Db, ids: seq<int>, lo: nat, lo': nat, k: string)
    requires IsBatch(ids, lo) && IsBatch(ids, lo') && BatchFrees(db, ids, lo, k) && BatchFrees(db, ids, lo', k)
    ensures lo == lo'
  {
    BatchFreesIff(db, ids, lo, k);
    BatchFreesIff(db, ids, lo', k);
    if lo < lo' {
      FreedLater(db, ids, lo, lo', k);
    } else if lo' < lo {
      FreedLater(db, ids, lo', lo, k);
    }
  }

  lemma FreedLater(db: Db, ids: seq<int>, lo: nat, lo': nat, k: string)
    requires IsBatch(ids, lo) && IsBatch(ids, lo') && lo < lo' && !HeldOutside(db, ids[..BatchEnd(ids, lo)], k)
    ensures !FirstPositive(db, ids, lo', k)
  {
    var hi := BatchEnd(ids, lo);
    assert hi <= lo';
    assert forall x :: x in ids[..hi] ==> x in ids[..lo'];
  }

  // ---- positive sizes ----

  /** Every row of these releases with a key has a size above zero. */
  ghost predicate PositiveSizes(db: Db, ids: seq<int>) {
    forall s, id :: id in ids && SlotOf(db, s, id) && SlotRow(db, s).key != "" ==> SlotRow(db, s).size > 0
  }

  lemma PositiveIsCleared(db: Db, ids: seq<int>, k: string)
    requires PositiveSizes(db, ids) && Frees(db, ids, k)
    ensures ClearedByPositive(db, ids, k)
  {
    FreesIff(db, ids, k);
    assert ids[..|ids|] == ids;
    CandidateIsHeld(db, ids, k);
    var m := LastHolder(db, ids, |ids|, k);
    LastHolderIff(db, ids, m, k);
    FirstInBatch(ids, m);
    var s :| SlotOf(db, s, ids[m]) && SlotRow(db, s).key == k;
    assert ids[m] in ids && HasPositive(db, ids[m], k);
  }

  lemma CandidateIsHeld(db: Db, ids: seq<int>, k: string)
    requires Candidate(db, ids, k)
    ensures HeldOutside(db, [], k)
  {
    var id :| id in ids && HasPositive(db, id, k);
    var s :| SlotOf(db, s, id) && SlotRow(db, s).key == k && SlotRow(db, s).size > 0;
    assert !SlotOfAny(db, s, []);
  }

  /** With positive sizes the dry run predicts the committed run exactly. */
  lemma DryRunPredicts(db: Db, ids: seq<int>, k: string)
    requires PositiveSizes(db, ids)
    ensures BatchedFrees(db, ids, k) <==> Frees(db, ids, k)
  {
    BatchedFreesIff(db, ids, k);
    if Frees(db, ids, k) {
      PositiveIsCleared(db, ids, k);
    }
  }

  /** A freed key is referenced by nothing once the run is over. */
  lemma FreedIsUnreferenced(db: Db, ids: seq<int>, k: string)
    requires BatchedFrees(db, ids, k)
    ensures !Referenced(DeletedAll(db, ids), k)
  {
    BatchedFreesIff(db, ids, k);
  }
}
