/**
  The eviction transactions over the tables: one transaction for a dry run, one for each batch
  of a committed run. A statement that would leave a foreign key dangling fails, and a failed
  transaction is rolled back. The order of rows within a query and of map iteration is left open.
 */
module Evict {
  import opened Retention
  import opened KeepN
  import opened Strings
  import opened Sorting

  /** A storage key with the size reported for it. */
  datatype BlobRef = BlobRef(key: string, size: int)

  ghost predicate StrictlySorted(refs: seq<BlobRef>) {
    forall i, j :: 0 <= i < j < |refs| ==> Less(refs[i].key, refs[j].key)
  }

  ghost predicate DistinctKeys(refs: seq<BlobRef>) {
    forall i, j :: 0 <= i < j < |refs| ==> refs[i].key != refs[j].key
  }

  ghost predicate HasKey(refs: seq<BlobRef>, k: string) {
    exists r :: r in refs && r.key == k
  }

  function RefKey(r: BlobRef): string {
    r.key
  }

  function SortRefs(refs: seq<BlobRef>): (out: seq<BlobRef>)
    requires DistinctKeys(refs)
    ensures StrictlySorted(out) && forall x :: x in out <==> x in refs
  {
    SortDistinct(RefKey, refs);
    SortBy(RefKey, refs)
  }

  // ---- the queries ----

  /** Every non-empty storage key and size a release's rows record, each pair once. */
  function ListReleaseBlobKeys(db: Db, id: int): set<Row> {
    (set a | a in db.artifacts && db.artifacts[a].release == id && db.artifacts[a].raw.key != "" :: db.artifacts[a].raw)
    + (set a | a in db.artifacts && db.artifacts[a].release == id
        && db.artifacts[a].stripped.key != "" :: db.artifacts[a].stripped)
    + (set a | a in db.artifacts && db.artifacts[a].release == id
        && db.artifacts[a].debug.key != "" :: db.artifacts[a].debug)
    + (set p | p in db.packaged && OfRelease(db, db.packaged[p].artifact, id)
        && db.packaged[p].row.key != "" :: db.packaged[p].row)
  }

  lemma RowsAreSlots(db: Db, id: int, row: Row)
    ensures row in ListReleaseBlobKeys(db, id) <==>
            row.key != "" && exists s :: SlotOf(db, s, id) && SlotRow(db, s) == row
  {
    if row in ListReleaseBlobKeys(db, id) {
      if a :| a in db.artifacts && db.artifacts[a].release == id && db.artifacts[a].raw == row {
        assert SlotOf(db, Raw(a), id) && SlotRow(db, Raw(a)) == row;
      } else if a :| a in db.artifacts && db.artifacts[a].release == id && db.artifacts[a].stripped == row {
        assert SlotOf(db, Stripped(a), id) && SlotRow(db, Stripped(a)) == row;
      } else if a :| a in db.artifacts && db.artifacts[a].release == id && db.artifacts[a].debug == row {
        assert SlotOf(db, Debug(a), id) && SlotRow(db, Debug(a)) == row;
      } else {
        var p :| p in db.packaged && OfRelease(db, db.packaged[p].artifact, id) && db.packaged[p].row == row;
        assert SlotOf(db, Pack(p), id) && SlotRow(db, Pack(p)) == row;
      }
    }
  }

  predicate ArtifactHolds(a: Artifact, k: string) {
    a.raw.key == k || a.stripped.key == k || a.debug.key == k
  }

  /** Whether any table records the key. */
  predicate IsBlobReferenced(db: Db, k: string) {
    || (exists a :: a in db.artifacts && ArtifactHolds(db.artifacts[a], k))
    || (exists p :: p in db.packaged && db.packaged[p].row.key == k)
    || k in db.otherKeys
  }

  lemma ReferencedIsAnySlot(db: Db, k: string)
    ensures IsBlobReferenced(db, k) <==> Referenced(db, k)
  {
    if IsBlobReferenced(db, k) && k !in db.otherKeys {
      if a :| a in db.artifacts && ArtifactHolds(db.artifacts[a], k) {
        assert HasSlot(db, Raw(a)) && HasSlot(db, Stripped(a)) && HasSlot(db, Debug(a));
        assert SlotRow(db, Raw(a)).key == k || SlotRow(db, Stripped(a)).key == k || SlotRow(db, Debug(a)).key == k;
      } else {
        var p :| p in db.packaged && db.packaged[p].row.key == k;
        assert HasSlot(db, Pack(p)) && SlotRow(db, Pack(p)).key == k;
      }
    }
  }

  // ---- what a transaction answers ----

  ghost predicate NoEvents(db: Db, ids: seq<int>) {
    forall id :: id in ids ==> !HasEvent(db, id)
  }

  /** Some row of the releases records exactly this key and size. */
  ghost predicate Recorded(db: Db, ids: seq<int>, k: string, size: int) {
    exists id, s :: id in ids && SlotOf(db, s, id) && SlotRow(db, s) == Row(k, size)
  }

  /** The candidates are the releases' keys, each at the largest size recorded for it above zero. */
  ghost predicate IsCandidates(db: Db, ids: seq<int>, candidates: map<string, int>) {
    && (forall k :: k in candidates <==> Candidate(db, ids, k))
    && (forall k :: k in candidates ==> candidates[k] > 0 && Recorded(db, ids, k, candidates[k]))
    && (forall k, size :: k in candidates && Recorded(db, ids, k, size) ==> size <= candidates[k])
  }

  /** The freed blobs are the candidates nothing references once the releases are gone, in key order. */
  ghost predicate IsFreed(db: Db, ids: seq<int>, candidates: map<string, int>, freed: seq<BlobRef>) {
    && StrictlySorted(freed)
    && (forall r :: r in freed <==>
          r.key in candidates && r.size == candidates[r.key] && !Referenced(DeletedAll(db, ids), r.key))
  }

  /** The number of keys the releases record with a size above zero. */
  ghost predicate CountsCandidates(db: Db, ids: seq<int>, count: nat) {
    exists seen :: AreCandidates(db, ids, seen) && count == |seen|
  }

  ghost predicate AreCandidates(db: Db, ids: seq<int>, seen: set<string>) {
    forall k :: k in seen <==> Candidate(db, ids, k)
  }

  lemma CountUnique(db: Db, ids: seq<int>, n: nat, m: nat)
    requires CountsCandidates(db, ids, n) && CountsCandidates(db, ids, m)
    ensures n == m
  {
    var a :| AreCandidates(db, ids, a) && n == |a|;
    var b :| AreCandidates(db, ids, b) && m == |b|;
    assert a == b;
  }

  lemma EventsAfter(db: Db, ids: seq<int>, id: int)
    ensures HasEvent(DeletedAll(db, ids), id) <==> HasEvent(db, id) && id !in ids
  {
    var after := DeletedAll(db, ids);
    DeletedAllKeeps(db, ids);
    if HasEvent(after, id) {
      var a :| a in after.events && OfRelease(after, a, id);
      assert a in db.events && OfRelease(db, a, id);
    }
    if HasEvent(db, id) && id !in ids {
      var a :| a in db.events && OfRelease(db, a, id);
      assert a in after.events && OfRelease(after, a, id);
    }
  }

  lemma {:induction false} SoundAfter(db: Db, ids: seq<int>)
    requires Sound(db) && NoEvents(db, ids)
    ensures Sound(DeletedAll(db, ids))
  {
    if ids != [] {
      var before, x := ids[..|ids| - 1], ids[|ids| - 1];
      SoundAfter(db, before);
      EventsAfter(db, before, x);
      ArtifactsGoIff(DeletedAll(db, before), x);
    }
  }

  /** One release's rows raise the candidate sizes: each key ends at the largest positive size seen. */
  ghost predicate RowsAdded(before: map<string, int>, rows: set<Row>, after: map<string, int>) {
    && (forall k :: k in before ==> k in after && before[k] <= after[k])
    && (forall k :: k in after ==> (k in before && after[k] == before[k]) || (after[k] > 0 && Row(k, after[k]) in rows))
    && (forall row :: row in rows && row.size > 0 ==> row.key in after && row.size <= after[row.key])
  }

  method AddRows(before: map<string, int>, rows: set<Row>) returns (candidates: map<string, int>)
    requires forall k :: k in before ==> before[k] > 0
    ensures RowsAdded(before, rows, candidates)
  {
    candidates := before;
    var todo := rows;
    while todo != {}
      invariant todo <= rows
      invariant forall k :: k in candidates ==> candidates[k] > 0
      invariant forall k :: k in before ==> k in candidates && before[k] <= candidates[k]
      invariant forall k :: k in candidates ==>
              (k in before && candidates[k] == before[k]) || Row(k, candidates[k]) in rows
      invariant forall row :: row in rows && row !in todo && row.size > 0 ==>
              row.key in candidates && row.size <= candidates[row.key]
      decreases |todo|
    {
      var row :| row in todo;
      if row.size > (if row.key in candidates then candidates[row.key] else 0) {
        candidates := candidates[row.key := row.size];
      }
      todo := todo - {row};
    }
  }

  lemma RecordedSnoc(db: Db, ids: seq<int>, id: int, k: string, size: int)
    requires k != ""
    ensures Recorded(db, ids + [id], k, size)
       <==> Recorded(db, ids, k, size) || Row(k, size) in ListReleaseBlobKeys(DeletedAll(db, ids), id)
  {
    RowsAreSlots(DeletedAll(db, ids), id, Row(k, size));
    forall s
      ensures SlotOf(DeletedAll(db, ids), s, id) && SlotRow(DeletedAll(db, ids), s) == Row(k, size)
         <==> id !in ids && SlotOf(db, s, id) && SlotRow(db, s) == Row(k, size)
    {
      DeletedAllSlot(db, ids, s);
    }
  }

  lemma CandidateIsRecorded(db: Db, ids: seq<int>, k: string)
    ensures Candidate(db, ids, k) <==> k != "" && exists size :: size > 0 && Recorded(db, ids, k, size)
  {
    if Candidate(db, ids, k) {
      var id :| id in ids && HasPositive(db, id, k);
      var s :| SlotOf(db, s, id) && SlotRow(db, s).key == k && SlotRow(db, s).size > 0;
      assert SlotRow(db, s) == Row(k, SlotRow(db, s).size);
      assert Recorded(db, ids, k, SlotRow(db, s).size);
    }
  }

  /** Reading one more release's rows before it is deleted keeps the candidates exact. */
  lemma CandidatesSnoc(db: Db, ids: seq<int>, id: int, before: map<string, int>, after: map<string, int>)
    requires IsCandidates(db, ids, before) && RowsAdded(before, ListReleaseBlobKeys(DeletedAll(db, ids), id), after)
    ensures IsCandidates(db, ids + [id], after)
  {
    var rows := ListReleaseBlobKeys(DeletedAll(db, ids), id);
    forall k
      ensures k in after <==> Candidate(db, ids + [id], k)
      ensures k in after ==> after[k] > 0 && Recorded(db, ids + [id], k, after[k])
    {
      CandidateAfterSnoc(db, ids, id, before, after, k);
    }
    forall k, size | k in after && Recorded(db, ids + [id], k, size)
      ensures size <= after[k]
    {
      CandidateAfterSnoc(db, ids, id, before, after, k);
      RecordedSnoc(db, ids, id, k, size);
      CandidateIsRecorded(db, ids, k);
    }
  }

  lemma CandidateAfterSnoc(db: Db, ids: seq<int>, id: int, before: map<string, int>, after: map<string, int>, k: string)
    requires IsCandidates(db, ids, before) && RowsAdded(before, ListReleaseBlobKeys(DeletedAll(db, ids), id), after)
    ensures k in after <==> Candidate(db, ids + [id], k)
    ensures k in after ==> after[k] > 0 && Recorded(db, ids + [id], k, after[k])
  {
    var rows := ListReleaseBlobKeys(DeletedAll(db, ids), id);
    CandidateIsRecorded(db, ids, k);
    CandidateIsRecorded(db, ids + [id], k);
    if k in after {
      if after[k] > 0 && Row(k, after[k]) in rows {
        RowsAreSlots(DeletedAll(db, ids), id, Row(k, after[k]));
      }
      RecordedSnoc(db, ids, id, k, after[k]);
    }
    if Candidate(db, ids + [id], k) {
      var size :| size > 0 && Recorded(db, ids + [id], k, size);
      RecordedSnoc(db, ids, id, k, size);
    }
  }

  /** The candidates nothing references, in key order. */
  method Unreferenced(db: Db, candidates: map<string, int>) returns (freed: seq<BlobRef>)
    ensures StrictlySorted(freed)
    ensures forall r :: r in freed <==> r.key in candidates && r.size == candidates[r.key] && !Referenced(db, r.key)
  {
    freed := [];
    var todo := candidates.Keys;
    while todo != {}
      invariant todo <= candidates.Keys && DistinctKeys(freed)
      invariant forall r :: r in freed <==>
        r.key in candidates && r.key !in todo && r.size == candidates[r.key] && !Referenced(db, r.key)
      decreases |todo|
    {
      var k :| k in todo;
      ReferencedIsAnySlot(db, k);
      if !IsBlobReferenced(db, k) {
        freed := freed + [BlobRef(k, candidates[k])];
      }
      todo := todo - {k};
    }
    freed := SortRefs(freed);
  }

  // ---- what a run answers ----

  /** A blob is reported at one of its recorded sizes. */
  ghost predicate SizesRecorded(db: Db, ids: seq<int>, freed: seq<BlobRef>) {
    forall r :: r in freed ==> Recorded(db, ids, r.key, r.size)
  }

  /** The blob is reported at the largest of the sizes the releases record for it. */
  ghost predicate LargestIn(db: Db, ids: seq<int>, r: BlobRef) {
    && r.size > 0 && Recorded(db, ids, r.key, r.size)
    && forall size :: Recorded(db, ids, r.key, size) ==> size <= r.size
  }

  /** ... or at the largest that one of the batches finds. */
  ghost predicate LargestInBatch(db: Db, ids: seq<int>, r: BlobRef) {
    exists lo: nat :: IsBatch(ids, lo) && LargestIn(DeletedAll(db, ids[..lo]), ids[lo..BatchEnd(ids, lo)], r)
  }

  ghost predicate BatchesLargest(db: Db, ids: seq<int>, freed: seq<BlobRef>) {
    forall r :: r in freed ==> LargestInBatch(db, ids, r)
  }

  ghost predicate DryRun(db: Db, ids: seq<int>, freed: seq<BlobRef>, count: nat) {
    && StrictlySorted(freed) && SizesRecorded(db, ids, freed) && (forall r :: r in freed ==> LargestIn(db, ids, r))
    && (forall k :: HasKey(freed, k) <==> Frees(db, ids, k))
    && CountsCandidates(db, ids, count)
  }

  ghost predicate Committed(db: Db, ids: seq<int>, freed: seq<BlobRef>, count: nat) {
    && StrictlySorted(freed) && SizesRecorded(db, ids, freed) && BatchesLargest(db, ids, freed)
    && (forall k :: HasKey(freed, k) <==> BatchedFrees(db, ids, k))
    && CountsCandidates(db, ids, count)
  }

  /** The freed keys are those of the batches before hi, each once. */
  ghost predicate FreedBefore(db: Db, ids: seq<int>, hi: nat, freed: seq<BlobRef>) {
    && DistinctKeys(freed) && SizesRecorded(db, ids, freed) && BatchesLargest(db, ids, freed)
    && (forall k :: HasKey(freed, k) <==> FreedIn(db, ids, hi, k))
  }

  ghost predicate FreedIn(db: Db, ids: seq<int>, hi: nat, k: string) {
    exists lo: nat :: lo < hi && IsBatch(ids, lo) && BatchFrees(db, ids, lo, k)
  }

  ghost predicate SeenBefore(db: Db, ids: seq<int>, hi: nat, seen: set<string>)
    requires hi <= |ids|
  {
    AreCandidates(db, ids[..hi], seen)
  }

  /** The run kept the batches before lo; the batch at lo holds a release with a download event. */
  ghost predicate StoppedAt(db: Db, ids: seq<int>, lo: nat, db': Db, freed: seq<BlobRef>)
    requires lo <= |ids|
  {
    && NoEvents(db, ids[..lo]) && !NoEvents(db, ids[lo..BatchEnd(ids, lo)])
    && db' == DeletedAll(db, ids[..lo]) && FreedBefore(db, ids, lo, freed)
  }

  lemma NothingToEvict(db: Db)
    ensures DryRun(db, [], [], 0) && Committed(db, [], [], 0)
  {
    assert AreCandidates(db, [], {});
  }

  lemma IsDryRun(db: Db, ids: seq<int>, candidates: map<string, int>, freed: seq<BlobRef>)
    requires IsCandidates(db, ids, candidates) && IsFreed(db, ids, candidates, freed)
    ensures DryRun(db, ids, freed, |candidates.Keys|)
  {
    assert AreCandidates(db, ids, candidates.Keys);
    forall k | Frees(db, ids, k)
      ensures HasKey(freed, k)
    {
      assert BlobRef(k, candidates[k]) in freed;
    }
    forall r | r in freed
      ensures LargestIn(db, ids, r)
    {
      CandidateIsLargest(db, ids, candidates, r);
    }
  }

  lemma BatchEvents(db: Db, ids: seq<int>, lo: nat)
    requires lo <= |ids| && NoEvents(db, ids[..lo])
    ensures NoEvents(DeletedAll(db, ids[..lo]), ids[lo..BatchEnd(ids, lo)]) <==>
            NoEvents(db, ids[lo..BatchEnd(ids, lo)])
    ensures NoEvents(db, ids[lo..BatchEnd(ids, lo)]) <==> NoEvents(db, ids[..BatchEnd(ids, lo)])
  {
    var hi := BatchEnd(ids, lo);
    forall id | id in ids[lo..hi]
      ensures HasEvent(DeletedAll(db, ids[..lo]), id) <==> HasEvent(db, id)
    {
      EventsAfter(db, ids[..lo], id);
    }
    assert ids[..hi] == ids[..lo] + ids[lo..hi];
  }

  lemma BatchDeleted(db: Db, ids: seq<int>, lo: nat)
    requires lo <= |ids|
    ensures DeletedAll(DeletedAll(db, ids[..lo]), ids[lo..BatchEnd(ids, lo)])
         == DeletedAll(db, ids[..BatchEnd(ids, lo)])
  {
    DeletedAllConcat(db, ids[..lo], ids[lo..BatchEnd(ids, lo)]);
    assert ids[..BatchEnd(ids, lo)] == ids[..lo] + ids[lo..BatchEnd(ids, lo)];
  }

  /** A batch's keys are those of its releases that no earlier batch deleted. */
  lemma BatchCandidates(db: Db, ids: seq<int>, lo: nat, k: string)
    requires lo <= |ids|
    ensures Candidate(db, ids[..BatchEnd(ids, lo)], k)
       <==> Candidate(db, ids[..lo], k) || Candidate(DeletedAll(db, ids[..lo]), ids[lo..BatchEnd(ids, lo)], k)
  {
    var hi := BatchEnd(ids, lo);
    assert ids[..hi] == ids[..lo] + ids[lo..hi];
    CandidateInBatch(db, ids, lo, k);
  }

  lemma SeenBatch(db: Db, ids: seq<int>, lo: nat, seen: set<string>, candidates: map<string, int>)
    requires lo <= |ids| && SeenBefore(db, ids, lo, seen)
    requires IsCandidates(DeletedAll(db, ids[..lo]), ids[lo..BatchEnd(ids, lo)], candidates)
    ensures SeenBefore(db, ids, BatchEnd(ids, lo), seen + candidates.Keys)
  {
    forall k
      ensures k in seen + candidates.Keys <==> Candidate(db, ids[..BatchEnd(ids, lo)], k)
    {
      BatchCandidates(db, ids, lo, k);
    }
  }

  lemma RecordedBefore(db: Db, ids: seq<int>, lo: nat, k: string, size: int)
    requires lo <= |ids| && Recorded(DeletedAll(db, ids[..lo]), ids[lo..BatchEnd(ids, lo)], k, size)
    ensures Recorded(db, ids, k, size)
  {
    var after := DeletedAll(db, ids[..lo]);
    var id, s :| id in ids[lo..BatchEnd(ids, lo)] && SlotOf(after, s, id) && SlotRow(after, s) == Row(k, size);
    DeletedAllSlot(db, ids[..lo], s);
    assert id in ids;
  }

  lemma FreedBatch(db: Db, ids: seq<int>, lo: nat, freed: seq<BlobRef>, part: seq<BlobRef>,
                   candidates: map<string, int>)
    requires IsBatch(ids, lo) && FreedBefore(db, ids, lo, freed)
    requires IsCandidates(DeletedAll(db, ids[..lo]), ids[lo..BatchEnd(ids, lo)], candidates)
    requires IsFreed(DeletedAll(db, ids[..lo]), ids[lo..BatchEnd(ids, lo)], candidates, part)
    ensures FreedBefore(db, ids, BatchEnd(ids, lo), freed + part)
  {
    var hi := BatchEnd(ids, lo);
    PartKeys(db, ids, lo, part, candidates);
    forall k
      ensures HasKey(freed + part, k) <==> FreedIn(db, ids, hi, k)
      ensures HasKey(freed, k) ==> !HasKey(part, k)
    {
      FreedInBatch(db, ids, lo, k);
      assert HasKey(freed + part, k) <==> HasKey(freed, k) || HasKey(part, k);
    }
    SortedIsDistinct(part);
    DistinctConcat(freed, part);
    forall r | r in part
      ensures Recorded(db, ids, r.key, r.size) && LargestInBatch(db, ids, r)
    {
      CandidateIsLargest(DeletedAll(db, ids[..lo]), ids[lo..BatchEnd(ids, lo)], candidates, r);
      RecordedBefore(db, ids, lo, r.key, r.size);
    }
  }

  lemma CandidateIsLargest(db: Db, ids: seq<int>, candidates: map<string, int>, r: BlobRef)
    requires IsCandidates(db, ids, candidates) && r.key in candidates && r.size == candidates[r.key]
    ensures LargestIn(db, ids, r)
  {
  }

  lemma PartKeys(db: Db, ids: seq<int>, lo: nat, part: seq<BlobRef>, candidates: map<string, int>)
    requires IsBatch(ids, lo)
    requires IsCandidates(DeletedAll(db, ids[..lo]), ids[lo..BatchEnd(ids, lo)], candidates)
    requires IsFreed(DeletedAll(db, ids[..lo]), ids[lo..BatchEnd(ids, lo)], candidates, part)
    ensures forall k :: HasKey(part, k) <==> BatchFrees(db, ids, lo, k)
  {
    forall k | BatchFrees(db, ids, lo, k)
      ensures HasKey(part, k)
    {
      assert BlobRef(k, candidates[k]) in part;
    }
  }

  lemma FreedInBatch(db: Db, ids: seq<int>, lo: nat, k: string)
    requires IsBatch(ids, lo)
    ensures FreedIn(db, ids, BatchEnd(ids, lo), k) <==> FreedIn(db, ids, lo, k) || BatchFrees(db, ids, lo, k)
    ensures FreedIn(db, ids, lo, k) ==> !BatchFrees(db, ids, lo, k)
  {
    if FreedIn(db, ids, lo, k) {
      FreedNoMore(db, ids, lo, k);
    }
    if FreedIn(db, ids, BatchEnd(ids, lo), k) && !FreedIn(db, ids, lo, k) {
      var at: nat :| at < BatchEnd(ids, lo) && IsBatch(ids, at) && BatchFrees(db, ids, at, k);
      SameBatch(lo, at);
    }
  }

  lemma SameBatch(lo: nat, at: nat)
    requires lo % BatchSize == 0 && at % BatchSize == 0 && at < lo + BatchSize
    ensures at <= lo
  {
  }

  lemma FreedNoMore(db: Db, ids: seq<int>, lo: nat, k: string)
    requires IsBatch(ids, lo) && FreedIn(db, ids, lo, k)
    ensures !BatchFrees(db, ids, lo, k)
  {
    var at: nat :| at < lo && IsBatch(ids, at) && BatchFrees(db, ids, at, k);
    if BatchFrees(db, ids, lo, k) {
      FreedOnce(db, ids, at, lo, k);
    }
  }

  lemma SortedIsDistinct(refs: seq<BlobRef>)
    requires StrictlySorted(refs)
    ensures DistinctKeys(refs)
  {
    forall i, j | 0 <= i < j < |refs|
      ensures refs[i].key != refs[j].key
    {
      LessIrreflexive(refs[i].key);
    }
  }

  lemma DistinctConcat(a: seq<BlobRef>, b: seq<BlobRef>)
    requires DistinctKeys(a) && DistinctKeys(b) && forall k :: HasKey(a, k) ==> !HasKey(b, k)
    ensures DistinctKeys(a + b)
  {
    forall i, j | 0 <= i < |a| && 0 <= j < |b|
      ensures a[i].key != b[j].key
    {
      assert HasKey(a, a[i].key) && HasKey(b, b[j].key);
    }
  }

  lemma SeenAll(db: Db, ids: seq<int>, seen: set<string>)
    requires SeenBefore(db, ids, |ids|, seen)
    ensures CountsCandidates(db, ids, |seen|)
  {
    assert ids[..|ids|] == ids;
  }

  lemma FreedAll(db: Db, ids: seq<int>, freed: seq<BlobRef>)
    requires FreedBefore(db, ids, |ids|, freed)
    ensures StrictlySorted(SortRefs(freed)) && SizesRecorded(db, ids, SortRefs(freed))
    ensures forall k :: HasKey(SortRefs(freed), k) <==> BatchedFrees(db, ids, k)
  {
    forall k
      ensures HasKey(SortRefs(freed), k) <==> HasKey(freed, k)
      ensures FreedIn(db, ids, |ids|, k) <==> BatchedFrees(db, ids, k)
    {
    }
  }

  /** These releases are gone, and their keys are the candidates. */
  ghost predicate Collected(was: Db, ids: seq<int>, now: Db, candidates: map<string, int>) {
    now == DeletedAll(was, ids) && Sound(now) && NoEvents(was, ids) && IsCandidates(was, ids, candidates)
  }

  lemma CollectedMore(was: Db, ids: seq<int>, now: Db, before: map<string, int>, id: int, after: map<string, int>)
    requires Collected(was, ids, now, before) && RowsAdded(before, ListReleaseBlobKeys(now, id), after)
    ensures HasEvent(now, id) ==> HasEvent(was, id)
    ensures !HasEvent(now, id) ==> Collected(was, ids + [id], Deleted(now, id), after)
  {
    EventsAfter(was, ids, id);
    if !HasEvent(now, id) {
      CandidatesSnoc(was, ids, id, before, after);
      ArtifactsGoIff(now, id);
      assert (ids + [id])[..|ids|] == ids;
    }
  }

  class Database {
    var db: Db

    constructor (tables: Db)
      ensures db == tables
    {
      db := tables;
    }

    /** A statement whose effect leaves a dangling reference fails and changes nothing. */
    method Exec(next: Db) returns (ok: bool)
      modifies this
      ensures ok == ForeignKeys(next) && db == if ok then next else old(db)
    {
      ok := ForeignKeys(next);
      if ok {
        db := next;
      }
    }

    method DeleteReleasePackagedArtifacts(id: int) returns (ok: bool)
      requires ForeignKeys(db)
      modifies this
      ensures ok && db == old(db).(packaged := PackagedLeft(old(db).artifacts, old(db).packaged, id)) && ForeignKeys(db)
    {
      ok := Exec(db.(packaged := PackagedLeft(db.artifacts, db.packaged, id)));
    }

    method DeleteReleaseDownloadCounts(id: int) returns (ok: bool)
      requires ForeignKeys(db)
      modifies this
      ensures ok && db == old(db).(counts := CountsLeft(old(db).artifacts, old(db).counts, id)) && ForeignKeys(db)
    {
      ok := Exec(db.(counts := CountsLeft(db.artifacts, db.counts, id)));
    }

    method DeleteReleaseOCITags(id: int) returns (ok: bool)
      requires ForeignKeys(db)
      modifies this
      ensures ok && db == old(db).(tags := TagsLeft(old(db).tags, id)) && ForeignKeys(db)
    {
      ok := Exec(db.(tags := TagsLeft(db.tags, id)));
    }

    method DeleteReleaseArtifactPlatforms(id: int) returns (ok: bool)
      requires ForeignKeys(db)
      modifies this
      ensures ok && db == old(db).(platforms := PlatformsLeft(old(db).platforms, id)) && ForeignKeys(db)
    {
      ok := Exec(db.(platforms := PlatformsLeft(db.platforms, id)));
    }

    /** Deletes a release and everything under it; fails exactly when one of its artifacts has a download event. */
    method DeleteReleaseRows(id: int) returns (ok: bool)
      requires Sound(db)
      modifies this
      ensures ok <==> !HasEvent(old(db), id)
      ensures ok ==> db == Deleted(old(db), id)
    {
      ghost var was := db;
      ok := DeleteReleasePackagedArtifacts(id);
      ok := DeleteReleaseDownloadCounts(id);
      ok := DeleteReleaseOCITags(id);
      ok := DeleteReleaseArtifactPlatforms(id);
      assert db == Cleared(was, id);
      ArtifactsGoIff(was, id);
      ok := Exec(db.(artifacts := ArtifactsLeft(db.artifacts, id)));
      if ok {
        ok := Exec(db.(releases := db.releases - {id}));
      }
    }

    /** One transaction: deletes the releases and answers the blobs nothing references afterwards. */
    method EvictBatch(ids: seq<int>, commit: bool) returns (ok: bool, freed: seq<BlobRef>, candidates: map<string, int>)
      requires Sound(db)
      modifies this
      ensures ok <==> NoEvents(old(db), ids)
      ensures ok ==> IsCandidates(old(db), ids, candidates) && IsFreed(old(db), ids, candidates, freed)
      ensures !ok ==> freed == [] && candidates == map[]
      ensures db == if ok && commit then DeletedAll(old(db), ids) else old(db)
    {
      var was := db;
      ok, candidates := CollectAndDelete(ids);
      if !ok {
        db := was;
        return false, [], map[];
      }
      freed := Unreferenced(db, candidates);
      assert IsFreed(was, ids, candidates, freed);
      if !commit {
        db := was;
      }
    }

    /** Reads each release's blob rows, then deletes it; stops at the first that cannot go. */
    method CollectAndDelete(ids: seq<int>) returns (ok: bool, candidates: map<string, int>)
      requires Sound(db)
      modifies this
      ensures ok <==> NoEvents(old(db), ids)
      ensures ok ==> db == DeletedAll(old(db), ids) && IsCandidates(old(db), ids, candidates)
    {
      ghost var was := db;
      candidates := map[];
      for i := 0 to |ids|
        invariant Collected(was, ids[..i], db, candidates)
      {
        var before := candidates;
        candidates := AddRows(candidates, ListReleaseBlobKeys(db, ids[i]));
        CollectedMore(was, ids[..i], db, before, ids[i], candidates);
        assert ids[..i + 1] == ids[..i] + [ids[i]];
        ok := DeleteReleaseRows(ids[i]);
        if !ok {
          assert ids[i] in ids;
          return false, map[];
        }
      }
      assert ids[..|ids|] == ids;
      return true, candidates;
    }

    /**
      Evicts the releases. A committed run commits in batches and stops at the first batch that
      fails, keeping the earlier ones.
     */
    method EvictReleases(ids: seq<int>, commit: bool) returns (ok: bool, freed: seq<BlobRef>, count: nat)
      requires Sound(db)
      modifies this
      ensures ok <==> NoEvents(old(db), ids)
      ensures ok && !commit ==> db == old(db) && DryRun(old(db), ids, freed, count)
      ensures ok && commit ==> db == DeletedAll(old(db), ids) && Committed(old(db), ids, freed, count)
      ensures !ok && !commit ==> db == old(db) && freed == []
      ensures !ok && commit ==> exists lo: nat :: IsBatch(ids, lo) && StoppedAt(old(db), ids, lo, db, freed)
    {
      var was := db;
      if ids == [] {
        NothingToEvict(was);
        return true, [], 0;
      }
      if !commit {
        var candidates;
        ok, freed, candidates := EvictBatch(ids, false);
        count := |candidates.Keys|;
        if ok {
          IsDryRun(was, ids, candidates, freed);
        }
        return;
      }
      ok, freed, count := CommitBatches(ids);
    }

    method CommitBatches(ids: seq<int>) returns (ok: bool, freed: seq<BlobRef>, count: nat)
      requires Sound(db)
      modifies this
      ensures ok <==> NoEvents(old(db), ids)
      ensures ok ==> db == DeletedAll(old(db), ids) && Committed(old(db), ids, freed, count)
      ensures !ok ==> exists lo: nat :: IsBatch(ids, lo) && StoppedAt(old(db), ids, lo, db, freed)
    {
      var was := db;
      freed := [];
      var seen: set<string> := {};
      var start := 0;
      assert ids[..0] == [];
      while start < |ids|
        invariant start <= |ids| && (start < |ids| ==> IsBatch(ids, start))
        invariant NoEvents(was, ids[..start]) && BatchesDone(was, ids, start, db, freed, seen)
        decreases |ids| - start
      {
        var part, candidates;
        ok, part, candidates := EvictBatch(ids[start..BatchEnd(ids, start)], true);
        BatchEvents(was, ids, start);
        if !ok {
          count := |seen|;
          assert IsBatch(ids, start) && StoppedAt(was, ids, start, db, freed);
          return;
        }
        NextBatch(was, ids, start, db, freed, seen, part, candidates);
        freed, seen, start := freed + part, seen + candidates.Keys, BatchEnd(ids, start);
      }
      assert ids[..start] == ids;
      SeenAll(was, ids, seen);
      FreedAll(was, ids, freed);
      ok, freed, count := true, SortRefs(freed), |seen|;
    }
  }

  /** The batches before hi are committed and accounted for. */
  ghost predicate BatchesDone(db: Db, ids: seq<int>, hi: nat, db': Db, freed: seq<BlobRef>, seen: set<string>)
    requires hi <= |ids|
  {
    db' == DeletedAll(db, ids[..hi]) && Sound(db') && FreedBefore(db, ids, hi, freed) && SeenBefore(db, ids, hi, seen)
  }

  lemma NextBatch(db: Db, ids: seq<int>, lo: nat, db': Db, freed: seq<BlobRef>, seen: set<string>, part: seq<BlobRef>,
                  candidates: map<string, int>)
    requires IsBatch(ids, lo) && Sound(db) && NoEvents(db, ids[..BatchEnd(ids, lo)])
    requires FreedBefore(db, ids, lo, freed) && SeenBefore(db, ids, lo, seen)
    requires IsCandidates(DeletedAll(db, ids[..lo]), ids[lo..BatchEnd(ids, lo)], candidates)
    requires IsFreed(DeletedAll(db, ids[..lo]), ids[lo..BatchEnd(ids, lo)], candidates, part)
    requires db' == DeletedAll(DeletedAll(db, ids[..lo]), ids[lo..BatchEnd(ids, lo)])
    ensures BatchesDone(db, ids, BatchEnd(ids, lo), db', freed + part, seen + candidates.Keys)
    ensures BatchEnd(ids, lo) < |ids| ==> IsBatch(ids, BatchEnd(ids, lo))
  {
    assert (lo + BatchSize) % BatchSize == lo % BatchSize;
    FreedBatch(db, ids, lo, freed, part, candidates);
    SeenBatch(db, ids, lo, seen, candidates);
    BatchDeleted(db, ids, lo);
    SoundAfter(db, ids[..BatchEnd(ids, lo)]);
  }

  /** Only a download event keeps the release's artifacts, and nothing then keeps the release. */
  lemma ArtifactsGoIff(db: Db, id: int)
    requires Sound(db)
    ensures ForeignKeys(Cleared(db, id).(artifacts := ArtifactsLeft(db.artifacts, id))) <==> !HasEvent(db, id)
    ensures !HasEvent(db, id) ==> Sound(Deleted(db, id))
  {
  }

  // ---- the dry run against the committed run ----

  /** With positive sizes, a committed run frees the keys the dry run reported, and counts the same candidates. */
  lemma DryRunIsExact(db: Db, ids: seq<int>, dry: seq<BlobRef>, dryCount: nat, freed: seq<BlobRef>, count: nat)
    requires PositiveSizes(db, ids)
    requires DryRun(db, ids, dry, dryCount) && Committed(db, ids, freed, count)
    ensures |dry| == |freed| && forall i :: 0 <= i < |dry| ==> dry[i].key == freed[i].key
    ensures dryCount == count
    ensures forall r :: r in freed ==> !Referenced(DeletedAll(db, ids), r.key)
  {
    forall k
      ensures HasKey(dry, k) <==> HasKey(freed, k)
      ensures HasKey(freed, k) ==> !Referenced(DeletedAll(db, ids), k)
    {
      DryRunPredicts(db, ids, k);
    }
    SameKeys(dry, freed);
    CountUnique(db, ids, dryCount, count);
    forall r | r in freed
      ensures !Referenced(DeletedAll(db, ids), r.key)
    {
      assert HasKey(freed, r.key);
    }
  }

  /** Whatever the sizes, a committed run frees no key the dry run did not report. */
  lemma CommittedWithinDryRun(db: Db, ids: seq<int>, dry: seq<BlobRef>, dryCount: nat, freed: seq<BlobRef>,
                              count: nat, k: string)
    requires DryRun(db, ids, dry, dryCount) && Committed(db, ids, freed, count)
    ensures HasKey(freed, k) <==> HasKey(dry, k) && ClearedByPositive(db, ids, k)
    ensures dryCount == count
  {
    BatchedFreesIff(db, ids, k);
    CountUnique(db, ids, dryCount, count);
  }

  /** Key order determines the sequence of keys. */
  lemma {:induction false} SameKeys(a: seq<BlobRef>, b: seq<BlobRef>)
    requires StrictlySorted(a) && StrictlySorted(b) && forall k :: HasKey(a, k) <==> HasKey(b, k)
    ensures |a| == |b| && forall i :: 0 <= i < |a| ==> a[i].key == b[i].key
  {
    if a == [] {
      NoKeys(b);
    } else {
      assert HasKey(a, a[0].key);
      var r :| r in b && r.key == a[0].key;
      assert HasKey(b, b[0].key);
      var q :| q in a && q.key == b[0].key;
      FirstKey(a, b, r, q);
      forall k
        ensures HasKey(a[1..], k) <==> HasKey(b[1..], k)
      {
        TailKeys(a, k);
        TailKeys(b, k);
      }
      SameKeys(a[1..], b[1..]);
    }
  }

  lemma FirstKey(a: seq<BlobRef>, b: seq<BlobRef>, r: BlobRef, q: BlobRef)
    requires StrictlySorted(a) && StrictlySorted(b) && a != [] && b != []
    requires r in b && r.key == a[0].key && q in a && q.key == b[0].key
    ensures a[0].key == b[0].key
  {
    if a[0].key != b[0].key {
      LessTransitive(a[0].key, b[0].key, a[0].key);
      LessIrreflexive(a[0].key);
    }
  }

  lemma TailKeys(a: seq<BlobRef>, k: string)
    requires StrictlySorted(a) && a != []
    ensures HasKey(a[1..], k) <==> HasKey(a, k) && k != a[0].key
  {
    LessIrreflexive(a[0].key);
    if HasKey(a, k) && k != a[0].key {
      var r :| r in a && r.key == k;
      assert r in a[1..];
    }
  }

  /** The sizes reported for a run, by key. */
  function SizeByKey(refs: seq<BlobRef>): (m: map<string, int>)
    ensures forall k :: k in m ==> BlobRef(k, m[k]) in refs
    ensures forall r :: r in refs ==> r.key in m
  {
    if refs == [] then map[] else SizeByKey(refs[1..])[refs[0].key := refs[0].size]
  }

  /** The dashboard's estimate is at least the bytes that evicting all evictable releases frees. */
  lemma EstimateIsUpperBound(db: Db, keepN: int, cutoff: int, ids: seq<int>, freed: seq<BlobRef>, evictable: set<int>)
    requires forall id :: id in evictable <==> Evictable(db, keepN, cutoff, id)
    requires forall id :: id in ids ==> id in evictable
    requires NonNegative(db, evictable) && SizesRecorded(db, ids, freed)
    ensures Total(SizeByKey(freed)) <= Reclaimable(db, evictable)
  {
    var sizes := SizeByKey(freed);
    forall k | k in sizes
      ensures exists s :: Records(db, evictable, s, k, sizes[k])
    {
      assert Recorded(db, ids, k, sizes[k]);
      var id, s :| id in ids && SlotOf(db, s, id) && SlotRow(db, s) == Row(k, sizes[k]);
      assert Records(db, evictable, s, k, sizes[k]);
    }
    EstimateBounds(db, evictable, sizes);
  }

  // ---- a downloaded release ----

  const NoRow := Row("", 0)

  /** Two published releases of one branch; an artifact of the older one has a download event. */
  const Downloaded: Db := Db(
    map[1 := Release(1, "main", 1, true, false, 0), 2 := Release(1, "main", 2, true, false, 0)],
    map[1 := Artifact(1, false, Row("k", 5), NoRow, NoRow)],
    map[], map[], {}, map[], {1}, {})

  lemma DownloadedIsEvictable()
    ensures Sound(Downloaded) && Evictable(Downloaded, 1, 1, 1) && HasEvent(Downloaded, 1)
  {
    assert OfRelease(Downloaded, 1, 1);
    assert 2 in Newer(Downloaded, 1);
    assert |Newer(Downloaded, 1)| >= 1;
  }

  /** A selected release that somebody downloaded: its eviction, dry or committed, fails and frees nothing. */
  method EvictDownloaded(commit: bool) returns (ok: bool, freed: seq<BlobRef>)
    ensures Selected(Downloaded, 1, 1, 1, [1])
    ensures !ok && freed == []
  {
    DownloadedIsEvictable();
    var tables := new Database(Downloaded);
    var count;
    ok, freed, count := tables.EvictReleases([1], commit);
    assert 1 in [1];
    if commit {
      ghost var lo: nat :| IsBatch([1], lo) && StoppedAt(Downloaded, [1], lo, tables.db, freed);
      NothingFreed(lo, freed);
    }
  }

  lemma NothingFreed(lo: nat, freed: seq<BlobRef>)
    requires IsBatch([1], lo) && FreedBefore(Downloaded, [1], lo, freed)
    ensures freed == []
  {
    NoKeys(freed);
  }

  lemma NoKeys(refs: seq<BlobRef>)
    ensures refs == [] || HasKey(refs, refs[0].key)
  {
    if refs != [] {
      assert refs[0] in refs;
    }
  }
}
