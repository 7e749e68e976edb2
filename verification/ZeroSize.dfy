/**
  A dry run that promises too much. An empty upload is stored with size zero, and a cached deb or
  tar.gz digest of it records the same key with the size of the package built from it. When the
  empty file recurs in releases of two batches and only the first has such a digest, the dry run
  reports the key, the first batch keeps it, and the second does not look at it.
 */
module ZeroSize {
  import opened Retention
  import opened KeepN
  import opened Evict

  /** n, n-1, ..., 1. */
  function Countdown(n: nat): seq<int> {
    if n == 0 then [] else [n] + Countdown(n - 1)
  }

  lemma {:induction false} CountdownHas(n: nat)
    ensures |Countdown(n)| == n && forall i :: 0 <= i < n ==> Countdown(n)[i] == n - i
  {
    if n > 0 {
      CountdownHas(n - 1);
    }
  }

  /** A release's upload was empty: the key "k" of no bytes, recorded with size zero. */
  function EmptyUpload(release: int): Artifact {
    Artifact(release, false, Row("k", 0), NoRow, NoRow)
  }

  /**
    27 published releases of one branch. The oldest and the newest but one hold the empty file;
    the latter's cached deb digest names the same key with the deb's size.
   */
  const ZeroSized: Db := Db(
    map id | 1 <= id <= 27 :: Release(1, "main", id, true, false, 0),
    map[1 := EmptyUpload(26), 2 := EmptyUpload(1)],
    map[1 := Packaged(1, Row("k", 5))],
    map[], {}, map[], {}, {})

  /** With keep-N at one, the policy selects all releases but the newest. */
  lemma ZeroSizedIsSelected(ids: seq<int>)
    requires forall id :: id in ids ==> 1 <= id <= 26
    ensures Sound(ZeroSized) && Selected(ZeroSized, 1, 1, 1, ids) && NoEvents(ZeroSized, ids)
  {
    forall id | id in ids
      ensures Evictable(ZeroSized, 1, 1, id)
    {
      PastKeepN(id);
    }
  }

  lemma PastKeepN(id: int)
    requires 1 <= id <= 26
    ensures Evictable(ZeroSized, 1, 1, id)
  {
    assert 27 in Newer(ZeroSized, id);
    assert |Newer(ZeroSized, id)| >= 1;
  }

  lemma ZeroSizedSlots(s: Slot)
    requires HasSlot(ZeroSized, s) && SlotRow(ZeroSized, s).key == "k"
    ensures s in {Raw(1), Pack(1)} ==> SlotOf(ZeroSized, s, 26)
    ensures s == Raw(2) || s in {Raw(1), Pack(1)}
    ensures s == Raw(2) ==> SlotOf(ZeroSized, s, 1)
    ensures SlotRow(ZeroSized, s).size > 0 ==> s == Pack(1)
  {
  }

  lemma ZeroSizedFrees(ids: seq<int>)
    requires 26 in ids && 1 in ids
    ensures Frees(ZeroSized, ids, "k")
  {
    var db := ZeroSized;
    FreesIff(db, ids, "k");
    assert SlotOf(db, Pack(1), 26) && SlotRow(db, Pack(1)).key == "k";
    assert HasPositive(db, 26, "k");
    if HeldOutside(db, ids, "k") {
      var s :| HasSlot(db, s) && SlotRow(db, s).key == "k" && !SlotOfAny(db, s, ids);
      ZeroSizedSlots(s);
      assert false;
    }
  }

  lemma ZeroSizedHeld(ids: seq<int>)
    requires 1 !in ids
    ensures HeldOutside(ZeroSized, ids, "k")
  {
    var s := Raw(2);
    assert HasSlot(ZeroSized, s) && SlotRow(ZeroSized, s).key == "k" && !SlotOfAny(ZeroSized, s, ids);
  }

  /** The one positive row goes with the first batch. */
  lemma ZeroSizedFirst(ids: seq<int>, lo: nat)
    requires ids != [] && ids[0] == 26 && IsBatch(ids, lo) && FirstPositive(ZeroSized, ids, lo, "k")
    ensures lo == 0
  {
    var id :| id in ids[lo..BatchEnd(ids, lo)] && id !in ids[..lo] && HasPositive(ZeroSized, id, "k");
    var s :| SlotOf(ZeroSized, s, id) && SlotRow(ZeroSized, s).key == "k" && SlotRow(ZeroSized, s).size > 0;
    ZeroSizedSlots(s);
    assert ids[0] !in ids[..lo];
  }

  /** The policy's own list: the dry run reports the key and the committed run never frees it. */
  lemma ZeroSizeIsMissed()
    ensures Sound(ZeroSized) && Selected(ZeroSized, 1, 1, 1, Countdown(26)) && NoEvents(ZeroSized, Countdown(26))
    ensures Frees(ZeroSized, Countdown(26), "k") && !BatchedFrees(ZeroSized, Countdown(26), "k")
  {
    var ids := Countdown(26);
    CountdownHas(26);
    ZeroSizedIsSelected(ids);
    assert ids[0] == 26 && ids[25] == 1;
    ZeroSizedFrees(ids);
    forall lo: nat | IsBatch(ids, lo)
      ensures !BatchFrees(ZeroSized, ids, lo, "k")
    {
      BatchFreesIff(ZeroSized, ids, lo, "k");
      if FirstPositive(ZeroSized, ids, lo, "k") {
        ZeroSizedFirst(ids, lo);
        assert 1 !in ids[..25];
        ZeroSizedHeld(ids[..25]);
      }
    }
  }

  /** Both runs succeed; the dry one reports the blob and the committed one does not. */
  method EvictZeroSized(commit: bool) returns (ok: bool, freed: seq<BlobRef>)
    ensures ok && (HasKey(freed, "k") <==> !commit)
  {
    ZeroSizeIsMissed();
    var tables := new Database(ZeroSized);
    var count;
    ok, freed, count := tables.EvictReleases(Countdown(26), commit);
  }
}
