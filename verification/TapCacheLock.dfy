/**
  The lineage cache as the server keeps it: maps updated in place, one method for each critical
  section. Map iteration order is left open; the clock and file system faults are parameters.
 */
module TapCacheLock {
  import opened Wrappers
  import opened TapCache

  /** The entry built longest ago. */
  method OldestEntry(snaps: map<Key, Entry>) returns (oldest: Key)
    requires |snaps| > 0
    ensures oldest in snaps
    ensures forall l :: l in snaps ==> !Before(snaps[l].builtAt, snaps[oldest].builtAt)
  {
    assert snaps.Keys != {};
    oldest :| oldest in snaps;
    var todo := snaps.Keys;
    while todo != {}
      invariant todo <= snaps.Keys && oldest in snaps
      invariant forall l :: l in snaps && l !in todo ==> !Before(snaps[l].builtAt, snaps[oldest].builtAt)
      decreases |todo|
    {
      var k :| k in todo;
      if Before(snaps[k].builtAt, snaps[oldest].builtAt) {
        oldest := k;
      }
      todo := todo - {k};
    }
  }

  /** The unpinned directory with the oldest mtime, if any is unpinned. */
  method OldestUnpinned(dirs: map<Dir, OnDisk>, pins: map<Dir, nat>) returns (oldest: Option<Dir>)
    ensures oldest.None? ==> forall d :: d in dirs ==> Pins(pins, d) > 0
    ensures oldest.Some? ==> oldest.value in dirs && Pins(pins, oldest.value) == 0
    ensures oldest.Some? ==> forall d :: d in dirs && Pins(pins, d) == 0 ==> dirs[oldest.value].mtime <= dirs[d].mtime
  {
    oldest := None;
    var todo := dirs.Keys;
    while todo != {}
      invariant todo <= dirs.Keys
      invariant oldest.None? ==> forall d :: d in dirs && d !in todo ==> Pins(pins, d) > 0
      invariant oldest.Some? ==> oldest.value in dirs && Pins(pins, oldest.value) == 0
      invariant oldest.Some? ==> forall d :: d in dirs && d !in todo && Pins(pins, d) == 0 ==>
              dirs[oldest.value].mtime <= dirs[d].mtime
      decreases |todo|
    {
      var d :| d in todo;
      if Pins(pins, d) == 0 && (oldest.None? || dirs[d].mtime < dirs[oldest.value].mtime) {
        oldest := Some(d);
      }
      todo := todo - {d};
    }
  }

  /** Closes the entries over one directory. */
  method CloseOver(snaps0: map<Key, Entry>, victim: Dir) returns (snaps: map<Key, Entry>)
    ensures Within(snaps, snaps0)
    ensures forall k :: k in snaps <==> k in snaps0 && snaps0[k].dir != victim
  {
    snaps := snaps0;
    var todo := snaps0.Keys;
    while todo != {}
      invariant todo <= snaps0.Keys && Within(snaps, snaps0)
      invariant forall k :: k in snaps <==> k in snaps0 && (k in todo || snaps0[k].dir != victim)
      decreases |todo|
    {
      var k :| k in todo;
      if snaps0[k].dir == victim {
        snaps := snaps - {k};
      }
      todo := todo - {k};
    }
  }

  predicate IsRecent(builtAt: Option<int>, now: int) {
    builtAt.Some? && now - builtAt.value < RefreshAge
  }

  class Cache {
    var snaps: map<Key, Entry>
    var pins: map<Dir, nat>
    var refreshes: map<Dir, nat>
    var dirs: map<Dir, OnDisk>
    var serial: nat
    ghost var jobs: map<nat, Job>
    ghost var held: multiset<Dir>

    ghost function View(): State
      reads this
    {
      State(snaps, pins, refreshes, dirs, serial, jobs, held)
    }

    ghost predicate Valid()
      reads this
    {
      Inv(View())
    }

    constructor (found: map<Dir, OnDisk>, next: nat)
      ensures View() == Start.(dirs := found, serial := next) && Valid()
    {
      snaps, pins, refreshes, dirs, serial := map[], map[], map[], found, next;
      jobs, held := map[], multiset{};
    }

    /** Closes the oldest entries while the map is at its cap. */
    method CapEntries()
      modifies this`snaps
      ensures Capped(old(snaps), snaps)
    {
      while |snaps| >= MaxEntries
        invariant Within(snaps, old(snaps)) && (snaps == old(snaps) || |snaps| >= MaxEntries - 1)
        invariant forall k, l :: k in old(snaps) && k !in snaps && l in snaps ==>
                !Before(old(snaps)[l].builtAt, old(snaps)[k].builtAt)
        decreases |snaps|
      {
        var oldest := OldestEntry(snaps);
        RemoveSize(snaps, oldest);
        snaps := snaps - {oldest};
      }
    }

    /** Removes the oldest unpinned directories, with the entries over them, while the disk is at its cap. */
    method EvictLineages()
      modifies this`snaps, this`dirs
      ensures Evicted(pins, old(dirs), dirs) && Closed(old(snaps), old(dirs), snaps, dirs)
    {
      while |dirs| >= MaxLineages
        invariant Within(dirs, old(dirs)) && (dirs == old(dirs) || |dirs| >= MaxLineages - 1)
        invariant forall d :: d in old(dirs) && d !in dirs ==> Pins(pins, d) == 0
        invariant forall d, e :: d in old(dirs) && d !in dirs && e in dirs && Pins(pins, e) == 0 ==>
                old(dirs)[d].mtime <= old(dirs)[e].mtime
        invariant Closed(old(snaps), old(dirs), snaps, dirs)
        decreases |dirs|
      {
        var victim := OldestUnpinned(dirs, pins);
        if victim.None? {
          break;
        }
        snaps := CloseOver(snaps, victim.value);
        RemoveSize(dirs, victim.value);
        dirs := dirs - {victim.value};
      }
    }

    method MakeRoom(d: Dir)
      modifies this`snaps, this`dirs
      ensures MadeRoom(old(View()), d, View())
      ensures forall k :: k in snaps ==> k in old(snaps)
    {
      CapEntries();
      assert Capped(old(snaps), snaps);
      if d !in dirs {
        EvictLineages();
      }
    }

    method CreateEntry(key: Key, now: int, fault: Fault) returns (found: Option<Entry>)
      modifies this`snaps, this`dirs, this`serial
      ensures Created(old(View()), key, now, fault, View(), found)
      ensures key !in old(snaps) ==> found == if key in snaps then Some(snaps[key]) else None
    {
      if fault == MkdirFails {
        return None;
      }
      if Dir(key) !in dirs {
        dirs, serial := dirs[Dir(key) := OnDisk(serial, now)], serial + 1;
      }
      if fault == OpenFails {
        return None;
      }
      var e := Entry(serial, key, Dir(key), None, false);
      snaps, serial := snaps[key := e], serial + 1;
      return Some(e);
    }

    /** The live entry for key, created over its directory when there is none. */
    method LiveEntry(key: Key, now: int, fault: Fault) returns (found: Option<Entry>)
      modifies this`snaps, this`dirs, this`serial
      ensures Live(old(View()), key, now, fault, View(), found)
      ensures found == if key in snaps then Some(snaps[key]) else None
    {
      if key in snaps {
        return Some(snaps[key]);
      }
      MakeRoom(Dir(key));
      found := CreateEntry(key, now, fault);
    }

    method Unpin(d: Dir)
      modifies this`pins
      ensures View() == Unpinned(old(View()), d)
    {
      if Pins(pins, d) <= 1 {
        pins := pins - {d};
      } else {
        pins := pins[d := pins[d] - 1];
      }
    }

    method Hold(d: Dir)
      modifies this`pins, this`held
      ensures View() == Pinned(old(View()), d).(held := old(held) + multiset{d})
    {
      pins := pins[d := Pins(pins, d) + 1];
      held := held + multiset{d};
    }

    /** Registers a background refresh of the entry's directory and pins the directory for it. */
    method StartRefresh(e: Entry) returns (id: nat)
      modifies this`refreshes, this`pins, this`jobs, this`serial
      ensures View() == Started(old(View()), e)
      ensures id == old(serial)
    {
      id := serial;
      refreshes := refreshes[e.dir := id];
      pins := pins[e.dir := Pins(pins, e.dir) + 1];
      jobs := jobs[id := Job(e.dir, e.key, e.serial)];
      serial := serial + 1;
    }

    /**
      First half of a request: find the entry and start its refresh when it is due. Answers the
      refresh to wait for.
     */
    method AwaitLineage(key: Key, now: int, fault: Fault) returns (found: Option<Entry>, wait: Option<nat>)
      requires Valid()
      modifies this
      ensures Valid() && Step(old(View()), Await(key, now, fault), View())
      ensures found.Some? ==> found.value.dir in refreshes || IsRecent(found.value.builtAt, now)
      ensures found == if key in snaps then Some(snaps[key]) else None
      ensures wait == if found.Some? && found.value.dir in refreshes then Some(refreshes[found.value.dir]) else None
    {
      found := LiveEntry(key, now, fault);
      AwaitKeeps(old(View()), key, now, fault, View(), found);
      wait := None;
      if found.Some? {
        var e := found.value;
        if e.dir in refreshes {
          wait := Some(refreshes[e.dir]);
        } else if e.builtAt.None? || now - e.builtAt.value >= RefreshAge {
          var id := StartRefresh(e);
          wait := Some(id);
        }
      }
    }

    /** Second half of a fetch: pin the directory until the release. */
    method AcquireLineage(key: Key, now: int, fault: Fault, rootOpens: bool) returns (dir: Option<Dir>)
      requires Valid()
      modifies this
      ensures Valid() && Step(old(View()), Acquire(key, now, fault, rootOpens), View())
      ensures dir.Some? ==> dir.value == Dir(key) && dir.value in dirs && held == old(held) + multiset{dir.value}
      ensures dir.None? ==> held == old(held)
      ensures dir.Some? <==> key in snaps && rootOpens
    {
      var found := LiveEntry(key, now, fault);
      AcquireKeeps(old(View()), key, now, fault, rootOpens, View(), found);
      dir := None;
      if found.Some? && rootOpens {
        Hold(found.value.dir);
        dir := Some(found.value.dir);
      }
    }

    /** Second half of a file request. */
    method OpenLineage(key: Key, now: int, fault: Fault) returns (found: Option<Entry>)
      requires Valid()
      modifies this
      ensures Valid() && Step(old(View()), Open(key, now, fault), View())
      ensures found == if key in snaps then Some(snaps[key]) else None
      ensures found.Some? ==> found.value.dir in dirs
    {
      found := LiveEntry(key, now, fault);
      LiveKeeps(old(View()), key, now, fault, View(), found);
    }

    /** Ends one acquire. */
    method ReleaseLineage(dir: Dir)
      requires Valid() && dir in held
      modifies this
      ensures Valid() && Step(old(View()), Release(dir), View())
    {
      Unpin(dir);
      held := held - multiset{dir};
      StepKeeps(old(View()), Release(dir), View());
    }

    /** A running refresh sets its directory's mtime, outside the lock. */
    method TouchLineage(id: nat, dir: Dir, now: int)
      requires Valid() && id in jobs && jobs[id].dir == dir
      modifies this
      ensures Valid() && Step(old(View()), Touch(id, now), View())
    {
      assert dir in refreshes && Pins(pins, dir) == Holders(refreshes, held, dir);
      dirs := dirs[dir := dirs[dir].(mtime := now)];
      StepKeeps(old(View()), Touch(id, now), View());
    }

    method Mark(job: Job, failed: bool, now: int)
      modifies this`snaps
      ensures snaps == Marked(old(snaps), job, failed, now)
    {
      if job.key in snaps && snaps[job.key].serial == job.entry {
        snaps := snaps[job.key := snaps[job.key].(builtAt := Some(now), failed := failed)];
      }
    }

    /** The refresh's own critical section, once its work is over. */
    method FinishJob(id: nat, job: Job, failed: bool, now: int)
      requires id in jobs && jobs[id] == job
      modifies this
      ensures View() == Ended(old(View()), id, failed, now)
    {
      refreshes := refreshes - {job.dir};
      Unpin(job.dir);
      Mark(job, failed, now);
      jobs := jobs - {id};
    }

    /** A background refresh ends. */
    method EndRefresh(id: nat, job: Job, failed: bool, now: int)
      requires Valid() && id in jobs && jobs[id] == job
      modifies this
      ensures Valid() && Step(old(View()), End(id, failed, now), View())
    {
      EndKeeps(View(), id, failed, now);
      FinishJob(id, job, failed, now);
    }

    /** Closes every live entry, once the history digests are filled. */
    method DropEntries()
      requires Valid()
      modifies this
      ensures Valid() && Step(old(View()), DropAll, View())
    {
      while |snaps| > 0
        invariant View() == old(View()).(snaps := snaps)
        decreases |snaps|
      {
        assert snaps.Keys != {};
        var k :| k in snaps;
        RemoveSize(snaps, k);
        snaps := snaps - {k};
      }
      StepKeeps(old(View()), DropAll, View());
    }
  }
}
