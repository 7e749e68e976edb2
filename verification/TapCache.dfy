/**
  The live tap lineages: which lineage directories have an open entry, which are pinned by a
  request or a background refresh, and which are evicted. Every critical section under the
  cache's lock is one step; a run interleaves the steps of any number of requests and refreshes.
 */
module TapCache {
  import opened Wrappers

  /** (base URL, credential scope). */
  datatype Key = Key(baseUrl: string, scope: string)

  /** The lineage directory of a key; its name is a hash of the key. */
  datatype Dir = Dir(key: Key)

  /** A live entry. The serial tells entries of one key apart, as their addresses do; no builtAt is the zero time. */
  datatype Entry = Entry(serial: nat, key: Key, dir: Dir, builtAt: Option<int>, failed: bool)

  /** A directory on disk. `born` tells a directory from one created later under the same name. */
  datatype OnDisk = OnDisk(born: nat, mtime: int)

  /** What a background refresh remembers: its directory and the entry it was started for. */
  datatype Job = Job(dir: Dir, key: Key, entry: nat)

  const MaxEntries: nat := 32
  const MaxLineages: nat := 64
  const RefreshAge: int := 30

  datatype State = State(
    snaps: map<Key, Entry>,
    pins: map<Dir, nat>,
    refreshes: map<Dir, nat>,
    dirs: map<Dir, OnDisk>,
    serial: nat,
    jobs: map<nat, Job>,    // the refreshes running in the background
    held: multiset<Dir>)    // one for each acquire not yet released

  function Pins(pins: map<Dir, nat>, d: Dir): nat {
    if d in pins then pins[d] else 0
  }

  predicate Before(a: Option<int>, b: Option<int>) {
    b.Some? && (a.None? || a.value < b.value)
  }

  ghost predicate Within<K, V>(part: map<K, V>, whole: map<K, V>) {
    forall k :: k in part ==> k in whole && part[k] == whole[k]
  }

  // ---- the steps ----

  /** The oldest entries are closed until the map is under its cap, and no more. */
  ghost predicate Capped(snaps: map<Key, Entry>, snaps': map<Key, Entry>) {
    && Within(snaps', snaps)
    && (snaps' == snaps || |snaps'| == MaxEntries - 1)
    && |snaps'| < MaxEntries
    && forall k, l :: k in snaps && k !in snaps' && l in snaps' ==> !Before(snaps[l].builtAt, snaps[k].builtAt)
  }

  /** Unpinned directories go, oldest first, until the count is under its cap or only pinned ones are left. */
  ghost predicate Evicted(pins: map<Dir, nat>, dirs: map<Dir, OnDisk>, dirs': map<Dir, OnDisk>) {
    && Within(dirs', dirs)
    && (dirs' == dirs || |dirs'| >= MaxLineages - 1)
    && (|dirs'| < MaxLineages || forall d :: d in dirs' ==> Pins(pins, d) > 0)
    && (forall d :: d in dirs && d !in dirs' ==> Pins(pins, d) == 0)
    && forall d, e :: d in dirs && d !in dirs' && e in dirs' && Pins(pins, e) == 0 ==> dirs[d].mtime <= dirs[e].mtime
  }

  /** The entries over an evicted directory are closed with it. */
  ghost predicate Closed(snaps: map<Key, Entry>, dirs: map<Dir, OnDisk>, snaps': map<Key, Entry>,
                         dirs': map<Dir, OnDisk>) {
    && Within(snaps', snaps)
    && (forall k :: k in snaps && k !in snaps' ==> snaps[k].dir in dirs && snaps[k].dir !in dirs')
    && forall k :: k in snaps' && snaps'[k].dir in dirs ==> snaps'[k].dir in dirs'
  }

  datatype Fault = NoFault | MkdirFails | OpenFails

  function MadeDir(s: State, d: Dir, now: int): State {
    if d in s.dirs then s else s.(dirs := s.dirs[d := OnDisk(s.serial, now)], serial := s.serial + 1)
  }

  function Entered(s: State, key: Key): State {
    s.(snaps := s.snaps[key := Entry(s.serial, key, Dir(key), None, false)], serial := s.serial + 1)
  }

  /** The state once room has been made for a new entry over directory d. */
  ghost predicate MadeRoom(s: State, d: Dir, m: State) {
    exists capped ::
      && Capped(s.snaps, capped)
      && m == s.(snaps := m.snaps, dirs := m.dirs)
      && if d in s.dirs then m.snaps == capped && m.dirs == s.dirs
         else Evicted(s.pins, s.dirs, m.dirs) && Closed(capped, s.dirs, m.snaps, m.dirs)
  }

  /** A new entry for key, once room has been made for it. */
  ghost predicate Created(m: State, key: Key, now: int, fault: Fault, s': State, found: Option<Entry>) {
    match fault
    case MkdirFails => s' == m && found == None
    case OpenFails => s' == MadeDir(m, Dir(key), now) && found == None
    case NoFault => s' == Entered(MadeDir(m, Dir(key), now), key) && found == Some(s'.snaps[key])
  }

  /** The entry for key, created over its directory when there is none. */
  ghost predicate Live(s: State, key: Key, now: int, fault: Fault, s': State, found: Option<Entry>) {
    if key in s.snaps then
      s' == s && found == Some(s.snaps[key])
    else
      exists m: State :: MadeRoom(s, Dir(key), m) && Created(m, key, now, fault, s', found)
  }

  function Pinned(s: State, d: Dir): State {
    s.(pins := s.pins[d := Pins(s.pins, d) + 1])
  }

  function Unpinned(s: State, d: Dir): State {
    if Pins(s.pins, d) <= 1 then s.(pins := s.pins - {d}) else s.(pins := s.pins[d := Pins(s.pins, d) - 1])
  }

  /** No refresh runs in the entry's directory and its last one is too old. */
  predicate NeedsRefresh(s: State, e: Entry, now: int) {
    e.dir !in s.refreshes && (e.builtAt.None? || now - e.builtAt.value >= RefreshAge)
  }

  function Started(s: State, e: Entry): State {
    Pinned(s, e.dir).(
      refreshes := s.refreshes[e.dir := s.serial],
      jobs := s.jobs[s.serial := Job(e.dir, e.key, e.serial)],
      serial := s.serial + 1)
  }

  /** A request starts the refresh of the entry it found when that is due. */
  function AfterAwait(m: State, found: Option<Entry>, now: int): State {
    if found.Some? && NeedsRefresh(m, found.value, now) then Started(m, found.value) else m
  }

  /** A fetch holds the directory of the entry it found. */
  function AfterAcquire(m: State, found: Option<Entry>, rootOpens: bool): State {
    if found.Some? && rootOpens then Pinned(m, found.value.dir).(held := m.held + multiset{found.value.dir}) else m
  }

  /** The entry the job was started for keeps its outcome; an entry that replaced it does not. */
  function Marked(snaps: map<Key, Entry>, j: Job, failed: bool, now: int): map<Key, Entry> {
    if j.key in snaps && snaps[j.key].serial == j.entry
    then snaps[j.key := snaps[j.key].(builtAt := Some(now), failed := failed)]
    else snaps
  }

  function Ended(s: State, id: nat, failed: bool, now: int): State
    requires id in s.jobs
  {
    Unpinned(s, s.jobs[id].dir).(
      refreshes := s.refreshes - {s.jobs[id].dir},
      snaps := Marked(s.snaps, s.jobs[id], failed, now),
      jobs := s.jobs - {id})
  }

  datatype Action =
    | Await(key: Key, now: int, fault: Fault)
    | Acquire(key: Key, now: int, fault: Fault, rootOpens: bool)
    | Open(key: Key, now: int, fault: Fault)
    | Release(dir: Dir)
    | Touch(job: nat, now: int)
    | End(job: nat, failed: bool, now: int)
    | DropAll

  ghost predicate Step(s: State, a: Action, s': State) {
    match a
    case Await(key, now, fault) =>
      exists m, found :: Live(s, key, now, fault, m, found) && s' == AfterAwait(m, found, now)
    case Acquire(key, now, fault, rootOpens) =>
      exists m, found :: Live(s, key, now, fault, m, found) && s' == AfterAcquire(m, found, rootOpens)
    case Open(key, now, fault) =>
      exists found :: Live(s, key, now, fault, s', found)
    case Release(dir) =>
      dir in s.held && s' == Unpinned(s, dir).(held := s.held - multiset{dir})
    case Touch(job, now) =>
      && job in s.jobs && s.jobs[job].dir in s.dirs
      && s' == s.(dirs := s.dirs[s.jobs[job].dir := s.dirs[s.jobs[job].dir].(mtime := now)])
    case End(job, failed, now) =>
      job in s.jobs && s' == Ended(s, job, failed, now)
    case DropAll =>
      s' == s.(snaps := map[])
  }

  // ---- what every step keeps ----

  /** A directory's pins are its unreleased acquires and its refresh. */
  ghost predicate PinsCounted(pins: map<Dir, nat>, refreshes: map<Dir, nat>, held: multiset<Dir>) {
    && (forall d :: Pins(pins, d) == Holders(refreshes, held, d))
    && forall d :: d in pins ==> pins[d] > 0
  }

  /** The running refreshes are the registered ones. */
  ghost predicate JobsRegistered(refreshes: map<Dir, nat>, jobs: map<nat, Job>, serial: nat) {
    && (forall d :: d in refreshes ==> refreshes[d] in jobs && jobs[refreshes[d]].dir == d)
    && (forall j :: j in jobs ==> jobs[j].dir in refreshes && refreshes[jobs[j].dir] == j)
    && forall j :: j in jobs ==> j < serial
  }

  ghost predicate PinsExist(pins: map<Dir, nat>, dirs: map<Dir, OnDisk>) {
    forall d :: d in pins ==> d in dirs
  }

  ghost predicate EntriesExist(snaps: map<Key, Entry>, dirs: map<Dir, OnDisk>) {
    forall k :: k in snaps ==> snaps[k].key == k && snaps[k].dir == Dir(k) && Dir(k) in dirs
  }

  ghost predicate Inv(s: State) {
    && PinsCounted(s.pins, s.refreshes, s.held)
    && JobsRegistered(s.refreshes, s.jobs, s.serial)
    && PinsExist(s.pins, s.dirs)
    && EntriesExist(s.snaps, s.dirs)
    && |s.snaps| <= MaxEntries
  }

  /** Whatever was pinned is still there: the same directory, not one made again under its name. */
  ghost predicate PinnedSurvive(pins: map<Dir, nat>, dirs: map<Dir, OnDisk>, dirs': map<Dir, OnDisk>) {
    forall d :: d in pins && d in dirs ==> d in dirs' && dirs'[d].born == dirs[d].born
  }

  ghost predicate PositivePins(s: State) {
    forall e :: e in s.pins ==> s.pins[e] > 0
  }

  /** Room is made in the live entries and the directories alone. */
  ghost predicate Room(s: State, d: Dir, m: State) {
    && m == s.(snaps := m.snaps, dirs := m.dirs)
    && Within(m.snaps, s.snaps) && |m.snaps| < MaxEntries
    && Within(m.dirs, s.dirs)
    && (forall e :: e in s.pins && e in s.dirs ==> e in m.dirs)
    && (forall k :: k in m.snaps && m.snaps[k].dir in s.dirs ==> m.snaps[k].dir in m.dirs)
    && (d !in s.dirs ==> |m.dirs| < MaxLineages || forall e :: e in m.dirs ==> e in s.pins)
  }

  lemma MadeRoomIsRoom(s: State, d: Dir, m: State)
    requires MadeRoom(s, d, m) && PositivePins(s)
    ensures Room(s, d, m)
  {
    var capped :| Capped(s.snaps, capped)
      && (if d in s.dirs then m.snaps == capped && m.dirs == s.dirs
          else Evicted(s.pins, s.dirs, m.dirs) && Closed(capped, s.dirs, m.snaps, m.dirs));
    if d !in s.dirs {
      SubmapSize(m.snaps, capped);
    }
  }

  lemma RoomKeeps(s: State, d: Dir, m: State)
    requires Inv(s) && Room(s, d, m)
    ensures Inv(m) && PinnedSurvive(s.pins, s.dirs, m.dirs)
  {
    forall k | k in m.snaps
      ensures m.snaps[k].key == k && m.snaps[k].dir == Dir(k) && Dir(k) in m.dirs
    {
      assert k in s.snaps && s.snaps[k] == m.snaps[k];
    }
  }

  lemma SubmapSize<K, V>(part: map<K, V>, whole: map<K, V>)
    requires Within(part, whole)
    ensures |part| <= |whole|
  {
    assert part.Keys <= whole.Keys;
    SubsetSize(part.Keys, whole.Keys);
  }

  lemma MadeDirKeeps(s: State, d: Dir, now: int)
    requires Inv(s)
    ensures Inv(MadeDir(s, d, now)) && d in MadeDir(s, d, now).dirs
    ensures PinnedSurvive(s.pins, s.dirs, MadeDir(s, d, now).dirs)
  {
  }

  lemma EnteredKeeps(s: State, key: Key)
    requires Inv(s) && |s.snaps| < MaxEntries && Dir(key) in s.dirs
    ensures Inv(Entered(s, key))
  {
    PutSize(s.snaps, key, Entry(s.serial, key, Dir(key), None, false));
    PutExists(s.snaps, s.dirs, Entry(s.serial, key, Dir(key), None, false));
  }

  lemma PutSize<K, V>(m: map<K, V>, k: K, v: V)
    ensures |m[k := v]| <= |m| + 1
  {
    assert m[k := v].Keys == m.Keys + {k};
    assert |m[k := v].Keys| <= |m.Keys| + 1;
  }

  lemma PutExists(snaps: map<Key, Entry>, dirs: map<Dir, OnDisk>, e: Entry)
    requires EntriesExist(snaps, dirs) && e.dir == Dir(e.key) && e.dir in dirs
    ensures EntriesExist(snaps[e.key := e], dirs)
  {
  }

  lemma LiveRoom(s: State, key: Key, now: int, fault: Fault, s': State, found: Option<Entry>) returns (m: State)
    requires key !in s.snaps && Live(s, key, now, fault, s', found) && PositivePins(s)
    ensures Room(s, Dir(key), m) && Created(m, key, now, fault, s', found)
  {
    m :| MadeRoom(s, Dir(key), m) && Created(m, key, now, fault, s', found);
    MadeRoomIsRoom(s, Dir(key), m);
  }

  lemma LiveKeeps(s: State, key: Key, now: int, fault: Fault, s': State, found: Option<Entry>)
    requires Inv(s) && Live(s, key, now, fault, s', found)
    ensures Inv(s') && PinnedSurvive(s.pins, s.dirs, s'.dirs)
    ensures s'.pins == s.pins
    ensures found.Some? ==> key in s'.snaps && found.value == s'.snaps[key]
  {
    if key !in s.snaps {
      var m := LiveRoom(s, key, now, fault, s', found);
      CreatedKeeps(s, m, key, now, fault, s', found);
    }
  }

  lemma SurviveTwice(pins: map<Dir, nat>, a: map<Dir, OnDisk>, b: map<Dir, OnDisk>, c: map<Dir, OnDisk>)
    requires PinnedSurvive(pins, a, b) && PinnedSurvive(pins, b, c)
    ensures PinnedSurvive(pins, a, c)
  {
  }

  lemma CreatedInv(m: State, key: Key, now: int, fault: Fault, s': State, found: Option<Entry>)
    requires Inv(m) && |m.snaps| < MaxEntries && Created(m, key, now, fault, s', found)
    ensures Inv(s') && PinnedSurvive(m.pins, m.dirs, s'.dirs)
  {
    match fault
    case MkdirFails =>
    case OpenFails =>
      MadeDirKeeps(m, Dir(key), now);
    case NoFault =>
      MadeDirKeeps(m, Dir(key), now);
      EnteredKeeps(MadeDir(m, Dir(key), now), key);
  }

  lemma CreatedKeeps(s: State, m: State, key: Key, now: int, fault: Fault, s': State, found: Option<Entry>)
    requires Inv(s) && Room(s, Dir(key), m) && Created(m, key, now, fault, s', found)
    ensures Inv(s') && PinnedSurvive(s.pins, s.dirs, s'.dirs) && s'.pins == s.pins
    ensures found.Some? ==> key in s'.snaps && found.value == s'.snaps[key]
  {
    RoomKeeps(s, Dir(key), m);
    CreatedInv(m, key, now, fault, s', found);
    SurviveTwice(s.pins, s.dirs, m.dirs, s'.dirs);
  }

  lemma PinKeeps(s: State, e: Entry)
    requires Inv(s) && e.key in s.snaps && s.snaps[e.key] == e
    ensures Inv(Pinned(s, e.dir).(held := s.held + multiset{e.dir}))
  {
    PinCounted(s, e.dir, s.refreshes, s.held + multiset{e.dir});
  }

  lemma StartKeeps(s: State, e: Entry)
    requires Inv(s) && e.key in s.snaps && s.snaps[e.key] == e && e.dir !in s.refreshes
    ensures Inv(Started(s, e))
  {
    var t := Started(s, e);
    assert JobsRegistered(t.refreshes, t.jobs, t.serial);
    PinCounted(s, e.dir, t.refreshes, s.held);
  }

  lemma ReleaseKeeps(s: State, d: Dir)
    requires Inv(s) && d in s.held
    ensures Inv(Unpinned(s, d).(held := s.held - multiset{d}))
  {
    UnpinCounted(s, d, s.refreshes, s.held - multiset{d});
  }

  lemma MarkedKeeps(snaps: map<Key, Entry>, dirs: map<Dir, OnDisk>, j: Job, failed: bool, now: int)
    requires EntriesExist(snaps, dirs)
    ensures EntriesExist(Marked(snaps, j, failed, now), dirs) && |Marked(snaps, j, failed, now)| == |snaps|
  {
    assert Marked(snaps, j, failed, now).Keys == snaps.Keys;
    assert |Marked(snaps, j, failed, now).Keys| == |snaps.Keys|;
  }

  lemma EndKeeps(s: State, id: nat, failed: bool, now: int)
    requires Inv(s) && id in s.jobs
    ensures Inv(Ended(s, id, failed, now))
  {
    var t := Ended(s, id, failed, now);
    MarkedKeeps(s.snaps, s.dirs, s.jobs[id], failed, now);
    JobGone(s.refreshes, s.jobs, s.serial, id);
    UnpinCounted(s, s.jobs[id].dir, s.refreshes - {s.jobs[id].dir}, s.held);
  }

  lemma JobGone(refreshes: map<Dir, nat>, jobs: map<nat, Job>, serial: nat, id: nat)
    requires JobsRegistered(refreshes, jobs, serial) && id in jobs
    ensures JobsRegistered(refreshes - {jobs[id].dir}, jobs - {id}, serial)
  {
  }

  /** One pin more for one holder more. */
  lemma PinCounted(s: State, d: Dir, refreshes: map<Dir, nat>, held: multiset<Dir>)
    requires PinsCounted(s.pins, s.refreshes, s.held) && PinsExist(s.pins, s.dirs) && d in s.dirs
    requires forall e :: e != d ==> (e in refreshes <==> e in s.refreshes) && held[e] == s.held[e]
    requires Holders(refreshes, held, d) == Holders(s.refreshes, s.held, d) + 1
    ensures PinsCounted(Pinned(s, d).pins, refreshes, held) && PinsExist(Pinned(s, d).pins, s.dirs)
  {
    forall e
      ensures Pins(Pinned(s, d).pins, e) == Holders(refreshes, held, e)
    {
      assert Pins(s.pins, e) == Holders(s.refreshes, s.held, e);
    }
  }

  /** One pin less for one holder less. */
  lemma UnpinCounted(s: State, d: Dir, refreshes: map<Dir, nat>, held: multiset<Dir>)
    requires PinsCounted(s.pins, s.refreshes, s.held) && PinsExist(s.pins, s.dirs)
    requires forall e :: e != d ==> (e in refreshes <==> e in s.refreshes) && held[e] == s.held[e]
    requires Holders(refreshes, held, d) + 1 == Holders(s.refreshes, s.held, d)
    ensures PinsCounted(Unpinned(s, d).pins, refreshes, held) && PinsExist(Unpinned(s, d).pins, s.dirs)
  {
    forall e
      ensures Pins(Unpinned(s, d).pins, e) == Holders(refreshes, held, e)
    {
      assert Pins(s.pins, e) == Holders(s.refreshes, s.held, e);
    }
  }

  ghost function Holders(refreshes: map<Dir, nat>, held: multiset<Dir>, d: Dir): nat {
    held[d] + if d in refreshes then 1 else 0
  }

  lemma TouchKeeps(s: State, d: Dir, now: int)
    requires Inv(s) && d in s.dirs
    ensures Inv(s.(dirs := s.dirs[d := s.dirs[d].(mtime := now)]))
    ensures PinnedSurvive(s.pins, s.dirs, s.dirs[d := s.dirs[d].(mtime := now)])
  {
  }

  lemma AwaitKeeps(s: State, key: Key, now: int, fault: Fault, m: State, found: Option<Entry>)
    requires Inv(s) && Live(s, key, now, fault, m, found)
    ensures Inv(AfterAwait(m, found, now)) && PinnedSurvive(s.pins, s.dirs, AfterAwait(m, found, now).dirs)
    ensures Step(s, Await(key, now, fault), AfterAwait(m, found, now))
  {
    LiveKeeps(s, key, now, fault, m, found);
    AwaitIsStep(s, key, now, fault, m, found);
    if found.Some? && NeedsRefresh(m, found.value, now) {
      StartKeeps(m, found.value);
    }
  }

  lemma AwaitIsStep(s: State, key: Key, now: int, fault: Fault, m: State, found: Option<Entry>)
    requires Live(s, key, now, fault, m, found)
    ensures Step(s, Await(key, now, fault), AfterAwait(m, found, now))
  {
  }

  lemma AcquireKeeps(s: State, key: Key, now: int, fault: Fault, rootOpens: bool, m: State, found: Option<Entry>)
    requires Inv(s) && Live(s, key, now, fault, m, found)
    ensures Inv(AfterAcquire(m, found, rootOpens))
    ensures PinnedSurvive(s.pins, s.dirs, AfterAcquire(m, found, rootOpens).dirs)
    ensures Step(s, Acquire(key, now, fault, rootOpens), AfterAcquire(m, found, rootOpens))
    ensures found.Some? ==> found.value.dir == Dir(key) && Dir(key) in m.dirs
  {
    LiveKeeps(s, key, now, fault, m, found);
    AcquireIsStep(s, key, now, fault, rootOpens, m, found);
    if found.Some? && rootOpens {
      PinKeeps(m, found.value);
    }
  }

  lemma AcquireIsStep(s: State, key: Key, now: int, fault: Fault, rootOpens: bool, m: State, found: Option<Entry>)
    requires Live(s, key, now, fault, m, found)
    ensures Step(s, Acquire(key, now, fault, rootOpens), AfterAcquire(m, found, rootOpens))
  {
  }

  lemma AwaitStep(s: State, key: Key, now: int, fault: Fault, s': State)
    requires Inv(s) && Step(s, Await(key, now, fault), s')
    ensures Inv(s') && PinnedSurvive(s.pins, s.dirs, s'.dirs)
  {
    var m, found :| Live(s, key, now, fault, m, found) && s' == AfterAwait(m, found, now);
    AwaitKeeps(s, key, now, fault, m, found);
  }

  lemma AcquireStep(s: State, key: Key, now: int, fault: Fault, rootOpens: bool, s': State)
    requires Inv(s) && Step(s, Acquire(key, now, fault, rootOpens), s')
    ensures Inv(s') && PinnedSurvive(s.pins, s.dirs, s'.dirs)
  {
    var m, found :| Live(s, key, now, fault, m, found) && s' == AfterAcquire(m, found, rootOpens);
    AcquireKeeps(s, key, now, fault, rootOpens, m, found);
  }

  lemma OpenStep(s: State, key: Key, now: int, fault: Fault, s': State)
    requires Inv(s) && Step(s, Open(key, now, fault), s')
    ensures Inv(s') && PinnedSurvive(s.pins, s.dirs, s'.dirs)
  {
    var found :| Live(s, key, now, fault, s', found);
    LiveKeeps(s, key, now, fault, s', found);
  }

  lemma ReleaseStep(s: State, dir: Dir, s': State)
    requires Inv(s) && Step(s, Release(dir), s')
    ensures Inv(s') && PinnedSurvive(s.pins, s.dirs, s'.dirs)
  {
    ReleaseKeeps(s, dir);
  }

  lemma EndStep(s: State, job: nat, failed: bool, now: int, s': State)
    requires Inv(s) && Step(s, End(job, failed, now), s')
    ensures Inv(s') && PinnedSurvive(s.pins, s.dirs, s'.dirs)
  {
    EndKeeps(s, job, failed, now);
  }

  /** One step keeps the invariant and never removes a directory that was pinned. */
  lemma StepKeeps(s: State, a: Action, s': State)
    requires Inv(s) && Step(s, a, s')
    ensures Inv(s') && PinnedSurvive(s.pins, s.dirs, s'.dirs)
  {
    match a
    case Await(key, now, fault) => AwaitStep(s, key, now, fault, s');
    case Acquire(key, now, fault, rootOpens) => AcquireStep(s, key, now, fault, rootOpens, s');
    case Open(key, now, fault) => OpenStep(s, key, now, fault, s');
    case Release(dir) => ReleaseStep(s, dir, s');
    case Touch(job, now) => TouchKeeps(s, s.jobs[job].dir, now);
    case End(job, failed, now) => EndStep(s, job, failed, now, s');
    case DropAll =>
  }

  // ---- whole runs ----

  const Start: State := State(map[], map[], map[], map[], 0, map[], multiset{})

  /** A server may start over directories an earlier process left behind. */
  ghost predicate IsRun(states: seq<State>, actions: seq<Action>) {
    && |states| == |actions| + 1
    && states[0] == Start.(dirs := states[0].dirs, serial := states[0].serial)
    && forall i :: 0 <= i < |actions| ==> Step(states[i], actions[i], states[i + 1])
  }

  lemma {:induction false} RunKeeps(states: seq<State>, actions: seq<Action>, i: nat)
    requires IsRun(states, actions) && i < |states|
    ensures Inv(states[i])
  {
    if i == 0 {
      StartHolds(states[0]);
    } else {
      var k := i - 1;
      RunKeeps(states, actions, k);
      StepKeeps(states[k], actions[k], states[k + 1]);
    }
  }

  lemma StartHolds(s: State)
    requires s == Start.(dirs := s.dirs, serial := s.serial)
    ensures Inv(s)
  {
  }

  /** One when a refresh runs in directory d, and none otherwise. */
  ghost function InFlight(s: State, d: Dir): nat {
    if exists j :: j in s.jobs && s.jobs[j].dir == d then 1 else 0
  }

  /**
    Pin safety over every interleaving: pins count the unreleased acquires and the refresh in
    flight, no directory has two refreshes, live entries have their directory and are at most 32.
   */
  lemma PinSafety(states: seq<State>, actions: seq<Action>, i: nat)
    requires IsRun(states, actions) && i < |states|
    ensures forall d :: Pins(states[i].pins, d) == states[i].held[d] + InFlight(states[i], d)
    ensures var jobs := states[i].jobs;
      forall j, k :: j in jobs && k in jobs && jobs[j].dir == jobs[k].dir ==> j == k
    ensures forall k :: k in states[i].snaps ==> states[i].snaps[k].dir in states[i].dirs
    ensures |states[i].snaps| <= 32
  {
    RunKeeps(states, actions, i);
  }

  /** A directory pinned at every moment from i to j is one and the same directory throughout. */
  lemma {:induction false} PinnedNeverRemoved(states: seq<State>, actions: seq<Action>, d: Dir, i: nat, j: nat)
    requires IsRun(states, actions) && i <= j < |states|
    requires forall k :: i <= k < j ==> Pins(states[k].pins, d) > 0
    requires d in states[i].dirs
    ensures d in states[j].dirs && states[j].dirs[d].born == states[i].dirs[d].born
    decreases j
  {
    if i < j {
      PinnedNeverRemoved(states, actions, d, i, j - 1);
      RunKeeps(states, actions, j - 1);
      StepKeeps(states[j - 1], actions[j - 1], states[j]);
    }
  }

  /**
    The number of directories grows only up to the cap, or while all others are pinned: it
    exceeds the cap by no more than the requests and refreshes then at work.
   */
  ghost predicate GrowsUnderCap(pins: map<Dir, nat>, dirs: map<Dir, OnDisk>, dirs': map<Dir, OnDisk>) {
    |dirs'| <= |dirs| || |dirs'| <= MaxLineages || |dirs'| <= |pins| + 1
  }

  lemma RoomSize(s: State, d: Dir, m: State, now: int)
    requires Room(s, d, m)
    ensures GrowsUnderCap(s.pins, s.dirs, m.dirs) && GrowsUnderCap(s.pins, s.dirs, MadeDir(m, d, now).dirs)
  {
    SubmapSize(m.dirs, s.dirs);
    if d !in m.dirs {
      assert MadeDir(m, d, now).dirs.Keys == m.dirs.Keys + {d};
      assert |MadeDir(m, d, now).dirs.Keys| == |m.dirs.Keys| + 1;
      if d in s.dirs {
        assert m.dirs.Keys <= s.dirs.Keys - {d};
        SubsetSize(m.dirs.Keys, s.dirs.Keys - {d});
      } else if |m.dirs| >= MaxLineages {
        SubsetSize(m.dirs.Keys, s.pins.Keys);
      }
    }
  }

  lemma LiveSize(s: State, key: Key, now: int, fault: Fault, s': State, found: Option<Entry>)
    requires PositivePins(s) && Live(s, key, now, fault, s', found)
    ensures GrowsUnderCap(s.pins, s.dirs, s'.dirs)
  {
    if key !in s.snaps {
      var m := LiveRoom(s, key, now, fault, s', found);
      RoomSize(s, Dir(key), m, now);
    }
  }

  lemma AwaitSize(s: State, key: Key, now: int, fault: Fault, s': State)
    requires PositivePins(s) && Step(s, Await(key, now, fault), s')
    ensures GrowsUnderCap(s.pins, s.dirs, s'.dirs)
  {
    var m, found :| Live(s, key, now, fault, m, found) && s' == AfterAwait(m, found, now);
    LiveSize(s, key, now, fault, m, found);
  }

  lemma AcquireSize(s: State, key: Key, now: int, fault: Fault, rootOpens: bool, s': State)
    requires PositivePins(s) && Step(s, Acquire(key, now, fault, rootOpens), s')
    ensures GrowsUnderCap(s.pins, s.dirs, s'.dirs)
  {
    var m, found :| Live(s, key, now, fault, m, found) && s' == AfterAcquire(m, found, rootOpens);
    LiveSize(s, key, now, fault, m, found);
  }

  lemma OpenSize(s: State, key: Key, now: int, fault: Fault, s': State)
    requires PositivePins(s) && Step(s, Open(key, now, fault), s')
    ensures GrowsUnderCap(s.pins, s.dirs, s'.dirs)
  {
    var found :| Live(s, key, now, fault, s', found);
    LiveSize(s, key, now, fault, s', found);
  }

  lemma OtherSize(s: State, a: Action, s': State)
    requires Step(s, a, s') && !a.Await? && !a.Acquire? && !a.Open?
    ensures GrowsUnderCap(s.pins, s.dirs, s'.dirs)
  {
    OtherDirs(s, a, s');
    SameDirsSize(s.dirs, s'.dirs);
  }

  lemma OtherDirs(s: State, a: Action, s': State)
    requires Step(s, a, s') && !a.Await? && !a.Acquire? && !a.Open?
    ensures s'.dirs.Keys == s.dirs.Keys
  {
  }

  lemma SameDirsSize(dirs: map<Dir, OnDisk>, dirs': map<Dir, OnDisk>)
    requires dirs.Keys == dirs'.Keys
    ensures |dirs| == |dirs'|
  {
    assert |dirs| == |dirs.Keys| && |dirs'| == |dirs'.Keys|;
  }

  lemma NewDirectoryBound(s: State, a: Action, s': State)
    requires PositivePins(s) && Step(s, a, s')
    ensures GrowsUnderCap(s.pins, s.dirs, s'.dirs)
  {
    match a
    case Await(key, now, fault) => AwaitSize(s, key, now, fault, s');
    case Acquire(key, now, fault, rootOpens) => AcquireSize(s, key, now, fault, rootOpens, s');
    case Open(key, now, fault) => OpenSize(s, key, now, fault, s');
    case _ => OtherSize(s, a, s');
  }

  /** In any run the directories outgrow the cap only while the others are pinned. */
  lemma RunDirectoryBound(states: seq<State>, actions: seq<Action>, i: nat)
    requires IsRun(states, actions) && i < |actions|
    ensures var before, after := states[i], states[i + 1];
      |after.dirs| <= |before.dirs| || |after.dirs| <= 64 || |after.dirs| <= |before.pins| + 1
  {
    RunKeeps(states, actions, i);
    NewDirectoryBound(states[i], actions[i], states[i + 1]);
  }
}
