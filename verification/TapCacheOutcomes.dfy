/**
  What the critical sections do to entries, refreshes and directories, in the fields' own terms:
  which entry a refresh's outcome lands on and how long it is remembered, when a refresh starts,
  and which entries and directories make room.
 */
module TapCacheOutcomes {
  import opened Wrappers
  import opened TapCache

  // ---- refreshes ----

  /** The entry of an ended refresh is the one it was started for, and keeps when and how it ended. */
  lemma EndSays(s: State, id: nat, failed: bool, now: int, s': State)
    requires Inv(s) && Step(s, End(id, failed, now), s')
    ensures id in s.jobs && s'.jobs == s.jobs - {id} && s'.refreshes == s.refreshes - {s.jobs[id].dir}
    ensures s'.dirs == s.dirs && s'.held == s.held && s'.snaps.Keys == s.snaps.Keys
    ensures forall k :: k in s.snaps ==>
              s'.snaps[k] == if k == s.jobs[id].key && s.snaps[k].serial == s.jobs[id].entry
                             then Entry(s.snaps[k].serial, k, s.snaps[k].dir, Some(now), failed)
                             else s.snaps[k]
  {
    assert EntriesExist(s.snaps, s.dirs);
  }

  /** The last refresh of the entry ended 30 seconds ago or more, or never did, and none runs in its directory. */
  predicate IsDue(s: State, e: Entry, now: int) {
    e.dir !in s.refreshes && (e.builtAt.Some? ==> e.builtAt.value + 30 <= now)
  }

  /** Making room takes entries and directories away and changes nothing else. */
  ghost predicate Shrunk(s: State, r: State) {
    r == s.(snaps := r.snaps, dirs := r.dirs) && Within(r.snaps, s.snaps) && Within(r.dirs, s.dirs)
  }

  lemma RoomShrinks(s: State, d: Dir, r: State)
    requires MadeRoom(s, d, r)
    ensures Shrunk(s, r)
  {
    var capped :| Capped(s.snaps, capped)
      && r == s.(snaps := r.snaps, dirs := r.dirs)
      && (if d in s.dirs then r.snaps == capped && r.dirs == s.dirs
          else Evicted(s.pins, s.dirs, r.dirs) && Closed(capped, s.dirs, r.snaps, r.dirs));
    WithinTwice(r.snaps, capped, s.snaps);
  }

  lemma WithinTwice<K, V>(a: map<K, V>, b: map<K, V>, c: map<K, V>)
    ensures Within(a, b) && Within(b, c) ==> Within(a, c)
    ensures Within(a, a)
  {
  }

  /** A request that finds no entry makes room, then the entry unless the file system fails. */
  lemma RoomOf(s: State, key: Key, now: int, fault: Fault, m: State, found: Option<Entry>) returns (r: State)
    requires key !in s.snaps && Live(s, key, now, fault, m, found)
    ensures Shrunk(s, r) && Created(r, key, now, fault, m, found)
  {
    r :| MadeRoom(s, Dir(key), r) && Created(r, key, now, fault, m, found);
    RoomShrinks(s, Dir(key), r);
  }

  /** Each entry after a request for `asked` was there before, or is the new one. */
  ghost predicate KeptOrNew(s: State, asked: Key, m: State, key: Key) {
    && s.serial <= m.serial
    && (key in m.snaps ==>
          (key in s.snaps && m.snaps[key] == s.snaps[key])
          || (key == asked && key !in s.snaps && s.serial <= m.snaps[key].serial < m.serial
              && m.snaps[key] == Entry(m.snaps[key].serial, key, Dir(key), None, false)))
  }

  /** Each directory after a request for `asked` was there before, or is the new one. */
  ghost predicate DirKeptOrNew(s: State, asked: Key, m: State, d: Dir) {
    && s.serial <= m.serial
    && (d in m.dirs ==>
          (d in s.dirs && m.dirs[d] == s.dirs[d])
          || (d == Dir(asked) && s.serial <= m.dirs[d].born < m.serial))
  }

  lemma CreatedSays(r: State, key: Key, now: int, fault: Fault, m: State, found: Option<Entry>, k: Key, d: Dir)
    requires Created(r, key, now, fault, m, found) && key !in r.snaps
    ensures KeptOrNew(r, key, m, k) && DirKeptOrNew(r, key, m, d)
    ensures m.refreshes == r.refreshes && m.jobs == r.jobs && m.pins == r.pins && m.held == r.held
    ensures found == if key in m.snaps then Some(m.snaps[key]) else None
    ensures key in m.snaps <==> fault == NoFault
    ensures fault != MkdirFails ==> Dir(key) in m.dirs && (Dir(key) !in r.dirs ==> m.dirs[Dir(key)].mtime == now)
    ensures fault == MkdirFails && Dir(key) in m.dirs ==> Dir(key) in r.dirs
  {
  }

  lemma LiveSays(s: State, key: Key, now: int, fault: Fault, m: State, found: Option<Entry>, k: Key, d: Dir)
    requires Live(s, key, now, fault, m, found)
    ensures KeptOrNew(s, key, m, k) && DirKeptOrNew(s, key, m, d)
    ensures m.refreshes == s.refreshes && m.jobs == s.jobs && m.pins == s.pins && m.held == s.held
    ensures found == if key in m.snaps then Some(m.snaps[key]) else None
  {
    if key !in s.snaps {
      var r := RoomOf(s, key, now, fault, m, found);
      CreatedSays(r, key, now, fault, m, found, k, d);
    }
  }

  /**
    A request that finds no entry makes one, over its directory, unless the file system fails: then
    there is none, and the directory is there exactly when it was made or had been there.
   */
  lemma LiveMakes(s: State, key: Key, now: int, fault: Fault, m: State, found: Option<Entry>)
    requires Live(s, key, now, fault, m, found)
    ensures key in m.snaps <==> key in s.snaps || fault == NoFault
    ensures key !in s.snaps && fault != MkdirFails ==> Dir(key) in m.dirs
    ensures key !in s.snaps && fault == MkdirFails && Dir(key) in m.dirs ==> Dir(key) in s.dirs
    ensures Dir(key) in m.dirs && Dir(key) !in s.dirs ==> m.dirs[Dir(key)].mtime == now
  {
    if key !in s.snaps {
      var r := RoomOf(s, key, now, fault, m, found);
      CreatedSays(r, key, now, fault, m, found, key, Dir(key));
    }
  }

  /** A fetch whose entry is there or can be made, and whose directory opens, pins it once more. */
  lemma AcquireSays(s: State, key: Key, now: int, fault: Fault, rootOpens: bool, s': State)
    requires Step(s, Acquire(key, now, fault, rootOpens), s')
    ensures key in s'.snaps <==> key in s.snaps || fault == NoFault
    ensures key in s'.snaps && rootOpens ==> s'.held == s.held + multiset{s'.snaps[key].dir}
    ensures !(key in s'.snaps && rootOpens) ==> s'.held == s.held
  {
    var m, found :| Live(s, key, now, fault, m, found) && s' == AfterAcquire(m, found, rootOpens);
    LiveSays(s, key, now, fault, m, found, key, Dir(key));
    LiveMakes(s, key, now, fault, m, found);
    AfterAcquireSays(m, key, found, rootOpens);
  }

  lemma AfterAcquireSays(m: State, key: Key, found: Option<Entry>, rootOpens: bool)
    requires found == if key in m.snaps then Some(m.snaps[key]) else None
    ensures AfterAcquire(m, found, rootOpens).snaps == m.snaps
    ensures AfterAcquire(m, found, rootOpens).held ==
            if key in m.snaps && rootOpens then m.held + multiset{m.snaps[key].dir} else m.held
  {
  }

  /** The refresh of entry e is started: a job with a new number, registered for the directory. */
  ghost predicate Starts(s: State, e: Entry, s': State) {
    exists id: nat :: id !in s.jobs && s'.jobs == s.jobs[id := Job(e.dir, e.key, e.serial)]
        && s'.refreshes == s.refreshes[e.dir := id]
  }

  lemma StartedStarts(m: State, e: Entry)
    requires m.serial !in m.jobs
    ensures Starts(m, e, Started(m, e))
  {
    var id := m.serial;
    assert Started(m, e).jobs == m.jobs[id := Job(e.dir, e.key, e.serial)];
  }

  /** A request for an entry that is there or could be made starts a refresh exactly when one is due. */
  lemma AwaitSays(s: State, key: Key, now: int, fault: Fault, s': State)
    requires Inv(s) && Step(s, Await(key, now, fault), s')
    ensures key in s'.snaps && IsDue(s, s'.snaps[key], now) ==> Starts(s, s'.snaps[key], s')
    ensures !(key in s'.snaps && IsDue(s, s'.snaps[key], now)) ==> s'.jobs == s.jobs && s'.refreshes == s.refreshes
  {
    var m, found :| Live(s, key, now, fault, m, found) && s' == AfterAwait(m, found, now);
    LiveSays(s, key, now, fault, m, found, key, Dir(key));
    assert m.serial !in m.jobs;
    AfterAwaitSays(s, m, key, now, found);
  }

  lemma AfterAwaitSays(s: State, m: State, key: Key, now: int, found: Option<Entry>)
    requires m.refreshes == s.refreshes && m.jobs == s.jobs && m.serial !in m.jobs
    requires found == if key in m.snaps then Some(m.snaps[key]) else None
    ensures var s' := AfterAwait(m, found, now);
      && s'.snaps == m.snaps
      && (key in m.snaps && IsDue(s, m.snaps[key], now) ==> Starts(s, m.snaps[key], s'))
      && (!(key in m.snaps && IsDue(s, m.snaps[key], now)) ==> s'.jobs == s.jobs && s'.refreshes == s.refreshes)
  {
    if found.Some? {
      StartedStarts(m, found.value);
    }
  }

  // ---- room for a new entry ----

  predicate Asks(a: Action, key: Key) {
    match a
    case Await(k, _, _) => k == key
    case Acquire(k, _, _, _) => k == key
    case Open(k, _, _) => k == key
    case _ => false
  }

  /** a was built no later than b; an entry never built comes first. */
  predicate NoLater(a: Entry, b: Entry) {
    a.builtAt.None? || (b.builtAt.Some? && a.builtAt.value <= b.builtAt.value)
  }

  lemma Asked(s: State, a: Action, s': State, key: Key) returns (now: int, fault: Fault, m: State, found: Option<Entry>)
    requires Step(s, a, s') && Asks(a, key)
    ensures Live(s, key, now, fault, m, found)
    ensures s'.snaps == m.snaps && s'.dirs == m.dirs && m.serial <= s'.serial
  {
    match a
    case Await(k, n, f) =>
      now, fault := n, f;
      m, found :| Live(s, key, now, fault, m, found) && s' == AfterAwait(m, found, now);
    case Acquire(k, n, f, opens) =>
      now, fault := n, f;
      m, found :| Live(s, key, now, fault, m, found) && s' == AfterAcquire(m, found, opens);
    case Open(k, n, f) =>
      now, fault := n, f;
      found :| Live(s, key, now, fault, s', found);
      m := s';
    case _ =>
  }

  /** What is in the way of a new entry for key, between the old state and the new. */
  lemma RoomFor(s: State, key: Key, now: int, fault: Fault, m: State, found: Option<Entry>) returns (r: State)
    requires key !in s.snaps && Live(s, key, now, fault, m, found)
    ensures MadeRoom(s, Dir(key), r)
    ensures forall k :: k != key ==> (k in m.snaps <==> k in r.snaps)
    ensures forall d :: d != Dir(key) ==> (d in m.dirs <==> d in r.dirs)
    ensures Dir(key) in r.dirs ==> Dir(key) in m.dirs
    ensures |r.dirs| <= |m.dirs|
  {
    r :| MadeRoom(s, Dir(key), r) && Created(r, key, now, fault, m, found);
    AroundNew(r, key, now, fault, m, found);
    NewIsMore(r, key, now, fault, m, found);
  }

  lemma AroundNew(r: State, key: Key, now: int, fault: Fault, m: State, found: Option<Entry>)
    requires Created(r, key, now, fault, m, found)
    ensures forall k :: k != key ==> (k in m.snaps <==> k in r.snaps)
    ensures forall d :: d != Dir(key) ==> (d in m.dirs <==> d in r.dirs)
  {
  }

  lemma NewIsMore(r: State, key: Key, now: int, fault: Fault, m: State, found: Option<Entry>)
    requires Created(r, key, now, fault, m, found)
    ensures Dir(key) in r.dirs ==> Dir(key) in m.dirs
    ensures |r.dirs| <= |m.dirs|
  {
    assert Within(r.dirs, m.dirs);
    SubmapSize(r.dirs, m.dirs);
  }

  /**
    An entry closed by a request is over a directory that was evicted, or the map had 32 entries
    and no entry that stays was built before it.
   */
  lemma ClosedSays(s: State, a: Action, s': State, key: Key, k: Key)
    requires Inv(s) && Step(s, a, s') && Asks(a, key) && k in s.snaps && k !in s'.snaps
    ensures key !in s.snaps
    ensures s.snaps[k].dir !in s'.dirs ||
            (|s.snaps| >= 32 && forall l :: l in s.snaps && l in s'.snaps ==> NoLater(s.snaps[k], s.snaps[l]))
  {
    var now, fault, m, found := Asked(s, a, s', key);
    if key !in s.snaps {
      var r := RoomFor(s, key, now, fault, m, found);
      assert EntriesExist(s.snaps, s.dirs) && s.snaps[k].dir == Dir(k) && k != key;
      ClosedForRoom(s, Dir(key), r, k);
    }
  }

  lemma ClosedForRoom(s: State, d: Dir, r: State, k: Key)
    requires Inv(s) && MadeRoom(s, d, r) && k in s.snaps && k !in r.snaps
    ensures s.snaps[k].dir !in r.dirs ||
            (|s.snaps| >= 32 && forall l :: l in s.snaps && l in r.snaps ==> NoLater(s.snaps[k], s.snaps[l]))
  {
    var capped :| Capped(s.snaps, capped)
      && (if d in s.dirs then r.snaps == capped && r.dirs == s.dirs
          else Evicted(s.pins, s.dirs, r.dirs) && Closed(capped, s.dirs, r.snaps, r.dirs));
    if k !in capped {
      CapSays(s.snaps, capped, k);
    }
  }

  /** Closing for the cap: only a map of 32 entries loses any, and none that stays was built before one that goes. */
  lemma CapSays(snaps: map<Key, Entry>, snaps': map<Key, Entry>, k: Key)
    requires Capped(snaps, snaps') && k in snaps && k !in snaps' && |snaps| <= 32
    ensures |snaps| == 32 && |snaps'| == 31
    ensures forall l :: l in snaps' ==> l in snaps && snaps'[l] == snaps[l] && NoLater(snaps[k], snaps[l])
  {
    assert snaps'.Keys <= snaps.Keys - {k};
    SubsetSize(snaps'.Keys, snaps.Keys - {k});
  }

  /**
    A directory that goes was pinned by nobody, at least 64 were there, at least 63 are left, and
    no unpinned one that stays is older.
   */
  lemma EvictedSays(s: State, a: Action, s': State, key: Key, d: Dir)
    requires Inv(s) && Step(s, a, s') && Asks(a, key) && d in s.dirs && d !in s'.dirs
    ensures key !in s.snaps && Dir(key) !in s.dirs && d !in s.pins
    ensures |s.dirs| >= 64 && |s'.dirs| >= 63
    ensures forall e :: e in s.dirs && e in s'.dirs && e !in s.pins ==> s.dirs[d].mtime <= s.dirs[e].mtime
  {
    var now, fault, m, found := Asked(s, a, s', key);
    if key !in s.snaps {
      var r := RoomFor(s, key, now, fault, m, found);
      EvictedForRoom(s, Dir(key), r, d);
    }
  }

  lemma EvictedForRoom(s: State, made: Dir, r: State, d: Dir)
    requires Inv(s) && MadeRoom(s, made, r) && d in s.dirs && d !in r.dirs
    ensures made !in s.dirs && d !in s.pins && |s.dirs| >= 64 && |r.dirs| >= 63
    ensures forall e :: e in s.dirs && e in r.dirs && e !in s.pins ==> s.dirs[d].mtime <= s.dirs[e].mtime
  {
    var capped :| Capped(s.snaps, capped)
      && (if made in s.dirs then r.snaps == capped && r.dirs == s.dirs
          else Evicted(s.pins, s.dirs, r.dirs) && Closed(capped, s.dirs, r.snaps, r.dirs));
    assert made !in s.dirs;
    EvictionSays(s.pins, s.dirs, r.dirs, d);
  }

  lemma EvictionSays(pins: map<Dir, nat>, dirs: map<Dir, OnDisk>, dirs': map<Dir, OnDisk>, d: Dir)
    requires Evicted(pins, dirs, dirs') && d in dirs && d !in dirs' && forall e :: e in pins ==> pins[e] > 0
    ensures d !in pins && |dirs| >= 64 && |dirs'| >= 63
    ensures forall e :: e in dirs && e in dirs' && e !in pins ==> dirs[d].mtime <= dirs[e].mtime
  {
    assert dirs'.Keys <= dirs.Keys - {d};
    SubsetSize(dirs'.Keys, dirs.Keys - {d});
  }

  /** Only a request removes directories. */
  lemma OnlyAsking(s: State, a: Action, s': State, d: Dir)
    requires Step(s, a, s') && d in s.dirs && d !in s'.dirs
    ensures exists key :: Asks(a, key)
  {
    match a
    case Await(k, _, _) => assert Asks(a, k);
    case Acquire(k, _, _, _) => assert Asks(a, k);
    case Open(k, _, _) => assert Asks(a, k);
    case _ =>
  }

  // ---- serial numbers tell entries and directories apart ----

  /** Every number in use is below the next one. */
  ghost predicate Numbered(s: State) {
    && (forall k :: k in s.snaps ==> s.snaps[k].serial < s.serial)
    && forall d :: d in s.dirs ==> s.dirs[d].born < s.serial
  }

  /** The live entry for key is the one with this serial. */
  predicate IsLive(s: State, key: Key, serial: nat) {
    key in s.snaps && s.snaps[key].serial == serial
  }

  /** The action ends a refresh that was started for this entry. */
  predicate EndsFor(s: State, a: Action, key: Key, serial: nat) {
    a.End? && a.job in s.jobs && s.jobs[a.job].key == key && s.jobs[a.job].entry == serial
  }

  /**
    What a step may do to the entry for key: keep it, mark it with how a refresh of it ended,
    take it away, or make a new one with a new number and nothing to remember.
   */
  ghost predicate EntryMoves(s: State, a: Action, s': State, key: Key) {
    && s.serial <= s'.serial
    && (key in s'.snaps ==> s'.snaps[key].serial < s'.serial)
    && (key in s'.snaps && !(key in s.snaps && s.snaps[key].serial == s'.snaps[key].serial) ==>
          s.serial <= s'.snaps[key].serial && s'.snaps[key].builtAt == None && !s'.snaps[key].failed)
    && (key in s.snaps && key in s'.snaps && s.snaps[key].serial == s'.snaps[key].serial ==>
          if EndsFor(s, a, key, s.snaps[key].serial)
          then s'.snaps[key].builtAt == Some(a.now) && s'.snaps[key].failed == a.failed
          else s'.snaps[key] == s.snaps[key])
  }

  /** What a step may do to a directory: keep it, take it away, or make it under a new number. */
  ghost predicate DirMoves(s: State, s': State, d: Dir) {
    && s.serial <= s'.serial
    && (d in s'.dirs ==> s'.dirs[d].born < s'.serial)
    && (d in s'.dirs ==> (d in s.dirs && s'.dirs[d].born == s.dirs[d].born) || s.serial <= s'.dirs[d].born)
  }

  lemma AskMoves(s: State, a: Action, s': State, asked: Key, key: Key, d: Dir)
    requires Numbered(s) && Step(s, a, s') && Asks(a, asked)
    ensures EntryMoves(s, a, s', key) && DirMoves(s, s', d)
  {
    var now, fault, m, found := Asked(s, a, s', asked);
    LiveSays(s, asked, now, fault, m, found, key, d);
    KeptMoves(s, a, m, s', asked, key, d);
  }

  lemma KeptMoves(s: State, a: Action, m: State, s': State, asked: Key, key: Key, d: Dir)
    requires Numbered(s) && KeptOrNew(s, asked, m, key) && DirKeptOrNew(s, asked, m, d) && Asks(a, asked)
    requires s'.snaps == m.snaps && s'.dirs == m.dirs && m.serial <= s'.serial
    ensures EntryMoves(s, a, s', key) && DirMoves(s, s', d)
  {
  }

  lemma EndMoves(s: State, a: Action, s': State, key: Key, d: Dir)
    requires Numbered(s) && Step(s, a, s') && a.End?
    ensures EntryMoves(s, a, s', key) && DirMoves(s, s', d)
  {
    MarkedMoves(s, a, s', key, d);
  }

  lemma MarkedMoves(s: State, a: Action, s': State, key: Key, d: Dir)
    requires Numbered(s) && a.End? && a.job in s.jobs
    requires s'.snaps == Marked(s.snaps, s.jobs[a.job], a.failed, a.now) && s'.dirs == s.dirs && s'.serial == s.serial
    ensures EntryMoves(s, a, s', key) && DirMoves(s, s', d)
  {
  }

  lemma QuietMoves(s: State, a: Action, s': State, key: Key, d: Dir)
    requires Numbered(s) && Step(s, a, s') && (a.Release? || a.Touch? || a.DropAll?)
    ensures EntryMoves(s, a, s', key) && DirMoves(s, s', d)
  {
  }

  lemma StepMoves(s: State, a: Action, s': State, key: Key, d: Dir)
    requires Numbered(s) && Step(s, a, s')
    ensures EntryMoves(s, a, s', key) && DirMoves(s, s', d)
  {
    match a
    case Await(k, _, _) => AskMoves(s, a, s', k, key, d);
    case Acquire(k, _, _, _) => AskMoves(s, a, s', k, key, d);
    case Open(k, _, _) => AskMoves(s, a, s', k, key, d);
    case End(_, _, _) => EndMoves(s, a, s', key, d);
    case _ => QuietMoves(s, a, s', key, d);
  }

  lemma StepNumbered(s: State, a: Action, s': State)
    requires Inv(s) && Numbered(s) && Step(s, a, s')
    ensures Numbered(s')
  {
    forall k | k in s'.snaps
      ensures s'.snaps[k].serial < s'.serial
    {
      StepMoves(s, a, s', k, Dir(k));
    }
    forall d | d in s'.dirs
      ensures s'.dirs[d].born < s'.serial
    {
      StepMoves(s, a, s', d.key, d);
    }
  }

  lemma {:induction false} RunNumbered(states: seq<State>, actions: seq<Action>, i: nat)
    requires IsRun(states, actions) && Numbered(states[0]) && i < |states|
    ensures Numbered(states[i])
  {
    if i > 0 {
      RunNumbered(states, actions, i - 1);
      RunKeeps(states, actions, i - 1);
      StepNumbered(states[i - 1], actions[i - 1], states[i]);
    }
  }

  ghost predicate MovesAt(states: seq<State>, actions: seq<Action>, i: int, key: Key, d: Dir) {
    && 0 <= i < |actions| < |states|
    && EntryMoves(states[i], actions[i], states[i + 1], key) && DirMoves(states[i], states[i + 1], d)
  }

  /** What a run does to one entry and one directory. */
  ghost predicate Moves(states: seq<State>, actions: seq<Action>, key: Key, d: Dir) {
    && |states| == |actions| + 1
    && forall i {:trigger MovesAt(states, actions, i, key, d)} :: 0 <= i < |actions| ==>
          MovesAt(states, actions, i, key, d)
  }

  lemma RunMoves(states: seq<State>, actions: seq<Action>, key: Key, d: Dir)
    requires IsRun(states, actions) && Numbered(states[0])
    ensures Moves(states, actions, key, d)
  {
    forall i | 0 <= i < |actions|
      ensures MovesAt(states, actions, i, key, d)
    {
      RunNumbered(states, actions, i);
      RunKeeps(states, actions, i);
      StepMoves(states[i], actions[i], states[i + 1], key, d);
    }
  }

  lemma {:induction false} SerialsGrow(states: seq<State>, actions: seq<Action>, key: Key, d: Dir, i: nat, j: nat)
    requires Moves(states, actions, key, d) && i <= j < |states|
    ensures states[i].serial <= states[j].serial
    decreases j
  {
    if i < j {
      SerialsGrow(states, actions, key, d, i, j - 1);
      assert MovesAt(states, actions, j - 1, key, d);
    }
  }

  /** A directory that was gone at some moment is another one when its name is back. */
  lemma {:induction false} RemadeAfter(states: seq<State>, actions: seq<Action>, key: Key, d: Dir, k: nat, j: nat)
    requires Moves(states, actions, key, d) && k <= j < |states|
    requires d !in states[k].dirs && d in states[j].dirs
    ensures states[j].dirs[d].born >= states[k].serial
    decreases j
  {
    assert MovesAt(states, actions, j - 1, key, d);
    SerialsGrow(states, actions, key, d, k, j - 1);
    if d in states[j - 1].dirs && states[j].dirs[d].born == states[j - 1].dirs[d].born {
      RemadeAfter(states, actions, key, d, k, j - 1);
    }
  }

  lemma RemadeIsAnother(states: seq<State>, actions: seq<Action>, d: Dir, i: nat, k: nat, j: nat)
    requires IsRun(states, actions) && Numbered(states[0]) && i < k < j < |states|
    requires d in states[i].dirs && d !in states[k].dirs && d in states[j].dirs
    ensures states[j].dirs[d].born != states[i].dirs[d].born
  {
    RunMoves(states, actions, d.key, d);
    RunNumbered(states, actions, i);
    SerialsGrow(states, actions, d.key, d, i, k);
    RemadeAfter(states, actions, d.key, d, k, j);
  }

  // ---- how long an outcome is remembered ----

  /** An entry that is live at two moments was live all the time between. */
  lemma {:induction false} LiveBetween(states: seq<State>, actions: seq<Action>, key: Key, d: Dir, serial: nat, i: nat,
                                       k: nat, j: nat)
    requires Moves(states, actions, key, d) && i <= k <= j < |states|
    requires serial < states[i].serial
    requires IsLive(states[i], key, serial) && IsLive(states[j], key, serial)
    ensures IsLive(states[k], key, serial)
    decreases j
  {
    if k < j {
      SerialsGrow(states, actions, key, d, i, j - 1);
      assert MovesAt(states, actions, j - 1, key, d);
      LiveBetween(states, actions, key, d, serial, i, k, j - 1);
    }
  }

  /** An entry's outcome stands from one moment to a later one when no refresh of it ended between. */
  lemma {:induction false} OutcomeStands(states: seq<State>, actions: seq<Action>, key: Key, d: Dir, serial: nat,
                                         i: nat, j: nat)
    requires Moves(states, actions, key, d) && i <= j < |states| && serial < states[i].serial
    requires IsLive(states[i], key, serial) && IsLive(states[j], key, serial)
    requires forall k :: i <= k < j ==> !EndsFor(states[k], actions[k], key, serial)
    ensures states[j].snaps[key] == states[i].snaps[key]
    decreases j
  {
    if i < j {
      LiveBetween(states, actions, key, d, serial, i, j - 1, j);
      OutcomeStands(states, actions, key, d, serial, i, j - 1);
      assert MovesAt(states, actions, j - 1, key, d);
    }
  }

  /**
    What an entry remembers is how the last refresh that was started for it and has ended did,
    and when: the error of a failed one stays until the next one ends.
   */
  lemma LastOutcome(states: seq<State>, actions: seq<Action>, key: Key, serial: nat, i: nat, j: nat)
    requires IsRun(states, actions) && Numbered(states[0]) && i < j < |states|
    requires IsLive(states[i], key, serial) && IsLive(states[j], key, serial)
    requires EndsFor(states[i], actions[i], key, serial)
    requires forall k :: i < k < j ==> !EndsFor(states[k], actions[k], key, serial)
    ensures states[j].snaps[key].builtAt == Some(actions[i].now) && states[j].snaps[key].failed == actions[i].failed
  {
    RunMoves(states, actions, key, Dir(key));
    RunNumbered(states, actions, i);
    OutcomeFrom(states, actions, key, Dir(key), serial, i, j);
  }

  lemma OutcomeFrom(states: seq<State>, actions: seq<Action>, key: Key, d: Dir, serial: nat, i: nat, j: nat)
    requires Moves(states, actions, key, d) && i < j < |states| && serial < states[i].serial
    requires IsLive(states[i], key, serial) && IsLive(states[j], key, serial)
    requires EndsFor(states[i], actions[i], key, serial)
    requires forall k :: i < k < j ==> !EndsFor(states[k], actions[k], key, serial)
    ensures states[j].snaps[key].builtAt == Some(actions[i].now) && states[j].snaps[key].failed == actions[i].failed
  {
    LiveBetween(states, actions, key, d, serial, i, i + 1, j);
    assert MovesAt(states, actions, i, key, d);
    OutcomeStands(states, actions, key, d, serial, i + 1, j);
  }

  /** Until the first of its refreshes ends, an entry is unbuilt and has no error. */
  lemma UnbuiltUntilEnd(states: seq<State>, actions: seq<Action>, key: Key, serial: nat, j: nat)
    requires IsRun(states, actions) && Numbered(states[0]) && j < |states| && IsLive(states[j], key, serial)
    requires forall k :: 0 <= k < j ==> !EndsFor(states[k], actions[k], key, serial)
    ensures states[j].snaps[key].builtAt == None && !states[j].snaps[key].failed
  {
    RunMoves(states, actions, key, Dir(key));
    Unbuilt(states, actions, key, Dir(key), serial, j);
  }

  lemma {:induction false} Unbuilt(states: seq<State>, actions: seq<Action>, key: Key, d: Dir, serial: nat, j: nat)
    requires Moves(states, actions, key, d) && states[0].snaps == map[]
    requires j < |states| && IsLive(states[j], key, serial)
    requires forall k :: 0 <= k < j ==> !EndsFor(states[k], actions[k], key, serial)
    ensures states[j].snaps[key].builtAt == None && !states[j].snaps[key].failed
  {
    if j > 0 {
      assert MovesAt(states, actions, j - 1, key, d);
      if IsLive(states[j - 1], key, serial) {
        Unbuilt(states, actions, key, d, serial, j - 1);
      }
    }
  }
}
