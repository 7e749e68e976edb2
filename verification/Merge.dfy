/**
  Merging one project into another: the plan an operator confirms, the state it leads to, and
  what that state conserves.
 */
module Merge {
  import opened Wrappers
  import opened Registry

  datatype Release = Release(project: int, version: string, num: int)

  /** A row that carries its project and one label unique within it: a site's branch, a tag, a blob key. */
  datatype Labelled = Labelled(project: int, name: string)

  /** The project tables with every table that points at a project, by row id. */
  datatype Db = Db(
    reg: Reg,
    releases: map<int, Release>,
    sites: map<int, Labelled>,
    tags: map<int, Labelled>,
    links: map<int, Labelled>,
    tokens: map<int, Option<int>>,
    policies: map<int, Option<int>>)

  // ---- what the schema keeps ----

  predicate SameVersion(a: Release, b: Release) {
    a.project == b.project && a.version == b.version
  }

  predicate UniqueVersions(releases: map<int, Release>) {
    forall a, b :: a in releases && b in releases && SameVersion(releases[a], releases[b]) ==> a == b
  }

  predicate UniqueLabels(rows: map<int, Labelled>) {
    forall a, b :: a in rows && b in rows && rows[a] == rows[b] ==> a == b
  }

  ghost predicate Uniques(db: Db) {
    UniqueVersions(db.releases) && UniqueLabels(db.sites) && UniqueLabels(db.tags) && UniqueLabels(db.links)
  }

  predicate RefReleases(releases: map<int, Release>, id: int) {
    exists r :: r in releases && releases[r].project == id
  }

  predicate RefLabels(rows: map<int, Labelled>, id: int) {
    exists r :: r in rows && rows[r].project == id
  }

  predicate RefOptional(rows: map<int, Option<int>>, id: int) {
    exists r :: r in rows && rows[r] == Some(id)
  }

  predicate RefAliases(aliases: map<string, int>, id: int) {
    exists n :: n in aliases && aliases[n] == id
  }

  /** Some row points at the project. */
  predicate References(db: Db, id: int) {
    || RefReleases(db.releases, id)
    || RefLabels(db.sites, id) || RefLabels(db.tags, id) || RefLabels(db.links, id)
    || RefOptional(db.tokens, id) || RefOptional(db.policies, id)
    || RefAliases(db.reg.aliases, id)
  }

  ghost predicate Sound(db: Db) {
    Uniques(db) && Inv(db.reg) && forall id :: References(db, id) ==> id in db.reg.projects
  }

  // ---- decimal version strings ----

  const Digits: string := "0123456789"

  function FormatNat(n: nat): (s: string)
    ensures s != "" && s[0] != '-'
  {
    if n < 10 then [Digits[n]] else FormatNat(n / 10) + [Digits[n % 10]]
  }

  function FormatInt(n: int): string {
    if n < 0 then "-" + FormatNat(-n) else FormatNat(n)
  }

  function DigitOf(c: char): int {
    c as int - '0' as int
  }

  function ParseNat(s: string): int {
    if s == "" then 0 else 10 * ParseNat(s[..|s| - 1]) + DigitOf(s[|s| - 1])
  }

  /** strconv.ParseInt on what FormatInt writes. */
  function ParseInt(s: string): int {
    if s != "" && s[0] == '-' then -ParseNat(s[1..]) else ParseNat(s)
  }

  lemma DigitRoundTrip(d: nat)
    requires d < 10
    ensures DigitOf(Digits[d]) == d
  {
  }

  lemma ParseSnoc(front: string, d: nat)
    requires d < 10
    ensures ParseNat(front + [Digits[d]]) == 10 * ParseNat(front) + d
  {
    DigitRoundTrip(d);
    assert (front + [Digits[d]])[..|front|] == front;
  }

  lemma {:induction false} ParseFormat(n: nat)
    ensures ParseNat(FormatNat(n)) == n
  {
    if n < 10 {
      ParseSnoc("", n);
      assert "" + [Digits[n]] == [Digits[n]];
    } else {
      ParseFormat(n / 10);
      ParseSnoc(FormatNat(n / 10), n % 10);
    }
  }

  lemma ParseSigned(digits: string)
    ensures ParseInt("-" + digits) == -ParseNat(digits)
  {
    assert ("-" + digits)[1..] == digits;
  }

  lemma ParseUnsigned(digits: string)
    requires digits != "" && digits[0] != '-'
    ensures ParseInt(digits) == ParseNat(digits)
  {
  }

  lemma ParseFormatInt(n: int)
    ensures ParseInt(FormatInt(n)) == n
  {
    if n < 0 {
      ParseSigned(FormatNat(-n));
      ParseFormat(-n);
    } else {
      ParseUnsigned(FormatNat(n));
      ParseFormat(n);
    }
  }

  /** Distinct numbers have distinct decimal strings. */
  lemma FormatInjective(a: int, b: int)
    requires FormatInt(a) == FormatInt(b)
    ensures a == b
  {
    ParseFormatInt(a);
    ParseFormatInt(b);
  }

  // ---- the plan ----

  datatype MergeRelease = MergeRelease(id: int, oldVersion: string, newVersion: string, oldNum: int, newNum: int)

  datatype Conflict =
    | NoRepoId
    | DifferentRepos
    | VersionTaken(version: string)
    | SiteBranch(branch: string)
    | OciTag(tag: string)

  datatype Plan = Plan(
    from: int,
    into: int,
    fromName: string,
    intoName: string,
    releases: seq<MergeRelease>,
    aliases: set<string>,
    dupLinks: seq<string>,
    counts: Counts,
    conflicts: seq<Conflict>)

  /** What the operator sees of the tables beside the releases. */
  datatype Counts = Counts(sites: int, ociTags: int, ociBlobs: int, tokens: int, policies: int)

  /** The highest version number of a project's releases, zero when it has none. */
  ghost predicate IsMaxNum(releases: map<int, Release>, project: int, m: int) {
    && (forall r :: r in releases && releases[r].project == project ==> releases[r].num <= m)
    && ((exists r :: r in releases && releases[r].project == project && releases[r].num == m)
        || (m == 0 && forall r :: r in releases ==> releases[r].project != project))
  }

  /** The project's releases by ascending version number; equal numbers come in any order. */
  ghost predicate IsOrdered(releases: map<int, Release>, project: int, rows: seq<int>) {
    && NoDup(rows)
    && (forall r :: r in rows <==> r in releases && releases[r].project == project)
    && forall i, j :: 0 <= i < j < |rows| ==> releases[rows[i]].num <= releases[rows[j]].num
  }

  predicate KeepsVersions(reg: Reg, src: int, dst: int) {
    src in reg.projects && dst in reg.projects && (reg.projects[dst].semver || reg.projects[src].semver)
  }

  /** Outside semver the version string is its number; semver keeps it. */
  function NewVersion(db: Db, src: int, dst: int, id: int, num: int): string
    requires id in db.releases
  {
    if KeepsVersions(db.reg, src, dst) then db.releases[id].version else FormatInt(num)
  }

  /** The i-th release takes the i-th number after the target's highest; outside semver its version string follows. */
  ghost predicate IsRenumbering(db: Db, src: int, dst: int, max: int, rows: seq<int>, moves: seq<MergeRelease>) {
    && |moves| == |rows|
    && (forall r :: r in rows ==> r in db.releases)
    && forall i :: 0 <= i < |moves| ==>
         moves[i] == MergeRelease(rows[i], db.releases[rows[i]].version,
                                  NewVersion(db, src, dst, rows[i], max + 1 + i),
                                  db.releases[rows[i]].num, max + 1 + i)
  }

  ghost predicate IsRenumbered(db: Db, src: int, dst: int, moves: seq<MergeRelease>) {
    exists max, rows ::
      IsMaxNum(db.releases, dst, max) && IsOrdered(db.releases, src, rows)
          && IsRenumbering(db, src, dst, max, rows, moves)
  }

  predicate HasLabel(rows: map<int, Labelled>, project: int, name: string) {
    exists r :: r in rows && rows[r] == Labelled(project, name)
  }

  predicate HasVersion(releases: map<int, Release>, project: int, version: string) {
    exists r :: r in releases && releases[r].project == project && releases[r].version == version
  }

  /** Both projects have a row with this label. */
  predicate Shared(rows: map<int, Labelled>, src: int, dst: int, name: string) {
    HasLabel(rows, src, name) && HasLabel(rows, dst, name)
  }

  /** What stands in the way of the merge. */
  ghost predicate IsConflict(db: Db, src: int, dst: int, c: Conflict)
    requires src in db.reg.projects && dst in db.reg.projects
  {
    var a, b := db.reg.projects[src].repoId, db.reg.projects[dst].repoId;
    match c
    case NoRepoId => a == "" || b == ""
    case DifferentRepos => a != "" && b != "" && a != b
    case VersionTaken(v) => KeepsVersions(db.reg, src, dst) && HasVersion(db.releases, src, v)
        && HasVersion(db.releases, dst, v)
    case SiteBranch(n) => Shared(db.sites, src, dst, n)
    case OciTag(n) => Shared(db.tags, src, dst, n)
  }

  ghost predicate IsPlan(db: Db, src: int, dst: int, plan: Plan) {
    && src in db.reg.projects && dst in db.reg.projects && src != dst
    && plan.from == src && plan.into == dst
    && plan.fromName == db.reg.projects[src].name && plan.intoName == db.reg.projects[dst].name
    && IsRenumbered(db, src, dst, plan.releases)
    && (forall n :: n in plan.aliases <==> n == plan.fromName || (n in db.reg.aliases && db.reg.aliases[n] == src))
    && NoDup(plan.dupLinks) && (forall k :: k in plan.dupLinks <==> Shared(db.links, src, dst, k))
    && plan.counts == CountsOf(db, src, plan.dupLinks)
    && (forall c :: c in plan.conflicts <==> IsConflict(db, src, dst, c))
  }

  function LabelRows(rows: map<int, Labelled>, project: int): set<int> {
    set r | r in rows && rows[r].project == project
  }

  function OptionalRows(rows: map<int, Option<int>>, project: int): set<int> {
    set r | r in rows && rows[r] == Some(project)
  }

  /** The source's rows of each table; a blob link the target already has is not counted. */
  function CountsOf(db: Db, src: int, dupLinks: seq<string>): Counts {
    Counts(|LabelRows(db.sites, src)|, |LabelRows(db.tags, src)|, |LabelRows(db.links, src)| - |dupLinks|,
           |OptionalRows(db.tokens, src)|, |OptionalRows(db.policies, src)|)
  }

  // ---- the state a plan leads to ----

  function MoveOne(releases: map<int, Release>, m: MergeRelease, dst: int): map<int, Release> {
    if m.id in releases then releases[m.id := Release(dst, m.newVersion, m.newNum)] else releases
  }

  /** The moves, last one first. */
  function MoveAll(releases: map<int, Release>, moves: seq<MergeRelease>, dst: int): map<int, Release> {
    if moves == [] then releases else MoveOne(MoveAll(releases, moves[1..], dst), moves[0], dst)
  }

  function Reassigned(rows: map<int, Labelled>, src: int, dst: int): map<int, Labelled> {
    map r | r in rows :: if rows[r].project == src then rows[r].(project := dst) else rows[r]
  }

  function ReassignedOptional(rows: map<int, Option<int>>, src: int, dst: int): map<int, Option<int>> {
    map r | r in rows :: if rows[r] == Some(src) then Some(dst) else rows[r]
  }

  /** The links without the source's for a key both sides hold. */
  function WithoutDups(rows: map<int, Labelled>, src: int, keys: seq<string>): map<int, Labelled> {
    map r | r in rows && !(rows[r].project == src && rows[r].name in keys) :: rows[r]
  }

  function Applied(db: Db, plan: Plan): Db
    requires plan.from in db.reg.projects && plan.into in db.reg.projects
  {
    Db(Merged(db.reg, plan.from, plan.into),
       MoveAll(db.releases, plan.releases, plan.into),
       Reassigned(db.sites, plan.from, plan.into),
       Reassigned(db.tags, plan.from, plan.into),
       Reassigned(WithoutDups(db.links, plan.from, plan.dupLinks), plan.from, plan.into),
       ReassignedOptional(db.tokens, plan.from, plan.into),
       ReassignedOptional(db.policies, plan.from, plan.into))
  }

  /** A release of the target already carries a version string a move needs. */
  ghost predicate VersionClash(releases: map<int, Release>, moves: seq<MergeRelease>, dst: int) {
    exists i :: 0 <= i < |moves| && HasVersion(releases, dst, moves[i].newVersion)
  }

  // ---- what the moves do to the releases ----

  ghost predicate DistinctIds(moves: seq<MergeRelease>) {
    forall i, j :: 0 <= i < j < |moves| ==> moves[i].id != moves[j].id
  }

  ghost predicate DistinctVersions(moves: seq<MergeRelease>) {
    forall i, j :: 0 <= i < j < |moves| ==> moves[i].newVersion != moves[j].newVersion
  }

  ghost predicate Moves(moves: seq<MergeRelease>, id: int) {
    exists i :: 0 <= i < |moves| && moves[i].id == id
  }

  lemma {:induction false} MoveAllAt(releases: map<int, Release>, moves: seq<MergeRelease>, dst: int, id: int)
    requires DistinctIds(moves)
    ensures MoveAll(releases, moves, dst).Keys == releases.Keys
    ensures id in releases && !Moves(moves, id) ==> MoveAll(releases, moves, dst)[id] == releases[id]
    ensures forall i :: 0 <= i < |moves| && moves[i].id == id && id in releases ==>
              MoveAll(releases, moves, dst)[id] == Release(dst, moves[i].newVersion, moves[i].newNum)
  {
    if moves != [] {
      assert forall i :: 0 <= i < |moves[1..]| ==> moves[1..][i] == moves[i + 1];
      MoveAllAt(releases, moves[1..], dst, id);
      if Moves(moves[1..], id) {
        var i :| 0 <= i < |moves[1..]| && moves[1..][i].id == id;
        assert moves[i + 1].id == id;
      }
    }
  }

  /** The moves read rows of one project and give them new numbers and versions. */
  ghost predicate ProperMoves(releases: map<int, Release>, src: int, dst: int, moves: seq<MergeRelease>) {
    && src != dst && DistinctIds(moves) && DistinctVersions(moves)
    && forall i :: 0 <= i < |moves| ==> moves[i].id in releases && releases[moves[i].id].project == src
  }

  lemma ProperTail(releases: map<int, Release>, src: int, dst: int, moves: seq<MergeRelease>)
    requires ProperMoves(releases, src, dst, moves) && moves != []
    ensures ProperMoves(releases, src, dst, moves[1..])
    ensures !Moves(moves[1..], moves[0].id)
  {
    assert forall i :: 0 <= i < |moves[1..]| ==> moves[1..][i] == moves[i + 1];
  }

  /** The statement for one move keeps versions unique exactly when the target lacks the version string. */
  lemma MoveUniqueIff(releases: map<int, Release>, src: int, dst: int, moves: seq<MergeRelease>)
    requires UniqueVersions(releases) && ProperMoves(releases, src, dst, moves) && moves != []
    requires UniqueVersions(MoveAll(releases, moves[1..], dst))
    ensures UniqueVersions(MoveAll(releases, moves, dst)) <==> !HasVersion(releases, dst, moves[0].newVersion)
  {
    var before, after := MoveAll(releases, moves[1..], dst), MoveAll(releases, moves, dst);
    ProperTail(releases, src, dst, moves);
    MoveAllAt(releases, moves[1..], dst, moves[0].id);
    if HasVersion(releases, dst, moves[0].newVersion) {
      var r :| r in releases && releases[r].project == dst && releases[r].version == moves[0].newVersion;
      NotMoved(releases, src, dst, moves, r);
      MoveAllAt(releases, moves[1..], dst, r);
      assert after[r] == releases[r] && after[moves[0].id].version == after[r].version;
    } else {
      forall r | r in before && before[r].project == dst
        ensures before[r].version != moves[0].newVersion
      {
        BeforeVersion(releases, src, dst, moves, r);
      }
    }
  }

  lemma NotMoved(releases: map<int, Release>, src: int, dst: int, moves: seq<MergeRelease>, r: int)
    requires ProperMoves(releases, src, dst, moves) && r in releases && releases[r].project == dst
    ensures !Moves(moves, r)
    ensures moves != [] ==> !Moves(moves[1..], r)
  {
    if moves != [] {
      ProperTail(releases, src, dst, moves);
    }
  }

  lemma BeforeVersion(releases: map<int, Release>, src: int, dst: int, moves: seq<MergeRelease>, r: int)
    requires ProperMoves(releases, src, dst, moves) && moves != [] && !HasVersion(releases, dst, moves[0].newVersion)
    requires r in MoveAll(releases, moves[1..], dst) && MoveAll(releases, moves[1..], dst)[r].project == dst
    ensures MoveAll(releases, moves[1..], dst)[r].version != moves[0].newVersion
  {
    ProperTail(releases, src, dst, moves);
    MoveAllAt(releases, moves[1..], dst, r);
    if Moves(moves[1..], r) {
      var i :| 0 <= i < |moves[1..]| && moves[1..][i].id == r;
      assert moves[i + 1].newVersion != moves[0].newVersion;
    }
  }

  /** All the moves succeed exactly when the target has none of the version strings they need. */
  lemma {:induction false} MovesUniqueIff(releases: map<int, Release>, src: int, dst: int, moves: seq<MergeRelease>)
    requires UniqueVersions(releases) && ProperMoves(releases, src, dst, moves)
    ensures !VersionClash(releases, moves, dst) ==> UniqueVersions(MoveAll(releases, moves, dst))
  {
    if moves != [] && !VersionClash(releases, moves, dst) {
      ProperTail(releases, src, dst, moves);
      ClashTail(releases, moves, dst);
      MovesUniqueIff(releases, src, dst, moves[1..]);
      MoveUniqueIff(releases, src, dst, moves);
    }
  }

  lemma ClashTail(releases: map<int, Release>, moves: seq<MergeRelease>, dst: int)
    requires moves != []
    ensures VersionClash(releases, moves, dst)
       <==> HasVersion(releases, dst, moves[0].newVersion) || VersionClash(releases, moves[1..], dst)
  {
    if VersionClash(releases, moves[1..], dst) {
      var i :| 0 <= i < |moves[1..]| && HasVersion(releases, dst, moves[1..][i].newVersion);
      assert moves[1..][i] == moves[i + 1];
    }
    if VersionClash(releases, moves, dst) && !HasVersion(releases, dst, moves[0].newVersion) {
      var i :| 0 <= i < |moves| && HasVersion(releases, dst, moves[i].newVersion);
      assert moves[1..][i - 1] == moves[i];
    }
  }

  /** A plan's moves are proper: distinct releases of the source, distinct new versions. */
  lemma PlanMoves(db: Db, src: int, dst: int, moves: seq<MergeRelease>)
    requires UniqueVersions(db.releases) && src != dst && IsRenumbered(db, src, dst, moves)
    ensures ProperMoves(db.releases, src, dst, moves)
    ensures forall r :: Moves(moves, r) <==> r in db.releases && db.releases[r].project == src
  {
    var max, rows :|
      IsMaxNum(db.releases, dst, max) && IsOrdered(db.releases, src, rows)
          && IsRenumbering(db, src, dst, max, rows, moves);
    forall i, j | 0 <= i < j < |moves|
      ensures moves[i].newVersion != moves[j].newVersion
    {
      NewVersionsDiffer(db, src, dst, max, rows, moves, i, j);
    }
    MovedIds(db, src, dst, max, rows, moves);
  }

  lemma MoveVersion(db: Db, src: int, dst: int, max: int, rows: seq<int>, moves: seq<MergeRelease>, i: nat)
    requires IsRenumbering(db, src, dst, max, rows, moves) && i < |moves|
    ensures rows[i] in rows && rows[i] in db.releases
    ensures moves[i].newVersion == NewVersion(db, src, dst, rows[i], max + 1 + i)
  {
  }

  lemma SourceVersionsDiffer(releases: map<int, Release>, src: int, rows: seq<int>, i: nat, j: nat)
    requires UniqueVersions(releases) && IsOrdered(releases, src, rows) && i < j < |rows|
    ensures rows[i] in releases && rows[j] in releases && releases[rows[i]].version != releases[rows[j]].version
  {
    var a, b := rows[i], rows[j];
    assert a in rows && b in rows && a != b;
    assert !SameVersion(releases[a], releases[b]);
  }

  lemma FormatDistinct(a: int, b: int)
    requires a != b
    ensures FormatInt(a) != FormatInt(b)
  {
    if FormatInt(a) == FormatInt(b) {
      FormatInjective(a, b);
    }
  }

  lemma NewVersionsDiffer(db: Db, src: int, dst: int, max: int, rows: seq<int>, moves: seq<MergeRelease>, i: nat,
                          j: nat)
    requires UniqueVersions(db.releases) && i < j < |moves|
    requires IsOrdered(db.releases, src, rows) && IsRenumbering(db, src, dst, max, rows, moves)
    ensures moves[i].newVersion != moves[j].newVersion
  {
    MoveVersion(db, src, dst, max, rows, moves, i);
    MoveVersion(db, src, dst, max, rows, moves, j);
    SourceVersionsDiffer(db.releases, src, rows, i, j);
    FormatDistinct(max + 1 + i, max + 1 + j);
  }

  lemma MovedIds(db: Db, src: int, dst: int, max: int, rows: seq<int>, moves: seq<MergeRelease>)
    requires IsOrdered(db.releases, src, rows) && IsRenumbering(db, src, dst, max, rows, moves)
    ensures DistinctIds(moves)
    ensures forall i :: 0 <= i < |moves| ==> moves[i].id in db.releases && db.releases[moves[i].id].project == src
    ensures forall r :: Moves(moves, r) <==> r in db.releases && db.releases[r].project == src
  {
    forall i | 0 <= i < |moves|
      ensures moves[i].id in db.releases && db.releases[moves[i].id].project == src
    {
      assert rows[i] in rows;
    }
    forall r | r in db.releases && db.releases[r].project == src
      ensures Moves(moves, r)
    {
      assert r in rows;
      var i :| 0 <= i < |rows| && rows[i] == r;
      assert moves[i].id == r;
    }
  }
}
