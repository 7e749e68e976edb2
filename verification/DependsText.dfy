/** How a project's dependencies are stored: sorted, deduplicated names joined with commas. */
module DependsText {
  import opened Wrappers
  import opened Strings
  import opened Sorting

  function ParseDepends(s: string): seq<string> {
    if s == "" then [] else SplitOn(s, ',')
  }

  function Join(names: seq<string>): string {
    if names == [] then ""
    else if |names| == 1 then names[0]
    else names[0] + "," + Join(names[1..])
  }

  predicate IsName(n: string) {
    n != "" && ',' !in n
  }

  predicate AreNames(names: seq<string>) {
    forall n :: n in names ==> IsName(n)
  }

  /** Splitting undoes joining. */
  lemma {:induction false} SplitJoin(names: seq<string>)
    requires names != [] && forall n :: n in names ==> ',' !in n
    ensures SplitOn(Join(names), ',') == names
  {
    if |names| == 1 {
      SplitOne(names[0], ',');
    } else {
      assert names == [names[0]] + names[1..];
      SplitHead(names[0], ',', Join(names[1..]));
      SplitJoin(names[1..]);
    }
  }

  /** Joining undoes splitting, and no part holds a comma. */
  lemma {:induction false} JoinSplit(s: string)
    ensures Join(SplitOn(s, ',')) == s && forall n :: n in SplitOn(s, ',') ==> ',' !in n
    decreases |s|
  {
    var i := IndexOf(s, ',');
    if i == |s| {
      assert s[..i] == s;
    } else {
      JoinSplit(s[i + 1..]);
      CutAt(s, i);
      JoinFirst(s[..i], SplitOn(s[i + 1..], ','));
    }
  }

  lemma JoinFirst(first: string, names: seq<string>)
    requires names != []
    ensures Join([first] + names) == first + "," + Join(names)
  {
    assert ([first] + names)[1..] == names;
  }

  lemma JoinEmpty(names: seq<string>)
    requires AreNames(names) && names != []
    ensures Join(names) != ""
  {
    assert names[0] in names;
  }

  /** A stored list of names reads back as it was. */
  lemma ParseJoin(names: seq<string>)
    requires AreNames(names)
    ensures ParseDepends(Join(names)) == names
  {
    if names != [] {
      SplitJoin(names);
      JoinEmpty(names);
    }
  }

  // ---- the SQL probe for a stored name ----

  predicate OccursAt(s: string, t: string, i: nat) {
    i + |t| <= |s| && s[i..i + |t|] == t
  }

  /** What instr(s, t) > 0 means. */
  predicate Instr(s: string, t: string) {
    exists i :: 0 <= i <= |s| && OccursAt(s, t, i)
  }

  /** instr(',' || depends || ',', ',' || name || ',') > 0 */
  predicate Probe(depends: string, name: string) {
    Instr("," + depends + ",", "," + name + ",")
  }

  /** A string inside the back part of another occurs in it, further on. */
  lemma OccursShift(front: string, back: string, t: string, k: nat)
    ensures OccursAt(back, t, k) <==> OccursAt(front + back, t, |front| + k)
  {
    if k + |t| <= |back| {
      assert (front + back)[|front| + k..|front| + k + |t|] == back[k..k + |t|];
    }
  }

  lemma InstrBack(front: string, back: string, t: string)
    requires Instr(back, t)
    ensures Instr(front + back, t)
  {
    var k :| 0 <= k <= |back| && OccursAt(back, t, k);
    OccursShift(front, back, t, k);
  }

  lemma InstrFront(front: string, back: string, t: string, p: nat)
    requires p >= |front| && OccursAt(front + back, t, p)
    ensures Instr(back, t)
  {
    OccursShift(front, back, t, p - |front|);
  }

  lemma CutAt(s: string, i: nat)
    requires i < |s| && s[i] == ','
    ensures s == s[..i] + "," + s[i + 1..]
  {
  }

  lemma Regroup(a: string, rest: string)
    ensures "," + (a + "," + rest) + "," == ("," + a) + ("," + rest + ",")
  {
    Reassociate(",", a, "," + rest + ",");
    Reassociate(a, ",", rest);
    Reassociate(a, "," + rest, ",");
    Reassociate(",", a + "," + rest, ",");
  }

  lemma CommaParts(s: string)
    requires IndexOf(s, ',') < |s|
    ensures "," + s + "," == ("," + s[..IndexOf(s, ',')]) + ("," + s[IndexOf(s, ',') + 1..] + ",")
  {
    CutAt(s, IndexOf(s, ','));
    Regroup(s[..IndexOf(s, ',')], s[IndexOf(s, ',') + 1..]);
  }

  lemma OccursFirst(s: string, name: string)
    requires ',' !in name
    ensures OccursAt("," + s + ",", "," + name + ",", 0) <==> name == s[..IndexOf(s, ',')]
  {
    var whole, t, i := "," + s + ",", "," + name + ",", IndexOf(s, ',');
    assert whole[i + 1] == ',';
    assert forall j :: 0 <= j < |name| ==> t[j + 1] == name[j];
    assert forall j :: 0 <= j < i ==> whole[j + 1] == s[..i][j];
    if OccursAt(whole, t, 0) {
      assert forall j :: 0 <= j < |t| ==> whole[j] == whole[..|t|][j];
      assert whole[|name| + 1] == ',';
      assert |name| == i;
    }
    if name == s[..i] {
      assert whole[0..|t|] == t;
    }
  }

  lemma OccursChar(s: string, name: string, p: nat)
    requires p > 0 && OccursAt("," + s + ",", "," + name + ",", p)
    ensures p - 1 < |s| && s[p - 1] == ','
  {
    var whole, t := "," + s + ",", "," + name + ",";
    assert whole[p..p + |t|][0] == t[0];
  }

  lemma OccursLater(s: string, name: string, p: nat)
    requires ',' !in name && p > 0 && OccursAt("," + s + ",", "," + name + ",", p)
    ensures IndexOf(s, ',') < p && IndexOf(s, ',') < |s|
  {
    OccursChar(s, name, p);
    IndexBound(s, ',', p - 1);
  }

  lemma ProbeTail(s: string, name: string)
    requires IndexOf(s, ',') < |s| && Probe(s[IndexOf(s, ',') + 1..], name)
    ensures Probe(s, name)
  {
    CommaParts(s);
    ProbeBack(s[..IndexOf(s, ',')], s[IndexOf(s, ',') + 1..], s, name);
  }

  lemma ProbeBack(front: string, back: string, s: string, name: string)
    requires "," + s + "," == ("," + front) + ("," + back + ",") && Probe(back, name)
    ensures Probe(s, name)
  {
    InstrBack("," + front, "," + back + ",", "," + name + ",");
  }

  lemma OccursLaterInTail(s: string, name: string, p: nat)
    requires ',' !in name && p > 0 && OccursAt("," + s + ",", "," + name + ",", p)
    ensures IndexOf(s, ',') < |s| && Probe(s[IndexOf(s, ',') + 1..], name)
  {
    OccursLater(s, name, p);
    CommaParts(s);
    InstrFront("," + s[..IndexOf(s, ',')], "," + s[IndexOf(s, ',') + 1..] + ",", "," + name + ",", p);
  }

  lemma ProbeFirstOrTail(s: string, name: string)
    requires ',' !in name && Probe(s, name)
    ensures name == s[..IndexOf(s, ',')] || (IndexOf(s, ',') < |s| && Probe(s[IndexOf(s, ',') + 1..], name))
  {
    var whole := "," + s + ",";
    var p: nat :| p <= |whole| && OccursAt(whole, "," + name + ",", p);
    OccursFirst(s, name);
    if p > 0 {
      OccursLaterInTail(s, name, p);
    }
  }

  /** The probe finds a name without a comma exactly when it is one of the comma-separated parts. */
  lemma {:induction false} ProbeIffPart(s: string, name: string)
    requires ',' !in name
    ensures Probe(s, name) <==> name in SplitOn(s, ',')
    decreases |s|
  {
    var i := IndexOf(s, ',');
    OccursFirst(s, name);
    if Probe(s, name) {
      ProbeFirstOrTail(s, name);
    }
    if i < |s| {
      ProbeIffPart(s[i + 1..], name);
      if Probe(s[i + 1..], name) {
        ProbeTail(s, name);
      }
    } else {
      assert s[..i] == s;
    }
  }

  /** The probe agrees with the stored list for every name without a comma, but for the empty name of the empty list. */
  lemma ProbeIff(s: string, name: string)
    requires ',' !in name
    ensures Probe(s, name) <==> name in ParseDepends(s) || (name == "" && s == "")
  {
    ProbeIffPart(s, name);
    if s == "" {
      assert SplitOn(s, ',') == [""];
    }
  }

  // ---- the stored form ----

  function NameKey(n: string): string {
    n
  }

  predicate Ascending(names: seq<string>) {
    AscendingBy(NameKey, names)
  }

  predicate StrictlyAscending(names: seq<string>) {
    forall i, j :: 0 <= i < j < |names| ==> Less(names[i], names[j])
  }

  /** Drops each name equal to the one after it. */
  function Compact(names: seq<string>): (out: seq<string>)
    requires Ascending(names)
    ensures StrictlyAscending(out) && forall n :: n in out <==> n in names
    ensures |out| <= |names|
  {
    if |names| < 2 then names
    else
      var rest := Compact(names[1..]);
      assert names == [names[0]] + names[1..];
      if names[0] == names[1] then rest
      else
        CompactFirst(names, rest);
        [names[0]] + rest
  }

  lemma CompactFirst(names: seq<string>, rest: seq<string>)
    requires Ascending(names) && |names| >= 2 && names[0] != names[1] && forall n :: n in rest ==> n in names[1..]
    ensures forall i :: 0 <= i < |rest| ==> Less(names[0], rest[i])
  {
    forall i | 0 <= i < |rest|
      ensures Less(names[0], rest[i])
    {
      assert rest[i] in names[1..];
      var j :| 1 <= j < |names| && names[j] == rest[i];
      LessTotal(names[0], names[1]);
      LessTotal(names[0], names[j]);
    }
  }

  /** The form in which names are stored, before they are joined. */
  function Canonical(names: seq<string>): (out: seq<string>)
    ensures StrictlyAscending(out) && forall n :: n in out <==> n in names
    ensures |out| <= |names|
  {
    var sorted := SortBy(NameKey, names);
    assert forall n :: n in sorted <==> n in multiset(sorted);
    assert forall n :: n in names <==> n in multiset(names);
    assert |sorted| == |multiset(sorted)| == |names|;
    Compact(sorted)
  }

  function JoinDepends(names: seq<string>): string {
    Join(Canonical(names))
  }

  /** Storing names and reading them back keeps exactly the names, sorted and once each. */
  lemma StoredNames(names: seq<string>)
    requires AreNames(names)
    ensures ParseDepends(JoinDepends(names)) == Canonical(names)
  {
    ParseJoin(Canonical(names));
  }

  /** Two lists with the same names are stored as the same text. */
  lemma CanonicalUnique(a: seq<string>, b: seq<string>)
    requires forall n :: n in a <==> n in b
    ensures Canonical(a) == Canonical(b)
  {
    AscendingUnique(Canonical(a), Canonical(b));
  }

  lemma {:induction false} AscendingUnique(a: seq<string>, b: seq<string>)
    requires StrictlyAscending(a) && StrictlyAscending(b) && forall n :: n in a <==> n in b
    ensures a == b
  {
    if a == [] {
      NonEmptyHas(b);
    } else {
      assert a[0] in b;
      assert b[0] in a;
      if a[0] != b[0] {
        LessTransitive(a[0], b[0], a[0]);
        LessIrreflexive(a[0]);
      }
      forall n
        ensures n in a[1..] <==> n in b[1..]
      {
        TailNames(a, n);
        TailNames(b, n);
      }
      AscendingUnique(a[1..], b[1..]);
      assert a == [a[0]] + a[1..] && b == [b[0]] + b[1..];
    }
  }

  lemma TailNames(a: seq<string>, n: string)
    requires StrictlyAscending(a) && a != []
    ensures n in a[1..] <==> n in a && n != a[0]
  {
    LessIrreflexive(a[0]);
    if n in a && n != a[0] {
      var i :| 0 <= i < |a| && a[i] == n;
      assert a[1..][i - 1] == n;
    }
  }
}
