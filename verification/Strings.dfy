/** Byte-wise string order, the first occurrence of a character, and splitting at it. */
module Strings {

  /** Byte-wise lexicographic order. */
  predicate Less(a: string, b: string) {
    if b == "" then false
    else if a == "" then true
    else a[0] < b[0] || (a[0] == b[0] && Less(a[1..], b[1..]))
  }

  lemma {:induction false} LessTransitive(a: string, b: string, c: string)
    requires Less(a, b) && Less(b, c)
    ensures Less(a, c)
  {
    if a != "" && a[0] == b[0] && b[0] == c[0] {
      LessTransitive(a[1..], b[1..], c[1..]);
    }
  }

  lemma {:induction false} LessIrreflexive(a: string)
    ensures !Less(a, a)
  {
    if a != "" {
      LessIrreflexive(a[1..]);
    }
  }

  lemma {:induction false} LessTotal(a: string, b: string)
    ensures a == b || Less(a, b) || Less(b, a)
  {
    if a != "" && b != "" && a[0] == b[0] {
      LessTotal(a[1..], b[1..]);
      assert a == [a[0]] + a[1..] && b == [b[0]] + b[1..];
    }
  }

  /** The first byte in which two strings differ decides, and a string comes after its prefixes. */
  lemma {:induction false} LessIff(a: string, b: string)
    ensures Less(a, b) <==> exists i :: DiffersAt(a, b, i) && (i == |a| || (i < |b| && a[i] < b[i]))
  {
    if a != "" && b != "" && a[0] == b[0] {
      LessIff(a[1..], b[1..]);
      if i :| DiffersAt(a[1..], b[1..], i) && (i == |a[1..]| || (i < |b[1..]| && a[1..][i] < b[1..][i])) {
        assert a[..i + 1] == [a[0]] + a[1..][..i] && b[..i + 1] == [b[0]] + b[1..][..i];
        assert DiffersAt(a, b, i + 1);
      }
      if i :| DiffersAt(a, b, i) && (i == |a| || (i < |b| && a[i] < b[i])) {
        assert a[1..][..i - 1] == a[..i][1..] && b[1..][..i - 1] == b[..i][1..];
        assert DiffersAt(a[1..], b[1..], i - 1);
      }
    } else if a != b {
      assert DiffersAt(a, b, 0);
    }
  }

  /** The strings agree up to i, where one of them ends or their bytes differ. */
  predicate DiffersAt(a: string, b: string, i: int) {
    0 <= i <= |a| && i <= |b| && a[..i] == b[..i] && a != b && (i == |a| || i == |b| || a[i] != b[i])
  }

  /** The place of the first c, or the length when there is none. */
  function IndexOf<T(==)>(s: seq<T>, c: T): (i: nat)
    ensures i <= |s| && c !in s[..i]
    ensures i < |s| ==> s[i] == c
  {
    if s == [] || s[0] == c then 0
    else
      var i := 1 + IndexOf(s[1..], c);
      assert s[..i] == [s[0]] + s[1..][..i - 1];
      i
  }

  lemma IndexBound<T>(s: seq<T>, c: T, k: nat)
    requires k < |s| && s[k] == c
    ensures IndexOf(s, c) <= k
  {
    forall i | k < i <= |s|
      ensures c in s[..i]
    {
      assert s[..i][k] == c;
    }
  }

  lemma IndexIs<T>(s: seq<T>, c: T, k: nat)
    requires k < |s| && s[k] == c && c !in s[..k]
    ensures IndexOf(s, c) == k
  {
    IndexBound(s, c, k);
    assert forall i :: 0 <= i < k ==> s[..k][i] == s[i];
  }

  lemma IndexAt<T>(a: seq<T>, c: T, rest: seq<T>)
    requires c !in a
    ensures IndexOf(a + [c] + rest, c) == |a|
    ensures IndexOf(a, c) == |a|
  {
    var s := a + [c] + rest;
    assert forall k :: 0 <= k < |a| ==> s[k] == a[k] && a[k] != c;
    IndexBound(s, c, |a|);
  }

  /** strings.Split on a one-character separator. */
  function SplitOn(s: string, c: char): (parts: seq<string>)
    ensures parts != []
    decreases |s|
  {
    var i := IndexOf(s, c);
    if i == |s| then [s] else [s[..i]] + SplitOn(s[i + 1..], c)
  }

  lemma SplitHead(a: string, c: char, rest: string)
    requires c !in a
    ensures SplitOn(a + [c] + rest, c) == [a] + SplitOn(rest, c)
  {
    IndexAt(a, c, rest);
    assert (a + [c] + rest)[|a| + 1..] == rest;
    assert (a + [c] + rest)[..|a|] == a;
  }

  lemma SplitOne(a: string, c: char)
    requires c !in a
    ensures SplitOn(a, c) == [a]
  {
    IndexAt(a, c, "");
  }

  predicate Nested(p: string) {
    '/' in p
  }

  lemma NestedIff(p: string)
    ensures Nested(p) <==> IndexOf(p, '/') < |p|
  {
    assert p[..|p|] == p;
    if IndexOf(p, '/') < |p| {
      assert p[IndexOf(p, '/')] in p;
    }
  }

  /** p lies in the directory dir, whose name has no slash. */
  predicate InDir(p: string, dir: string) {
    '/' !in dir && |dir| < |p| && p[..|dir|] == dir && p[|dir|] == '/'
  }

  /** The path below dir. */
  function Rest(p: string, dir: string): string
    requires InDir(p, dir)
  {
    p[|dir| + 1..]
  }

  function Join(dir: string, rest: string): string {
    dir + "/" + rest
  }

  lemma JoinRest(p: string, dir: string)
    requires InDir(p, dir)
    ensures Join(dir, Rest(p, dir)) == p
  {
  }

  lemma RestJoin(dir: string, rest: string)
    requires '/' !in dir
    ensures InDir(Join(dir, rest), dir) && Rest(Join(dir, rest), dir) == rest
  {
  }

  /** A nested path lies in exactly the directory before its first slash. */
  lemma DirUnique(p: string, dir: string)
    requires InDir(p, dir)
    ensures |dir| == IndexOf(p, '/') && dir == p[..IndexOf(p, '/')] && Nested(p)
  {
    assert p[|dir|] in p;
  }

  lemma NestedInDir(p: string)
    requires Nested(p)
    ensures InDir(p, p[..IndexOf(p, '/')])
  {
    NestedIff(p);
  }
}
