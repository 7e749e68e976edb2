/** The project tables as the server updates them, and the searches over names that guard them. */
module ProjectStore {
  import opened Wrappers
  import opened Strings
  import opened DependsText
  import opened Registry
  import opened Graph
  import opened DependsGraph

  const MaxDepends: nat := 32
  const MaxNameLength: nat := 255

  // ---- names ----

  predicate NameStart(c: char) {
    'a' <= c <= 'z' || '0' <= c <= '9'
  }

  predicate NameChar(c: char) {
    NameStart(c) || c == '.' || c == '_' || c == '-'
  }

  /** Slash-separated segments, each opening with a letter or digit. */
  predicate ValidProjectName(n: string) {
    && 1 <= |n| <= MaxNameLength
    && (forall i :: 0 <= i < |n| ==> n[i] == '/' || NameChar(n[i]))
    && NameStart(n[0])
    && forall i :: 0 <= i < |n| && n[i] == '/' ==> i + 1 < |n| && NameStart(n[i + 1])
  }

  /** The name with its root replaced, or "" when it already sits under root. */
  function RenamedNamespaceName(name: string, root: string): string {
    var slash := IndexOf(name, '/');
    if name[..slash] == root then ""
    else if slash == |name| || name[slash + 1..] == root then root
    else root + "/" + name[slash + 1..]
  }

  /** The rewritten name sits under root, so it is another name, and rewriting it again changes nothing. */
  lemma RenamedNamespaceUnderRoot(name: string, root: string)
    requires IsName(root) && '/' !in root && RenamedNamespaceName(name, root) != ""
    ensures RenamedNamespaceName(RenamedNamespaceName(name, root), root) == ""
    ensures RenamedNamespaceName(name, root) != name
    ensures IsName(name) ==> IsName(RenamedNamespaceName(name, root))
  {
    var newName := RenamedNamespaceName(name, root);
    assert newName[..|root|] == root;
    assert |newName| > |root| ==> newName[|root|] == '/';
    FirstSlashIs(newName, |root|);
  }

  /**
    The rewrite spelled out. A name that is the root or lies under it stays; a name without a
    child path becomes the root; any other keeps its child path, but for one that repeats the root.
   */
  lemma RenamedNamespaceSays(name: string, root: string, head: string, child: string)
    requires '/' !in root && '/' !in head && (name == head || name == head + "/" + child)
    ensures RenamedNamespaceName(name, root)
         == if head == root then ""
            else if name == head || child == root then root
            else root + "/" + child
  {
    if name != head {
      assert name == head + ['/'] + child;
      IndexAt(head, '/', child);
      assert name[..|head|] == head && name[|head| + 1..] == child;
    } else {
      assert name[..|name|] == name;
      FirstSlashIs(name, |name|);
    }
  }

  lemma FirstSlashIs(p: string, i: nat)
    requires i <= |p| && '/' !in p[..i] && (i < |p| ==> p[i] == '/')
    ensures IndexOf(p, '/') == i
  {
  }

  datatype DependsError = TooMany | BadName(name: string) | Unknown(name: string) | OnItself | Cycle

  // ---- the search for a cycle ----

  /** A name the search meets: declared, or stored by a project that a declared one leads to. */
  ghost predicate Origin(s: Reg, deps: seq<string>, n: string) {
    n in deps || exists x :: LeadsBack(s, deps, x) && x in s.projects && n in Deps(s.projects[x])
  }

  lemma OriginLeads(s: Reg, deps: seq<string>, n: string, p: int)
    requires Origin(s, deps, n) && Resolve(s, n) == Some(p)
    ensures LeadsBack(s, deps, p)
  {
    if n in deps {
      ReachesSelf(Edges(s), p);
    } else {
      var x :| LeadsBack(s, deps, x) && x in s.projects && n in Deps(s.projects[x]);
      var n0, d0 :| n0 in deps && Resolve(s, n0) == Some(d0) && Reaches(Edges(s), d0, x);
      assert Edges(s)(x, p);
      ReachesEdge(Edges(s), d0, x, p);
    }
  }

  /** The name leads nowhere, or to a project other than id all of whose dependencies are listed. */
  ghost predicate Expanded(s: Reg, id: int, n: string, listed: set<string>) {
    match Resolve(s, n)
    case None => true
    case Some(p) => p != id && p in s.projects && forall m :: m in Deps(s.projects[p]) ==> m in listed
  }

  /** The projects the seen names lead to. */
  ghost function SeenProjects(s: Reg, seen: set<string>): (all: set<int>)
    ensures forall p :: p in all <==> exists n :: n in seen && Resolve(s, n) == Some(p)
  {
    set n | n in seen && Resolve(s, n).Some? :: Resolve(s, n).value
  }

  /** Where every seen name is expanded into seen names, no edge leaves the projects they lead to. */
  lemma SeenIsClosed(s: Reg, id: int, seen: set<string>, x: int, y: int)
    requires forall n :: n in seen ==> Expanded(s, id, n, seen)
    requires x in SeenProjects(s, seen) && Edge(s, x, y)
    ensures y in SeenProjects(s, seen)
  {
    var n :| n in seen && Resolve(s, n) == Some(x);
    assert Expanded(s, id, n, seen);
    var m :| m in Deps(s.projects[x]) && Resolve(s, m) == Some(y);
    assert m in seen;
  }

  lemma NotSeen(s: Reg, id: int, seen: set<string>)
    requires forall n :: n in seen ==> Expanded(s, id, n, seen)
    ensures id !in SeenProjects(s, seen)
  {
    forall n | n in seen
      ensures Resolve(s, n) != Some(id)
    {
      assert Expanded(s, id, n, seen);
    }
  }

  lemma NothingLeadsBack(s: Reg, id: int, deps: seq<string>, seen: set<string>)
    requires forall n :: n in seen ==> Expanded(s, id, n, seen)
    requires forall n :: n in deps ==> n in seen
    ensures !LeadsBack(s, deps, id)
  {
    var e, all := Edges(s), SeenProjects(s, seen);
    forall x, y | x in all && e(x, y)
      ensures y in all
    {
      SeenIsClosed(s, id, seen, x, y);
    }
    NotSeen(s, id, seen);
    forall n0, d0 | n0 in deps && Resolve(s, n0) == Some(d0)
      ensures !Reaches(e, d0, id)
    {
      forall k: nat
        ensures !Walk(e, k, d0, id)
      {
        if Walk(e, k, d0, id) {
          ClosedHolds(e, all, k, d0, id);
        }
      }
    }
  }

  /** All names stored anywhere or declared; the search meets no others. */
  ghost function StoredNamesOf(s: Reg, deps: seq<string>): (all: set<string>)
    ensures forall n :: n in deps ==> n in all
    ensures forall p, n :: p in s.projects && n in Deps(s.projects[p]) ==> n in all
  {
    (set n | n in deps) + (set p, n | p in s.projects && n in Deps(s.projects[p]) :: n)
  }

  function Listed(seen: set<string>, queue: seq<string>): set<string> {
    seen + set n | n in queue
  }

  /** What the search has established so far. */
  ghost predicate Searching(s: Reg, id: int, deps: seq<string>, seen: set<string>, queue: seq<string>) {
    && (forall n :: n in deps ==> n in Listed(seen, queue))
    && (forall n :: n in seen ==> Expanded(s, id, n, Listed(seen, queue)))
    && (forall n :: n in queue ==> Origin(s, deps, n))
  }

  lemma SearchDrop(s: Reg, id: int, deps: seq<string>, seen: set<string>, queue: seq<string>)
    requires queue != [] && Searching(s, id, deps, seen, queue)
    requires queue[0] in seen || Resolve(s, queue[0]) == None
    ensures Searching(s, id, deps, seen + {queue[0]}, queue[1..])
  {
    SameListed(seen, queue);
  }

  lemma SameListed(seen: set<string>, queue: seq<string>)
    requires queue != []
    ensures Listed(seen + {queue[0]}, queue[1..]) == Listed(seen, queue)
    ensures forall n :: n in queue[1..] ==> n in queue
  {
    assert queue == [queue[0]] + queue[1..];
  }

  lemma SearchGrow(s: Reg, id: int, deps: seq<string>, seen: set<string>, queue: seq<string>, p: int)
    requires queue != [] && Searching(s, id, deps, seen, queue)
    requires Resolve(s, queue[0]) == Some(p) && p in s.projects && p != id
    ensures Searching(s, id, deps, seen + {queue[0]}, queue[1..] + Deps(s.projects[p]))
  {
    SameListed(seen, queue);
    var listed := Listed(seen + {queue[0]}, queue[1..] + Deps(s.projects[p]));
    assert forall n :: n in Listed(seen, queue) ==> n in listed;
    forall n | n in seen + {queue[0]}
      ensures Expanded(s, id, n, listed)
    {
      if n in seen {
        assert Expanded(s, id, n, Listed(seen, queue));
      }
    }
    OriginLeads(s, deps, queue[0], p);
  }

  /** The names not yet seen are in the pool, so the search ends. */
  ghost predicate Pool(s: Reg, seen: set<string>, queue: seq<string>, unseen: set<string>) {
    && (forall n :: n in queue ==> n in seen || n in unseen)
    && (forall p, n :: p in s.projects && n in Deps(s.projects[p]) ==> n in seen || n in unseen)
  }

  lemma PoolShrinks(s: Reg, seen: set<string>, queue: seq<string>, unseen: set<string>)
    requires Pool(s, seen, queue, unseen) && queue != [] && queue[0] !in seen
    ensures Pool(s, seen + {queue[0]}, queue[1..], unseen - {queue[0]})
    ensures forall p :: p in s.projects ==>
            Pool(s, seen + {queue[0]}, queue[1..] + Deps(s.projects[p]), unseen - {queue[0]})
    ensures |unseen - {queue[0]}| < |unseen|
  {
    assert queue == [queue[0]] + queue[1..];
  }

  lemma SearchSkip(s: Reg, id: int, deps: seq<string>, seen: set<string>, queue: seq<string>, unseen: set<string>)
    requires queue != [] && queue[0] in seen && Searching(s, id, deps, seen, queue) && Pool(s, seen, queue, unseen)
    ensures Searching(s, id, deps, seen, queue[1..]) && Pool(s, seen, queue[1..], unseen)
  {
    assert seen + {queue[0]} == seen;
    SearchDrop(s, id, deps, seen, queue);
  }

  lemma SearchOver(s: Reg, id: int, deps: seq<string>, seen: set<string>)
    requires Searching(s, id, deps, seen, [])
    ensures !LeadsBack(s, deps, id)
  {
    assert Listed(seen, []) == seen;
    NothingLeadsBack(s, id, deps, seen);
  }

  /** The search goes on: what it established, with less left to see or to look up. */
  ghost predicate Onward(s: Reg, id: int, deps: seq<string>, seen: set<string>, queue: seq<string>,
                         unseen: set<string>) {
    Searching(s, id, deps, seen, queue) && Pool(s, seen, queue, unseen)
  }

  /** Looks at the first name of the queue. */
  method VisitName(s: Reg, id: int, deps: seq<string>, seen0: set<string>, queue0: seq<string>,
                   ghost unseen0: set<string>)
    returns (cycle: bool, seen: set<string>, queue: seq<string>, ghost unseen: set<string>)
    requires UniqueNames(s) && queue0 != [] && Onward(s, id, deps, seen0, queue0, unseen0)
    ensures cycle ==> LeadsBack(s, deps, id)
    ensures !cycle ==> Onward(s, id, deps, seen, queue, unseen)
    ensures !cycle ==> |unseen| < |unseen0| || (unseen == unseen0 && |queue| < |queue0|)
  {
    var name := queue0[0];
    cycle, seen, queue, unseen := false, seen0, queue0[1..], unseen0;
    if name in seen0 {
      SearchSkip(s, id, deps, seen0, queue0, unseen0);
      return;
    }
    var p := FindProject(s, name);
    if p == Some(id) {
      OriginLeads(s, deps, name, id);
      cycle := true;
      return;
    }
    PoolShrinks(s, seen0, queue0, unseen0);
    seen, unseen := seen0 + {name}, unseen0 - {name};
    if p.None? {
      SearchDrop(s, id, deps, seen0, queue0);
    } else {
      SearchGrow(s, id, deps, seen0, queue0, p.value);
      queue := queue + Deps(s.projects[p.value]);
    }
  }

  /** Whether some declared dependency already leads back to id. */
  method RefuseDependsCycle(s: Reg, id: int, deps: seq<string>) returns (cycle: bool)
    requires UniqueNames(s)
    ensures cycle <==> LeadsBack(s, deps, id)
  {
    var seen: set<string> := {};
    var queue := deps;
    ghost var unseen := StoredNamesOf(s, deps);
    while queue != []
      invariant Onward(s, id, deps, seen, queue, unseen)
      decreases |unseen|, |queue|
    {
      cycle, seen, queue, unseen := VisitName(s, id, deps, seen, queue, unseen);
      if cycle {
        return true;
      }
    }
    SearchOver(s, id, deps, seen);
    return false;
  }

  /** A name is looked up as a project, then as an alias. */
  method FindProject(s: Reg, name: string) returns (r: Option<int>)
    requires UniqueNames(s)
    ensures r == Resolve(s, name) && (r.Some? ==> r.value in s.projects)
  {
    if id :| id in s.projects && s.projects[id].name == name {
      assert Named(s, name, id);
      return Some(id);
    }
    assert forall id :: !Named(s, name, id);
    if name in s.aliases && s.aliases[name] in s.projects {
      return Some(s.aliases[name]);
    }
    return None;
  }
}
