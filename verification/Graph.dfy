/** Directed graphs given by their edge relation: walks, cycles, and when a change makes one. */
module Graph {

  /** A path of n edges. */
  ghost predicate Walk(e: (int, int) -> bool, n: nat, a: int, b: int) {
    if n == 0 then a == b
    else exists y {:trigger e(y, b)} :: Walk(e, n - 1, a, y) && e(y, b)
  }

  ghost predicate Reaches(e: (int, int) -> bool, a: int, b: int) {
    exists n: nat :: Walk(e, n, a, b)
  }

  ghost predicate Acyclic(e: (int, int) -> bool) {
    forall n: nat, a :: n > 0 ==> !Walk(e, n, a, a)
  }

  ghost predicate Subgraph(e: (int, int) -> bool, e': (int, int) -> bool) {
    forall x, y :: e(x, y) ==> e'(x, y)
  }

  lemma {:induction false} WalkCompose(e: (int, int) -> bool, m: nat, n: nat, a: int, b: int, c: int)
    requires Walk(e, m, a, b) && Walk(e, n, b, c)
    ensures Walk(e, m + n, a, c)
    decreases n
  {
    if n > 0 {
      var y :| Walk(e, n - 1, b, y) && e(y, c);
      WalkCompose(e, m, n - 1, a, b, y);
      assert Walk(e, m + n - 1, a, y);
    }
  }

  lemma ReachesSelf(e: (int, int) -> bool, a: int)
    ensures Reaches(e, a, a)
  {
    assert Walk(e, 0, a, a);
  }

  lemma ReachesEdge(e: (int, int) -> bool, a: int, y: int, b: int)
    requires Reaches(e, a, y) && e(y, b)
    ensures Reaches(e, a, b)
  {
    var n: nat :| Walk(e, n, a, y);
    assert Walk(e, n + 1, a, b);
  }

  lemma ReachesTransitive(e: (int, int) -> bool, a: int, b: int, c: int)
    requires Reaches(e, a, b) && Reaches(e, b, c)
    ensures Reaches(e, a, c)
  {
    var m: nat :| Walk(e, m, a, b);
    var n: nat :| Walk(e, n, b, c);
    WalkCompose(e, m, n, a, b, c);
  }

  /** A set that no edge leaves holds everything reachable from its members. */
  lemma {:induction false} ClosedHolds(e: (int, int) -> bool, all: set<int>, n: nat, a: int, b: int)
    requires a in all && Walk(e, n, a, b) && forall x, y :: x in all && e(x, y) ==> y in all
    ensures b in all
  {
    if n > 0 {
      var y :| Walk(e, n - 1, a, y) && e(y, b);
      ClosedHolds(e, all, n - 1, a, y);
    }
  }

  /** An edge followed by a way back is a cycle. */
  lemma CycleThrough(e: (int, int) -> bool, a: int, b: int)
    requires e(a, b) && Reaches(e, b, a)
    ensures !Acyclic(e)
  {
    var n: nat :| Walk(e, n, b, a);
    assert Walk(e, 0, a, a);
    assert Walk(e, 1, a, b);
    WalkCompose(e, 1, n, a, b, a);
  }

  lemma {:induction false} WalkInLarger(e: (int, int) -> bool, e': (int, int) -> bool, n: nat, a: int, b: int)
    requires Subgraph(e, e') && Walk(e, n, a, b)
    ensures Walk(e', n, a, b)
  {
    if n > 0 {
      var y :| Walk(e, n - 1, a, y) && e(y, b);
      WalkInLarger(e, e', n - 1, a, y);
    }
  }

  /** Fewer edges make no cycle. */
  lemma SubgraphAcyclic(e: (int, int) -> bool, e': (int, int) -> bool)
    requires Subgraph(e, e') && Acyclic(e')
    ensures Acyclic(e)
  {
    forall n: nat, a | n > 0
      ensures !Walk(e, n, a, a)
    {
      if Walk(e, n, a, a) {
        WalkInLarger(e, e', n, a, a);
      }
    }
  }

  /** An edge of e' that e does not have. */
  ghost predicate NewEdge(e: (int, int) -> bool, e': (int, int) -> bool, x: int, y: int) {
    e'(x, y) && !e(x, y)
  }

  /** A walk of e' that is none of e last takes some new edge and goes on along old ones. */
  lemma {:induction false} LastNewEdge(e: (int, int) -> bool, e': (int, int) -> bool, n: nat, a: int, b: int)
    returns (x: int, y: int)
    requires Walk(e', n, a, b) && !Walk(e, n, a, b)
    ensures NewEdge(e, e', x, y) && Reaches(e, y, b)
  {
    var z :| Walk(e', n - 1, a, z) && e'(z, b);
    if e(z, b) {
      x, y := LastNewEdge(e, e', n - 1, a, z);
      ReachesEdge(e, y, z, b);
    } else {
      x, y := z, b;
      ReachesSelf(e, b);
    }
  }

  /** ... and first goes along old ones to some new edge. */
  lemma {:induction false} FirstNewEdge(e: (int, int) -> bool, e': (int, int) -> bool, n: nat, a: int, b: int)
    returns (x: int, y: int)
    requires Walk(e', n, a, b) && !Walk(e, n, a, b)
    ensures NewEdge(e, e', x, y) && Reaches(e, a, x)
  {
    var z :| Walk(e', n - 1, a, z) && e'(z, b);
    if Walk(e, n - 1, a, z) {
      x, y := z, b;
    } else {
      x, y := FirstNewEdge(e, e', n - 1, a, z);
    }
  }

  /** A cycle that only new edges make: from the head of one, old edges lead to the tail of another. */
  lemma CycleUsesNewEdges(e: (int, int) -> bool, e': (int, int) -> bool, n: nat, a: int)
    returns (x: int, y: int, x': int, y': int)
    requires Acyclic(e) && n > 0 && Walk(e', n, a, a)
    ensures NewEdge(e, e', x, y) && NewEdge(e, e', x', y') && Reaches(e, y, x')
  {
    x, y := LastNewEdge(e, e', n, a, a);
    x', y' := FirstNewEdge(e, e', n, a, a);
    ReachesTransitive(e, y, a, x');
  }

  /** A walk either stays in the graph without a node's edges or passes through the node. */
  lemma {:induction false} WalkOrHit(e: (int, int) -> bool, e': (int, int) -> bool, hit: int, n: nat, a: int, b: int)
    requires forall x, y :: x != hit && e(x, y) ==> e'(x, y)
    requires Walk(e, n, a, b)
    ensures Reaches(e', a, b) || Reaches(e', a, hit)
  {
    if n == 0 {
      ReachesSelf(e', a);
    } else {
      var y :| Walk(e, n - 1, a, y) && e(y, b);
      WalkOrHit(e, e', hit, n - 1, a, y);
      if y != hit && Reaches(e', a, y) {
        ReachesEdge(e', a, y, b);
      }
    }
  }

  /**
    Replacing the edges that leave one node keeps a graph acyclic exactly when none of the new ones
    leads back to it.
   */
  lemma ReplaceOut(e: (int, int) -> bool, e': (int, int) -> bool, id: int)
    requires Acyclic(e) && forall x, y :: x != id ==> e(x, y) == e'(x, y)
    ensures Acyclic(e') <==> forall d :: e'(id, d) ==> !Reaches(e, d, id)
  {
    if forall d :: e'(id, d) ==> !Reaches(e, d, id) {
      forall n: nat, a | n > 0
        ensures !Walk(e', n, a, a)
      {
        if Walk(e', n, a, a) {
          var x, y, x', y' := CycleUsesNewEdges(e, e', n, a);
        }
      }
    } else {
      var d :| e'(id, d) && Reaches(e, d, id);
      var n: nat :| Walk(e, n, d, id);
      WalkOrHit(e, e', id, n, d, id);
      CycleThrough(e', id, d);
    }
  }

  /** A walk from a either keeps clear of `hit` all the way or leads from it to the end. */
  lemma {:induction false} AvoidOrPass(e: (int, int) -> bool, e': (int, int) -> bool, hit: int, n: nat, a: int, b: int)
    requires forall x, y :: x != hit && y != hit && e(x, y) ==> e'(x, y)
    requires Walk(e, n, a, b)
    ensures Reaches(e', a, b) || Reaches(e, hit, b)
  {
    if n == 0 {
      ReachesSelf(e', a);
    } else {
      var y :| Walk(e, n - 1, a, y) && e(y, b);
      AvoidOrPass(e, e', hit, n - 1, a, y);
      if Reaches(e, hit, y) {
        ReachesEdge(e, hit, y, b);
      } else if b == hit {
        ReachesSelf(e, hit);
      } else {
        ReachesSelf(e, hit);
        ReachesEdge(e', a, y, b);
      }
    }
  }

  lemma {:induction false} WalkRises(e: (int, int) -> bool, rank: int -> int, n: nat, a: int, b: int)
    requires (forall x, y :: e(x, y) ==> rank(x) < rank(y)) && Walk(e, n, a, b)
    ensures rank(a) + n <= rank(b)
  {
    if n > 0 {
      var y :| Walk(e, n - 1, a, y) && e(y, b);
      WalkRises(e, rank, n - 1, a, y);
    }
  }

  /** A graph whose edges all rise has no cycle. */
  lemma RankAcyclic(e: (int, int) -> bool, rank: int -> int)
    requires forall x, y :: e(x, y) ==> rank(x) < rank(y)
    ensures Acyclic(e)
  {
    forall n: nat, a | n > 0
      ensures !Walk(e, n, a, a)
    {
      if Walk(e, n, a, a) {
        WalkRises(e, rank, n, a, a);
      }
    }
  }
}
