/** Walks in a finite directed graph: the vocabulary shared by DAG ordering,
    lineage traversal and PII propagation. */
module Graphs {

  /** Consecutive nodes of p are joined by edges. A single node is a walk of length 0. */
  ghost predicate IsWalk<T(!new)>(edges: set<(T, T)>, p: seq<T>) {
    |p| > 0 && forall i {:trigger p[i]} | 0 <= i < |p| - 1 :: (p[i], p[i + 1]) in edges
  }

  ghost predicate WalkFromTo<T(!new)>(edges: set<(T, T)>, u: T, v: T, p: seq<T>) {
    IsWalk(edges, p) && p[0] == u && p[|p| - 1] == v
  }

  /** v can be reached from u over at least one edge. */
  ghost predicate Reaches<T(!new)>(edges: set<(T, T)>, u: T, v: T) {
    exists p :: WalkFromTo(edges, u, v, p) && |p| >= 2
  }

  /** v is u or can be reached from it. */
  ghost predicate ReachesOrIs<T(!new)>(edges: set<(T, T)>, u: T, v: T) {
    exists p :: WalkFromTo(edges, u, v, p)
  }

  ghost predicate Acyclic<T(!new)>(edges: set<(T, T)>) {
    forall v :: !Reaches(edges, v, v)
  }

  ghost predicate Distinct<T>(p: seq<T>) {
    forall i, j | 0 <= i < j < |p| :: p[i] != p[j]
  }

  lemma JoinWalks<T(!new)>(edges: set<(T, T)>, u: T, v: T, w: T, p: seq<T>, q: seq<T>)
    requires WalkFromTo(edges, u, v, p) && WalkFromTo(edges, v, w, q)
    ensures WalkFromTo(edges, u, w, p + q[1..]) && |p + q[1..]| == |p| + |q| - 1
  {
    var r := p + q[1..];
    forall i {:trigger r[i]} | 0 <= i < |r| - 1
      ensures (r[i], r[i + 1]) in edges
    {
      if i < |p| - 1 {
        assert (p[i], p[i + 1]) in edges;
      } else {
        var k := i - (|p| - 1);
        assert (q[k], q[k + 1]) in edges;
      }
    }
  }

  lemma StepWalk<T(!new)>(edges: set<(T, T)>, u: T, v: T, w: T, p: seq<T>)
    requires WalkFromTo(edges, u, v, p) && (v, w) in edges
    ensures WalkFromTo(edges, u, w, p + [w])
  {
    var q := [v, w];
    assert WalkFromTo(edges, v, w, q);
    JoinWalks(edges, u, v, w, p, q);
    assert q[1..] == [w];
  }

  /** Every walk can be cut down, loop by loop, to one that repeats no node. */
  lemma {:induction false} CutLoops<T(!new)>(edges: set<(T, T)>, u: T, v: T, p: seq<T>) returns (q: seq<T>)
    requires WalkFromTo(edges, u, v, p)
    ensures WalkFromTo(edges, u, v, q) && Distinct(q) && |q| <= |p|
    decreases |p|
  {
    if Distinct(p) {
      q := p;
    } else {
      var i, j :| 0 <= i < j < |p| && p[i] == p[j];
      var head, tail := p[..i + 1], p[j..];
      assert WalkFromTo(edges, u, p[i], head);
      assert WalkFromTo(edges, p[j], v, tail);
      JoinWalks(edges, u, p[i], v, head, tail);
      q := CutLoops(edges, u, v, head + tail[1..]);
    }
  }

  /** A sequence without repetitions is no longer than any set holding its elements. */
  lemma {:induction false} DistinctBound<T>(p: seq<T>, s: set<T>)
    requires Distinct(p) && forall x | x in p :: x in s
    ensures |p| <= |s|
    decreases |p|
  {
    if |p| > 0 {
      DistinctBound(p[1..], s - {p[0]});
    }
  }

  /** A sequence without repetitions that is as long as the set holding it lists the whole set. */
  lemma {:induction false} DistinctCovers<T>(p: seq<T>, s: set<T>)
    requires Distinct(p) && (forall x | x in p :: x in s) && |p| == |s|
    ensures forall x | x in s :: x in p
    decreases |p|
  {
    if |p| > 0 {
      DistinctCovers(p[1..], s - {p[0]});
      forall x | x in s
        ensures x in p
      {
        assert x == p[0] || x in p[1..];
      }
    } else {
      assert s == {};
    }
  }

  ghost predicate HasPredecessorIn<T(!new)>(edges: set<(T, T)>, s: set<T>, v: T) {
    exists u :: u in s && (u, v) in edges
  }

  ghost predicate NoSource<T(!new)>(edges: set<(T, T)>, s: set<T>) {
    forall v | v in s :: HasPredecessorIn(edges, s, v)
  }

  /** Walking backwards inside a set where every node has a predecessor never gets stuck. */
  lemma {:induction false} BackwardWalk<T(!new)>(edges: set<(T, T)>, s: set<T>, v: T, n: nat) returns (p: seq<T>)
    requires v in s && NoSource(edges, s)
    ensures IsWalk(edges, p) && |p| == n + 1 && p[n] == v && forall x | x in p :: x in s
  {
    if n == 0 {
      p := [v];
    } else {
      assert HasPredecessorIn(edges, s, v);
      var u :| u in s && (u, v) in edges;
      var q := BackwardWalk(edges, s, u, n - 1);
      StepWalk(edges, q[0], u, v, q);
      p := q + [v];
    }
  }

  /** A non-empty finite set in which every node has a predecessor contains a cycle. */
  lemma NoSourceMeansCycle<T(!new)>(edges: set<(T, T)>, s: set<T>)
    requires s != {} && NoSource(edges, s)
    ensures !Acyclic(edges)
  {
    var v :| v in s;
    var p := BackwardWalk(edges, s, v, |s|);
    assert !Distinct(p) by {
      if Distinct(p) {
        DistinctBound(p, s);
      }
    }
    var i, j :| 0 <= i < j < |p| && p[i] == p[j];
    assert WalkFromTo(edges, p[i], p[i], p[i..j + 1]);
    assert Reaches(edges, p[i], p[i]);
  }

  /** A cycle that appears with the edge s -> d was there before, or closes a way back from d to s. */
  lemma NewCycleNeedsWayBack<T(!new)>(edges: set<(T, T)>, s: T, d: T, v: T, p: seq<T>)
    requires s != d && WalkFromTo(edges + {(s, d)}, v, v, p) && |p| >= 2
    ensures Reaches(edges, v, v) || Reaches(edges, d, s)
  {
    var more := edges + {(s, d)};
    if !IsWalk(edges, p) {
      var i :| 0 <= i < |p| - 1 && (p[i], p[i + 1]) !in edges;
      assert (p[i], p[i + 1]) in more;
      var back, out := p[i + 1..], p[..i + 1];
      assert WalkFromTo(more, d, v, back);
      assert WalkFromTo(more, v, s, out);
      JoinWalks(more, d, v, s, back, out);
      var q := CutLoops(more, d, s, back + out[1..]);
      forall k {:trigger q[k]} | 0 <= k < |q| - 1
        ensures (q[k], q[k + 1]) in edges
      {
        assert (q[k], q[k + 1]) in more && q[k] != q[|q| - 1];
      }
      assert WalkFromTo(edges, d, s, q);
    }
  }

  /** Adding an edge whose head does not already lead back to its tail keeps a graph acyclic. */
  lemma AddEdgeKeepsAcyclic<T(!new)>(edges: set<(T, T)>, s: T, d: T)
    requires Acyclic(edges) && s != d && !Reaches(edges, d, s)
    ensures Acyclic(edges + {(s, d)})
  {
    var more := edges + {(s, d)};
    forall v
      ensures !Reaches(more, v, v)
    {
      if p :| WalkFromTo(more, v, v, p) && |p| >= 2 {
        NewCycleNeedsWayBack(edges, s, d, v, p);
      }
    }
  }

}
