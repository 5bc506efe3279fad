/** Walks, balls and distances in a finitely branching directed graph. */
module Graphs {

  /** The successor list of every node id. */
  type Graph = string -> seq<string>

  ghost predicate IsWalk(g: Graph, w: seq<string>) {
    && |w| > 0
    && forall i :: 0 <= i < |w| - 1 ==> w[i + 1] in g(w[i])
  }

  /** v can be reached from a root by exactly n edges. */
  ghost predicate ReachedBy(g: Graph, roots: set<string>, v: string, n: nat) {
    exists w :: IsWalk(g, w) && w[0] in roots && |w| == n + 1 && w[n] == v
  }

  /** d is the least number of edges that leads from a root to v. */
  ghost predicate IsDistance(g: Graph, roots: set<string>, v: string, d: nat) {
    && ReachedBy(g, roots, v, d)
    && forall k: nat :: k < d ==> !ReachedBy(g, roots, v, k)
  }

  ghost function Successors(g: Graph, s: set<string>): set<string> {
    set x, y | x in s && y in g(x) :: y
  }

  /** The nodes at most n edges away from a root. */
  ghost function Ball(g: Graph, roots: set<string>, n: nat): set<string> {
    if n == 0 then roots else Ball(g, roots, n - 1) + Successors(g, Ball(g, roots, n - 1))
  }

  /** The ball of radius d without the ball of radius d - 1. */
  ghost predicate InShell(g: Graph, roots: set<string>, v: string, d: nat) {
    v in Ball(g, roots, d) && (d > 0 ==> v !in Ball(g, roots, d - 1))
  }

  lemma {:induction false} BallGrows(g: Graph, roots: set<string>, m: nat, n: nat)
    requires m <= n
    ensures Ball(g, roots, m) <= Ball(g, roots, n)
    decreases n
  {
    if m < n {
      BallGrows(g, roots, m, n - 1);
    }
  }

  /** Once one more step finds nothing new, no further step does. */
  lemma {:induction false} BallFixpoint(g: Graph, roots: set<string>, m: nat, n: nat)
    requires m <= n
    requires Successors(g, Ball(g, roots, m)) <= Ball(g, roots, m)
    ensures Ball(g, roots, n) == Ball(g, roots, m)
    decreases n
  {
    hide Successors;
    if m < n {
      BallFixpoint(g, roots, m, n - 1);
      assert Ball(g, roots, n) == Ball(g, roots, m) + Successors(g, Ball(g, roots, m));
    }
  }

  lemma {:induction false} WalkStaysInBall(g: Graph, roots: set<string>, w: seq<string>)
    requires IsWalk(g, w) && w[0] in roots
    ensures w[|w| - 1] in Ball(g, roots, |w| - 1)
    decreases |w|
  {
    if |w| > 1 {
      var front := w[..|w| - 1];
      WalkStaysInBall(g, roots, front);
      assert w[|w| - 1] in g(w[|w| - 2]);
    }
  }

  lemma {:induction false} BallHasWalk(g: Graph, roots: set<string>, v: string, n: nat)
    requires v in Ball(g, roots, n)
    ensures exists k: nat :: k <= n && ReachedBy(g, roots, v, k)
    decreases n
  {
    if n == 0 {
      assert IsWalk(g, [v]);
      assert ReachedBy(g, roots, v, 0);
    } else if v in Ball(g, roots, n - 1) {
      BallHasWalk(g, roots, v, n - 1);
    } else {
      var x :| x in Ball(g, roots, n - 1) && v in g(x);
      BallHasWalk(g, roots, x, n - 1);
      var k: nat :| k <= n - 1 && ReachedBy(g, roots, x, k);
      WalkExtends(g, roots, x, v, k);
    }
  }

  lemma WalkExtends(g: Graph, roots: set<string>, x: string, v: string, k: nat)
    requires ReachedBy(g, roots, x, k) && v in g(x)
    ensures ReachedBy(g, roots, v, k + 1)
  {
    var w :| IsWalk(g, w) && w[0] in roots && |w| == k + 1 && w[k] == x;
    var longer := w + [v];
    assert forall i :: 0 <= i < |longer| - 1 ==> longer[i + 1] in g(longer[i]) by {
      forall i | 0 <= i < |longer| - 1
        ensures longer[i + 1] in g(longer[i])
      {
        if i < |w| - 1 {
          assert w[i + 1] in g(w[i]);
        }
      }
    }
    assert IsWalk(g, longer) && longer[k + 1] == v;
  }

  /** One edge leads from a ball into the next larger one. */
  lemma StepIntoBall(g: Graph, roots: set<string>, x: string, y: string, n: nat)
    requires y in g(x)
    ensures x in Ball(g, roots, n) ==> y in Ball(g, roots, n + 1)
  {
    assert x in Ball(g, roots, n) ==> y in Successors(g, Ball(g, roots, n));
  }

  lemma BallStep(g: Graph, roots: set<string>, n: nat)
    ensures Ball(g, roots, n + 1) == Ball(g, roots, n) + Successors(g, Ball(g, roots, n))
  {
  }

  /** A node has one distance at most. */
  lemma ShellUnique(g: Graph, roots: set<string>, v: string, d: nat, e: nat)
    requires InShell(g, roots, v, d) && InShell(g, roots, v, e)
    ensures d == e
  {
    if d < e {
      BallGrows(g, roots, d, e - 1);
    } else if e < d {
      BallGrows(g, roots, e, d - 1);
    }
  }

  /** The two readings of distance agree: shells of balls, and shortest walks. */
  lemma ShellIsDistance(g: Graph, roots: set<string>, v: string, d: nat)
    ensures InShell(g, roots, v, d) <==> IsDistance(g, roots, v, d)
  {
    if InShell(g, roots, v, d) {
      BallHasWalk(g, roots, v, d);
      var k: nat :| k <= d && ReachedBy(g, roots, v, k);
      forall j: nat | j < d
        ensures !ReachedBy(g, roots, v, j)
      {
        if ReachedBy(g, roots, v, j) {
          var w :| IsWalk(g, w) && w[0] in roots && |w| == j + 1 && w[j] == v;
          WalkStaysInBall(g, roots, w);
          BallGrows(g, roots, j, d - 1);
        }
      }
    }
    if IsDistance(g, roots, v, d) {
      var w :| IsWalk(g, w) && w[0] in roots && |w| == d + 1 && w[d] == v;
      WalkStaysInBall(g, roots, w);
      if d > 0 && v in Ball(g, roots, d - 1) {
        BallHasWalk(g, roots, v, d - 1);
      }
    }
  }

  /** A ball holds exactly the nodes some walk of that length or less reaches. */
  lemma {:induction false} BallIsReach(g: Graph, roots: set<string>, v: string, n: nat)
    ensures v in Ball(g, roots, n) <==> exists k: nat :: k <= n && ReachedBy(g, roots, v, k)
  {
    if v in Ball(g, roots, n) {
      BallHasWalk(g, roots, v, n);
    }
    if k: nat :| k <= n && ReachedBy(g, roots, v, k) {
      var w :| IsWalk(g, w) && w[0] in roots && |w| == k + 1 && w[k] == v;
      WalkStaysInBall(g, roots, w);
      BallGrows(g, roots, k, n);
    }
  }

  /** A set that holds the roots and is closed under edges holds everything reachable. */
  lemma {:induction false} ClosedHoldsReach(g: Graph, roots: set<string>, closed: set<string>, v: string, n: nat)
    requires roots <= closed && Successors(g, closed) <= closed
    requires ReachedBy(g, roots, v, n)
    ensures v in closed
  {
    var w :| IsWalk(g, w) && w[0] in roots && |w| == n + 1 && w[n] == v;
    var i := 0;
    while i < n
      invariant 0 <= i <= n && w[i] in closed
    {
      assert w[i + 1] in g(w[i]);
      i := i + 1;
    }
  }

  /** A set that holds the roots and is closed under edges holds every ball. */
  lemma {:induction false} ClosedHoldsBall(g: Graph, roots: set<string>, closed: set<string>, n: nat)
    requires roots <= closed && Successors(g, closed) <= closed
    ensures Ball(g, roots, n) <= closed
  {
    if n > 0 {
      ClosedHoldsBall(g, roots, closed, n - 1);
    }
  }
}
