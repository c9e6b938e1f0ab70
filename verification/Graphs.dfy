/** Finite directed graphs as sets of edges.
  *
  * Both the external-proxy chains and the egress landings are refused when they would
  * close a loop; the reachability facts the two share are proved here once. */
module Graphs {

  type Node = string
  type Edges = set<(Node, Node)>

  // A walk along edges, the one-node walk included.
  ghost predicate Walk(edges: Edges, p: seq<Node>) {
    |p| > 0 && forall i :: 0 <= i < |p| - 1 ==> (p[i], p[i + 1]) in edges
  }

  ghost predicate WalkFromTo(edges: Edges, p: seq<Node>, a: Node, b: Node) {
    Walk(edges, p) && p[0] == a && p[|p| - 1] == b
  }

  ghost predicate Reaches(edges: Edges, a: Node, b: Node) {
    exists p :: WalkFromTo(edges, p, a, b)
  }

  // No edge can be completed into a loop.
  ghost predicate Acyclic(edges: Edges) {
    forall a, b :: (a, b) in edges ==> !Reaches(edges, b, a)
  }

  ghost function NotLeaving(edges: Edges, n: Node): Edges {
    set e | e in edges && e.0 != n
  }

  lemma ReachesSelf(edges: Edges, a: Node)
    ensures Reaches(edges, a, a)
  {
    assert WalkFromTo(edges, [a], a, a);
  }

  lemma ReachesStep(edges: Edges, a: Node, b: Node, c: Node)
    requires (a, b) in edges && Reaches(edges, b, c)
    ensures Reaches(edges, a, c)
  {
    var p :| WalkFromTo(edges, p, b, c);
    assert WalkFromTo(edges, [a] + p, a, c);
  }

  lemma ReachesJoin(edges: Edges, a: Node, b: Node, c: Node)
    requires Reaches(edges, a, b) && Reaches(edges, b, c)
    ensures Reaches(edges, a, c)
  {
    var p :| WalkFromTo(edges, p, a, b);
    var q :| WalkFromTo(edges, q, b, c);
    assert WalkFromTo(edges, p + q[1..], a, c);
  }

  lemma ReachesMore(fewer: Edges, more: Edges, a: Node, b: Node)
    requires fewer <= more && Reaches(fewer, a, b)
    ensures Reaches(more, a, b)
  {
    var p :| WalkFromTo(fewer, p, a, b);
    assert WalkFromTo(more, p, a, b);
  }

  // Dropping edges cannot create a loop.
  lemma AcyclicFewer(fewer: Edges, more: Edges)
    requires fewer <= more && Acyclic(more)
    ensures Acyclic(fewer)
  {
    forall a, b | (a, b) in fewer ensures !Reaches(fewer, b, a) {
      if Reaches(fewer, b, a) { ReachesMore(fewer, more, b, a); }
    }
  }

  lemma {:induction false} WalkStaysInside(edges: Edges, s: set<Node>, p: seq<Node>, i: nat)
    requires forall x, y :: (x, y) in edges && x in s ==> y in s
    requires Walk(edges, p) && p[0] in s && i < |p|
    ensures p[i] in s
  {
    if i > 0 {
      WalkStaysInside(edges, s, p, i - 1);
      assert (p[i - 1], p[i]) in edges;
    }
  }

  // A set closed under successors holds everything reachable from its members.
  lemma ClosedHoldsReachable(edges: Edges, s: set<Node>, a: Node, b: Node)
    requires forall x, y :: (x, y) in edges && x in s ==> y in s
    requires a in s && Reaches(edges, a, b)
    ensures b in s
  {
    var p :| WalkFromTo(edges, p, a, b);
    WalkStaysInside(edges, s, p, |p| - 1);
  }

  // A walk in the extended graph either never needed the new edge, or crosses it.
  lemma {:induction false} WalkWithEdge(edges: Edges, n: Node, t: Node, p: seq<Node>)
    requires Walk(edges + {(n, t)}, p)
    ensures Reaches(edges, p[0], p[|p| - 1]) ||
            (Reaches(edges, p[0], n) && Reaches(edges, t, p[|p| - 1]))
    decreases |p|
  {
    var last := p[|p| - 1];
    ReachesSelf(edges, last);
    if |p| > 1 {
      WalkWithEdge(edges, n, t, p[1..]);
      assert (p[0], p[1]) in edges + {(n, t)};
      if (p[0], p[1]) in edges {
        if Reaches(edges, p[1], last) {
          ReachesStep(edges, p[0], p[1], last);
        } else {
          ReachesStep(edges, p[0], p[1], n);
        }
      } else {
        ReachesSelf(edges, n);
      }
    }
  }

  lemma LoopWasThere(edges: Edges, n: Node, t: Node, a: Node, b: Node)
    requires Acyclic(edges)
    requires (a, b) in edges + {(n, t)}
    requires Reaches(edges, b, a) || (Reaches(edges, b, n) && Reaches(edges, t, a))
    ensures Reaches(edges, t, n)
  {
    if (a, b) in edges {
      assert !Reaches(edges, b, a);
      ReachesStep(edges, a, b, n);
      ReachesJoin(edges, t, a, n);
    }
  }

  // One more edge keeps the graph acyclic exactly when its head did not already reach its tail.
  lemma AcyclicWithEdge(edges: Edges, n: Node, t: Node)
    requires Acyclic(edges)
    ensures Acyclic(edges + {(n, t)}) <==> !Reaches(edges, t, n)
  {
    var more := edges + {(n, t)};
    if Reaches(edges, t, n) {
      ReachesMore(edges, more, t, n);
      assert (n, t) in more;
    } else {
      forall a, b | (a, b) in more ensures !Reaches(more, b, a) {
        if Reaches(more, b, a) {
          var p :| WalkFromTo(more, p, b, a);
          WalkWithEdge(edges, n, t, p);
          LoopWasThere(edges, n, t, a, b);
        }
      }
    }
  }

  // Reaching b never needs the edges that leave b.
  lemma {:induction false} ReachesWithoutLeaving(edges: Edges, p: seq<Node>)
    requires Walk(edges, p)
    ensures Reaches(NotLeaving(edges, p[|p| - 1]), p[0], p[|p| - 1])
    decreases |p|
  {
    var b := p[|p| - 1];
    var kept := NotLeaving(edges, b);
    if p[0] == b {
      ReachesSelf(kept, b);
    } else {
      ReachesWithoutLeaving(edges, p[1..]);
      assert (p[0], p[1]) in kept;
      ReachesStep(kept, p[0], p[1], b);
    }
  }

  // Pointing n at t instead of wherever it pointed: acyclic exactly when t did not reach n,
  // whether the walk is taken before or after n's own edges are dropped.
  lemma AcyclicRedirected(edges: Edges, n: Node, t: Node)
    requires Acyclic(edges)
    ensures Acyclic(NotLeaving(edges, n) + {(n, t)}) <==> !Reaches(edges, t, n)
  {
    var kept := NotLeaving(edges, n);
    AcyclicFewer(kept, edges);
    AcyclicWithEdge(kept, n, t);
    if Reaches(edges, t, n) {
      var p :| WalkFromTo(edges, p, t, n);
      ReachesWithoutLeaving(edges, p);
    }
    if Reaches(kept, t, n) {
      ReachesMore(kept, edges, t, n);
    }
  }

  // Two more edges, each harmless by itself, close a loop exactly when each one's head reaches the
  // other one's tail.
  lemma AcyclicWithTwoEdges(edges: Edges, a: Node, s: Node, b: Node, t: Node)
    requires Acyclic(edges) && !Reaches(edges, s, a) && !Reaches(edges, t, b)
    ensures Acyclic(edges + {(a, s)} + {(b, t)}) <==> !(Reaches(edges, s, b) && Reaches(edges, t, a))
  {
    var one := edges + {(a, s)};
    AcyclicWithEdge(edges, a, s);
    AcyclicWithEdge(one, b, t);
    if Reaches(one, t, b) {
      var p :| WalkFromTo(one, p, t, b);
      WalkWithEdge(edges, a, s, p);
    }
    if Reaches(edges, s, b) && Reaches(edges, t, a) {
      ReachesMore(edges, one, s, b);
      ReachesMore(edges, one, t, a);
      ReachesStep(one, a, s, b);
      ReachesJoin(one, t, a, b);
    }
  }
}
