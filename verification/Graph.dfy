/** Directed graphs of transactions: paths, reachability, cycles and strongly connected components. */
module Graph {
  import opened Bytes

  type TxnId = u64
  type Digraph = map<TxnId, set<TxnId>>

  predicate Edge(g: Digraph, x: TxnId, y: TxnId) {
    x in g && y in g[x]
  }

  /** Every vertex that is a key of the map or a target of an edge. */
  function Vertices(g: Digraph): set<TxnId> {
    g.Keys + set x, y | x in g && y in g[x] :: y
  }

  ghost predicate IsPath(g: Digraph, p: seq<TxnId>) {
    |p| >= 1 && forall i | 0 <= i < |p| - 1 :: Edge(g, p[i], p[i + 1])
  }

  ghost predicate PathFromTo(g: Digraph, p: seq<TxnId>, x: TxnId, y: TxnId) {
    IsPath(g, p) && p[0] == x && p[|p| - 1] == y
  }

  ghost predicate Reach(g: Digraph, x: TxnId, y: TxnId) {
    exists p :: PathFromTo(g, p, x, y)
  }

  ghost predicate OnCycle(g: Digraph, x: TxnId) {
    exists p :: PathFromTo(g, p, x, x) && |p| >= 2
  }

  ghost predicate HasCycle(g: Digraph) {
    exists x :: OnCycle(g, x)
  }

  /** `c` is the strongly connected component of each of its members. */
  ghost predicate IsComponent(g: Digraph, c: set<TxnId>) {
    c != {} && forall a, b :: a in c ==> (b in c <==> Reach(g, a, b) && Reach(g, b, a))
  }

  ghost predicate IsClosed(g: Digraph, s: set<TxnId>) {
    forall x, y :: x in s && Edge(g, x, y) ==> y in s
  }

  lemma ReachRefl(g: Digraph, x: TxnId)
    ensures Reach(g, x, x)
  {
    assert PathFromTo(g, [x], x, x);
  }

  lemma ReachStep(g: Digraph, x: TxnId, y: TxnId)
    requires Edge(g, x, y)
    ensures Reach(g, x, y)
  {
    assert PathFromTo(g, [x, y], x, y);
  }

  lemma PathsJoin(g: Digraph, p: seq<TxnId>, q: seq<TxnId>, x: TxnId, y: TxnId, z: TxnId)
    requires PathFromTo(g, p, x, y) && PathFromTo(g, q, y, z)
    ensures PathFromTo(g, p + q[1..], x, z)
  {
    var r := p + q[1..];
    forall i | 0 <= i < |r| - 1
      ensures Edge(g, r[i], r[i + 1])
    {
      if i >= |p| - 1 {
        assert r[i] == q[i - (|p| - 1)] && r[i + 1] == q[i + 1 - (|p| - 1)];
      }
    }
  }

  lemma ReachTrans(g: Digraph, x: TxnId, y: TxnId, z: TxnId)
    requires Reach(g, x, y) && Reach(g, y, z)
    ensures Reach(g, x, z)
  {
    var p :| PathFromTo(g, p, x, y);
    var q :| PathFromTo(g, q, y, z);
    PathsJoin(g, p, q, x, y, z);
  }

  lemma {:induction false} PathStaysInside(g: Digraph, s: set<TxnId>, p: seq<TxnId>)
    requires IsClosed(g, s) && IsPath(g, p) && p[0] in s
    ensures p[|p| - 1] in s
  {
    if |p| > 1 {
      assert Edge(g, p[0], p[1]);
      var q := p[1..];
      forall i | 0 <= i < |q| - 1 ensures Edge(g, q[i], q[i + 1]) {
        assert Edge(g, p[i + 1], p[i + 2]);
      }
      PathStaysInside(g, s, q);
    }
  }

  lemma ReachStaysInside(g: Digraph, s: set<TxnId>, x: TxnId, y: TxnId)
    requires IsClosed(g, s) && x in s && Reach(g, x, y)
    ensures y in s
  {
    var p :| PathFromTo(g, p, x, y);
    PathStaysInside(g, s, p);
  }

  /** Two distinct vertices that reach each other lie on a cycle. */
  lemma MutualReachIsCycle(g: Digraph, x: TxnId, y: TxnId)
    requires x != y && Reach(g, x, y) && Reach(g, y, x)
    ensures OnCycle(g, x)
  {
    var p :| PathFromTo(g, p, x, y);
    var q :| PathFromTo(g, q, y, x);
    PathsJoin(g, p, q, x, y, x);
  }

  /** The second vertex of a cycle reaches the first. */
  lemma CycleReturns(g: Digraph, x: TxnId) returns (y: TxnId)
    requires OnCycle(g, x)
    ensures Edge(g, x, y) && Reach(g, y, x)
  {
    var p :| PathFromTo(g, p, x, x) && |p| >= 2;
    y := p[1];
    var q := p[1..];
    assert Edge(g, p[0], p[1]);
    forall i | 0 <= i < |q| - 1 ensures Edge(g, q[i], q[i + 1]) {
      assert Edge(g, p[i + 1], p[i + 2]);
    }
    assert PathFromTo(g, q, y, x);
  }
}
