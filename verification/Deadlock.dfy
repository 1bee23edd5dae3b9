/**
 The wait-for graph and its deadlock detector (crabstash-lock/src/deadlock.rs): Tarjan's algorithm
 over in-place maps and a stack, run over the graph in an arbitrary iteration order.
 */
module Deadlock {
  import opened Bytes
  import opened Graph

  // ---------------------------------------------------------------- search state

  /** A snapshot of the fields of `TarjanState`. */
  datatype View = View(
    counter: nat,
    stack: seq<TxnId>,
    indices: map<TxnId, nat>,
    lowlinks: map<TxnId, nat>,
    onStack: set<TxnId>,
    sccs: seq<seq<TxnId>>)

  class TarjanState {
    var indexCounter: nat
    var stack: seq<TxnId>
    var indices: map<TxnId, nat>
    var lowlinks: map<TxnId, nat>
    var onStack: set<TxnId>
    var sccs: seq<seq<TxnId>>

    constructor ()
      ensures Snapshot() == View(0, [], map[], map[], {}, [])
    {
      indexCounter, stack, indices, lowlinks, onStack, sccs := 0, [], map[], map[], {}, [];
    }

    function Snapshot(): View
      reads this
    {
      View(indexCounter, stack, indices, lowlinks, onStack, sccs)
    }
  }

  function Elements(s: seq<TxnId>): set<TxnId> {
    set x | x in s
  }

  /** Vertices whose component has been emitted. */
  function Done(s: View): set<TxnId> {
    s.indices.Keys - s.onStack
  }

  ghost predicate Shape(s: View) {
    && s.indices.Keys == s.lowlinks.Keys
    && s.onStack == Elements(s.stack)
    && s.onStack <= s.indices.Keys
    && (forall v | v in s.indices :: s.indices[v] < s.counter)
    && (forall i | 0 <= i < |s.stack| :: s.stack[i] in s.indices)
    && (forall i, j | 0 <= i < j < |s.stack| :: s.indices[s.stack[i]] < s.indices[s.stack[j]])
  }

  /** Only vertices whose call is still open may have an unvisited successor. */
  ghost predicate NoEdgeToUnvisited(g: Digraph, s: View, open: set<TxnId>) {
    forall x, y :: Edge(g, x, y) && x in s.indices && x !in open ==> y in s.indices
  }

  /** A vertex on the stack reaches every vertex above it. */
  ghost predicate StackIsChain(g: Digraph, s: View) {
    forall i, j | 0 <= i <= j < |s.stack| :: Reach(g, s.stack[i], s.stack[j])
  }

  ghost predicate ReachesOpen(g: Digraph, s: View, open: set<TxnId>, y: TxnId)
    requires y in s.indices
  {
    exists x :: x in open && x in s.indices && s.indices[x] <= s.indices[y] && Reach(g, y, x)
  }

  /** A vertex on the stack reaches an open vertex that is not above it. */
  ghost predicate StackReachesOpen(g: Digraph, s: View, open: set<TxnId>) {
    forall y | y in s.stack :: y in s.indices && ReachesOpen(g, s, open, y)
  }

  /** The emitted sequences are disjoint, duplicate-free strongly connected components and cover `covered`. */
  ghost predicate AreComponents(g: Digraph, sccs: seq<seq<TxnId>>, covered: set<TxnId>) {
    && (forall i | 0 <= i < |sccs| :: IsComponent(g, Elements(sccs[i])) && |sccs[i]| == |Elements(sccs[i])|)
    && (forall i, j | 0 <= i < j < |sccs| :: Elements(sccs[i]) !! Elements(sccs[j]))
    && (forall i | 0 <= i < |sccs| :: Elements(sccs[i]) <= covered)
    && (forall v | v in covered :: exists i :: 0 <= i < |sccs| && v in Elements(sccs[i]))
  }

  /** What holds between any two steps of the search, `open` being the vertices whose call is open. */
  ghost predicate Inv(g: Digraph, s: View, open: set<TxnId>) {
    && Shape(s)
    && open <= s.onStack
    && NoEdgeToUnvisited(g, s, open)
    && IsClosed(g, Done(s))
    && StackIsChain(g, s)
    && StackReachesOpen(g, s, open)
    && AreComponents(g, s.sccs, Done(s))
  }

  /** `s` continues from `s0`: nothing recorded in `s0` was changed. */
  ghost predicate Extends(s0: View, s: View) {
    && s0.counter <= s.counter
    && s0.stack <= s.stack
    && s0.sccs <= s.sccs
    && s0.indices.Keys <= s.indices.Keys
    && s0.lowlinks.Keys <= s.lowlinks.Keys
    && (forall v | v in s0.indices :: s.indices[v] == s0.indices[v])
    && (forall v | v in s0.lowlinks :: s.lowlinks[v] == s0.lowlinks[v])
  }

  /** Edges from the part of the stack at or above `from` into `below` are accounted for in `low`. */
  ghost predicate LowCovers(g: Digraph, s: View, from: nat, below: seq<TxnId>, low: nat)
    requires from <= |s.stack|
  {
    forall k, y :: from <= k < |s.stack| && y in below && Edge(g, s.stack[k], y) ==>
      y in s.indices && low <= s.indices[y]
  }

  /** `low` is the index of a stacked vertex that `v` reaches. */
  ghost predicate LowIsReached(g: Digraph, s: View, v: TxnId, low: nat) {
    exists y :: y in s.stack && y in s.indices && s.indices[y] == low && Reach(g, v, y)
  }

  /** What a finished call on `v` tells its caller. */
  ghost predicate Connected(g: Digraph, s0: View, s: View, v: TxnId) {
    && Extends(s0, s)
    && v in s.indices && v in s.lowlinks
    && s.lowlinks[v] <= s0.counter
    && (s.lowlinks[v] < s0.counter ==> LowIsReached(g, s, v, s.lowlinks[v]))
    && LowCovers(g, s, |s0.stack|, s0.stack, s.lowlinks[v])
  }

  /** `s` continues from `s0` inside the call on `v`: only the low link of `v` may still change. */
  ghost predicate Entered(s0: View, s: View, v: TxnId) {
    && v !in s0.indices
    && s0.counter < s.counter
    && s0.stack + [v] <= s.stack
    && s0.sccs <= s.sccs
    && s0.indices.Keys <= s.indices.Keys
    && s0.lowlinks.Keys <= s.lowlinks.Keys
    && v in s.indices && s.indices[v] == s0.counter
    && (forall x | x in s0.indices :: s.indices[x] == s0.indices[x])
    && (forall x | x in s0.lowlinks :: x != v && s.lowlinks[x] == s0.lowlinks[x])
  }

  /** Inside the call on `v`, entered at `s0`, after the successors in `seen` were looked at. */
  ghost predicate Exploring(g: Digraph, s0: View, s: View, v: TxnId, seen: set<TxnId>) {
    && Entered(s0, s, v)
    && v in s.lowlinks
    && s.lowlinks[v] <= s0.counter
    && LowIsReached(g, s, v, s.lowlinks[v])
    && LowCovers(g, s, |s0.stack| + 1, s0.stack, s.lowlinks[v])
    && SeenCovered(s, s0.stack, seen, s.lowlinks[v])
  }

  ghost predicate SeenCovered(s: View, below: seq<TxnId>, seen: set<TxnId>, low: nat) {
    forall w | w in seen :: w in s.indices && (w in below ==> low <= s.indices[w])
  }

  function Pushed(s: View, v: TxnId): View {
    View(s.counter + 1, s.stack + [v], s.indices[v := s.counter], s.lowlinks[v := s.counter], s.onStack + {v}, s.sccs)
  }

  // ---------------------------------------------------------------- opening a call

  lemma PushKeepsShape(s: View, v: TxnId)
    requires Shape(s) && v !in s.indices
    ensures Shape(Pushed(s, v)) && Done(Pushed(s, v)) == Done(s)
  {
    var t := Pushed(s, v);
    assert Elements(t.stack) == Elements(s.stack) + {v};
    forall i, j | 0 <= i < j < |t.stack| ensures t.indices[t.stack[i]] < t.indices[t.stack[j]] {
      assert t.stack[i] == s.stack[i];
    }
  }

  lemma PushKeepsChain(g: Digraph, s: View, open: set<TxnId>, v: TxnId)
    requires StackIsChain(g, s) && StackReachesOpen(g, s, open)
    requires forall x | x in open :: Reach(g, x, v)
    ensures StackIsChain(g, Pushed(s, v))
  {
    var t := Pushed(s, v);
    forall i, j | 0 <= i <= j < |t.stack| ensures Reach(g, t.stack[i], t.stack[j]) {
      if j < |s.stack| {
        assert t.stack[i] == s.stack[i] && t.stack[j] == s.stack[j];
      } else if i < j {
        var y := s.stack[i];
        assert y in s.stack && ReachesOpen(g, s, open, y);
        var x :| x in open && Reach(g, y, x);
        ReachTrans(g, y, x, v);
      } else {
        ReachRefl(g, v);
      }
    }
  }

  lemma PushKeepsReachesOpen(g: Digraph, s: View, open: set<TxnId>, v: TxnId)
    requires StackReachesOpen(g, s, open) && v !in s.indices
    ensures StackReachesOpen(g, Pushed(s, v), open + {v})
  {
    var t := Pushed(s, v);
    forall y | y in t.stack ensures y in t.indices && ReachesOpen(g, t, open + {v}, y) {
      if y in s.stack {
        assert ReachesOpen(g, s, open, y);
      } else {
        ReachRefl(g, v);
      }
    }
  }

  lemma PushKeepsInv(g: Digraph, s: View, open: set<TxnId>, v: TxnId)
    requires Inv(g, s, open) && v !in s.indices
    requires forall x | x in open :: Reach(g, x, v)
    ensures Inv(g, Pushed(s, v), open + {v})
  {
    var t := Pushed(s, v);
    PushKeepsShape(s, v);
    PushKeepsChain(g, s, open, v);
    PushKeepsReachesOpen(g, s, open, v);
    assert NoEdgeToUnvisited(g, t, open + {v});
    assert t.onStack == s.onStack + {v};
  }

  lemma PushStartsExploring(g: Digraph, s: View, v: TxnId)
    requires Shape(s) && v !in s.indices
    ensures Exploring(g, s, Pushed(s, v), v, {})
  {
    ReachRefl(g, v);
    assert v in Pushed(s, v).stack;
  }

  // ---------------------------------------------------------------- looking at a successor

  function WithLow(s: View, v: TxnId, low: nat): View {
    s.(lowlinks := s.lowlinks[v := low])
  }

  lemma LowKeepsInv(g: Digraph, s: View, open: set<TxnId>, v: TxnId, low: nat)
    requires Inv(g, s, open) && v in s.lowlinks
    ensures Inv(g, WithLow(s, v, low), open)
  {
    var t := WithLow(s, v, low);
    assert Shape(t) && Done(t) == Done(s);
    assert StackReachesOpen(g, t, open) by {
      forall y | y in t.stack ensures ReachesOpen(g, t, open, y) {
        assert ReachesOpen(g, s, open, y);
      }
    }
  }

  function Min(a: nat, b: nat): nat {
    if a <= b then a else b
  }

  /** An edge to a stacked vertex lowers the low link to the index of that vertex. */
  lemma SeeStacked(g: Digraph, s0: View, s: View, v: TxnId, seen: set<TxnId>, w: TxnId)
    requires Exploring(g, s0, s, v, seen)
    requires Edge(g, v, w) && w in s.stack && w in s.indices
    ensures Exploring(g, s0, WithLow(s, v, Min(s.lowlinks[v], s.indices[w])), v, seen + {w})
  {
    var low := Min(s.lowlinks[v], s.indices[w]);
    var t := WithLow(s, v, low);
    ReachStep(g, v, w);
    if low == s.indices[w] {
      assert LowIsReached(g, t, v, low);
    } else {
      var y :| y in s.stack && y in s.indices && s.indices[y] == low && Reach(g, v, y);
      assert LowIsReached(g, t, v, low);
    }
  }

  /** An edge to an emitted vertex changes nothing. */
  lemma SeeDone(g: Digraph, s0: View, s: View, v: TxnId, seen: set<TxnId>, w: TxnId)
    requires Exploring(g, s0, s, v, seen)
    requires w in s.indices && w !in s.stack
    ensures Exploring(g, s0, s, v, seen + {w})
  {
    assert forall x | x in s0.stack :: x in s.stack by {
      assert s0.stack + [v] == s.stack[..|s0.stack| + 1];
      forall x | x in s0.stack ensures x in s.stack {
        var i :| 0 <= i < |s0.stack| && s0.stack[i] == x;
        assert (s0.stack + [v])[i] == x && s.stack[i] == x;
      }
    }
  }

  lemma EnteredThenExtended(s0: View, s: View, t: View, v: TxnId, low: nat)
    requires Entered(s0, s, v) && Extends(s, t) && v in t.lowlinks
    ensures Entered(s0, WithLow(t, v, low), v)
  {
  }

  lemma PrefixMembers(a: seq<TxnId>, b: seq<TxnId>)
    requires a <= b
    ensures forall x | x in a :: x in b
  {
    forall x | x in a ensures x in b {
      var i :| 0 <= i < |a| && a[i] == x;
      assert b[i] == x;
    }
  }

  lemma LowAfterCall(g: Digraph, s: View, t: View, v: TxnId, w: TxnId, lowV: nat, lowW: nat)
    requires Extends(s, t) && Edge(g, v, w)
    requires LowIsReached(g, s, v, lowV)
    requires lowW < lowV ==> LowIsReached(g, t, w, lowW)
    ensures LowIsReached(g, t, v, Min(lowV, lowW))
  {
    PrefixMembers(s.stack, t.stack);
    if lowW < lowV {
      var y :| y in t.stack && y in t.indices && t.indices[y] == lowW && Reach(g, w, y);
      ReachStep(g, v, w);
      ReachTrans(g, v, w, y);
    } else {
      var y :| y in s.stack && y in s.indices && s.indices[y] == lowV && Reach(g, v, y);
    }
  }

  lemma CoverAfterCall(g: Digraph, s0: View, s: View, t: View, v: TxnId, lowV: nat, lowW: nat)
    requires Entered(s0, s, v) && Extends(s, t)
    requires LowCovers(g, s, |s0.stack| + 1, s0.stack, lowV)
    requires LowCovers(g, t, |s.stack|, s.stack, lowW)
    ensures LowCovers(g, t, |s0.stack| + 1, s0.stack, Min(lowV, lowW))
  {
    forall k, y | |s0.stack| + 1 <= k < |t.stack| && y in s0.stack && Edge(g, t.stack[k], y)
      ensures y in t.indices && Min(lowV, lowW) <= t.indices[y]
    {
      if k < |s.stack| {
        assert t.stack[k] == s.stack[k];
      } else {
        PrefixMembers(s0.stack, s0.stack + [v]);
        PrefixMembers(s0.stack + [v], s.stack);
        assert y in s.stack;
      }
    }
  }

  lemma SeenAfterCall(s0: View, s: View, t: View, v: TxnId, seen: set<TxnId>, w: TxnId, lowV: nat, low: nat)
    requires Entered(s0, s, v) && Extends(s, t) && Shape(s0)
    requires SeenCovered(s, s0.stack, seen, lowV) && low <= lowV
    requires w !in s.indices && w in t.indices
    ensures SeenCovered(t, s0.stack, seen + {w}, low)
  {
    assert w !in s0.stack;
  }

  /** A finished call on an unvisited successor `w` lowers the low link to that of `w`. */
  lemma SeeCalled(g: Digraph, s0: View, s: View, t: View, v: TxnId, seen: set<TxnId>, w: TxnId)
    requires Exploring(g, s0, s, v, seen) && Shape(s0)
    requires Edge(g, v, w) && w !in s.indices
    requires Connected(g, s, t, w)
    ensures v in t.lowlinks && w in t.lowlinks
    ensures Exploring(g, s0, WithLow(t, v, Min(t.lowlinks[v], t.lowlinks[w])), v, seen + {w})
  {
    var lowV, lowW := t.lowlinks[v], t.lowlinks[w];
    var low := Min(lowV, lowW);
    EnteredThenExtended(s0, s, t, v, low);
    LowAfterCall(g, s, t, v, w, lowV, lowW);
    CoverAfterCall(g, s0, s, t, v, lowV, lowW);
    SeenAfterCall(s0, s, t, v, seen, w, lowV, low);
    var u := WithLow(t, v, low);
    assert LowIsReached(g, u, v, low) by {
      var y :| y in t.stack && y in t.indices && t.indices[y] == low && Reach(g, v, y);
    }
    assert LowCovers(g, u, |s0.stack| + 1, s0.stack, low);
    assert SeenCovered(u, s0.stack, seen + {w}, low);
  }

  // ---------------------------------------------------------------- closing a call

  /** All successors of `v` were looked at. */
  ghost predicate Explored(g: Digraph, s0: View, s: View, v: TxnId) {
    Exploring(g, s0, s, v, if v in g then g[v] else {})
  }

  /** The vertex `v` and everything above it. */
  function Top(s0: View, s: View): seq<TxnId>
    requires |s0.stack| <= |s.stack|
  {
    s.stack[|s0.stack|..]
  }

  /** The stack consists of what lay below the call and its top; indices tell the two apart. */
  lemma StackSplit(s0: View, s: View, v: TxnId)
    requires Entered(s0, s, v) && Shape(s)
    ensures s.stack == s0.stack + Top(s0, s)
    ensures forall x | x in s0.stack :: x in s.indices && s.indices[x] < s0.counter
    ensures forall x | x in Top(s0, s) :: x in s.indices && s.indices[x] >= s0.counter
  {
    assert s.stack[..|s0.stack|] == s0.stack;
    hide Shape, Entered;
    forall x | x in s0.stack ensures x in s.indices && s.indices[x] < s0.counter {
      var i :| 0 <= i < |s0.stack| && s0.stack[i] == x;
      IndexBelow(s0, s, v, i);
    }
    forall x | x in Top(s0, s) ensures x in s.indices && s.indices[x] >= s0.counter {
      var i :| 0 <= i < |Top(s0, s)| && Top(s0, s)[i] == x;
      IndexInTop(s0, s, v, i);
    }
  }

  lemma IndexBelow(s0: View, s: View, v: TxnId, i: nat)
    requires Entered(s0, s, v) && Shape(s) && i < |s0.stack|
    ensures s0.stack[i] in s.indices && s.indices[s0.stack[i]] < s0.counter
  {
    var n := |s0.stack|;
    assert s.stack[n] == (s0.stack + [v])[n] == v;
    assert s.stack[i] == (s0.stack + [v])[i];
    assert s.indices[s.stack[i]] < s.indices[s.stack[n]];
  }

  lemma IndexInTop(s0: View, s: View, v: TxnId, i: nat)
    requires Entered(s0, s, v) && Shape(s) && i < |Top(s0, s)|
    ensures Top(s0, s)[i] in s.indices && s.indices[Top(s0, s)[i]] >= s0.counter
  {
    var n := |s0.stack|;
    assert s.stack[n] == (s0.stack + [v])[n] == v;
    assert Top(s0, s)[i] == s.stack[n + i];
    assert i > 0 ==> s.indices[s.stack[n]] < s.indices[s.stack[n + i]];
  }

  lemma BelowOrTop(s0: View, s: View, v: TxnId, x: TxnId)
    requires Entered(s0, s, v) && Shape(s) && x in s.stack
    ensures x in s.indices
    ensures x in s0.stack <==> s.indices[x] < s0.counter
    ensures x in s0.stack <==> x !in Top(s0, s)
  {
    StackSplit(s0, s, v);
    hide Entered, Shape, Top;
  }

  lemma CloseKeepsNoEdge(g: Digraph, s0: View, s: View, open: set<TxnId>, v: TxnId)
    requires Explored(g, s0, s, v) && NoEdgeToUnvisited(g, s, open + {v})
    ensures NoEdgeToUnvisited(g, s, open)
  {
  }

  /** With a smaller low link, `v` stays on the stack and reaches an open vertex below it. */
  lemma CloseKeepsReachesOpen(g: Digraph, s: View, open: set<TxnId>, v: TxnId, low: nat)
    requires StackReachesOpen(g, s, open + {v})
    requires v in s.indices && low < s.indices[v] && LowIsReached(g, s, v, low)
    ensures StackReachesOpen(g, s, open)
  {
    var z :| z in s.stack && z in s.indices && s.indices[z] == low && Reach(g, v, z);
    assert ReachesOpen(g, s, open + {v}, z);
    var x0 :| x0 in open + {v} && x0 in s.indices && s.indices[x0] <= low && Reach(g, z, x0);
    ReachTrans(g, v, z, x0);
    assert x0 in open;
    hide Reach, LowIsReached;
    forall y | y in s.stack ensures ReachesOpen(g, s, open, y) {
      assert ReachesOpen(g, s, open + {v}, y);
      WithoutOpen(g, s, open, v, x0, y);
    }
  }

  lemma WithoutOpen(g: Digraph, s: View, open: set<TxnId>, v: TxnId, x0: TxnId, y: TxnId)
    requires y in s.indices && ReachesOpen(g, s, open + {v}, y)
    requires v in s.indices && x0 in open && x0 in s.indices && s.indices[x0] <= s.indices[v] && Reach(g, v, x0)
    ensures ReachesOpen(g, s, open, y)
  {
    hide Reach;
    var x :| x in open + {v} && x in s.indices && s.indices[x] <= s.indices[y] && Reach(g, y, x);
    if x == v {
      ReachTrans(g, y, v, x0);
    }
  }

  lemma CloseKeeping(g: Digraph, s0: View, s: View, open: set<TxnId>, v: TxnId)
    requires Inv(g, s, open + {v}) && Explored(g, s0, s, v)
    requires s.lowlinks[v] < s0.counter
    ensures Inv(g, s, open)
  {
    hide StackIsChain, AreComponents, IsClosed, LowCovers, LowIsReached, Shape;
    CloseKeepsNoEdge(g, s0, s, open, v);
    CloseKeepsReachesOpen(g, s, open, v, s.lowlinks[v]);
    hide Explored, NoEdgeToUnvisited, StackReachesOpen;
  }

  lemma ClosedIsConnected(g: Digraph, s0: View, s: View, v: TxnId)
    requires Explored(g, s0, s, v)
    ensures Connected(g, s0, s, v)
  {
    hide LowCovers, LowIsReached;
    EnteredExtends(s0, s, v);
    CloseCovers(g, s0, s, v);
  }

  lemma EnteredExtends(s0: View, s: View, v: TxnId)
    requires Entered(s0, s, v)
    ensures Extends(s0, s)
  {
    assert s.stack[..|s0.stack|] == s.stack[..|s0.stack| + 1][..|s0.stack|];
  }

  lemma CloseCovers(g: Digraph, s0: View, s: View, v: TxnId)
    requires Explored(g, s0, s, v)
    ensures |s0.stack| <= |s.stack| && LowCovers(g, s, |s0.stack|, s0.stack, s.lowlinks[v])
  {
    forall k, y | |s0.stack| <= k < |s.stack| && y in s0.stack && Edge(g, s.stack[k], y)
      ensures y in s.indices && s.lowlinks[v] <= s.indices[y]
    {
      if k == |s0.stack| {
        assert s.stack[k] == (s0.stack + [v])[k] == v;
        assert y in g[v];
      }
    }
  }

  /** With an unchanged low link, no edge leaves the top of the stack except to emitted vertices. */
  lemma TopIsClosed(g: Digraph, s0: View, s: View, open: set<TxnId>, v: TxnId)
    requires Shape(s) && Entered(s0, s, v) && open <= Elements(s0.stack)
    requires NoEdgeToUnvisited(g, s, open) && IsClosed(g, Done(s))
    requires LowCovers(g, s, |s0.stack|, s0.stack, s0.counter)
    ensures IsClosed(g, Elements(Top(s0, s)) + Done(s))
  {
    var top := Elements(Top(s0, s));
    forall x, y | x in top + Done(s) && Edge(g, x, y) ensures y in top + Done(s) {
      if x in top {
        TopEdge(g, s0, s, open, v, x, y);
      }
    }
  }

  lemma TopEdge(g: Digraph, s0: View, s: View, open: set<TxnId>, v: TxnId, x: TxnId, y: TxnId)
    requires Shape(s) && Entered(s0, s, v) && open <= Elements(s0.stack)
    requires NoEdgeToUnvisited(g, s, open)
    requires LowCovers(g, s, |s0.stack|, s0.stack, s0.counter)
    requires x in Top(s0, s) && Edge(g, x, y)
    ensures y in Elements(Top(s0, s)) + Done(s)
  {
    var k :| 0 <= k < |Top(s0, s)| && Top(s0, s)[k] == x;
    assert s.stack[|s0.stack| + k] == x;
    TopIsAbove(s0, s, v, |s0.stack| + k);
    assert x !in open;
    assert y in s.indices;
    if y in s.stack {
      BelowOrTop(s0, s, v, y);
    }
  }

  lemma TopIsAbove(s0: View, s: View, v: TxnId, k: nat)
    requires Entered(s0, s, v) && Shape(s) && |s0.stack| <= k < |s.stack|
    ensures s.stack[k] !in s0.stack
  {
    forall i | 0 <= i < |s0.stack| ensures s0.stack[i] != s.stack[k] {
      assert s.stack[i] == (s0.stack + [v])[i] == s0.stack[i];
      assert s.indices[s.stack[i]] < s.indices[s.stack[k]];
    }
  }

  /** What is above `v` on the stack is reached from it. */
  lemma ReachesTop(g: Digraph, s0: View, s: View, v: TxnId, y: TxnId)
    requires Entered(s0, s, v) && StackIsChain(g, s) && y in Top(s0, s)
    ensures Reach(g, v, y) && y in s.stack
  {
    hide Reach;
    var n := |s0.stack|;
    var k :| 0 <= k < |Top(s0, s)| && Top(s0, s)[k] == y;
    assert s.stack[n] == (s0.stack + [v])[n] == v && s.stack[n + k] == y;
    assert Reach(g, s.stack[n], s.stack[n + k]);
  }

  /** A vertex of the closed top reaches none of the open ones below. */
  lemma OnlyOpenInTop(g: Digraph, s0: View, s: View, open: set<TxnId>, v: TxnId, y: TxnId, x: TxnId)
    requires Shape(s) && Entered(s0, s, v) && open <= Elements(s0.stack)
    requires IsClosed(g, Elements(Top(s0, s)) + Done(s)) && y in Top(s0, s)
    requires x in open + {v} && Reach(g, y, x)
    ensures x == v
  {
    ReachStaysInside(g, Elements(Top(s0, s)) + Done(s), y, x);
    StackSplit(s0, s, v);
    var top := Top(s0, s);
    assert x in s0.stack ==> x in s.stack && x !in top;
  }

  lemma TopReachesBothWays(g: Digraph, s0: View, s: View, open: set<TxnId>, v: TxnId, y: TxnId)
    requires Shape(s) && Entered(s0, s, v) && open <= Elements(s0.stack)
    requires StackIsChain(g, s) && StackReachesOpen(g, s, open + {v})
    requires IsClosed(g, Elements(Top(s0, s)) + Done(s))
    requires y in Top(s0, s)
    ensures Reach(g, v, y) && Reach(g, y, v)
  {
    ReachesTop(g, s0, s, v, y);
    hide Shape, Entered, StackIsChain, IsClosed, Top, Reach, Elements, Done;
    assert ReachesOpen(g, s, open + {v}, y);
    var x :| x in open + {v} && x in s.indices && s.indices[x] <= s.indices[y] && Reach(g, y, x);
    OnlyOpenInTop(g, s0, s, open, v, y, x);
  }

  /** With an unchanged low link, the top of the stack is a strongly connected component. */
  lemma TopIsComponent(g: Digraph, s0: View, s: View, open: set<TxnId>, v: TxnId)
    requires Shape(s) && Entered(s0, s, v) && open <= Elements(s0.stack)
    requires StackIsChain(g, s) && StackReachesOpen(g, s, open + {v})
    requires IsClosed(g, Done(s))
    requires IsClosed(g, Elements(Top(s0, s)) + Done(s))
    ensures IsComponent(g, Elements(Top(s0, s)))
  {
    var top := Elements(Top(s0, s));
    assert Top(s0, s)[0] == (s0.stack + [v])[|s0.stack|] == v;
    forall a, b | a in top ensures b in top <==> Reach(g, a, b) && Reach(g, b, a) {
      TopReachesBothWays(g, s0, s, open, v, a);
      if b in top {
        TopReachesBothWays(g, s0, s, open, v, b);
        ReachTrans(g, a, v, b);
        ReachTrans(g, b, v, a);
      } else if Reach(g, a, b) && Reach(g, b, a) {
        ReachStaysInside(g, top + Done(s), a, b);
        ReachStaysInside(g, Done(s), b, a);
        TopIsStacked(s0, s);
        assert false;
      }
    }
  }

  lemma TopIsStacked(s0: View, s: View)
    requires |s0.stack| <= |s.stack| && Shape(s)
    ensures Elements(Top(s0, s)) <= s.onStack
  {
    forall x | x in Top(s0, s) ensures x in s.stack {
      var k :| 0 <= k < |Top(s0, s)| && Top(s0, s)[k] == x;
      assert s.stack[|s0.stack| + k] == x;
    }
  }

  lemma {:induction false} DistinctElements(s: seq<TxnId>)
    requires forall i, j | 0 <= i < j < |s| :: s[i] != s[j]
    ensures |Elements(s)| == |s|
  {
    if s != [] {
      DistinctElements(s[1..]);
      assert s == [s[0]] + s[1..];
      assert Elements(s) == {s[0]} + Elements(s[1..]);
      assert s[0] !in s[1..];
    }
  }

  /** `scc` is the top of the stack in popping order. */
  ghost predicate IsPopped(s0: View, s: View, scc: seq<TxnId>) {
    && |s0.stack| <= |s.stack|
    && |scc| == |Top(s0, s)|
    && (forall i | 0 <= i < |scc| :: scc[i] == s.stack[|s.stack| - 1 - i])
  }

  lemma PoppedElements(s0: View, s: View, scc: seq<TxnId>)
    requires IsPopped(s0, s, scc) && Shape(s)
    ensures Elements(scc) == Elements(Top(s0, s))
    ensures |Elements(scc)| == |scc|
  {
    forall x | x in Top(s0, s) ensures x in scc {
      var k :| 0 <= k < |Top(s0, s)| && Top(s0, s)[k] == x;
      assert scc[|scc| - 1 - k] == x;
    }
    forall i, j | 0 <= i < j < |scc| ensures scc[i] != scc[j] {
      assert s.indices[s.stack[|s.stack| - 1 - j]] < s.indices[s.stack[|s.stack| - 1 - i]];
    }
    DistinctElements(scc);
  }

  function Popped(s0: View, s: View, scc: seq<TxnId>): View {
    s.(stack := s0.stack, onStack := Elements(s0.stack), sccs := s.sccs + [scc])
  }

  lemma PopKeepsShape(s0: View, s: View, v: TxnId, scc: seq<TxnId>)
    requires Shape(s) && Entered(s0, s, v) && IsPopped(s0, s, scc)
    ensures Shape(Popped(s0, s, scc))
    ensures Done(Popped(s0, s, scc)) == Elements(Top(s0, s)) + Done(s)
  {
    var t := Popped(s0, s, scc);
    forall i | 0 <= i < |s0.stack| ensures s0.stack[i] == s.stack[i] {
      assert (s0.stack + [v])[i] == s0.stack[i];
    }
    forall x | x in s.stack ensures x in s0.stack <==> x !in Top(s0, s) {
      BelowOrTop(s0, s, v, x);
    }
    TopIsStacked(s0, s);
    PrefixMembers(s0.stack, s.stack[..|s0.stack|]);
    assert Elements(s0.stack) <= s.onStack;
  }

  lemma PopKeepsReachesOpen(g: Digraph, s0: View, s: View, open: set<TxnId>, v: TxnId, scc: seq<TxnId>)
    requires Shape(s) && Entered(s0, s, v) && StackReachesOpen(g, s, open + {v})
    ensures StackReachesOpen(g, Popped(s0, s, scc), open)
  {
    var t := Popped(s0, s, scc);
    PrefixMembers(s0.stack, s0.stack + [v]);
    PrefixMembers(s0.stack + [v], s.stack);
    forall y | y in t.stack ensures y in t.indices && ReachesOpen(g, t, open, y) {
      BelowOrTop(s0, s, v, y);
      assert ReachesOpen(g, s, open + {v}, y);
    }
  }

  lemma PopKeepsChain(g: Digraph, s0: View, s: View, v: TxnId, scc: seq<TxnId>)
    requires Entered(s0, s, v) && StackIsChain(g, s)
    ensures StackIsChain(g, Popped(s0, s, scc))
  {
    forall i, j | 0 <= i <= j < |s0.stack| ensures Reach(g, s0.stack[i], s0.stack[j]) {
      assert s.stack[i] == (s0.stack + [v])[i] && s.stack[j] == (s0.stack + [v])[j];
    }
  }

  lemma OneMoreComponent(g: Digraph, sccs: seq<seq<TxnId>>, covered: set<TxnId>, scc: seq<TxnId>, i: nat)
    requires AreComponents(g, sccs, covered) && i < |sccs + [scc]|
    requires IsComponent(g, Elements(scc)) && |scc| == |Elements(scc)|
    ensures var c := (sccs + [scc])[i];
            IsComponent(g, Elements(c)) && |c| == |Elements(c)| && Elements(c) <= Elements(scc) + covered
  {
    hide IsComponent, Elements;
    if i < |sccs| {
      assert (sccs + [scc])[i] == sccs[i];
    }
  }

  lemma OneMoreApart(g: Digraph, sccs: seq<seq<TxnId>>, covered: set<TxnId>, scc: seq<TxnId>, i: nat, j: nat)
    requires AreComponents(g, sccs, covered) && Elements(scc) !! covered
    requires i < j < |sccs + [scc]|
    ensures Elements((sccs + [scc])[i]) !! Elements((sccs + [scc])[j])
  {
    hide IsComponent, Elements;
    assert (sccs + [scc])[i] == sccs[i];
    if j < |sccs| {
      assert (sccs + [scc])[j] == sccs[j];
    }
  }

  lemma OneMoreCovers(g: Digraph, sccs: seq<seq<TxnId>>, covered: set<TxnId>, scc: seq<TxnId>, v: TxnId)
    requires AreComponents(g, sccs, covered) && v in Elements(scc) + covered
    ensures exists i :: 0 <= i < |sccs + [scc]| && v in Elements((sccs + [scc])[i])
  {
    hide IsComponent, Elements;
    if v in covered {
      var i :| 0 <= i < |sccs| && v in Elements(sccs[i]);
      assert v in Elements((sccs + [scc])[i]);
    } else {
      assert v in Elements((sccs + [scc])[|sccs|]);
    }
  }

  lemma ComponentsFrom(g: Digraph, sccs: seq<seq<TxnId>>, covered: set<TxnId>)
    requires forall i | 0 <= i < |sccs| ::
               IsComponent(g, Elements(sccs[i])) && |sccs[i]| == |Elements(sccs[i])| && Elements(sccs[i]) <= covered
    requires forall i, j | 0 <= i < j < |sccs| :: Elements(sccs[i]) !! Elements(sccs[j])
    requires forall v | v in covered :: exists i :: 0 <= i < |sccs| && v in Elements(sccs[i])
    ensures AreComponents(g, sccs, covered)
  {
  }

  lemma EmitKeepsComponents(g: Digraph, sccs: seq<seq<TxnId>>, covered: set<TxnId>, scc: seq<TxnId>)
    requires AreComponents(g, sccs, covered)
    requires IsComponent(g, Elements(scc)) && |scc| == |Elements(scc)| && Elements(scc) !! covered
    ensures AreComponents(g, sccs + [scc], Elements(scc) + covered)
  {
    hide AreComponents, IsComponent, Elements;
    var all := sccs + [scc];
    forall i | 0 <= i < |all|
      ensures IsComponent(g, Elements(all[i])) && |all[i]| == |Elements(all[i])|
      ensures Elements(all[i]) <= Elements(scc) + covered
    {
      OneMoreComponent(g, sccs, covered, scc, i);
    }
    forall i, j | 0 <= i < j < |all| ensures Elements(all[i]) !! Elements(all[j]) {
      OneMoreApart(g, sccs, covered, scc, i, j);
    }
    forall v | v in Elements(scc) + covered ensures exists i :: 0 <= i < |all| && v in Elements(all[i]) {
      OneMoreCovers(g, sccs, covered, scc, v);
    }
    ComponentsFrom(g, all, Elements(scc) + covered);
  }

  lemma CloseEmitting(g: Digraph, s0: View, s: View, open: set<TxnId>, v: TxnId, scc: seq<TxnId>)
    requires Inv(g, s, open + {v}) && Explored(g, s0, s, v) && open <= Elements(s0.stack)
    requires s.lowlinks[v] == s0.counter
    requires IsPopped(s0, s, scc)
    ensures Inv(g, Popped(s0, s, scc), open)
  {
    hide LowCovers, LowIsReached, AreComponents, StackIsChain, StackReachesOpen, IsClosed, Elements, IsPopped;
    CloseKeepsNoEdge(g, s0, s, open, v);
    CloseCovers(g, s0, s, v);
    hide Explored, SeenCovered, NoEdgeToUnvisited, Entered;
    TopIsClosed(g, s0, s, open, v);
    TopIsComponent(g, s0, s, open, v);
    PopKeepsShape(s0, s, v, scc);
    PopKeepsReachesOpen(g, s0, s, open, v, scc);
    PopKeepsChain(g, s0, s, v, scc);
    PoppedElements(s0, s, scc);
    TopIsStacked(s0, s);
    hide Shape;
    EmitKeepsComponents(g, s.sccs, Done(s), scc);
    SameIndices(g, s, Popped(s0, s, scc), open);
  }

  lemma SameIndices(g: Digraph, s: View, t: View, open: set<TxnId>)
    requires NoEdgeToUnvisited(g, s, open) && s.indices == t.indices
    ensures NoEdgeToUnvisited(g, t, open)
  {
  }

  lemma EmittedIsConnected(g: Digraph, s0: View, s: View, v: TxnId, scc: seq<TxnId>)
    requires Explored(g, s0, s, v) && s.lowlinks[v] == s0.counter
    ensures Connected(g, s0, Popped(s0, s, scc), v)
  {
    EnteredExtends(s0, s, v);
  }

  lemma InvFacts(g: Digraph, s: View, open: set<TxnId>)
    requires Inv(g, s, open)
    ensures Shape(s) && open <= s.onStack
  {
  }

  lemma ExploringFacts(g: Digraph, s0: View, s: View, v: TxnId, seen: set<TxnId>)
    requires Exploring(g, s0, s, v, seen)
    ensures v in s.indices && s.indices[v] == s0.counter
    ensures v in s.lowlinks && s.lowlinks[v] <= s0.counter
    ensures s0.indices.Keys < s.indices.Keys
  {
  }

  ghost predicate Distinct(s: seq<TxnId>) {
    forall i, j | 0 <= i < j < |s| :: s[i] != s[j]
  }

  /** Removing the last of distinct elements removes exactly it. */
  lemma PopOne(s: seq<TxnId>)
    requires |s| > 0 && Distinct(s)
    ensures Elements(s[..|s| - 1]) == Elements(s) - {s[|s| - 1]}
  {
    var w := s[|s| - 1];
    assert s == s[..|s| - 1] + [w];
    forall x | x in s && x != w ensures x in s[..|s| - 1] {
    }
  }

  lemma ExploredFacts(g: Digraph, s0: View, s: View, v: TxnId)
    requires Explored(g, s0, s, v)
    ensures Entered(s0, s, v)
  {
  }

  lemma StackSplits(s0: View, s: View, v: TxnId)
    requires Shape(s) && Entered(s0, s, v)
    ensures s.stack[..|s0.stack|] == s0.stack
    ensures forall i | |s0.stack| <= i < |s.stack| :: s.stack[i] == v <==> i == |s0.stack|
  {
    var n := |s0.stack|;
    assert s.stack[..n] == (s0.stack + [v])[..n];
    assert s.stack[n] == (s0.stack + [v])[n];
    forall i | n < i < |s.stack| ensures s.stack[i] != v {
      assert s.indices[s.stack[n]] < s.indices[s.stack[i]];
    }
  }

  lemma StackIsDistinct(s: View, n: nat)
    requires Shape(s) && n <= |s.stack|
    ensures Distinct(s.stack[..n])
  {
    forall i, j | 0 <= i < j < n ensures s.stack[..n][i] != s.stack[..n][j] {
      assert s.indices[s.stack[i]] < s.indices[s.stack[j]];
    }
  }

  // ---------------------------------------------------------------- victims

  /** Registered data of a transaction; a smaller `priority` is more important. */
  datatype TxnInfo = TxnInfo(startTs: u64, lockCount: nat, priority: u32)

  datatype Candidate = Candidate(id: TxnId, info: TxnInfo)

  /** Victim order: least important first, then youngest, then fewest locks. */
  predicate VictimLe(a: TxnInfo, b: TxnInfo) {
    || a.priority > b.priority
    || (a.priority == b.priority && a.startTs > b.startTs)
    || (a.priority == b.priority && a.startTs == b.startTs && a.lockCount <= b.lockCount)
  }

  /** A stable insertion into a sorted list of candidates. */
  function InsertCandidate(c: Candidate, sorted: seq<Candidate>): (r: seq<Candidate>)
    ensures multiset(r) == multiset(sorted) + multiset{c}
  {
    if sorted == [] || VictimLe(c.info, sorted[0].info) then [c] + sorted
    else
      assert sorted == [sorted[0]] + sorted[1..];
      [sorted[0]] + InsertCandidate(c, sorted[1..])
  }

  /** The library's stable sort by the victim order. */
  function SortCandidates(cs: seq<Candidate>): (r: seq<Candidate>)
    ensures multiset(r) == multiset(cs)
  {
    if cs == [] then []
    else
      assert cs == [cs[0]] + cs[1..];
      InsertCandidate(cs[0], SortCandidates(cs[1..]))
  }

  /**
   The first of the sorted candidates has the largest priority value, among those with that value the
   latest start, and among those with that start the fewest locks.
   */
  lemma {:induction false} SortedHeadIsLeast(cs: seq<Candidate>)
    ensures cs != [] ==>
              var v := SortCandidates(cs)[0].info;
              forall c | c in cs ::
                && c.info.priority <= v.priority
                && (c.info.priority == v.priority ==> c.info.startTs <= v.startTs)
                && (c.info.priority == v.priority && c.info.startTs == v.startTs ==> v.lockCount <= c.info.lockCount)
  {
    if cs != [] {
      var rest := SortCandidates(cs[1..]);
      assert multiset(rest) == multiset(cs[1..]);
      SortedHeadIsLeast(cs[1..]);
      assert cs == [cs[0]] + cs[1..];
      if rest == [] {
        assert cs[1..] == [];
      }
    }
  }

  /**
   `v` is the registered member of `cycle` to abort, if there is one: the least important, then the
   youngest, then the one with the fewest locks.
   */
  ghost predicate IsVictim(info: map<TxnId, TxnInfo>, cycle: set<TxnId>, v: TxnId) {
    && v in cycle
    && ((exists u :: u in cycle && u in info) ==>
          && v in info
          && forall u | u in cycle && u in info ::
               && info[u].priority <= info[v].priority
               && (info[u].priority == info[v].priority ==> info[u].startTs <= info[v].startTs)
               && (info[u].priority == info[v].priority && info[u].startTs == info[v].startTs ==>
                     info[v].lockCount <= info[u].lockCount))
  }

  lemma HeadIsVictim(info: map<TxnId, TxnInfo>, cycle: seq<TxnId>, candidates: seq<Candidate>)
    requires cycle != []
    requires forall c | c in candidates :: c.id in cycle && c.id in info && c.info == info[c.id]
    requires forall u | u in cycle && u in info :: Candidate(u, info[u]) in candidates
    ensures var sorted := SortCandidates(candidates);
            IsVictim(info, Elements(cycle), if sorted != [] then sorted[0].id else cycle[0])
  {
    hide SortCandidates;
    var sorted := SortCandidates(candidates);
    SortedHeadIsLeast(candidates);
    if candidates == [] {
      assert multiset(sorted) == multiset{};
    } else {
      assert candidates[0] in multiset(candidates);
      assert candidates[0] in sorted && sorted[0] in multiset(sorted);
    }
  }

  predicate NoSelfEdges(g: Digraph) {
    forall x | x in g :: x !in g[x]
  }

  /** The graph without the transactions in `gone`. */
  function Without(g: Digraph, gone: set<TxnId>): Digraph {
    map x | x in g && x !in gone :: g[x] - gone
  }

  // ---------------------------------------------------------------- components and cycles

  /** A component of two or more members is a cycle through each of them. */
  lemma LargeComponentIsCycle(g: Digraph, c: set<TxnId>, x: TxnId)
    requires IsComponent(g, c) && |c| > 1 && x in c
    ensures OnCycle(g, x)
  {
    assert |c - {x}| == |c| - 1;
    var y :| y in c - {x};
    MutualReachIsCycle(g, x, y);
  }

  /** Without self-edges, a cycle makes the component of its vertices larger than one. */
  lemma CycleIsLargeComponent(g: Digraph, c: set<TxnId>, x: TxnId)
    requires NoSelfEdges(g) && IsComponent(g, c) && x in c && OnCycle(g, x)
    ensures |c| > 1
  {
    var y := CycleReturns(g, x);
    ReachStep(g, x, y);
    assert |c - {x}| == |c| - 1;
    assert y in c - {x};
  }

  lemma NoLargeComponentNoCycle(g: Digraph, sccs: seq<seq<TxnId>>, covered: set<TxnId>)
    requires NoSelfEdges(g) && AreComponents(g, sccs, covered) && g.Keys <= covered
    requires forall i | 0 <= i < |sccs| :: |sccs[i]| <= 1
    ensures !HasCycle(g)
  {
    hide IsComponent, NoSelfEdges, OnCycle;
    forall x ensures !OnCycle(g, x) {
      if OnCycle(g, x) {
        var _ := CycleReturns(g, x);
        var i :| 0 <= i < |sccs| && x in Elements(sccs[i]);
        CycleIsLargeComponent(g, Elements(sccs[i]), x);
      }
    }
  }

  lemma EmptyInv(g: Digraph)
    ensures Inv(g, View(0, [], map[], map[], {}, []), {})
  {
  }

  lemma ConnectedFacts(g: Digraph, s0: View, s: View, v: TxnId)
    requires Connected(g, s0, s, v)
    ensures v in s.indices && s0.indices.Keys <= s.indices.Keys
  {
  }

  /** When no call is open the stack is empty and everything visited is emitted. */
  lemma SearchIsComplete(g: Digraph, s: View)
    requires Inv(g, s, {})
    requires g.Keys <= s.indices.Keys <= Vertices(g)
    ensures AreComponents(g, s.sccs, Vertices(g))
  {
    hide AreComponents, IsClosed, StackIsChain;
    assert s.stack != [] ==> ReachesOpen(g, s, {}, s.stack[0]);
    assert Done(s) == s.indices.Keys;
    forall y | y in Vertices(g) ensures y in s.indices {
      if y !in g {
        var x :| x in g && y in g[x];
        assert Edge(g, x, y);
      }
    }
    assert Done(s) == Vertices(g);
  }

  /** Whatever the iteration order, the search can only end with the same sets of vertices. */
  lemma ComponentsAreUnique(g: Digraph, a: seq<seq<TxnId>>, b: seq<seq<TxnId>>, covered: set<TxnId>, i: nat)
    requires AreComponents(g, a, covered) && AreComponents(g, b, covered) && i < |a|
    ensures exists j :: 0 <= j < |b| && Elements(b[j]) == Elements(a[i])
  {
    hide Elements, IsComponent;
    var x := ComponentMember(g, Elements(a[i]));
    var j :| 0 <= j < |b| && x in Elements(b[j]);
    ComponentsThatMeet(g, Elements(a[i]), Elements(b[j]), x);
  }

  lemma ComponentMember(g: Digraph, c: set<TxnId>) returns (x: TxnId)
    requires IsComponent(g, c)
    ensures x in c
  {
    x :| x in c;
  }

  lemma ComponentsThatMeet(g: Digraph, c: set<TxnId>, d: set<TxnId>, x: TxnId)
    requires IsComponent(g, c) && IsComponent(g, d) && x in c && x in d
    ensures c == d
  {
    assert forall y :: y in c <==> Reach(g, x, y) && Reach(g, y, x);
    assert forall y :: y in d <==> Reach(g, x, y) && Reach(g, y, x);
  }

  lemma CycleVertexIsKey(g: Digraph, v: TxnId)
    requires OnCycle(g, v)
    ensures v in g
  {
    var _ := CycleReturns(g, v);
  }

  lemma WithoutNothing(g: Digraph)
    ensures g == Without(g, Elements([]))
  {
    assert Elements([]) == {};
    assert forall x | x in g :: g[x] - {} == g[x];
  }

  lemma WithoutOneMore(g: Digraph, gone: seq<TxnId>, v: TxnId)
    ensures Without(Without(g, Elements(gone)), {v}) == Without(g, Elements(gone + [v]))
  {
    assert Elements(gone + [v]) == Elements(gone) + {v};
    assert forall x | x in g :: g[x] - Elements(gone) - {v} == g[x] - Elements(gone + [v]);
  }

  // ---------------------------------------------------------------- the wait-for graph

  lemma ComponentAt(g: Digraph, sccs: seq<seq<TxnId>>, covered: set<TxnId>, i: nat)
    requires AreComponents(g, sccs, covered) && i < |sccs|
    ensures IsComponent(g, Elements(sccs[i])) && |sccs[i]| == |Elements(sccs[i])|
  {
  }

  class WaitForGraph {
    var edges: Digraph
    var txnInfo: map<TxnId, TxnInfo>

    constructor ()
      ensures edges == map[] && txnInfo == map[]
    {
      edges, txnInfo := map[], map[];
    }

    method RegisterTxn(txnId: TxnId, startTs: u64, priority: u32)
      modifies this`txnInfo
      ensures txnInfo == old(txnInfo)[txnId := TxnInfo(startTs, 0, priority)]
    {
      txnInfo := txnInfo[txnId := TxnInfo(startTs, 0, priority)];
    }

    /** Removes the transaction as a waiter and as a holder everywhere. */
    method UnregisterTxn(txnId: TxnId)
      modifies this
      ensures edges == Without(old(edges), {txnId})
      ensures txnInfo == old(txnInfo) - {txnId}
    {
      edges := edges - {txnId};
      txnInfo := txnInfo - {txnId};
      var remaining := edges.Keys;
      while remaining != {}
        invariant txnInfo == old(txnInfo) - {txnId}
        invariant edges.Keys == old(edges).Keys - {txnId} && remaining <= edges.Keys
        invariant forall x | x in edges ::
            edges[x] == if x in remaining then old(edges)[x] else old(edges)[x] - {txnId}
        decreases remaining
      {
        var x :| x in remaining;
        edges := edges[x := edges[x] - {txnId}];
        remaining := remaining - {x};
      }
    }

    method AddWaitEdge(waiter: TxnId, holder: TxnId)
      modifies this`edges
      ensures old(NoSelfEdges(edges)) ==> NoSelfEdges(edges)
      ensures forall x, y :: Edge(edges, x, y) <==> Edge(old(edges), x, y) || (x == waiter && y == holder && x != y)
    {
      if waiter == holder {
        return;
      }
      edges := edges[waiter := (if waiter in edges then edges[waiter] else {}) + {holder}];
    }

    method RemoveWaitEdge(waiter: TxnId, holder: TxnId)
      modifies this`edges
      ensures old(NoSelfEdges(edges)) ==> NoSelfEdges(edges)
      ensures forall x, y :: Edge(edges, x, y) <==> Edge(old(edges), x, y) && !(x == waiter && y == holder)
    {
      if waiter in edges {
        edges := edges[waiter := edges[waiter] - {holder}];
        assert forall y :: y in old(edges)[waiter] ==> y == holder || y in edges[waiter];
        if edges[waiter] == {} {
          edges := edges - {waiter};
        }
      }
    }

    method RemoveAllWaits(waiter: TxnId)
      modifies this`edges
      ensures edges == old(edges) - {waiter}
    {
      edges := edges - {waiter};
    }

    method IncrementLockCount(txnId: TxnId)
      modifies this`txnInfo
      ensures txnInfo == if txnId in old(txnInfo)
                         then old(txnInfo)[txnId := old(txnInfo)[txnId].(
                           lockCount := old(txnInfo)[txnId].lockCount + 1)]
                         else old(txnInfo)
    {
      if txnId in txnInfo {
        txnInfo := txnInfo[txnId := txnInfo[txnId].(lockCount := txnInfo[txnId].lockCount + 1)];
      }
    }

    /** Tarjan's recursive step; `open` are the vertices whose call is under way. */
    method StrongConnect(v: TxnId, state: TarjanState, ghost open: set<TxnId>)
      requires Inv(edges, state.Snapshot(), open)
      requires v !in state.indices && v in Vertices(edges)
      requires state.indices.Keys <= Vertices(edges)
      requires forall x | x in open :: Reach(edges, x, v)
      modifies state
      ensures Inv(edges, state.Snapshot(), open)
      ensures Connected(edges, old(state.Snapshot()), state.Snapshot(), v)
      ensures state.indices.Keys <= Vertices(edges)
      decreases Vertices(edges) - state.indices.Keys, 1
    {
      hide Inv, Exploring, Connected;
      ghost var s0 := state.Snapshot();
      InvFacts(edges, s0, open);
      PushKeepsInv(edges, s0, open, v);
      PushStartsExploring(edges, s0, v);
      state.indices := state.indices[v := state.indexCounter];
      state.lowlinks := state.lowlinks[v := state.indexCounter];
      state.indexCounter := state.indexCounter + 1;
      state.stack := state.stack + [v];
      state.onStack := state.onStack + {v};
      assert state.Snapshot() == Pushed(s0, v);

      if v in edges {
        var remaining := edges[v];
        assert edges[v] - remaining == {};
        while remaining != {}
          invariant remaining <= edges[v]
          invariant Inv(edges, state.Snapshot(), open + {v})
          invariant Exploring(edges, s0, state.Snapshot(), v, edges[v] - remaining)
          invariant state.indices.Keys <= Vertices(edges)
          decreases remaining
        {
          var w :| w in remaining;
          SeeSuccessor(state, v, w, open, s0, edges[v] - remaining);
          assert edges[v] - (remaining - {w}) == edges[v] - remaining + {w};
          remaining := remaining - {w};
        }
        assert edges[v] - remaining == edges[v];
      }

      ExploringFacts(edges, s0, state.Snapshot(), v, if v in edges then edges[v] else {});
      var lowV := state.lowlinks[v];
      var idxV := state.indices[v];
      if lowV == idxV {
        PopComponent(state, v, open, s0);
      } else {
        CloseKeeping(edges, s0, state.Snapshot(), open, v);
        ClosedIsConnected(edges, s0, state.Snapshot(), v);
      }
    }

    /** One round of the loop over the successors of `v`. */
    method SeeSuccessor(state: TarjanState, v: TxnId, w: TxnId, ghost open: set<TxnId>, ghost s0: View,
                        ghost seen: set<TxnId>)
      requires Edge(edges, v, w)
      requires Shape(s0) && v !in s0.indices && s0.indices.Keys <= Vertices(edges)
      requires forall x | x in open :: Reach(edges, x, v)
      requires Inv(edges, state.Snapshot(), open + {v})
      requires Exploring(edges, s0, state.Snapshot(), v, seen)
      requires state.indices.Keys <= Vertices(edges)
      modifies state
      ensures Inv(edges, state.Snapshot(), open + {v})
      ensures Exploring(edges, s0, state.Snapshot(), v, seen + {w})
      ensures state.indices.Keys <= Vertices(edges)
      decreases Vertices(edges) - s0.indices.Keys, 0
    {
      hide Inv, Exploring, Connected;
      ghost var s := state.Snapshot();
      ExploringFacts(edges, s0, s, v, seen);
      InvFacts(edges, s, open + {v});
      if w !in state.indices {
        forall x | x in open + {v} ensures Reach(edges, x, w) {
          ReachStep(edges, v, w);
          if x in open {
            ReachTrans(edges, x, v, w);
          }
        }
        StrongConnect(w, state, open + {v});
        ghost var t := state.Snapshot();
        SeeCalled(edges, s0, s, t, v, seen, w);
        var lowW := state.lowlinks[w];
        LowKeepsInv(edges, t, open + {v}, v, Min(t.lowlinks[v], lowW));
        state.lowlinks := state.lowlinks[v := Min(state.lowlinks[v], lowW)];
        assert state.Snapshot() == WithLow(t, v, Min(t.lowlinks[v], lowW));
      } else if w in state.onStack {
        var idxW := state.indices[w];
        SeeStacked(edges, s0, s, v, seen, w);
        LowKeepsInv(edges, s, open + {v}, v, Min(s.lowlinks[v], idxW));
        state.lowlinks := state.lowlinks[v := Min(state.lowlinks[v], idxW)];
        assert state.Snapshot() == WithLow(s, v, Min(s.lowlinks[v], idxW));
      } else {
        SeeDone(edges, s0, s, v, seen, w);
      }
    }

    /** Pops the component of `v` off the stack and emits it. */
    method PopComponent(state: TarjanState, v: TxnId, ghost open: set<TxnId>, ghost s0: View)
      requires Inv(edges, state.Snapshot(), open + {v})
      requires Explored(edges, s0, state.Snapshot(), v)
      requires v in state.lowlinks && state.lowlinks[v] == s0.counter
      requires open <= Elements(s0.stack)
      modifies state
      ensures Inv(edges, state.Snapshot(), open)
      ensures Connected(edges, s0, state.Snapshot(), v)
      ensures state.indices == old(state.indices)
    {
      hide Inv, Explored, Connected;
      ghost var s := state.Snapshot();
      InvFacts(edges, s, open + {v});
      ExploredFacts(edges, s0, s, v);
      StackSplits(s0, s, v);
      hide Shape, Entered;
      var scc := PopUntil(state, v, |s0.stack|);
      state.sccs := state.sccs + [scc];
      assert state.Snapshot() == Popped(s0, s, scc);
      hide Popped, IsPopped;
      CloseEmitting(edges, s0, s, open, v, scc);
      EmittedIsConnected(edges, s0, s, v, scc);
    }

    /** The pop loop: moves everything from `v` upwards into a new sequence, topmost first. */
    method PopUntil(state: TarjanState, v: TxnId, ghost n: nat) returns (scc: seq<TxnId>)
      requires Shape(state.Snapshot()) && n < |state.stack|
      requires forall i | n <= i < |state.stack| :: state.stack[i] == v <==> i == n
      modifies state`stack, state`onStack
      ensures state.stack == old(state.stack)[..n] && state.onStack == Elements(state.stack)
      ensures |scc| == |old(state.stack)| - n
      ensures forall i | 0 <= i < |scc| :: scc[i] == old(state.stack)[|old(state.stack)| - 1 - i]
    {
      ghost var all := state.stack;
      ghost var s := state.Snapshot();
      assert state.onStack == Elements(all);
      assert all[..|all|] == all;
      hide Shape;
      scc := [];
      while true
        invariant n < |state.stack| <= |all| && state.stack == all[..|state.stack|]
        invariant |scc| == |all| - |state.stack|
        invariant forall i | 0 <= i < |scc| :: scc[i] == all[|all| - 1 - i]
        invariant state.onStack == Elements(state.stack)
        decreases |state.stack|
      {
        var w := state.stack[|state.stack| - 1];
        StackIsDistinct(s, |state.stack|);
        PopOne(state.stack);
        state.stack := state.stack[..|state.stack| - 1];
        state.onStack := state.onStack - {w};
        scc := scc + [w];
        if w == v {
          break;
        }
      }
    }

    /** The outer loop of the search: the components of the graph are exactly what it collects. */
    method FindComponents(state: TarjanState)
      requires state.Snapshot() == View(0, [], map[], map[], {}, [])
      modifies state
      ensures AreComponents(edges, state.sccs, Vertices(edges))
    {
      hide Inv, Connected;
      EmptyInv(edges);
      var remaining := edges.Keys;
      while remaining != {}
        invariant Inv(edges, state.Snapshot(), {})
        invariant remaining <= edges.Keys
        invariant state.indices.Keys <= Vertices(edges)
        invariant edges.Keys - remaining <= state.indices.Keys
        decreases remaining
      {
        var v :| v in remaining;
        if v !in state.indices {
          ghost var s := state.Snapshot();
          StrongConnect(v, state, {});
          ConnectedFacts(edges, s, state.Snapshot(), v);
        }
        remaining := remaining - {v};
      }
      SearchIsComplete(edges, state.Snapshot());
    }

    method DetectDeadlock() returns (victims: Option<seq<TxnId>>)
      requires NoSelfEdges(edges)
      ensures victims.Some? <==> HasCycle(edges)
      ensures victims.Some? ==> |victims.value| == 1 && OnCycle(edges, victims.value[0])
      ensures victims.Some? ==> exists c :: IsComponent(edges, c) && |c| > 1 && IsVictim(txnInfo, c, victims.value[0])
    {
      hide IsVictim, OnCycle, IsComponent, AreComponents, Elements;
      var state := new TarjanState();
      FindComponents(state);
      for i := 0 to |state.sccs|
        invariant forall j | 0 <= j < i :: |state.sccs[j]| <= 1
      {
        var scc := state.sccs[i];
        if |scc| > 1 {
          var victim := SelectVictims(scc);
          ghost var c := Elements(scc);
          ComponentAt(edges, state.sccs, Vertices(edges), i);
          assert victim[0] in c;
          LargeComponentIsCycle(edges, c, victim[0]);
          return Some(victim);
        }
      }
      NoLargeComponentNoCycle(edges, state.sccs, Vertices(edges));
      victims := None;
    }

    method SelectVictims(cycle: seq<TxnId>) returns (victims: seq<TxnId>)
      requires cycle != []
      ensures |victims| == 1 && victims[0] in Elements(cycle) && IsVictim(txnInfo, Elements(cycle), victims[0])
    {
      var candidates: seq<Candidate> := [];
      for i := 0 to |cycle|
        invariant forall c | c in candidates :: c.id in cycle && c.id in txnInfo && c.info == txnInfo[c.id]
        invariant forall j | 0 <= j < i && cycle[j] in txnInfo :: Candidate(cycle[j], txnInfo[cycle[j]]) in candidates
      {
        if cycle[i] in txnInfo {
          candidates := candidates + [Candidate(cycle[i], txnInfo[cycle[i]])];
        }
      }
      var sorted := SortCandidates(candidates);
      victims := [if sorted != [] then sorted[0].id else cycle[0]];
      HeadIsVictim(txnInfo, cycle, candidates);
    }

    /** Aborting victims until none is reported leaves the graph of the survivors, without a cycle. */
    method BreakDeadlocks() returns (aborted: seq<TxnId>)
      requires NoSelfEdges(edges)
      modifies this
      ensures !HasCycle(edges) && NoSelfEdges(edges)
      ensures edges == Without(old(edges), Elements(aborted))
      ensures |aborted| == |old(edges)| - |edges|
      ensures aborted == [] <==> !HasCycle(old(edges))
    {
      hide HasCycle, OnCycle, IsComponent, IsVictim;
      aborted := [];
      var victims := DetectDeadlock();
      WithoutNothing(edges);
      while victims.Some?
        invariant NoSelfEdges(edges)
        invariant victims.Some? <==> HasCycle(edges)
        invariant victims.Some? ==> |victims.value| == 1 && OnCycle(edges, victims.value[0])
        invariant edges == Without(old(edges), Elements(aborted))
        invariant |aborted| == |old(edges)| - |edges|
        invariant if aborted == [] then edges == old(edges) else HasCycle(old(edges))
        decreases |edges|
      {
        var v := victims.value[0];
        ghost var before := edges;
        CycleVertexIsKey(edges, v);
        UnregisterTxn(v);
        WithoutOneMore(old(edges), aborted, v);
        assert edges.Keys == before.Keys - {v};
        aborted := aborted + [v];
        victims := DetectDeadlock();
      }
    }
  }
}
