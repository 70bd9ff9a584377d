/**
 Three-colour depth-first cycle detection over claimed links.  The search
 reports a cycle exactly when the link graph has one.
 */
module LinkGraph {

  type Edges = map<string, seq<string>>

  function Next(edges: Edges, n: string): seq<string> {
    if n in edges then edges[n] else []
  }

  predicate IsPath(edges: Edges, p: seq<string>) {
    p != [] && forall i :: 0 <= i < |p| - 1 ==> p[i + 1] in Next(edges, p[i])
  }

  predicate IsCycle(edges: Edges, p: seq<string>) {
    IsPath(edges, p) && |p| > 1 && p[0] == p[|p| - 1]
  }

  ghost predicate HasCycle(edges: Edges) {
    exists p :: IsCycle(edges, p)
  }

  /** every node a search can meet */
  function Nodes(edges: Edges): set<string> {
    edges.Keys + set n, m | n in edges && m in edges[n] :: m
  }

  // ---------------------------------------------------------------------
  // Finishing order
  // ---------------------------------------------------------------------

  /** every link out of a finished node leads to a node finished before it */
  predicate Ordered(edges: Edges, order: seq<string>) {
    forall i :: 0 <= i < |order| ==> forall m :: m in Next(edges, order[i]) ==> m in order[..i]
  }

  lemma {:induction false} PathGoesDown(edges: Edges, order: seq<string>, p: seq<string>, i: nat)
    requires Ordered(edges, order) && IsPath(edges, p) && |p| > 1 && i < |order| && order[i] == p[0]
    ensures p[|p| - 1] in order[..i]
    decreases |p|
  {
    assert p[1] in Next(edges, p[0]);
    var j :| 0 <= j < i && order[j] == p[1];
    if |p| > 2 {
      var q := p[1..];
      assert forall t :: 0 <= t < |q| - 1 ==> q[t + 1] in Next(edges, q[t]) by {
        forall t | 0 <= t < |q| - 1 ensures q[t + 1] in Next(edges, q[t]) {
          assert p[t + 2] in Next(edges, p[t + 1]);
        }
      }
      PathGoesDown(edges, order, q, j);
      var t :| 0 <= t < j && order[t] == q[|q| - 1];
      assert order[..i][t] == p[|p| - 1];
    }
  }

  lemma {:induction false} NoCycleAt(edges: Edges, order: seq<string>, p: seq<string>, i: nat)
    requires Ordered(edges, order) && IsCycle(edges, p) && i < |order| && order[i] == p[0]
    ensures false
    decreases i
  {
    PathGoesDown(edges, order, p, i);
    var j :| 0 <= j < i && order[j] == p[0];
    NoCycleAt(edges, order, p, j);
  }

  /** When every node with links has finished, there is no cycle. */
  lemma AllFinishedAcyclic(edges: Edges, order: seq<string>)
    requires Ordered(edges, order) && forall n :: n in edges ==> n in order
    ensures !HasCycle(edges)
  {
    if p :| IsCycle(edges, p) {
      assert p[1] in Next(edges, p[0]);
      var i :| 0 <= i < |order| && order[i] == p[0];
      NoCycleAt(edges, order, p, i);
    }
  }

  /** A link from the top of the search stack back into the stack closes a cycle. */
  lemma BackEdgeIsCycle(edges: Edges, stack: seq<string>, next: string)
    requires IsPath(edges, stack) && next in stack && next in Next(edges, stack[|stack| - 1])
    ensures HasCycle(edges)
  {
    var i :| 0 <= i < |stack| && stack[i] == next;
    var p := stack[i..] + [next];
    forall t | 0 <= t < |p| - 1 ensures p[t + 1] in Next(edges, p[t]) {
      if t < |p| - 2 {
        assert stack[i + t + 1] in Next(edges, stack[i + t]);
      }
    }
    assert IsCycle(edges, p);
  }

  // ---------------------------------------------------------------------
  // The search
  // ---------------------------------------------------------------------

  datatype Color = White | Grey | Black

  class CycleSearch {
    const edges: Edges
    var color: map<string, Color>
    ghost var order: seq<string>

    constructor (e: Edges)
      ensures edges == e && color == map[] && order == []
    {
      edges := e;
      color := map[];
      order := [];
    }

    function ColorOf(n: string): Color
      reads this
    {
      if n in color then color[n] else White
    }

    /** grey nodes are the search stack, black nodes have finished in order */
    ghost predicate Valid(stack: seq<string>)
      reads this
    {
      && (stack != [] ==> IsPath(edges, stack))
      && (forall n :: ColorOf(n) == Grey <==> n in stack)
      && (forall n :: ColorOf(n) == Black <==> n in order)
      && Ordered(edges, order)
      && (forall n :: ColorOf(n) != White ==> n in Nodes(edges))
    }

    ghost function Unseen(): set<string>
      reads this
    {
      set n | n in Nodes(edges) && ColorOf(n) == White
    }

    /** a white node reached from the top of the stack goes on the stack */
    method Enter(node: string, ghost stack: seq<string>)
      requires Valid(stack) && node in Nodes(edges) && ColorOf(node) == White
      requires stack != [] ==> node in Next(edges, stack[|stack| - 1])
      modifies this`color
      ensures Valid(stack + [node]) && Unseen() < old(Unseen()) && node !in stack
    {
      assert node in Unseen();
      color := color[node := Grey];
      assert forall n :: n in stack + [node] <==> n in stack || n == node;
      assert IsPath(edges, stack + [node]);
    }

    /** the top of the stack finishes once all its successors have */
    method Leave(node: string, ghost stack: seq<string>)
      requires Valid(stack + [node]) && node !in stack
      requires forall m :: m in Next(edges, node) ==> ColorOf(m) == Black
      modifies this
      ensures Valid(stack) && ColorOf(node) == Black && order == old(order) + [node]
      ensures Unseen() <= old(Unseen())
    {
      OrderedSnoc(edges, order, node);
      assert forall n :: n in order + [node] <==> n in order || n == node;
      assert forall n :: n in stack + [node] <==> n in stack || n == node;
      if stack != [] {
        PathPrefix(edges, stack, node);
      }
      color := color[node := Black];
      order := order + [node];
    }

    method Visit(node: string, ghost stack: seq<string>) returns (found: bool)
      requires Valid(stack) && node in Nodes(edges) && ColorOf(node) == White
      requires stack != [] ==> node in Next(edges, stack[|stack| - 1])
      modifies this
      ensures found ==> HasCycle(edges)
      ensures !found ==> Valid(stack) && ColorOf(node) == Black && old(order) <= order
      ensures !found ==> Unseen() <= old(Unseen())
      decreases Unseen()
    {
      hide HasCycle, Ordered, Nodes, IsPath;
      ghost var inner := stack + [node];
      Enter(node, stack);
      ghost var entered := Unseen();
      var successors := Next(edges, node);
      var i := 0;
      while i < |successors|
        invariant 0 <= i <= |successors|
        invariant Valid(inner) && Unseen() <= entered && old(order) <= order
        invariant forall j :: 0 <= j < i ==> successors[j] in order
        decreases |successors| - i
      {
        var next := successors[i];
        match ColorOf(next) {
          case Grey =>
            BackEdgeIsCycle(edges, inner, next);
            return true;
          case White =>
            InNodes(edges, node, next);
            found := Visit(next, inner);
            if found {
              return true;
            }
          case Black =>
        }
        i := i + 1;
      }
      Leave(node, stack);
      found := false;
    }
  }

  lemma PathPrefix(edges: Edges, stack: seq<string>, n: string)
    requires IsPath(edges, stack + [n]) && stack != []
    ensures IsPath(edges, stack)
  {
    var p := stack + [n];
    forall i | 0 <= i < |stack| - 1 ensures stack[i + 1] in Next(edges, stack[i]) {
      assert p[i + 1] in Next(edges, p[i]);
    }
  }

  lemma OrderedSnoc(edges: Edges, order: seq<string>, n: string)
    requires Ordered(edges, order) && forall m :: m in Next(edges, n) ==> m in order
    ensures Ordered(edges, order + [n])
  {
    var r := order + [n];
    forall i | 0 <= i < |r| ensures forall m :: m in Next(edges, r[i]) ==> m in r[..i] {
      assert r[..i] == order[..i];
      assert order[..|order|] == order;
    }
  }

  lemma InNodes(edges: Edges, n: string, m: string)
    requires m in Next(edges, n)
    ensures m in Nodes(edges)
  {
  }

  /** detectCycle: a search from every node that has links and is still white */
  method DetectCycle(edges: Edges) returns (found: bool)
    ensures found <==> HasCycle(edges)
  {
    var search := new CycleSearch(edges);
    var pending := edges.Keys;
    while pending != {}
      invariant pending <= edges.Keys && search.edges == edges && search.Valid([])
      invariant forall n :: n in edges && n !in pending ==> search.ColorOf(n) == Black
      decreases pending
    {
      var node :| node in pending;
      pending := pending - {node};
      if search.ColorOf(node) == White {
        ghost var seen := search.order;
        found := search.Visit(node, []);
        if found {
          return;
        }
        assert forall n :: n in seen ==> n in search.order;
      }
    }
    AllFinishedAcyclic(edges, search.order);
    found := false;
  }
}
