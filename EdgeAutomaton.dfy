/**
 * The edge-encoded automaton of the Edge problem and two of its GP construction nodes, Split
 * (Split.cs) and BLoop (BLoop.cs). The automaton is a growable set of parallel arrays: per
 * edge From, To and Reading, per node Start and Accept, of which the first NumEdges and
 * NumNodes entries are in use. A construction node grows the automaton around the edge it
 * is given, then evaluates its left child with that edge and its right child with the edge
 * it made. The children are not part of this model: an evaluation reports the edge each
 * child is dispatched with.
 */
module EdgeAutomaton {

  /** One edge in use: its end points and the symbol it reads. */
  datatype EdgeEntry = EdgeEntry(from: int, to: int, reading: int)

  /** One node in use: whether it is a start node and whether it accepts. */
  datatype NodeEntry = NodeEntry(start: bool, accept: bool)

  /** A child evaluation: which child, and the edge in the input when it runs. */
  datatype Dispatch = Dispatch(child: nat, edge: int)

  /** Each of a node's `children` children is evaluated exactly once, in order. */
  predicate EachChildOnce(calls: seq<Dispatch>, children: nat) {
    |calls| == children && forall k :: 0 <= k < |calls| ==> calls[k].child == k
  }

  /** Every edge runs between nodes in use. */
  predicate WellFormed(edges: seq<EdgeEntry>, numNodes: nat) {
    forall e :: 0 <= e < |edges| ==> 0 <= edges[e].from < numNodes && 0 <= edges[e].to < numNodes
  }

  // ---------------------------------------------------------------------------------------
  // What the two nodes do to the edges in use.

  /** Split of edge e with the new node n: edge e now ends at n, and a new edge, reading the
      same symbol, runs from n to where e ended. */
  function SplitEdges(edges: seq<EdgeEntry>, e: nat, n: int): (r: seq<EdgeEntry>)
    requires e < |edges|
  {
    edges[e := edges[e].(to := n)] + [EdgeEntry(n, edges[e].to, edges[e].reading)]
  }

  /** BLoop on edge e: a new edge, reading the same symbol, loops at the node e starts from. */
  function LoopEdges(edges: seq<EdgeEntry>, e: nat): (r: seq<EdgeEntry>)
    requires e < |edges|
  {
    edges + [EdgeEntry(edges[e].from, edges[e].from, edges[e].reading)]
  }

  /** Split keeps the automaton well formed once the new node is in use, and replaces edge e
      by a path of two edges through the new node that reads the same symbol twice: the new
      node has exactly one edge in (the old edge) and one edge out (the new edge), and every
      other edge is as it was. */
  lemma SplitMakesPath(edges: seq<EdgeEntry>, e: nat, n: nat)
    requires e < |edges| && WellFormed(edges, n)
    ensures var r := SplitEdges(edges, e, n);
      |r| == |edges| + 1 && WellFormed(r, n + 1) &&
      r[e].from == edges[e].from && r[e].to == n && r[|edges|].from == n && r[|edges|].to == edges[e].to &&
      r[e].reading == edges[e].reading && r[|edges|].reading == edges[e].reading
    ensures var r := SplitEdges(edges, e, n);
      forall i :: 0 <= i < |r| ==> (r[i].to == n <==> i == e) && (r[i].from == n <==> i == |edges|)
    ensures var r := SplitEdges(edges, e, n);
      forall i :: 0 <= i < |edges| && i != e ==> r[i] == edges[i]
  {
    var r := SplitEdges(edges, e, n);
    forall i | 0 <= i < |r|
      ensures (r[i].to == n <==> i == e) && (r[i].from == n <==> i == |edges|)
      ensures 0 <= r[i].from < n + 1 && 0 <= r[i].to < n + 1
    {
      if i < |edges| {
        assert edges[i].from < n && edges[i].to < n;
      }
    }
  }

  /** BLoop keeps the automaton well formed, keeps every edge, and adds a self-loop at the
      start of edge e that reads what e reads. */
  lemma LoopAddsSelfLoop(edges: seq<EdgeEntry>, e: nat, numNodes: nat)
    requires e < |edges| && WellFormed(edges, numNodes)
    ensures var r := LoopEdges(edges, e);
      |r| == |edges| + 1 && r[..|edges|] == edges && WellFormed(r, numNodes) &&
      r[|edges|].from == r[|edges|].to == edges[e].from && r[|edges|].reading == edges[e].reading
  {
    var r := LoopEdges(edges, e);
    assert r[|edges|] == EdgeEntry(edges[e].from, edges[e].from, edges[e].reading);
    assert r[..|edges|] == edges;
  }

  // ---------------------------------------------------------------------------------------
  // The arrays.

  /** The array that replaces a full one: twice as long, the old contents first, and the
      default value after them. */
  method Doubled<T>(a: array<T>, fill: T) returns (b: array<T>)
    ensures fresh(b) && b.Length == 2 * a.Length
    ensures b[..a.Length] == a[..]
    ensures forall i :: a.Length <= i < b.Length ==> b[i] == fill
  {
    b := new T[2 * a.Length](_ => fill);
    for k := 0 to a.Length
      invariant forall i :: 0 <= i < k ==> b[i] == a[i]
      invariant forall i :: a.Length <= i < b.Length ==> b[i] == fill
    {
      b[k] := a[k];
    }
  }

  /** EdgeData: the edge a construction node works on. */
  class EdgeData {
    var edge: int

    constructor (edge: int)
      ensures this.edge == edge
    {
      this.edge := edge;
    }
  }

  /** The automaton the Edge problem builds: the five arrays and the two counts. The ghost
      fields `edges` and `nodes` are the entries in use. */
  class Edge {
    var from: array<int>
    var to: array<int>
    var reading: array<int>
    var start: array<bool>
    var accept: array<bool>
    var numEdges: nat
    var numNodes: nat
    ghost var edges: seq<EdgeEntry>
    ghost var nodes: seq<NodeEntry>

    /** The edge arrays have one length and the node arrays another, each at least the count
        in use; the five arrays are distinct; the first numEdges and numNodes entries are
        `edges` and `nodes`, and every edge in use runs between nodes in use. */
    ghost predicate Valid()
      reads this, from, to, reading, start, accept
    {
      from.Length == to.Length == reading.Length && start.Length == accept.Length &&
      numEdges <= from.Length && numNodes <= start.Length &&
      from != to && from != reading && to != reading && start != accept &&
      |edges| == numEdges && |nodes| == numNodes &&
      (forall e :: 0 <= e < numEdges ==> edges[e] == EdgeEntry(from[e], to[e], reading[e])) &&
      (forall n :: 0 <= n < numNodes ==> nodes[n] == NodeEntry(start[n], accept[n])) &&
      WellFormed(edges, numNodes)
    }

    /** An automaton whose entries in use are `edges0` and `nodes0`, in arrays with room for one
        more edge and one more node. */
    constructor (edges0: seq<EdgeEntry>, nodes0: seq<NodeEntry>)
      requires WellFormed(edges0, |nodes0|)
      ensures Valid() && edges == edges0 && nodes == nodes0
      ensures numEdges < from.Length && numNodes < start.Length
    {
      from := new int[|edges0| + 1](e => if 0 <= e < |edges0| then edges0[e].from else 0);
      to := new int[|edges0| + 1](e => if 0 <= e < |edges0| then edges0[e].to else 0);
      reading := new int[|edges0| + 1](e => if 0 <= e < |edges0| then edges0[e].reading else 0);
      start := new bool[|nodes0| + 1](n => 0 <= n < |nodes0| && nodes0[n].start);
      accept := new bool[|nodes0| + 1](n => 0 <= n < |nodes0| && nodes0[n].accept);
      numEdges, numNodes := |edges0|, |nodes0|;
      edges, nodes := edges0, nodes0;
    }

    /** The edge arrays of the construction nodes, when full: each replaced by one twice as
        long that holds the old contents first. The entries in use do not change. */
    method GrowEdges()
      requires Valid() && 1 <= numEdges
      modifies this`from, this`to, this`reading
      ensures Valid() && numEdges < from.Length
      ensures old(from.Length) == numEdges ==>
        fresh(from) && fresh(to) && fresh(reading) && from.Length == 2 * numEdges
      ensures old(from.Length) != numEdges ==> from == old(from) && to == old(to) && reading == old(reading)
    {
      if from.Length == numEdges {
        var from_ := Doubled(from, 0);
        var to_ := Doubled(to, 0);
        var reading_ := Doubled(reading, 0);
        from, to, reading := from_, to_, reading_;
        assert forall e :: 0 <= e < numEdges ==> from[e] == old(from[e]) && to[e] == old(to[e]);
        assert forall e :: 0 <= e < numEdges ==> reading[e] == old(reading[e]);
      }
    }

    /** The node arrays of Split, when full: each replaced by one twice as long that holds the
        old contents first. The entries in use do not change. */
    method GrowNodes()
      requires Valid() && 1 <= numNodes
      modifies this`start, this`accept
      ensures Valid() && numNodes < start.Length
      ensures old(start.Length) == numNodes ==> fresh(start) && fresh(accept) && start.Length == 2 * numNodes
      ensures old(start.Length) != numNodes ==> start == old(start) && accept == old(accept)
    {
      if start.Length == numNodes {
        var start_ := Doubled(start, false);
        var accept_ := Doubled(accept, false);
        start, accept := start_, accept_;
        assert forall n :: 0 <= n < numNodes ==> start[n] == old(start[n]) && accept[n] == old(accept[n]);
      }
    }

    /** Split.Eval on the edge in `input`: the arrays grow when full, a new node that neither
        starts nor accepts and a new edge are added as SplitEdges says, the left child is
        dispatched with the original edge and the right child with the new one, which the
        input holds afterwards. The node has the two children Split expects, and each is
        evaluated once. */
    method SplitEval(input: EdgeData, children: nat) returns (calls: seq<Dispatch>)
      requires Valid() && 0 <= input.edge < numEdges
      requires children == SplitExpectedChildren
      modifies this, from, to, reading, start, accept, input
      ensures Valid()
      ensures numEdges == old(numEdges) + 1 && numNodes == old(numNodes) + 1
      ensures edges == SplitEdges(old(edges), old(input.edge), old(numNodes))
      ensures nodes == old(nodes) + [NodeEntry(false, false)]
      ensures from.Length == if old(from.Length) == old(numEdges) then 2 * old(numEdges) else old(from.Length)
      ensures start.Length == if old(start.Length) == old(numNodes) then 2 * old(numNodes) else old(start.Length)
      ensures calls == [Dispatch(0, old(input.edge)), Dispatch(1, old(numEdges))]
      ensures EachChildOnce(calls, children)
      ensures input.edge == old(numEdges)
    {
      var edge := input.edge;
      SplitMakesPath(edges, edge, numNodes);
      GrowEdges();
      GrowNodes();
      AddSplit(edge);
      calls := [Dispatch(0, input.edge)];
      input.edge := numEdges - 1;
      calls := calls + [Dispatch(1, input.edge)];
    }

    /** Lines 77-91 of Split.Eval, once the arrays have room: the new node and edge. */
    method AddSplit(edge: nat)
      requires Valid() && edge < numEdges && numEdges < from.Length && numNodes < start.Length
      modifies this`numEdges, this`numNodes, this`edges, this`nodes, from, to, reading, start, accept
      ensures Valid()
      ensures numEdges == old(numEdges) + 1 && numNodes == old(numNodes) + 1
      ensures edges == SplitEdges(old(edges), edge, old(numNodes))
      ensures nodes == old(nodes) + [NodeEntry(false, false)]
    {
      SplitMakesPath(edges, edge, numNodes);
      var newedge := numEdges;
      numEdges := numEdges + 1;
      var newnode := numNodes;
      numNodes := numNodes + 1;

      accept[newnode] := false;
      start[newnode] := false;

      from[newedge] := newnode;
      to[newedge] := to[edge];
      reading[newedge] := reading[edge];
      to[edge] := newnode;
      edges := SplitEdges(edges, edge, newnode);
      nodes := nodes + [NodeEntry(false, false)];
    }

    /** BLoop.Eval on the edge in `input`: the edge arrays grow when full, a self-loop is added
        as LoopEdges says, the nodes are untouched, the left child is dispatched with the
        original edge and the right child with the new one, which the input holds afterwards.
        On a node that passes BLoop's constraint check, every child is evaluated once. */
    method LoopEval(input: EdgeData, children: nat) returns (calls: seq<Dispatch>)
      requires Valid() && 0 <= input.edge < numEdges
      requires !LoopConstraintError(children)
      modifies this, from, to, reading, input
      ensures Valid()
      ensures numEdges == old(numEdges) + 1 && numNodes == old(numNodes)
      ensures edges == LoopEdges(old(edges), old(input.edge))
      ensures start == old(start) && accept == old(accept) && nodes == old(nodes)
      ensures from.Length == if old(from.Length) == old(numEdges) then 2 * old(numEdges) else old(from.Length)
      ensures calls == [Dispatch(0, old(input.edge)), Dispatch(1, old(numEdges))]
      ensures EachChildOnce(calls, children)
      ensures input.edge == old(numEdges)
    {
      var edge := input.edge;
      GrowEdges();
      AddLoop(edge);
      calls := [Dispatch(0, input.edge)];
      input.edge := numEdges - 1;
      calls := calls + [Dispatch(1, input.edge)];
    }

    /** Lines 64-68 of BLoop.Eval, once the edge arrays have room: the self-loop. */
    method AddLoop(edge: nat)
      requires Valid() && edge < numEdges && numEdges < from.Length
      modifies this`numEdges, this`edges, from, to, reading
      ensures Valid()
      ensures numEdges == old(numEdges) + 1
      ensures edges == LoopEdges(old(edges), edge)
    {
      LoopAddsSelfLoop(edges, edge, numNodes);
      var newedge := numEdges;
      numEdges := numEdges + 1;
      from[newedge] := from[edge];
      to[newedge] := from[edge];
      reading[newedge] := reading[edge];
      edges := LoopEdges(edges, edge);
    }
  }

  /** ExpectedChildren of Split. */
  const SplitExpectedChildren: nat := 2

  /** BLoop.CheckConstraints: an error unless the node has exactly two children. */
  predicate LoopConstraintError(children: nat) {
    children != 2
  }
}
