/** The scene's graph and its growth: the graph object the scene mutates in
    place, the seeding step, the preferential-attachment step and the loop
    that grows the network from 3 to 20 nodes. */
module Simulation {
  import opened Graph
  import opened Attachment
  import opened DegreeViews

  /** The id the growth loop stops before: nodes 3 to 19 are attached. */
  const FINAL_NODE_COUNT: nat := 20

  class PAGraph {
    var nodes: seq<nat>
    var edges: seq<Edge>

    ghost predicate Valid()
      reads this
    {
      WellFormed(nodes, edges)
    }

    /** The degree of n: at most the edge count, and 0 exactly when no edge
        touches n. */
    function Degree(n: nat): (d: nat)
      reads this
      ensures d <= |edges|
      ensures d == 0 <==> forall i :: 0 <= i < |edges| ==> !Touches(edges[i], n)
    {
      IncidentZero(edges, n);
      Incident(edges, n)
    }

    /** An empty graph. */
    constructor ()
      ensures Valid()
      ensures nodes == [] && edges == []
    {
      nodes := [];
      edges := [];
    }

    /** Adds node n; adding a node that is present changes nothing. */
    method AddNode(n: nat)
      requires Valid()
      modifies this
      ensures Valid()
      ensures nodes == WithNode(old(nodes), n) && edges == old(edges)
    {
      if n !in nodes {
        nodes := nodes + [n];
      }
    }

    /** Adds an edge between u and v, adding either end that is missing;
        adding an edge that is present changes nothing. */
    method AddEdge(u: nat, v: nat)
      requires Valid() && u != v
      modifies this
      ensures Valid()
      ensures nodes == WithNode(WithNode(old(nodes), u), v)
      ensures edges == WithEdge(old(edges), u, v)
    {
      AddNode(u);
      AddNode(v);
      if !Adjacent(edges, u, v) {
        forall i | 0 <= i < |edges|
          ensures !SameEnds(edges[i], Edge(u, v))
        {
          assert edges[i] != Edge(u, v) && edges[i] != Edge(v, u);
        }
        edges := edges + [Edge(u, v)];
      }
    }

    /** Seeds an empty graph with nodes 0, 1 and 2 joined in a triangle: every
        node has degree 2, so every weight is 3. */
    method AddInitialNodes()
      requires Valid() && nodes == [] && edges == []
      modifies this
      ensures Valid()
      ensures nodes == [0, 1, 2] && edges == SeedEdges()
      ensures forall n :: n in nodes ==> Degree(n) == 2
      ensures Weights(nodes, edges) == [3, 3, 3]
      ensures Connected(nodes, edges)
    {
      for i := 0 to 3
        invariant Valid() && nodes == Iota(i) && edges == []
      {
        IotaSnoc(i);
        AddNode(i);
      }
      assert Iota(3) == [0, 1, 2];
      assert WithNode(WithNode(nodes, 0), 1) == nodes;
      assert WithNode(WithNode(nodes, 1), 2) == nodes;
      assert WithNode(WithNode(nodes, 2), 0) == nodes;
      AddEdge(0, 1);
      assert edges == [Edge(0, 1)];
      assert WithEdge(edges, 1, 2) == [Edge(0, 1), Edge(1, 2)];
      AddEdge(1, 2);
      assert WithEdge(edges, 2, 0) == SeedEdges();
      AddEdge(2, 0);
      SeedDegrees();
      SeedWeights();
      SeedConnected();
    }

    /** Attaches the new node to a target chosen with weight degree + 1 among
        the existing nodes; `draw` is the random ticket below the total weight.
        Exactly one node and one edge are added, the new node has degree 1, the
        target's degree rises by 1 and no other degree changes. */
    method AddNodeWithPreferentialAttachment(newNode: nat, draw: nat) returns (chosen: nat)
      requires Valid() && newNode !in nodes
      requires draw < Sum(Weights(nodes, edges))
      modifies this
      ensures Valid()
      ensures chosen in old(nodes) && chosen == ChooseTarget(old(nodes), old(edges), draw)
      ensures nodes == old(nodes) + [newNode]
      ensures edges == old(edges) + [Edge(newNode, chosen)]
      ensures Degree(newNode) == 1
      ensures Degree(chosen) == old(Degree(chosen)) + 1
      ensures forall n :: n != newNode && n != chosen ==> Degree(n) == old(Degree(n))
      ensures old(Connected(nodes, edges)) ==> Connected(nodes, edges)
    {
      chosen := ChooseTarget(nodes, edges, draw);
      AttachDegrees(nodes, edges, newNode, chosen);
      assert !Adjacent(edges, newNode, chosen) by {
        forall i | 0 <= i < |edges|
          ensures edges[i] != Edge(newNode, chosen) && edges[i] != Edge(chosen, newNode)
        {
          assert edges[i].u in nodes && edges[i].v in nodes;
        }
      }
      ghost var before := edges;
      AddNode(newNode);
      AddEdge(newNode, chosen);
      if old(Connected(nodes, edges)) {
        AttachKeepsConnected(old(nodes), before, newNode, chosen);
      }
    }

    /** The colour bucket of every node, in node order. */
    method NodeColours() returns (colours: seq<Colour>)
      ensures |colours| == |nodes|
      ensures forall i :: 0 <= i < |nodes| ==> colours[i] == ColourOf(Degree(nodes[i]))
    {
      colours := [];
      for i := 0 to |nodes|
        invariant |colours| == i
        invariant forall j :: 0 <= j < i ==> colours[j] == ColourOf(Degree(nodes[j]))
      {
        var degree := Degree(nodes[i]);
        colours := colours + [ColourOf(degree)];
      }
    }
  }

  /** The state of the growth loop before node m is attached: nodes 0 to m-1,
      one edge per node, connected, every node of degree at least 1, node 0 of
      degree at least 2 and, once growth has begun, the last node a leaf. */
  ghost predicate GrownTo(ns: seq<nat>, es: seq<Edge>, m: nat) {
    WellFormed(ns, es) && ns == Iota(m) && |es| == m && Connected(ns, es) &&
    (forall n :: n in ns ==> Incident(es, n) >= 1) &&
    Incident(es, 0) >= 2 && (m > 3 ==> Incident(es, m - 1) == 1)
  }

  /** One growth step from a grown graph, attaching node m to any existing
      node, gives a graph grown to m + 1. */
  lemma GrowthStep(ns: seq<nat>, es: seq<Edge>, m: nat, target: nat)
    requires GrownTo(ns, es, m) && target in ns
    ensures GrownTo(ns + [m], es + [Edge(m, target)], m + 1)
  {
    var ns', es' := ns + [m], es + [Edge(m, target)];
    IotaSnoc(m);
    AttachWellFormed(ns, es, m, target);
    AttachDegrees(ns, es, m, target);
    AttachKeepsConnected(ns, es, m, target);
    forall n | n in ns'
      ensures Incident(es', n) >= 1
    {
      if n != m {
        assert n in ns && Incident(es', n) >= Incident(es, n);
      }
    }
    assert Incident(es', 0) >= Incident(es, 0) by {
      assert 0 != m;
    }
  }

  /** Before node m is attached to a grown graph, m is not yet a node and the
      total weight is 3 * m. */
  lemma GrownWeight(ns: seq<nat>, es: seq<Edge>, m: nat)
    requires GrownTo(ns, es, m)
    ensures WellFormed(ns, es) && m !in ns
    ensures Sum(Weights(ns, es)) == 3 * m
  {
    TotalWeight(ns, es);
    IotaSnoc(m);
  }

  /** The edges after seeding and attaching nodes 3 to m-1, the k-th of them
      with ticket draws[k]: node m-1 joins the target that ChooseTarget draws
      for its ticket among nodes 0 to m-2 and the edges before it. */
  ghost function GrownEdges(draws: seq<nat>, m: nat): (es: seq<Edge>)
    requires 3 <= m <= |draws| + 3
    requires forall k :: 0 <= k < |draws| ==> draws[k] < 3 * (k + 3)
    ensures GrownTo(Iota(m), es, m)
    decreases m
  {
    if m == 3 then
      SeedGrown();
      SeedEdges()
    else
      var prev := GrownEdges(draws, m - 1);
      GrownWeight(Iota(m - 1), prev, m - 1);
      var target := ChooseTarget(Iota(m - 1), prev, draws[m - 4]);
      GrowthStep(Iota(m - 1), prev, m - 1, target);
      IotaSnoc(m - 1);
      prev + [Edge(m - 1, target)]
  }

  /** The seed triangle is the growth loop's starting state. */
  lemma SeedGrown()
    ensures GrownTo(Iota(3), SeedEdges(), 3)
  {
    SeedWellFormed();
    assert Iota(3) == [0, 1, 2];
    SeedConnected();
    SeedDegrees();
  }

  /** The scene's simulation: seed the triangle, then attach nodes 3 to 19 in
      order, the k-th of them with ticket draws[k]. Before attaching node m the
      graph has m nodes and m edges, so the total weight is 3 * m. At the end
      the last node is a leaf and node 0 has degree at least 2, so the degree
      histogram has a key 1 and a key of at least 2. */
  method Construct(draws: seq<nat>) returns (g: PAGraph)
    requires |draws| == FINAL_NODE_COUNT - 3
    requires forall k :: 0 <= k < |draws| ==> draws[k] < 3 * (k + 3)
    ensures fresh(g) && g.Valid()
    ensures g.nodes == Iota(FINAL_NODE_COUNT) && |g.edges| == FINAL_NODE_COUNT
    ensures Connected(g.nodes, g.edges)
    ensures forall n :: n in g.nodes ==> g.Degree(n) >= 1
    ensures g.Degree(FINAL_NODE_COUNT - 1) == 1 && g.Degree(0) >= 2
    ensures 1 in Histogram(Degrees(g.nodes, g.edges))
    ensures exists d :: d in Histogram(Degrees(g.nodes, g.edges)) && d >= 2
    ensures g.edges == GrownEdges(draws, FINAL_NODE_COUNT)
  {
    g := new PAGraph();
    g.AddInitialNodes();
    assert [0, 1, 2] == Iota(3);
    for newNode := 3 to FINAL_NODE_COUNT
      invariant GrownTo(g.nodes, g.edges, newNode)
      invariant g.edges == GrownEdges(draws, newNode)
    {
      GrownWeight(g.nodes, g.edges, newNode);
      ghost var nodesBefore, edgesBefore := g.nodes, g.edges;
      var chosen := g.AddNodeWithPreferentialAttachment(newNode, draws[newNode - 3]);
      GrowthStep(nodesBefore, edgesBefore, newNode, chosen);
    }
    TwoPlotPoints(g.nodes, g.edges, FINAL_NODE_COUNT - 1, 0);
  }
}
