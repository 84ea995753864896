/** The undirected simple graph the simulation grows: node ids in the order
    they were added, and edges in the order they were added. An edge is kept
    as the pair of ends it was added with; two edges with the same two ends,
    in either order, never both occur. */
module Graph {

  datatype Edge = Edge(u: nat, v: nat)

  predicate Touches(e: Edge, n: nat) {
    e.u == n || e.v == n
  }

  /** Two edges join the same pair of nodes. */
  predicate SameEnds(a: Edge, b: Edge) {
    (a.u == b.u && a.v == b.v) || (a.u == b.v && a.v == b.u)
  }

  /** The number of edges that touch n: the degree of n in a graph without self-loops. */
  function Incident(es: seq<Edge>, n: nat): (d: nat)
    ensures d <= |es|
  {
    if es == [] then 0
    else Incident(es[..|es| - 1], n) + (if Touches(es[|es| - 1], n) then 1 else 0)
  }

  predicate Adjacent(es: seq<Edge>, a: nat, b: nat) {
    Edge(a, b) in es || Edge(b, a) in es
  }

  predicate Distinct(ns: seq<nat>) {
    forall i, j :: 0 <= i < j < |ns| ==> ns[i] != ns[j]
  }

  /** Every edge joins two different existing nodes, no node is listed twice,
      and no pair of nodes is joined twice. */
  ghost predicate WellFormed(ns: seq<nat>, es: seq<Edge>) {
    Distinct(ns) &&
    (forall i :: 0 <= i < |es| ==> es[i].u in ns && es[i].v in ns && es[i].u != es[i].v) &&
    (forall i, j :: 0 <= i < j < |es| ==> !SameEnds(es[i], es[j]))
  }

  /** The node list after adding n; adding a node that is present changes nothing. */
  function WithNode(ns: seq<nat>, n: nat): seq<nat> {
    if n in ns then ns else ns + [n]
  }

  /** The edge list after adding an edge between u and v; adding an edge that is present changes nothing. */
  function WithEdge(es: seq<Edge>, u: nat, v: nat): seq<Edge> {
    if Adjacent(es, u, v) then es else es + [Edge(u, v)]
  }

  /** The ids 0, 1, ..., n-1 in order. */
  function Iota(n: nat): (r: seq<nat>)
    ensures |r| == n && forall i :: 0 <= i < n ==> r[i] == i
  {
    seq(n, i => i)
  }

  lemma IotaSnoc(n: nat)
    ensures Iota(n + 1) == Iota(n) + [n] && n !in Iota(n)
  {
    assert Iota(n + 1)[..n] == Iota(n);
  }

  /** The degree of every node, in node order. */
  function Degrees(ns: seq<nat>, es: seq<Edge>): (ds: seq<nat>)
    ensures |ds| == |ns|
    ensures forall i :: 0 <= i < |ns| ==> ds[i] == Incident(es, ns[i]) && ds[i] <= |es|
  {
    seq(|ns|, i requires 0 <= i < |ns| => Incident(es, ns[i]))
  }

  function Sum(xs: seq<nat>): nat {
    if xs == [] then 0 else xs[0] + Sum(xs[1..])
  }

  /** How many times x occurs in xs. */
  function Count(xs: seq<nat>, x: nat): nat {
    if xs == [] then 0 else (if xs[0] == x then 1 else 0) + Count(xs[1..], x)
  }

  lemma IncidentSnoc(es: seq<Edge>, e: Edge, n: nat)
    ensures Incident(es + [e], n) == Incident(es, n) + (if Touches(e, n) then 1 else 0)
  {
    assert (es + [e])[..|es|] == es;
  }

  /** A node has degree 0 exactly when no edge touches it. */
  lemma {:induction false} IncidentZero(es: seq<Edge>, n: nat)
    ensures Incident(es, n) == 0 <==> forall i :: 0 <= i < |es| ==> !Touches(es[i], n)
  {
    if es != [] {
      var front := es[..|es| - 1];
      IncidentZero(front, n);
      assert forall i :: 0 <= i < |front| ==> front[i] == es[i];
    }
  }

  /** A node listed once in a list without repetitions occurs exactly once. */
  lemma {:induction false} CountDistinct(ns: seq<nat>, x: nat)
    requires Distinct(ns) && x in ns
    ensures Count(ns, x) == 1
  {
    if ns[0] == x {
      CountAbsent(ns[1..], x);
    } else {
      CountDistinct(ns[1..], x);
    }
  }

  lemma {:induction false} CountAbsent(xs: seq<nat>, x: nat)
    requires x !in xs
    ensures Count(xs, x) == 0
  {
    if xs != [] {
      CountAbsent(xs[1..], x);
    }
  }

  lemma DegreesCons(ns: seq<nat>, es: seq<Edge>)
    requires |ns| > 0
    ensures Sum(Degrees(ns, es)) == Incident(es, ns[0]) + Sum(Degrees(ns[1..], es))
  {
    assert Degrees(ns, es)[1..] == Degrees(ns[1..], es);
  }

  /** Before any edge exists every degree is 0. */
  lemma {:induction false} DegreesNoEdges(ns: seq<nat>)
    ensures Sum(Degrees(ns, [])) == 0
  {
    if ns != [] {
      DegreesCons(ns, []);
      DegreesNoEdges(ns[1..]);
    }
  }

  /** One more edge adds one to the degree sum for each occurrence of either end. */
  lemma {:induction false} DegreesAddEdge(ns: seq<nat>, es: seq<Edge>, e: Edge)
    requires e.u != e.v
    ensures Sum(Degrees(ns, es + [e])) == Sum(Degrees(ns, es)) + Count(ns, e.u) + Count(ns, e.v)
  {
    if ns == [] {
      assert Degrees(ns, es + [e]) == [] && Degrees(ns, es) == [];
    } else {
      DegreesCons(ns, es + [e]);
      DegreesCons(ns, es);
      IncidentSnoc(es, e, ns[0]);
      DegreesAddEdge(ns[1..], es, e);
      assert Count(ns, e.u) == (if ns[0] == e.u then 1 else 0) + Count(ns[1..], e.u);
      assert Count(ns, e.v) == (if ns[0] == e.v then 1 else 0) + Count(ns[1..], e.v);
    }
  }

  /** The handshake lemma: the degrees of a well-formed graph add up to twice its edge count. */
  lemma {:induction false} Handshake(ns: seq<nat>, es: seq<Edge>)
    requires WellFormed(ns, es)
    ensures Sum(Degrees(ns, es)) == 2 * |es|
    decreases |es|
  {
    if es == [] {
      DegreesNoEdges(ns);
    } else {
      var front, e := es[..|es| - 1], es[|es| - 1];
      assert es == front + [e];
      assert WellFormed(ns, front);
      Handshake(ns, front);
      DegreesAddEdge(ns, front, e);
      CountDistinct(ns, e.u);
      CountDistinct(ns, e.v);
    }
  }

  /** Attaching a node that is not yet present by one edge to an existing node
      gives the new node degree 1, raises the target's degree by 1 and leaves
      every other degree unchanged. */
  lemma AttachDegrees(ns: seq<nat>, es: seq<Edge>, n: nat, t: nat)
    requires WellFormed(ns, es) && n !in ns && t in ns
    ensures Incident(es + [Edge(n, t)], n) == 1
    ensures Incident(es + [Edge(n, t)], t) == Incident(es, t) + 1
    ensures forall m :: m != n && m != t ==> Incident(es + [Edge(n, t)], m) == Incident(es, m)
  {
    forall i | 0 <= i < |es|
      ensures !Touches(es[i], n)
    {
      assert es[i].u in ns && es[i].v in ns;
    }
    IncidentZero(es, n);
    forall m
      ensures Incident(es + [Edge(n, t)], m) == Incident(es, m) + (if Touches(Edge(n, t), m) then 1 else 0)
    {
      IncidentSnoc(es, Edge(n, t), m);
    }
  }

  /** Attaching a node that is not yet present by one edge to an existing node
      keeps the graph well-formed. */
  lemma AttachWellFormed(ns: seq<nat>, es: seq<Edge>, n: nat, t: nat)
    requires WellFormed(ns, es) && n !in ns && t in ns
    ensures WellFormed(ns + [n], es + [Edge(n, t)])
  {
    var ns', es' := ns + [n], es + [Edge(n, t)];
    forall i, j | 0 <= i < j < |ns'|
      ensures ns'[i] != ns'[j]
    {
      if j == |ns| {
        assert ns'[i] == ns[i];
      }
    }
    forall i | 0 <= i < |es'|
      ensures es'[i].u in ns' && es'[i].v in ns' && es'[i].u != es'[i].v
    {
      if i < |es| {
        assert es'[i] == es[i];
      }
    }
    forall i, j | 0 <= i < j < |es'|
      ensures !SameEnds(es'[i], es'[j])
    {
      assert es'[i] == es[i];
      if j == |es| {
        assert es[i].u in ns && es[i].v in ns;
      }
    }
  }

  /** The seed triangle is well-formed. */
  lemma SeedWellFormed()
    ensures WellFormed(Iota(3), SeedEdges())
  {
    var ns, es := Iota(3), SeedEdges();
    assert ns == [0, 1, 2];
    assert forall i :: 0 <= i < |es| ==> es[i].u in ns && es[i].v in ns && es[i].u != es[i].v;
    assert !SameEnds(es[0], es[1]) && !SameEnds(es[0], es[2]) && !SameEnds(es[1], es[2]);
  }

  /** A walk: consecutive nodes of p are joined by an edge of es. */
  ghost predicate IsWalk(es: seq<Edge>, p: seq<nat>) {
    |p| > 0 && forall i :: 0 <= i < |p| - 1 ==> Adjacent(es, p[i], p[i + 1])
  }

  ghost predicate Reachable(es: seq<Edge>, a: nat, b: nat) {
    exists p :: IsWalk(es, p) && p[0] == a && p[|p| - 1] == b
  }

  /** Every node can be reached from the first node. */
  ghost predicate Connected(ns: seq<nat>, es: seq<Edge>) {
    forall n :: n in ns ==> Reachable(es, ns[0], n)
  }

  lemma WalkGrows(es: seq<Edge>, more: seq<Edge>, p: seq<nat>)
    requires IsWalk(es, p)
    ensures IsWalk(es + more, p)
  {
    forall i | 0 <= i < |p| - 1
      ensures Adjacent(es + more, p[i], p[i + 1])
    {
      assert Adjacent(es, p[i], p[i + 1]);
    }
  }

  /** Attaching a node by one edge to a node already present keeps the graph connected. */
  lemma AttachKeepsConnected(ns: seq<nat>, es: seq<Edge>, n: nat, t: nat)
    requires Connected(ns, es) && t in ns
    ensures Connected(ns + [n], es + [Edge(n, t)])
  {
    var ns', es' := ns + [n], es + [Edge(n, t)];
    forall m | m in ns'
      ensures Reachable(es', ns'[0], m)
    {
      if m in ns {
        var p :| IsWalk(es, p) && p[0] == ns[0] && p[|p| - 1] == m;
        WalkGrows(es, [Edge(n, t)], p);
        assert IsWalk(es', p) && p[0] == ns'[0] && p[|p| - 1] == m;
      } else {
        assert m == n;
        var p :| IsWalk(es, p) && p[0] == ns[0] && p[|p| - 1] == t;
        WalkGrows(es, [Edge(n, t)], p);
        var q := p + [n];
        assert Adjacent(es', t, n);
        assert IsWalk(es', q) && q[0] == ns'[0] && q[|q| - 1] == m;
      }
    }
  }

  /** The seed triangle on nodes 0, 1 and 2. */
  function SeedEdges(): seq<Edge> {
    [Edge(0, 1), Edge(1, 2), Edge(2, 0)]
  }

  /** In the seed triangle every node has degree 2. */
  lemma SeedDegrees()
    ensures forall n :: n in [0, 1, 2] ==> Incident(SeedEdges(), n) == 2
  {
    var e1 := [Edge(0, 1)];
    var e2 := e1 + [Edge(1, 2)];
    assert SeedEdges() == e2 + [Edge(2, 0)];
    assert e1 == [] + [Edge(0, 1)];
    forall n | n in [0, 1, 2]
      ensures Incident(SeedEdges(), n) == 2
    {
      IncidentSnoc([], Edge(0, 1), n);
      IncidentSnoc(e1, Edge(1, 2), n);
      IncidentSnoc(e2, Edge(2, 0), n);
    }
  }

  lemma SeedConnected()
    ensures Connected([0, 1, 2], SeedEdges())
  {
    var es := SeedEdges();
    assert IsWalk(es, [0]);
    assert Adjacent(es, 0, 1) && IsWalk(es, [0, 1]);
    assert Adjacent(es, 0, 2) && IsWalk(es, [0, 2]);
    assert Reachable(es, 0, 0) && Reachable(es, 0, 1) && Reachable(es, 0, 2);
  }
}
