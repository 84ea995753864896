/** Read-only views of the graph that the animation displays: the colour
    bucket of a node's degree, the highest degree, and the degree histogram. */
module DegreeViews {
  import opened Graph

  datatype Colour = Yellow | Orange | Red | Pink | Blue | Green

  /** The degree-to-colour table of the legend. */
  const PALETTE: map<nat, Colour> :=
    map[1 := Yellow, 2 := Orange, 3 := Red, 4 := Pink, 5 := Blue, 6 := Green]

  /** The largest key of PALETTE: every degree from here on shares one colour. */
  const TOP_BUCKET: nat := 6

  /** TOP_BUCKET is a key of PALETTE and no key exceeds it. */
  lemma TopBucketIsLargestKey()
    ensures TOP_BUCKET in PALETTE && forall k :: k in PALETTE ==> k <= TOP_BUCKET
  {
  }

  function Min(a: nat, b: nat): nat {
    if a <= b then a else b
  }

  /** The colour of a node of the given degree: the degree is clamped to the
      top bucket and looked up, with GREEN for a degree the table lacks. */
  function ColourOf(degree: nat): (c: Colour)
    ensures c == Green <==> degree == 0 || degree >= TOP_BUCKET
    ensures 1 <= degree < TOP_BUCKET ==> c == PALETTE[degree]
    ensures c == Yellow <==> degree == 1
  {
    var bucket := Min(degree, TOP_BUCKET);
    if bucket in PALETTE then PALETTE[bucket] else Green
  }

  /** The index of the first largest entry, as Python's max keeps the first
      of several equal maxima. */
  function HighestIndex(ds: seq<nat>): (k: nat)
    requires |ds| > 0
    ensures k < |ds|
    ensures forall j :: 0 <= j < |ds| ==> ds[j] <= ds[k]
    ensures forall j :: 0 <= j < k ==> ds[j] < ds[k]
    decreases |ds|
  {
    if |ds| == 1 then 0
    else
      var k := 1 + HighestIndex(ds[1..]);
      if ds[k] > ds[0] then k else 0
  }

  /** The node of highest degree, and that degree; the first such node in
      node order when several share it. */
  function HighestDegree(ns: seq<nat>, es: seq<Edge>): (r: (nat, nat))
    requires |ns| > 0
    ensures r.0 in ns && r.1 == Incident(es, r.0)
    ensures forall n :: n in ns ==> Incident(es, n) <= r.1
    ensures exists k :: 0 <= k < |ns| && ns[k] == r.0 && forall j :: 0 <= j < k ==> Incident(es, ns[j]) < r.1
  {
    var ds := Degrees(ns, es);
    var k := HighestIndex(ds);
    assert forall j :: 0 <= j < |ns| ==> ds[j] == Incident(es, ns[j]);
    (ns[k], ds[k])
  }

  lemma {:induction false} CountPositive(xs: seq<nat>, x: nat)
    requires x in xs
    ensures Count(xs, x) >= 1
  {
    if xs[0] != x {
      CountPositive(xs[1..], x);
    }
  }

  lemma CountsPositive(xs: seq<nat>)
    ensures forall x :: x in xs ==> Count(xs, x) >= 1
  {
    forall x | x in xs
      ensures Count(xs, x) >= 1
    {
      CountPositive(xs, x);
    }
  }

  /** The degree histogram: each degree that occurs, mapped to the number of
      nodes that have it. */
  function Histogram(ds: seq<nat>): (h: map<nat, nat>)
    ensures forall d :: d in h <==> d in ds
    ensures forall d :: d in h ==> h[d] >= 1
  {
    CountsPositive(ds);
    map d | d in ds :: Count(ds, d)
  }

  /** A histogram lookup with 0 for a missing degree. */
  function Get(h: map<nat, nat>, d: nat): nat {
    if d in h then h[d] else 0
  }

  /** The counts of the degrees below n, added up. */
  function SumCounts(h: map<nat, nat>, n: nat): nat {
    if n == 0 then 0 else SumCounts(h, n - 1) + Get(h, n - 1)
  }

  /** The products degree times count, for the degrees below n, added up. */
  function SumWeighted(h: map<nat, nat>, n: nat): nat {
    if n == 0 then 0 else SumWeighted(h, n - 1) + (n - 1) * Get(h, n - 1)
  }

  /** How many entries of xs are below n. */
  function CountBelow(xs: seq<nat>, n: nat): nat {
    if xs == [] then 0 else (if xs[0] < n then 1 else 0) + CountBelow(xs[1..], n)
  }

  /** The sum of the entries of xs that are below n. */
  function SumBelow(xs: seq<nat>, n: nat): nat {
    if xs == [] then 0 else (if xs[0] < n then xs[0] else 0) + SumBelow(xs[1..], n)
  }

  lemma {:induction false} BelowStep(xs: seq<nat>, n: nat)
    ensures CountBelow(xs, n + 1) == CountBelow(xs, n) + Count(xs, n)
    ensures SumBelow(xs, n + 1) == SumBelow(xs, n) + n * Count(xs, n)
  {
    if xs != [] {
      BelowStep(xs[1..], n);
      assert n * Count(xs, n) == n * (if xs[0] == n then 1 else 0) + n * Count(xs[1..], n);
    }
  }

  lemma {:induction false} BelowZero(xs: seq<nat>)
    ensures CountBelow(xs, 0) == 0 && SumBelow(xs, 0) == 0
  {
    if xs != [] {
      BelowZero(xs[1..]);
    }
  }

  lemma {:induction false} BelowAll(xs: seq<nat>, n: nat)
    requires forall i :: 0 <= i < |xs| ==> xs[i] < n
    ensures CountBelow(xs, n) == |xs| && SumBelow(xs, n) == Sum(xs)
  {
    if xs != [] {
      BelowAll(xs[1..], n);
    }
  }

  lemma {:induction false} HistogramBelow(ds: seq<nat>, n: nat)
    ensures SumCounts(Histogram(ds), n) == CountBelow(ds, n)
    ensures SumWeighted(Histogram(ds), n) == SumBelow(ds, n)
  {
    if n == 0 {
      BelowZero(ds);
    } else {
      HistogramBelow(ds, n - 1);
      BelowStep(ds, n - 1);
      if n - 1 !in ds {
        CountAbsent(ds, n - 1);
      }
    }
  }

  /** Summed over every degree up to a bound above all of them, the histogram
      counts give the number of nodes and the degree-times-count products
      give the degree sum. */
  lemma HistogramTotals(ds: seq<nat>, n: nat)
    requires forall i :: 0 <= i < |ds| ==> ds[i] < n
    ensures SumCounts(Histogram(ds), n) == |ds|
    ensures SumWeighted(Histogram(ds), n) == Sum(ds)
  {
    HistogramBelow(ds, n);
    BelowAll(ds, n);
  }

  /** For a well-formed graph, no histogram key exceeds the highest degree, and
      summed up to it the counts give the node count and the products give
      twice the edge count. */
  lemma DegreeHistogramTotals(ns: seq<nat>, es: seq<Edge>)
    requires WellFormed(ns, es) && |ns| > 0
    ensures forall d :: d in Histogram(Degrees(ns, es)) ==> d <= HighestDegree(ns, es).1
    ensures SumCounts(Histogram(Degrees(ns, es)), HighestDegree(ns, es).1 + 1) == |ns|
    ensures SumWeighted(Histogram(Degrees(ns, es)), HighestDegree(ns, es).1 + 1) == 2 * |es|
  {
    var ds, top := Degrees(ns, es), HighestDegree(ns, es).1;
    forall i | 0 <= i < |ds|
      ensures ds[i] < top + 1
    {
      assert ds[i] == Incident(es, ns[i]) && ns[i] in ns;
    }
    HistogramTotals(ds, top + 1);
    Handshake(ns, es);
    forall d | d in Histogram(ds)
      ensures d <= top
    {
      var i :| 0 <= i < |ds| && ds[i] == d;
    }
  }

  /** A node of degree 1 and a node of degree 2 or more give the histogram two
      keys, both positive, so the log-log plot gets at least two points and
      the line fit is drawn. */
  lemma TwoPlotPoints(ns: seq<nat>, es: seq<Edge>, leaf: nat, hub: nat)
    requires leaf < |ns| && hub < |ns|
    requires Incident(es, ns[leaf]) == 1 && Incident(es, ns[hub]) >= 2
    ensures 1 in Histogram(Degrees(ns, es))
    ensures exists d :: d in Histogram(Degrees(ns, es)) && d >= 2
  {
    var ds := Degrees(ns, es);
    assert ds[leaf] == 1 && ds[leaf] in ds;
    assert ds[hub] >= 2 && ds[hub] in ds;
  }

  /** The worked example: after node 3 attaches to node 1 of the seed
      triangle, one node has degree 1, two have degree 2 and one has degree 3. */
  lemma HistogramExample()
    ensures Degrees([0, 1, 2, 3], SeedEdges() + [Edge(3, 1)]) == [2, 3, 2, 1]
    ensures Histogram(Degrees([0, 1, 2, 3], SeedEdges() + [Edge(3, 1)])) == map[1 := 1, 2 := 2, 3 := 1]
  {
    var e1 := [Edge(0, 1)];
    var e2 := e1 + [Edge(1, 2)];
    var e3 := e2 + [Edge(2, 0)];
    var es := e3 + [Edge(3, 1)];
    assert e3 == SeedEdges();
    forall n: nat | n <= 3
      ensures Incident(es, n) == [2, 3, 2, 1][n]
    {
      IncidentSnoc([], Edge(0, 1), n);
      assert [] + [Edge(0, 1)] == e1;
      IncidentSnoc(e1, Edge(1, 2), n);
      IncidentSnoc(e2, Edge(2, 0), n);
      IncidentSnoc(e3, Edge(3, 1), n);
    }
    var ds := Degrees([0, 1, 2, 3], es);
    assert ds == [2, 3, 2, 1];
    assert ds[1..] == [3, 2, 1] && ds[2..] == [2, 1] && ds[3..] == [1] && ds[4..] == [];
    assert Count(ds, 1) == 1 && Count(ds, 2) == 2 && Count(ds, 3) == 1;
  }
}
