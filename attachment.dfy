/** The preferential-attachment choice: every existing node weighs its degree
    plus one, and a draw selects the node whose slice of the cumulative
    weights contains it. The random draw is a parameter: an integer ticket
    below the total weight. */
module Attachment {
  import opened Graph

  /** The selection weight of every node, in node order. */
  function Weights(ns: seq<nat>, es: seq<Edge>): (w: seq<nat>)
    ensures |w| == |ns|
    ensures forall i :: 0 <= i < |w| ==> w[i] >= 1
  {
    seq(|ns|, i requires 0 <= i < |ns| => Incident(es, ns[i]) + 1)
  }

  /** The total weight is the node count plus the degree sum. */
  lemma {:induction false} WeightsSum(ns: seq<nat>, es: seq<Edge>)
    ensures Sum(Weights(ns, es)) == |ns| + Sum(Degrees(ns, es))
  {
    if ns != [] {
      assert Weights(ns, es)[1..] == Weights(ns[1..], es);
      DegreesCons(ns, es);
      WeightsSum(ns[1..], es);
    }
  }

  /** The total weight of a well-formed graph is its node count plus twice its
      edge count, so it is positive, and dividing by it is safe, as soon as
      there is a node. */
  lemma TotalWeight(ns: seq<nat>, es: seq<Edge>)
    requires WellFormed(ns, es)
    ensures Sum(Weights(ns, es)) == |ns| + 2 * |es|
    ensures |ns| > 0 ==> Sum(Weights(ns, es)) > 0
  {
    WeightsSum(ns, es);
    Handshake(ns, es);
  }

  lemma SumCons(w: seq<nat>, k: nat)
    requires 0 < k <= |w|
    ensures Sum(w[..k]) == w[0] + Sum(w[1..][..k - 1])
  {
    assert w[..k][1..] == w[1..][..k - 1];
  }

  /** The weighted choice: the first index whose cumulative weight exceeds the
      ticket, so that ticket t picks index k exactly when t lies in
      [Sum(w[..k]), Sum(w[..k]) + w[k]). */
  function Pick(w: seq<nat>, t: nat): (k: nat)
    requires t < Sum(w)
    ensures k < |w|
    ensures Sum(w[..k]) <= t < Sum(w[..k]) + w[k]
    decreases |w|
  {
    if t < w[0] then
      assert w[..0] == [];
      0
    else
      var k := Pick(w[1..], t - w[0]);
      SumCons(w, k + 1);
      SumCons(w, k + 2);
      assert w[1..][..k + 1] == w[1..][..k] + [w[k + 1]];
      SumAppend(w[1..][..k], [w[k + 1]]);
      1 + k
  }

  lemma {:induction false} SumAppend(a: seq<nat>, b: seq<nat>)
    ensures Sum(a + b) == Sum(a) + Sum(b)
  {
    if a != [] {
      assert (a + b)[1..] == a[1..] + b;
      SumAppend(a[1..], b);
    } else {
      assert a + b == b;
    }
  }

  /** Conversely, every ticket in the slice of index k picks k: each node is
      picked by exactly as many tickets as its weight. */
  lemma {:induction false} PickSlice(w: seq<nat>, t: nat, k: nat)
    requires k < |w| && Sum(w[..k]) <= t < Sum(w[..k]) + w[k]
    ensures t < Sum(w) && Pick(w, t) == k
    decreases k
  {
    assert w == w[..k] + w[k..];
    SumAppend(w[..k], w[k..]);
    assert Sum(w[k..]) == w[k] + Sum(w[k + 1..]) by {
      assert w[k..][1..] == w[k + 1..];
    }
    if k > 0 {
      SumCons(w, k);
      SumCons(w, k + 1);
      assert w[1..][..k] == w[1..][..k - 1] + [w[k]];
      SumAppend(w[1..][..k - 1], [w[k]]);
      PickSlice(w[1..], t - w[0], k - 1);
    } else {
      assert w[..0] == [];
    }
  }

  /** In the seed triangle every node weighs 3, so the first draw is uniform. */
  lemma SeedWeights()
    ensures Weights([0, 1, 2], SeedEdges()) == [3, 3, 3]
  {
    SeedDegrees();
    var w := Weights([0, 1, 2], SeedEdges());
    assert w[0] == 3 && w[1] == 3 && w[2] == 3;
  }

  /** The attachment target drawn with the given ticket. */
  function ChooseTarget(ns: seq<nat>, es: seq<Edge>, t: nat): (target: nat)
    requires t < Sum(Weights(ns, es))
    ensures target in ns
  {
    ns[Pick(Weights(ns, es), t)]
  }
}
