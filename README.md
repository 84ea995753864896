# Preferential-attachment growth, modelled in Dafny

The scene `PreferentialAttachment` in `Manim/Anchal_Gupta_PA_Code.py` animates a
scale-free network growing by preferential attachment. This project models the
graph logic under the animation and proves its properties:

- **The graph** (module `Graph`, `graph.dfy`). The undirected graph the scene
  keeps. The model chooses to keep the node ids in insertion order and the
  edges in insertion order, each edge as the pair of ends it was added with.
  The library's own edge listing follows adjacency instead (the seed lists as
  (0,1), (0,2), (1,2)), and only the drawing order depends on it. `WellFormed` is its
  invariant: no node is listed twice, every edge joins two different existing
  nodes, and no pair of nodes is joined twice. A node's degree (`Incident`) is
  the number of edges that touch it. `Connected` says that every node can be
  reached from the first node by a walk.
- **The attachment choice** (module `Attachment`, `attachment.dfy`). Every
  existing node weighs its degree plus one (`Weights`). The random draw is
  modelled as an integer ticket below the total weight. `Pick` returns the
  first node whose cumulative weight exceeds the ticket, which is how a
  weighted choice over cumulative weights selects. So each node is picked by
  exactly as many tickets as its weight.
- **The read-only views** (module `DegreeViews`, `views.dfy`):
  - the colour bucket of a degree;
  - the node of highest degree, kept first among equals as Python's `max` does;
  - the degree histogram, mapping each degree that occurs to the number of
    nodes with that degree.
- **The scene's graph object and its growth** (module `Simulation`,
  `simulation.dfy`). Class `PAGraph` has two fields, `nodes` and `edges`. Its
  methods change them in place, as the scene's calls to `add_node` and
  `add_edge` do. The methods are: seeding the triangle; the attachment step; and
  the colour lookup for every node. `Construct` runs the scene's growth loop,
  attaching nodes 3 to 19 in order.

The random source becomes a parameter. The growth step takes its ticket as
`draw`, and `Construct` takes one ticket per step in `draws`.

## Model

| member | source | states |
|---|---|---|
| `Simulation.PAGraph.constructor` | Manim/Anchal_Gupta_PA_Code.py:14 | A new graph has no nodes and no edges, and is well-formed. |
| `Simulation.PAGraph.AddNode` | Manim/Anchal_Gupta_PA_Code.py:72 | Adding a node appends it unless it is already present; edges are unchanged and the graph stays well-formed. |
| `Simulation.PAGraph.AddEdge` | Manim/Anchal_Gupta_PA_Code.py:79 | Adding an edge first adds either end that is missing. It appends the edge unless the two nodes are already joined, in either order. The graph stays well-formed. |
| `Simulation.PAGraph.AddInitialNodes` | Manim/Anchal_Gupta_PA_Code.py:69-79 | Seeding an empty graph gives exactly nodes 0, 1, 2 and edges (0,1), (1,2), (2,0). Every node then has degree 2, every weight is 3, and the graph is connected. |
| `Graph.Incident` | Manim/Anchal_Gupta_PA_Code.py:91 | The degree of a node, counted as the number of edges that touch it. It is at most the edge count. |
| `Graph.IncidentZero` | Manim/Anchal_Gupta_PA_Code.py:91 | A node has degree 0 exactly when no edge touches it. |
| `Simulation.PAGraph.Degree` | Manim/Anchal_Gupta_PA_Code.py:114 | A node's degree in the scene's graph is at most the edge count, and it is 0 exactly when no edge touches the node. |
| `Graph.Degrees` | Manim/Anchal_Gupta_PA_Code.py:164 | One entry per node, in node order, each the degree of that node and at most the edge count. This is also the node-order degree view that `max` scans at line 124. |
| `Graph.SeedDegrees` | Manim/Anchal_Gupta_PA_Code.py:79 | Each of nodes 0, 1 and 2 has degree 2 in the seed triangle. |
| `Graph.SeedConnected` | Manim/Anchal_Gupta_PA_Code.py:79 | In the seed triangle, every node can be reached from node 0. |
| `Attachment.SeedWeights` | Manim/Anchal_Gupta_PA_Code.py:91 | The weights of the seed nodes are [3, 3, 3], so the first draw is uniform. |
| `Attachment.Weights` | Manim/Anchal_Gupta_PA_Code.py:91 | The weight list has one entry per existing node, and every entry is at least 1. |
| `Attachment.WeightsSum` | Manim/Anchal_Gupta_PA_Code.py:91-92 | The total weight is the node count plus the degree sum. |
| `Graph.Handshake` | Manim/Anchal_Gupta_PA_Code.py:164 | In a well-formed graph, the degrees add up to twice the edge count. |
| `Attachment.TotalWeight` | Manim/Anchal_Gupta_PA_Code.py:91-92 | The total weight is the node count plus twice the edge count. So it is positive whenever there is a node, and the normalising division never divides by zero. |
| `Attachment.Pick` | Manim/Anchal_Gupta_PA_Code.py:93 | A ticket below the total weight selects an index of the weight list. The ticket lies at or above the weights before that index and below those weights plus the index's own weight. |
| `Attachment.PickSlice` | Manim/Anchal_Gupta_PA_Code.py:93 | Conversely, every ticket in an index's slice of the cumulative weights selects that index. So a node is selected by exactly as many tickets as its weight. |
| `Attachment.ChooseTarget` | Manim/Anchal_Gupta_PA_Code.py:93 | The chosen target is always a node already in the graph. |
| `Simulation.PAGraph.AddNodeWithPreferentialAttachment` | Manim/Anchal_Gupta_PA_Code.py:90-100 | The target is the weighted choice for the draw and an existing node, and the new id was absent. Exactly one node and one edge are appended. The new node has degree 1, the target's degree rises by 1, and every other degree is unchanged. Well-formedness and connectivity are kept. |
| `Graph.AttachDegrees` | Manim/Anchal_Gupta_PA_Code.py:99-100 | Attaching an absent node to an existing one gives the new node degree 1 and raises the target's degree by 1. No other degree changes. |
| `Graph.AttachWellFormed` | Manim/Anchal_Gupta_PA_Code.py:99-100 | Attaching an absent node by one edge to an existing node keeps the graph well-formed: no repeated node, no self-loop, no pair of nodes joined twice. |
| `Graph.SeedWellFormed` | Manim/Anchal_Gupta_PA_Code.py:79 | The seed triangle on nodes 0, 1 and 2 is well-formed. |
| `Graph.AttachKeepsConnected` | Manim/Anchal_Gupta_PA_Code.py:99-100 | Attaching a node by one edge to an existing node keeps every node reachable from the first node. |
| `Simulation.GrownWeight` | Manim/Anchal_Gupta_PA_Code.py:33-34 | Before node m is attached in the growth loop, m is not yet a node and the total weight is 3 * m. |
| `Simulation.GrowthStep` | Manim/Anchal_Gupta_PA_Code.py:33-34 | The loop invariant survives one attachment to any existing node, with well-formedness of the grown graph proved rather than assumed. Before node m is attached, the graph has nodes 0..m-1 and m edges. It is connected, every degree is at least 1, and node 0 has degree at least 2. After growth has begun, the newest node is a leaf. |
| `Simulation.SeedGrown` | Manim/Anchal_Gupta_PA_Code.py:20 | The seed triangle satisfies the growth loop's invariant for 3 nodes. |
| `Simulation.GrownEdges` | Manim/Anchal_Gupta_PA_Code.py:33-34 | The edge list that the tickets determine after seeding and attaching nodes 3 to m-1, each to the target the weighted choice draws for its ticket. Each ticket must be below the total weight at its step, which is three times the node count. Then, for every m and not only for the scene's 20 nodes, the list has m edges and, with nodes 0..m-1, forms a well-formed, connected graph. Every degree is at least 1, node 0 has degree at least 2, and after the first step the newest node is a leaf. |
| `Simulation.Construct` | Manim/Anchal_Gupta_PA_Code.py:14-34 | After seeding and the loop over ids 3..19, the graph has nodes 0..19 and 20 edges and is connected. Every node has degree at least 1, node 19 has degree 1 and node 0 has degree at least 2. The histogram has the key 1 and a key of at least 2. The edges are exactly those the tickets determine (`GrownEdges`), so each step attaches to the target its ticket draws. |
| `DegreeViews.ColourOf` | Manim/Anchal_Gupta_PA_Code.py:112-115 | Degrees 1 to 5 get their table colour. The result is GREEN exactly when the degree is 0 (missing from the table) or at least 6 (clamped to the top bucket). It is YELLOW exactly for degree 1. |
| `DegreeViews.TopBucketIsLargestKey` | Manim/Anchal_Gupta_PA_Code.py:115 | The clamp bound is a key of the colour table and no key exceeds it, so it is the table's largest key. |
| `Simulation.PAGraph.NodeColours` | Manim/Anchal_Gupta_PA_Code.py:113-115 | The colour list has one entry per node, in node order, and each entry is the colour bucket of that node's degree. |
| `DegreeViews.HighestIndex` | Manim/Anchal_Gupta_PA_Code.py:124 | The returned index holds an entry at least as large as every entry, and every earlier entry is strictly smaller. |
| `DegreeViews.HighestDegree` | Manim/Anchal_Gupta_PA_Code.py:124 | The reported node exists and the reported degree is its degree. That degree is at least every node's degree, and the node is the first in node order with it. |
| `DegreeViews.Histogram` | Manim/Anchal_Gupta_PA_Code.py:165 | The keys are exactly the degrees that occur, and every count is at least 1. |
| `DegreeViews.HistogramTotals` | Manim/Anchal_Gupta_PA_Code.py:165 | Summed over all degrees below a bound above every degree, the counts give the number of entries and the degree-times-count products give the degree sum. |
| `DegreeViews.DegreeHistogramTotals` | Manim/Anchal_Gupta_PA_Code.py:164-165 | For a well-formed graph, no key exceeds the maximum degree. Summed up to that maximum, the counts give the node count and the degree-times-count products give twice the edge count. |
| `DegreeViews.HistogramExample` | Manim/Anchal_Gupta_PA_Code.py:164-165 | Suppose node 3 attaches to node 1 of the seed triangle. The degrees are then [2, 3, 2, 1] and the histogram is {1: 1, 2: 2, 3: 1}. |
| `DegreeViews.TwoPlotPoints` | Manim/Anchal_Gupta_PA_Code.py:167-176 | A node of degree 1 and a node of degree at least 2 give the histogram two positive keys. So the log-log plot has at least two points, and the line-fit branch is taken. |

## Left out

- Rendering, timing and narration are not modelled: every `play`, `wait`, `Text`, `Circle`, `Line`, legend, fade, intro and conclusion. They draw the graph and change nothing in it.
- The node positions (lines 70, 73, 96-97, 101) are float layout with no effect on the graph.
- The `node_mobjects` and `edge_mobjects` dictionaries only mirror the graph for drawing.
- The probability distribution of the random draw (line 93) is not modelled, and neither is the float normalisation of the weights (line 92). The draw is an integer ticket below the integer total weight. Float rounding of the normalised weights is therefore not modelled.
- The log-log points and the least-squares fit (lines 167, 174-178) are floating point and a foreign library call. `TwoPlotPoints` and `Construct` state only that the scene's final graph yields at least two points.
- Line 182 uses `line` even when the fit branch was skipped. For the scene's own 20-node graph that branch is always taken (see `Construct`). On a graph whose histogram had fewer than two positive points, that line would fail. It belongs to the rendering path and is not modelled.
- The networkx library is not part of this model. The graph is kept directly as two sequences, and `AddNode` and `AddEdge` follow the library's documented behaviour: adding an existing node or edge does nothing, and adding an edge adds its missing ends.
- Self-loops are not modelled: `AddEdge` requires two different ends. The scene never adds one, because the new node is never in the graph when it is attached.
- Simulation.PAGraph.AddInitialNodes: requires an empty graph. The scene calls it only right after creating one (line 14).
- Simulation.PAGraph.AddNodeWithPreferentialAttachment: requires the new id to be absent. The source does not check this, and its only caller passes fresh ids. The model follows the code: it adds no run-time check and states the condition as a requirement on the caller.
- Simulation.PAGraph.AddNodeWithPreferentialAttachment: requires a ticket below the total weight, which excludes the empty graph. On an empty graph the source's weighted choice raises an error (line 93), because there is no node to choose. The scene calls the step only inside the growth loop (line 34), after seeding at line 20, when the graph has at least three nodes.
- DegreeViews.HighestDegree: requires at least one node, and so does `HighestIndex`. On an empty graph the source's `max` raises `ValueError` (line 124). The scene calls it only inside the growth loop (line 36), after seeding at line 20.
- The highest-degree text that `update_highest_degree_display` keeps replacing is display state. Only the maximum itself is modelled (`HighestDegree`).
- `Construct` does not call the colour and maximum views inside the loop, as lines 35-36 do. They read the graph without changing it, and each is modelled on its own.
