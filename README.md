# Vertex cover: three combinatorial heuristics and an LP relaxation

This project models the algorithmic core of `vertex_cover.py`, a small
program that computes vertex covers of undirected graphs in four ways and
compares their sizes:

- `apx_vc`: the matching-based 2-approximation. It pops an uncovered edge,
  puts both endpoints into the cover and drops every edge the cover now
  touches.
- `naive_vc`: the same loop, but only the first endpoint of each popped edge
  goes into the cover.
- `greedy_vc`: repeatedly takes the node of maximum degree in the residual
  graph, removes it from the graph and puts it into the cover.
- `lp_vc`: writes the LP relaxation of vertex cover as an `lp_solve` model
  file, reads back the fractional solution and rounds it at one half.

The graph is given as a sequence of `Edge(u, v)` values.

- For `apx_vc`, `naive_vc` and `lp_vc`, the sequence is in the iteration
  order of Python's `set(G.edges())`.
- `greedy_vc` does not build a set. It reads networkx's live edge view
  `G.edges()`, in the view's order. Its result does not depend on that
  order: each pick depends only on the degrees and on the node order.
- `greedy_vc` also takes the node sequence in networkx's order, which is
  the order `G.degree` lists them.

The three loops are imperative methods (`ApxCover.ApxVc`,
`NaiveCover.NaiveVc`, `GreedyCover.GreedyVc`). Each carries the invariant
that the residual edges are exactly the input edges with no endpoint in the
cover (`Graphs.Uncovered`).

- The first `pop` works on a Python `set` and may return any edge. The model
  picks any index, with `:|`.
- Lines 58 and 75 rebind the residual edges to a list, so every later `pop`
  takes the last element.
- `G.remove_node` is a method of the class `GreedyCover.ResidualGraph`, which
  updates its node and edge fields in place.

Ghost out-parameters record the popped edges or the chosen nodes. The
contracts state these facts about them:

- the matching shape of `apx_vc` and its bound against any cover and any
  feasible LP point;
- that `naive_vc` adds a new node on every pass;
- that `greedy_vc` makes the stable, first-maximum-degree choice, and that
  this choice determines the run.

The LP front end is the method `LpText.BuildLpLines`. It is proved to write
`RenderAll(Model(n, edges))`, the rendering of a list of LP statements:

1. the objective;
2. the two bounds of each of `x1 .. xn`;
3. one covering constraint per edge.

Lemmas give the layout of that list, read every bound and constraint line
back to its statement, and show that satisfying all statements is the same
as LP feasibility. The back end covers:

- `my_round`;
- the rounded count;
- the proof that rounding any feasible point gives a vertex cover of at most
  twice the point's LP value.

Variable `xv` stands for node `v`. Its value is `x[v - 1]`, because
`lp_solve` lists the variables in the order the objective names them.

The objective starts with `"x1 "`, so a graph with no nodes and a graph with
one node produce the same objective line, `min: x1 ;`.
`LpText.Render(Objective(n))` reproduces this. `LpText.DecodeObjective`
reads the objective line back to the variables it sums, `x1 .. xn`, or `x1`
alone when there are no nodes. `LpText.Decode` reads the bound and
constraint lines.

## Model

| member | source | states |
|---|---|---|
| Graphs.Uncovered | vertex_cover.py:58 | the filtered list keeps exactly the edges with neither endpoint in the cover, and is never longer than its input |
| Graphs.NothingUncoveredIffCover | vertex_cover.py:51 | the loops stop (no residual edge) exactly when the cover touches every input edge |
| Graphs.UncoveredTwice | vertex_cover.py:58 | filtering by one cover and then by another is filtering once by their union |
| Graphs.UncoveredWithoutTouching | vertex_cover.py:53-58 | removing the popped edge before filtering changes nothing once the cover touches it |
| ApxCover.ApxVc | vertex_cover.py:42-59 | the result is a vertex cover and equals the endpoints of the popped edges. The popped edges form a matching drawn from the input. Without self-loops the cover has exactly twice as many nodes as there were passes. It is at most twice any vertex cover and at most twice the value of any feasible LP point |
| ApxCover.ApxStep | vertex_cover.py:53-58 | one pass keeps the residual invariant and the matching shape, and adds two new nodes, or one for a self-loop |
| ApxCover.MatchingLowerBound | vertex_cover.py:51-58 | any cover of a matching has at least as many nodes as the matching has edges |
| ApxCover.MatchingBelowLpValue | vertex_cover.py:51-58 | a matching without self-loops has at most as many edges as the LP value of any non-negative point meeting its edge constraints |
| ApxCover.ApxBounds | vertex_cover.py:51-59 | the endpoints of a matching drawn from the edges are at most twice any cover and at most twice any feasible LP value |
| NaiveCover.NaiveVc | vertex_cover.py:62-76 | the result is a vertex cover made of the first endpoints of the popped edges. Each popped edge avoids every node added before, so each pass adds exactly one new node. Every cover node is an endpoint of an input edge |
| NaiveCover.NaiveStep | vertex_cover.py:73-75 | one pass adds `edge[0]`, which is not yet in the cover, and keeps the residual invariant |
| GreedyCover.DegreeCountsIncidentEdges | vertex_cover.py:91 | networkx's degree, as `Degree` computes it, lies between the number of edges that removing the node drops and twice that number, because a self-loop counts twice. It equals that number when there are no self-loops |
| GreedyCover.DegreePositive | vertex_cover.py:91 | a node has positive degree exactly when some residual edge is incident to it |
| GreedyCover.RemovalShrinks | vertex_cover.py:94-96 | removing a node drops an edge exactly when its degree is positive |
| GreedyCover.MaxDegreeIndex | vertex_cover.py:91-92 | the first entry of the stable descending sort by degree has maximum degree, and every node before it has strictly smaller degree |
| GreedyCover.MaxDegreeIndexUnique | vertex_cover.py:91-92 | the two properties of the sort's first entry determine it |
| GreedyCover.PickedNodeHasEdge | vertex_cover.py:89-92 | while residual edges remain, the chosen node has degree at least 1 |
| GreedyCover.ResidualGraph.RemoveNode | vertex_cover.py:94 | `G.remove_node(v)` removes `v` from the node list and every incident edge from the edge list, and keeps every edge between nodes of the graph |
| GreedyCover.GreedyVc | vertex_cover.py:79-98 | the result is a vertex cover of endpoints of input edges. It is the set of chosen nodes, each chosen once. Every choice is the first maximum-degree node of the residual graph left by the earlier choices |
| GreedyCover.GreedyStep | vertex_cover.py:91-96 | one pass keeps the residual graph equal to the input without the cover, removes at least one edge and extends the greedy run |
| GreedyCover.GreedyRunGrows | vertex_cover.py:91-95 | a greedy run followed by the next greedy choice is a greedy run |
| GreedyCover.GreedyDeterministic | vertex_cover.py:89-96 | two complete greedy runs on the same graph choose the same nodes in the same order |
| LpText.IntToString | vertex_cover.py:118-119 | `str` of an integer is a non-empty string of decimal digits. It has a leading minus sign exactly when the integer is negative, and no other sign |
| LpText.ObjectiveTerms | vertex_cover.py:110-112 | `minimizing_function` starts with `"x1 "`, with its trailing space, for every node count, and holds no `;` or line break |
| LpText.TermsRoundTrip | vertex_cover.py:111-112 | the terms the loop appends read back as the variables `x2 .. xn`, in order |
| LpText.ObjectiveRoundTrip | vertex_cover.py:110-113 | the objective line reads back as the sum of `x1 .. xn`, or of `x1` alone when there are no nodes |
| LpText.Render | vertex_cover.py:113-126 | every statement the model file holds is written as exactly one line, ending in `;` and a line break |
| LpText.IntToStringRoundTrip | vertex_cover.py:126 | `str` of an integer parses back to the integer |
| LpText.RenderRoundTrip | vertex_cover.py:118-126 | every bound line and constraint line reads back as the statement it was written for |
| LpText.ConstraintLineInjective | vertex_cover.py:126 | distinct edges give distinct constraint lines |
| LpText.BoundsMembers | vertex_cover.py:115-119 | the bound statements are exactly `xi >= 0` and `xi <= 1` for `i` in `1 .. n` |
| LpText.ModelLayout | vertex_cover.py:110-126 | the model has `1 + 2n + |E|` statements: the objective, then `xi >= 0` and `xi <= 1` alternately for `i = 1 .. n`, then one constraint per edge in order |
| LpText.ModelReadBack | vertex_cover.py:118-126 | every written line after the objective decodes to the statement at its position |
| LpText.BuildLpLines | vertex_cover.py:109-126 | the lines written are the rendering of the LP model of the graph |
| LpRounding.MyRound | vertex_cover.py:13-17 | the result is 0 or 1, and it is 1 exactly when the value is at least one half |
| LpRounding.EdgeConstraintRoundsUp | vertex_cover.py:13-17 | if `xu + xv >= 1` then one of the two rounds to 1 |
| LpRounding.RoundedCount | vertex_cover.py:142-144 | the rounded count lies between 0 and the number of values |
| LpRounding.RoundedCountIsSetSize | vertex_cover.py:142-144 | the rounded count is the number of nodes whose value is at least one half |
| LpRounding.RoundingCovers | vertex_cover.py:142-144 | rounding a point that meets every edge constraint gives a vertex cover |
| LpRounding.RoundedAtMostTwiceSum | vertex_cover.py:142-144 | the rounded count of a non-negative point is at most twice its LP value |
| LpRounding.ModelMeansFeasible | vertex_cover.py:115-126 | a point satisfies every statement of the written model exactly when it lies in the unit box and meets every edge constraint |

## Left out

- `read_graph` (lines 19-21) wraps networkx's edge-list reader and file I/O. The model takes the node and edge sequences as inputs.
- networkx's edge view and iteration order are not modelled. The set iteration order is an input sequence, and the first `set.pop` is an arbitrary choice.
- `read_results` (lines 23-39) reads the solver's output file and parses floats. The model takes the variable values as a `seq<real>`, with `x[v - 1]` the value of `xv`. Floating point is not modelled.
- Writing `lp.lp`, the `print` and the `lp_solve` call (lines 131-138) are file and process I/O. The optimum the solver returns, and its objective value, are not modelled. The bounds hold for every feasible point and therefore for the optimum.
- `main` (lines 146-171) runs the four heuristics on twenty test files and writes `results.txt`. This is I/O orchestration.
- Dead code is not modelled: the unused `nodes` in `greedy_vc` (line 87), `b = [0] * no_of_nodes` (line 120) and the commented-out matrix construction.
- LpText.BuildLpLines: uses only the number of nodes, as the source does. It writes the variables `x1 .. xN`, so the LP means what it should only when the node ids are `1 .. N`. The source does not check this, and neither does the model.
- LpText.DecodeObjective: cannot tell `n = 0` from `n = 1`, because both write the same objective line.
- ApxCover.ApxVc: the exact size `2 × passes` is stated only for graphs without self-loops, because a self-loop adds one node. The LP bound is stated under the same condition.
- No optimal cover is defined, and no O(log n) bound is proved for greedy. The 2-approximation of `apx_vc` is stated against every vertex cover and every feasible LP point instead.
