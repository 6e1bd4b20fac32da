# Colour-space conversion planner

A Dafny model of the colour conversion planner of chaiNNer,
`backend/src/nodes/utils/color/convert.py`. The planner has four parts:

- `color_space_from_id` looks a colour space up by its id.
- The module-level loop groups the conversion table into `__conversions_map`, an
  adjacency list keyed by input colour space.
- `get_shortest_path` is a hand-written Dijkstra search over a graph given by a
  successor function `get_next`.
- `convert` turns an image from one colour space into another. It takes the image
  along a cheapest path of colour spaces, one conversion per step. Each step uses
  the first listed conversion between the two spaces. When several conversions join
  the same two spaces, that one need not be the cheapest of them.

Files:

- `wrappers.dfy` (module `Wrappers`): `Option` and `Result`. `None` is the search's
  `None`; `Err` is a raised `ValueError`.
- `walks.dfy` (module `Walks`): walks in a graph given by a successor function, and
  their costs. `IsWalk`, `Reaches` and `MinCostToDestination` are the reference
  definitions that the search is proved against.
- `shortest_path.dfy` (module `ShortestPath`): `get_shortest_path` and its processing
  items, as imperative methods with loop invariants. A `__ProcessingItem`
  (`backend/src/nodes/utils/color/convert.py:25-28`) is the datatype `Item`: a cost and
  a path.
  - `front` is a Python dict, which iterates in insertion order. Cheapest-item ties
    go to the earliest entry. The model keeps `front` as a map plus `order`, the
    insertion order of its keys.
  - An item that is lowered in place keeps its key, and so keeps its position.
  - Ghost bookkeeping records the edge costs behind every item (`walks`) and the
    settled cost of every processed node (`dist`).
- `convert.dfy` (module `ColorConvert`): colour spaces, conversions, the id lookup,
  the map-building loop, and `convert`. Images are values of a type parameter
  `Img`; a conversion's pixel work is its function `convert: Img -> Img`.

The global tables `color_spaces` and `conversions` become parameters, and so does
the built `__conversions_map`.

## Model

| member | source | states |
|---|---|---|
| ColorConvert.ColorSpaceFromId | backend/src/nodes/utils/color/convert.py:15-19 | On success, the result is an entry of the list with the requested id, and no earlier entry has that id. The `ValueError` (`NoColorSpaceWithId(id)`) is returned exactly when no entry has the id. |
| ColorConvert.ConversionsFrom | backend/src/nodes/utils/color/convert.py:75-80 | The list kept for a space holds only conversions whose input is that space. It is empty exactly when the table has no conversion out of the space. |
| ColorConvert.ConversionsFromMembers | backend/src/nodes/utils/color/convert.py:75-80 | Every listed conversion comes from the table. Every table entry whose input is the space is listed. |
| ColorConvert.ConversionsFromAppend | backend/src/nodes/utils/color/convert.py:75-80 | Grouping keeps table order: for a table split in two, the list is the first part's list followed by the second part's. |
| ColorConvert.GroupedStep | backend/src/nodes/utils/color/convert.py:76-80 | One loop round (get the list or `[]`, store it if new, append the conversion) keeps the map grouped by input space for the table read so far. |
| ColorConvert.GroupedKeys | backend/src/nodes/utils/color/convert.py:75-80 | In a grouped map, the keys are exactly the input spaces of the table. |
| ColorConvert.BuildConversionsMap | backend/src/nodes/utils/color/convert.py:75-80 | Every input space of the table is a key, and no other space is. Each key maps to exactly its conversions, in table order. |
| ColorConvert.FirstTo | backend/src/nodes/utils/color/convert.py:106-111 | The index of the first conversion with the requested output. No earlier conversion has that output. The index is the list's length when none matches. |
| ColorConvert.FindConversionTo | backend/src/nodes/utils/color/convert.py:106-111 | The search loop stops at the first conversion whose output matches, or at the end of the list. That index is `FirstTo`. |
| ColorConvert.Edges | backend/src/nodes/utils/color/convert.py:92 | The list `get_next` builds for a space: `(c.cost, c.output)` for each conversion out of the space, in map order, and empty for a space that has no key. |
| ColorConvert.Graph | backend/src/nodes/utils/color/convert.py:92 | The `get_next` lambda handed to the search yields `Edges` for every space. |
| ColorConvert.IsSpace | backend/src/nodes/utils/color/convert.py:91 | The `is_destination` lambda holds of exactly the output space. |
| ColorConvert.GraphEdge | backend/src/nodes/utils/color/convert.py:92 | `(c, b)` is an edge out of `a` exactly when the map lists a conversion from `a` into `b` of cost `c`. |
| ColorConvert.GraphClosed | backend/src/nodes/utils/color/convert.py:89-93 | The graph given to the search (edges `(c.cost, c.output)` from the map, or none) never leads outside the input space and the outputs of the map. |
| ColorConvert.WalkIsChained | backend/src/nodes/utils/color/convert.py:102-111 | Along a walk of that graph, every step has a conversion out of the step's input with the step's output, so `assert conv is not None` holds. |
| ColorConvert.ChainedPrefix | backend/src/nodes/utils/color/convert.py:102-104 | Every prefix of a chained path is chained. |
| ColorConvert.ApplyChain | backend/src/nodes/utils/color/convert.py:102-113 | The loop over consecutive path nodes returns the image converted along the path: one conversion per step, each the first one in the map whose output is the next node. |
| ColorConvert.Convert | backend/src/nodes/utils/color/convert.py:83-116 | Equal spaces give the image unchanged. Otherwise `ConversionNotPossible` is returned exactly when no chain of conversions leads from input to output. On success, the path runs from input to output along edges, and no walk of the graph between them costs less. The image is taken along that path, one conversion per step: the first listed conversion out of each space into the next. |
| ColorConvert.FirstListedNotCheapest | backend/src/nodes/utils/color/convert.py:92-110 | With conversions `a -> b` of cost 5 (`f`, listed first) and cost 1 (`g`): the cheapest walk from `a` to `b` costs 1, yet the conversion applied for the step is `f`, of cost 5. |
| ShortestPath.PickBest | backend/src/nodes/utils/color/convert.py:44-50 | The scan over `front.values()` returns the position of an item no dearer than any other, and strictly cheaper than every item inserted before it (first on ties). |
| ShortestPath.ExtendItem | backend/src/nodes/utils/color/convert.py:64-66 | Appending an edge target to the best item's path gives an item for that target whose cost is the best cost plus the edge cost, and the front still holds walks from the start. |
| ShortestPath.InsertKey | backend/src/nodes/utils/color/convert.py:66 | Adding a new key to `front` and appending it to the order gives the insertion order of the grown dict. |
| ShortestPath.ReplaceItem | backend/src/nodes/utils/color/convert.py:69-72 | Updating an existing item in place keeps the insertion order. |
| ShortestPath.RemoveAt | backend/src/nodes/utils/color/convert.py:53 | `del front[current]` removes the key from the insertion order and keeps the rest in order. |
| ShortestPath.RelaxEdge | backend/src/nodes/utils/color/convert.py:60-72 | For one edge (`EdgeRelaxed`): the order grows by the target exactly when the target is neither in `front` nor processed, and then the target gets an item through `best` at the end of the order. An item dearer than the route through `best` is replaced by that route in place. An item that costs no more, equal cost included (the strict `>` at line 68), is kept. Processed targets are never added, and no other item changes. Every item still holds a walk from the start. |
| ShortestPath.RelaxedSoFarStart | backend/src/nodes/utils/color/convert.py:59 | Before the first edge, the untouched `front` satisfies everything the loop over the edges maintains. |
| ShortestPath.KeptOrReroutedStep | backend/src/nodes/utils/color/convert.py:59-72 | Relaxing one more edge keeps these facts: old items stay and never get dearer; each is unchanged or rerouted through `best` at the cost of an edge; new items are only for targets; processed nodes stay out of `front`. |
| ShortestPath.CheapKeptStep | backend/src/nodes/utils/color/convert.py:68-72 | Relaxing one more edge leaves unchanged an old item that costs no more than every route through `best` seen so far. |
| ShortestPath.RoutesBoundedStep | backend/src/nodes/utils/color/convert.py:59-72 | After one more edge, every unprocessed target seen so far, the new one included, has an item no dearer than its route through `best`. |
| ShortestPath.RelaxedSoFarStep | backend/src/nodes/utils/color/convert.py:59-72 | One iteration of the loop over `get_next(current)` preserves all of the loop's facts. |
| ShortestPath.RelaxedAll | backend/src/nodes/utils/color/convert.py:59-72 | After the last edge, the loop's facts hold for every edge of `current`. |
| ShortestPath.Relax | backend/src/nodes/utils/color/convert.py:59-72 | After all edges of `current`, the new state is as follows. The insertion order is the old one followed by the new keys, each once, in the order of their first edge in `get_next(current)` (`Fresh`). That order decides later cheapest-item ties. Old items stay, never dearer, and are unchanged or rerouted through `best` at the cost of one of its edges. An old item no dearer than every route through `best` is unchanged. New items are only for targets of `current`, and no processed node has an item. Every unprocessed target costs at most `best.cost` plus its edge cost. |
| ShortestPath.FirstEdgeTo | backend/src/nodes/utils/color/convert.py:59-66 | The index of the first edge into a node: that edge leads to it, no earlier edge does, and the index is the list's length when none does. |
| ShortestPath.FirstEdgeToSnoc | backend/src/nodes/utils/color/convert.py:59-66 | Appending an edge keeps the first edge into a node already targeted. For a node first targeted by the appended edge, that edge is the first. |
| ShortestPath.FreshOrder | backend/src/nodes/utils/color/convert.py:59-66 | `Fresh` holds a node exactly when it is a target of the edges and neither in `front` nor processed. Its nodes are in strictly increasing order of their first edge, so there are no repeats. |
| ShortestPath.FreshStep | backend/src/nodes/utils/color/convert.py:59-66 | Relaxing one more edge extends the order just as `Fresh` does: the target is appended exactly when it is new to `front` and not processed. |
| ShortestPath.FrontBound | backend/src/nodes/utils/color/convert.py:43-72 | Dijkstra's invariant: while processed nodes' edges are relaxed, every walk from the start ending outside `processed` costs at least as much as some item of `front`. |
| ShortestPath.CheapestIsSettled | backend/src/nodes/utils/color/convert.py:44-54 | The cheapest item's cost bounds from below every walk from the start to an unprocessed node. The node taken out of `front` is therefore settled. |
| ShortestPath.TargetsInside | backend/src/nodes/utils/color/convert.py:59 | The edges of a node of a closed node set stay inside it. |
| ShortestPath.StillRelaxed | backend/src/nodes/utils/color/convert.py:53-72 | Moving `current` into `processed` with its settled cost, then relaxing its edges, keeps every processed node's edges relaxed. |
| ShortestPath.ProcessedClosed | backend/src/nodes/utils/color/convert.py:43-72 | When `front` runs empty, every walk from the start stays inside `processed`. |
| ShortestPath.GetShortestPath | backend/src/nodes/utils/color/convert.py:31-72 | A returned path starts at `start` and ends at a destination. It is a walk of the graph, and no walk from the start to a destination is cheaper. `None` is returned exactly when no destination is reachable. |
| Walks.ExtendWalk | backend/src/nodes/utils/color/convert.py:64-66 | A walk extended by one edge is a walk, and its cost grows by that edge's cost. |
| Walks.WalkPrefix | backend/src/nodes/utils/color/convert.py:70-72 | A walk without its last edge is a walk from the same start. Its cost plus the last edge's cost is the whole cost. |
| Walks.WalkStep | backend/src/nodes/utils/color/convert.py:59-72 | Each consecutive pair `(a, b)` of a walk is an edge: `(c, b)` is in `get_next(a)` for the walk's `c`. |

## Left out

- Pixel work is not modelled: numpy image contents, the floating-point maths inside each conversion, and `assert_input_channels` / `assert_output_channels` (lines 84 and 115). Images are opaque and each conversion's function is a parameter.
- The debug log of the chosen path (lines 98-100) is not modelled.
- `convert_data` and `convert_model` are not part of this model. The `color_spaces` and `conversions` tables become parameters, and a colour space keeps only its id and name.
- GetShortestPath: edge costs are natural numbers, while the source types them as `int`. With a negative cost, the source's search is not guaranteed to return a cheapest path, and the model does not cover that case.
- GetShortestPath: requires a ghost set `nodes` that holds `start` and is closed under `get_next`. This finiteness bound is what makes the search terminate. The source has no such precondition. It may loop forever when infinitely many nodes are reachable, for example when no destination is reachable. `Convert` supplies the bound itself: the input space plus every output of the map.
- GetShortestPath: returns the path but not its cost. The cost and its edge costs are ghost state of the model (`walks`), so the contract states the returned path's cost through an existentially chosen list of edge costs.
- Relax: `best` aliases the item removed from `front`. Because `best` is no longer in `front`, an in-place update can never reach it, so items are values and the update is a map update at the same key.
- Convert: does not promise the cheapest chain of conversions when two conversions join the same pair of spaces. The search prices a step at its cheapest conversion (line 92 lists every conversion as an edge), but lines 107-110 apply the first listed one (`FirstListedNotCheapest`). The model follows the source.
- Convert: returns the chosen path as a ghost out-parameter so that its contract can name it. The source only logs the path.
- `src/renderer/helpers/dataTransfer.ts` and `tests/common/chainner-scope.test.ts` are not part of this model. They are drag-and-drop glue and a test of an external evaluator, unrelated to the planner.
