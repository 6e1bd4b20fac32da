/**
 * Walks through a graph that is given, as `get_shortest_path` receives it, by a
 * successor function: `getNext(n)` lists the edges `(cost, target)` leaving `n`.
 * A walk is a sequence of nodes together with the cost of each edge it takes,
 * so that parallel edges of different costs stay apart.
 */
module Walks {

  /** The last element of a non-empty sequence (Python's `xs[-1]`). */
  function Last<T>(xs: seq<T>): (x: T)
    requires |xs| > 0
  {
    xs[|xs| - 1]
  }

  /** The total of a sequence of edge costs. */
  function Sum(costs: seq<nat>): (total: nat)
  {
    if costs == [] then 0 else Sum(costs[..|costs| - 1]) + costs[|costs| - 1]
  }

  /**
   * `nodes` is a walk that takes, at its i-th step, the edge `(costs[i], nodes[i + 1])`
   * out of `nodes[i]`; defined step by step from its last edge.
   */
  ghost predicate IsWalk<T(!new)>(getNext: T -> seq<(nat, T)>, nodes: seq<T>, costs: seq<nat>)
    decreases |costs|
  {
    && |nodes| == |costs| + 1
    && (costs != [] ==>
          && IsWalk(getNext, nodes[..|nodes| - 1], costs[..|costs| - 1])
          && (costs[|costs| - 1], nodes[|nodes| - 1]) in getNext(nodes[|nodes| - 2]))
  }

  /** A walk that begins at `start`. */
  ghost predicate IsWalkFrom<T(!new)>(getNext: T -> seq<(nat, T)>, start: T, nodes: seq<T>, costs: seq<nat>)
  {
    IsWalk(getNext, nodes, costs) && nodes[0] == start
  }

  /** Every edge out of a node of `nodes` leads back into `nodes`. */
  ghost predicate Closed<T(!new)>(getNext: T -> seq<(nat, T)>, nodes: set<T>)
  {
    forall n, j :: n in nodes && 0 <= j < |getNext(n)| ==> getNext(n)[j].1 in nodes
  }

  /** No walk from `start` to `v` costs less than `d`. */
  ghost predicate LowerBound<T(!new)>(getNext: T -> seq<(nat, T)>, start: T, v: T, d: nat)
  {
    forall nodes, costs :: IsWalkFrom(getNext, start, nodes, costs) && Last(nodes) == v ==> d <= Sum(costs)
  }

  /** No walk from `start` to a destination costs less than `d`. */
  ghost predicate MinCostToDestination<T(!new)>(getNext: T -> seq<(nat, T)>, start: T, isDestination: T -> bool, d: nat)
  {
    forall nodes, costs :: IsWalkFrom(getNext, start, nodes, costs) && isDestination(Last(nodes)) ==> d <= Sum(costs)
  }

  /** Some walk from `start` ends at a destination. */
  ghost predicate Reaches<T(!new)>(getNext: T -> seq<(nat, T)>, start: T, isDestination: T -> bool)
  {
    exists nodes, costs :: IsWalkFrom(getNext, start, nodes, costs) && isDestination(Last(nodes))
  }

  /** Taking one more edge out of the last node extends a walk, and adds that edge's cost. */
  lemma ExtendWalk<T(!new)>(getNext: T -> seq<(nat, T)>, nodes: seq<T>, costs: seq<nat>, c: nat, v: T)
    requires IsWalk(getNext, nodes, costs)
    requires (c, v) in getNext(Last(nodes))
    ensures IsWalk(getNext, nodes + [v], costs + [c])
    ensures Sum(costs + [c]) == Sum(costs) + c
  {
    assert (costs + [c])[..|costs|] == costs;
    assert (nodes + [v])[..|nodes|] == nodes;
  }

  /** Dropping the last edge of a walk leaves a walk from the same node. */
  lemma WalkPrefix<T(!new)>(getNext: T -> seq<(nat, T)>, nodes: seq<T>, costs: seq<nat>)
    requires IsWalk(getNext, nodes, costs) && |costs| > 0
    ensures IsWalk(getNext, nodes[..|nodes| - 1], costs[..|costs| - 1])
    ensures nodes[..|nodes| - 1][0] == nodes[0]
    ensures Last(nodes[..|nodes| - 1]) == nodes[|nodes| - 2]
    ensures (costs[|costs| - 1], Last(nodes)) in getNext(nodes[|nodes| - 2])
    ensures Sum(costs) == Sum(costs[..|costs| - 1]) + costs[|costs| - 1]
  {
  }

  /** Each step of a walk takes an edge: the walk predicate read index by index. */
  lemma {:induction false} WalkStep<T(!new)>(getNext: T -> seq<(nat, T)>, nodes: seq<T>, costs: seq<nat>, i: nat)
    requires IsWalk(getNext, nodes, costs) && i < |costs|
    ensures (costs[i], nodes[i + 1]) in getNext(nodes[i])
    decreases |costs|
  {
    if i < |costs| - 1 {
      WalkStep(getNext, nodes[..|nodes| - 1], costs[..|costs| - 1], i);
    }
  }
}
