/**
 * `get_shortest_path`: Dijkstra's search over a graph given by a successor
 * function, as written in backend/src/nodes/utils/color/convert.py.
 *
 * The search keeps a set `processed` and a dictionary `front` from a node to its
 * processing item (best known cost and the path achieving it). A Python dict
 * iterates in insertion order and an in-place update of an item keeps its
 * position, so `front` is modelled as a map together with `order`, the
 * insertion order of its keys.
 */
module ShortestPath {
  import opened Wrappers
  import opened Walks

  /** A `__ProcessingItem`: the cost of the best path found so far and that path. */
  datatype Item<T> = Item(cost: nat, path: seq<T>)

  /** The nodes that the edges `edges` lead to. */
  ghost function Targets<T>(edges: seq<(nat, T)>): set<T>
  {
    set e | e in edges :: e.1
  }

  /** `order` lists every key of `front` exactly once: the dictionary's iteration order. */
  ghost predicate InsertionOrder<T(!new)>(front: map<T, Item<T>>, order: seq<T>)
  {
    && (forall i, j :: 0 <= i < j < |order| ==> order[i] != order[j])
    && (forall k :: k in front <==> k in order)
  }

  /** `item` holds a walk from `start` to `k`, taking edges of costs `costs` that add up to `item.cost`. */
  ghost predicate ItemWalk<T(!new)>(getNext: T -> seq<(nat, T)>, start: T, k: T, item: Item<T>, costs: seq<nat>)
  {
    && IsWalkFrom(getNext, start, item.path, costs)
    && Last(item.path) == k
    && Sum(costs) == item.cost
  }

  /** Every item of `front` holds a walk from `start` to its own key; `walks` records the edge costs taken. */
  ghost predicate FrontWalks<T(!new)>(getNext: T -> seq<(nat, T)>, start: T, front: map<T, Item<T>>, walks: map<T, seq<nat>>)
  {
    && front.Keys <= walks.Keys
    && forall k {:trigger ItemWalk(getNext, start, k, front[k], walks[k])} :: k in front ==> ItemWalk(getNext, start, k, front[k], walks[k])
  }

  /**
   * Every edge out of a processed node `p` (whose distance is `dist[p]`) leads to a
   * processed node or to a front item that costs no more than going through `p`.
   */
  ghost predicate Relaxed<T(!new)>(getNext: T -> seq<(nat, T)>, processed: set<T>, dist: map<T, nat>, front: map<T, Item<T>>)
  {
    forall p, e :: p in processed && p in dist && e in getNext(p) ==>
      e.1 in processed || (e.1 in front && front[e.1].cost <= dist[p] + e.0)
  }

  /** `dist` gives every processed node a cost that no walk from `start` to it undercuts. */
  ghost predicate Settled<T(!new)>(getNext: T -> seq<(nat, T)>, start: T, processed: set<T>, dist: map<T, nat>)
  {
    forall p :: p in processed ==> p in dist && LowerBound(getNext, start, p, dist[p])
  }

  /**
   * The key step of Dijkstra's algorithm: while edges out of processed nodes are
   * relaxed, every walk from `start` that ends outside `processed` costs at least
   * as much as some item of `front`.
   */
  lemma {:induction false} FrontBound<T(!new)>(getNext: T -> seq<(nat, T)>, start: T, processed: set<T>,
                                               dist: map<T, nat>, front: map<T, Item<T>>, nodes: seq<T>, costs: seq<nat>)
    requires Relaxed(getNext, processed, dist, front)
    requires Settled(getNext, start, processed, dist)
    requires start in processed || (start in front && front[start].cost == 0)
    requires IsWalkFrom(getNext, start, nodes, costs)
    requires Last(nodes) !in processed
    ensures exists k :: k in front && front[k].cost <= Sum(costs)
    decreases |nodes|
  {
    if costs == [] {
      assert front[start].cost <= Sum(costs);
    } else {
      WalkPrefix(getNext, nodes, costs);
      var prefix, prefixCosts := nodes[..|nodes| - 1], costs[..|costs| - 1];
      var p := Last(prefix);
      if p in processed {
        assert dist[p] <= Sum(prefixCosts);
        assert Last(nodes) in front && front[Last(nodes)].cost <= Sum(costs);
      } else {
        FrontBound(getNext, start, processed, dist, front, prefix, prefixCosts);
      }
    }
  }

  /**
   * The item that `PickBest` selects is final: no walk from `start` to a node
   * outside `processed`, its own key included, costs less.
   */
  lemma CheapestIsSettled<T(!new)>(getNext: T -> seq<(nat, T)>, start: T, processed: set<T>, dist: map<T, nat>,
                                   front: map<T, Item<T>>, order: seq<T>, b: nat)
    requires Relaxed(getNext, processed, dist, front)
    requires Settled(getNext, start, processed, dist)
    requires start in processed || (start in front && front[start].cost == 0)
    requires InsertionOrder(front, order) && b < |order|
    requires forall j :: 0 <= j < |order| ==> front[order[b]].cost <= front[order[j]].cost
    ensures forall nodes, costs :: IsWalkFrom(getNext, start, nodes, costs) && Last(nodes) !in processed ==>
              front[order[b]].cost <= Sum(costs)
  {
    forall nodes, costs | IsWalkFrom(getNext, start, nodes, costs) && Last(nodes) !in processed
      ensures front[order[b]].cost <= Sum(costs)
    {
      FrontBound(getNext, start, processed, dist, front, nodes, costs);
      var k :| k in front && front[k].cost <= Sum(costs);
      var j :| 0 <= j < |order| && order[j] == k;
    }
  }

  /** The targets of the edges out of a node of a closed set lie in that set. */
  lemma TargetsInside<T(!new)>(getNext: T -> seq<(nat, T)>, nodes: set<T>, n: T)
    requires Closed(getNext, nodes) && n in nodes
    ensures Targets(getNext(n)) <= nodes
  {
    forall t | t in Targets(getNext(n)) ensures t in nodes {
      var e :| e in getNext(n) && e.1 == t;
      var j :| 0 <= j < |getNext(n)| && getNext(n)[j] == e;
    }
  }

  /**
   * Processing `current` keeps every edge out of a processed node relaxed: the
   * old ones because front costs only fall, those of `current` because its
   * edges were just relaxed.
   */
  lemma StillRelaxed<T(!new)>(getNext: T -> seq<(nat, T)>, processed: set<T>, dist: map<T, nat>,
                              front: map<T, Item<T>>, current: T, d: nat, after: map<T, Item<T>>)
    requires Relaxed(getNext, processed, dist, front)
    requires current !in processed
    requires forall k :: k in front && k != current ==> k in after && after[k].cost <= front[k].cost
    requires forall e :: e in getNext(current) && e.1 !in processed + {current} ==>
               e.1 in after && after[e.1].cost <= d + e.0
    ensures Relaxed(getNext, processed + {current}, dist[current := d], after)
  {
  }

  /** Once `front` is empty, every walk from `start` stays inside `processed`. */
  lemma {:induction false} ProcessedClosed<T(!new)>(getNext: T -> seq<(nat, T)>, start: T, processed: set<T>,
                                                    dist: map<T, nat>, nodes: seq<T>, costs: seq<nat>)
    requires Relaxed(getNext, processed, dist, map[])
    requires processed <= dist.Keys
    requires start in processed
    requires IsWalkFrom(getNext, start, nodes, costs)
    ensures Last(nodes) in processed
    decreases |nodes|
  {
    if costs != [] {
      WalkPrefix(getNext, nodes, costs);
      ProcessedClosed(getNext, start, processed, dist, nodes[..|nodes| - 1], costs[..|costs| - 1]);
    }
  }

  /** Inserting a new key puts it at the end of the insertion order. */
  lemma InsertKey<T(!new)>(front: map<T, Item<T>>, order: seq<T>, k: T, item: Item<T>)
    requires InsertionOrder(front, order) && k !in front
    ensures InsertionOrder(front[k := item], order + [k])
  {
  }

  /** Replacing the item of a present key keeps the insertion order. */
  lemma ReplaceItem<T(!new)>(front: map<T, Item<T>>, order: seq<T>, k: T, item: Item<T>)
    requires InsertionOrder(front, order) && k in front
    ensures InsertionOrder(front[k := item], order)
  {
  }

  /** Removing one key from an insertion order keeps the order of the others. */
  lemma RemoveAt<T(!new)>(front: map<T, Item<T>>, order: seq<T>, b: nat)
    requires InsertionOrder(front, order) && b < |order|
    ensures InsertionOrder(front - {order[b]}, order[..b] + order[b + 1..])
  {
    var rest := order[..b] + order[b + 1..];
    forall i, j | 0 <= i < j < |rest| ensures rest[i] != rest[j] {
      var i', j' := if i < b then i else i + 1, if j < b then j else j + 1;
      assert rest[i] == order[i'] && rest[j] == order[j'];
    }
    forall k ensures k in front - {order[b]} <==> k in rest {
      if k in rest {
        var i :| 0 <= i < |rest| && rest[i] == k;
        assert k == order[if i < b then i else i + 1];
      }
      if k in order && k != order[b] {
        var i :| 0 <= i < |order| && order[i] == k;
        assert k == rest[if i < b then i else i - 1];
      }
    }
  }

  /** Extending the walk of `best` by the edge `(c, to)` gives `to` an item whose walk is recorded. */
  lemma ExtendItem<T(!new)>(getNext: T -> seq<(nat, T)>, start: T, current: T, best: Item<T>, bestCosts: seq<nat>,
                            c: nat, to: T, front: map<T, Item<T>>, walks: map<T, seq<nat>>)
    requires ItemWalk(getNext, start, current, best, bestCosts)
    requires (c, to) in getNext(current)
    requires FrontWalks(getNext, start, front, walks)
    ensures ItemWalk(getNext, start, to, Item(best.cost + c, best.path + [to]), bestCosts + [c])
    ensures FrontWalks(getNext, start, front[to := Item(best.cost + c, best.path + [to])], walks[to := bestCosts + [c]])
  {
    ExtendWalk(getNext, best.path, bestCosts, c, to);
  }

  /**
   * The scan over `front.values()`: the index in `order` of the cheapest item,
   * the first one in insertion order when several are equally cheap.
   */
  method PickBest<T(==)>(front: map<T, Item<T>>, order: seq<T>) returns (b: nat)
    requires |order| > 0
    requires forall j :: 0 <= j < |order| ==> order[j] in front
    ensures b < |order|
    ensures forall j :: 0 <= j < |order| ==> front[order[b]].cost <= front[order[j]].cost
    ensures forall j :: 0 <= j < b ==> front[order[b]].cost < front[order[j]].cost
  {
    b := 0;
    for j := 1 to |order|
      invariant b < j
      invariant forall i :: 0 <= i < j ==> front[order[b]].cost <= front[order[i]].cost
      invariant forall i :: 0 <= i < b ==> front[order[b]].cost < front[order[i]].cost
    {
      if front[order[j]].cost < front[order[b]].cost {
        b := j;
      }
    }
  }

  /**
   * The targets of `edges` that are not in `known`, each once, in the order of
   * their first edge: the keys that relaxing `edges` appends to the insertion
   * order of `front` when `known` holds the old keys and the processed nodes.
   */
  ghost function Fresh<T>(edges: seq<(nat, T)>, known: set<T>): seq<T>
    decreases |edges|
  {
    if edges == [] then []
    else
      var earlier := Fresh(edges[..|edges| - 1], known);
      var to := edges[|edges| - 1].1;
      if to in known || to in earlier then earlier else earlier + [to]
  }

  /** `order` is `order0` followed by the fresh targets of `edges`, in first-edge order. */
  ghost predicate AppendsFresh<T>(order0: seq<T>, order: seq<T>, edges: seq<(nat, T)>, known: set<T>)
  {
    order == order0 + Fresh(edges, known)
  }

  /** The index of the first edge of `edges` into `x`, or `|edges|` when there is none. */
  function FirstEdgeTo<T(==)>(edges: seq<(nat, T)>, x: T): (i: nat)
    ensures i <= |edges|
    ensures i < |edges| ==> edges[i].1 == x
    ensures forall j :: 0 <= j < i ==> edges[j].1 != x
  {
    if edges == [] then 0
    else if edges[0].1 == x then 0
    else 1 + FirstEdgeTo(edges[1..], x)
  }

  /** One more edge at the end changes the first edge into no earlier target, and is the first edge into a new one. */
  lemma FirstEdgeToSnoc<T>(init: seq<(nat, T)>, e: (nat, T), x: T)
    ensures x in Targets(init) ==> FirstEdgeTo(init + [e], x) == FirstEdgeTo(init, x) < |init|
    ensures x !in Targets(init) && e.1 == x ==> FirstEdgeTo(init + [e], x) == |init|
  {
    var edges := init + [e];
    if x in Targets(init) {
      var k :| 0 <= k < |init| && init[k].1 == x;
      assert FirstEdgeTo(init, x) <= k;
      assert edges[FirstEdgeTo(init, x)] == init[FirstEdgeTo(init, x)];
    } else if e.1 == x {
      assert edges[|init|].1 == x;
      forall j | 0 <= j < |init|
        ensures edges[j].1 != x
      {
        assert init[j] in init;
      }
    }
  }

  /**
   * `Fresh` lists exactly the unknown targets, without repetition, in the order
   * in which their first edges come.
   */
  lemma {:induction false} FreshOrder<T>(edges: seq<(nat, T)>, known: set<T>)
    ensures forall x :: x in Fresh(edges, known) ==> x !in known && x in Targets(edges)
    ensures forall x :: x !in known && x in Targets(edges) ==> x in Fresh(edges, known)
    ensures forall a, b :: 0 <= a < b < |Fresh(edges, known)| ==>
              FirstEdgeTo(edges, Fresh(edges, known)[a]) < FirstEdgeTo(edges, Fresh(edges, known)[b])
    decreases |edges|
  {
    if edges != [] {
      var init, last := edges[..|edges| - 1], edges[|edges| - 1];
      var earlier := Fresh(init, known);
      FreshOrder(init, known);
      assert edges == init + [last];
      assert Targets(edges) == Targets(init) + {last.1};
      var r := Fresh(edges, known);
      assert r == if last.1 in known || last.1 in earlier then earlier else earlier + [last.1];
      forall a, b | 0 <= a < b < |r|
        ensures FirstEdgeTo(edges, r[a]) < FirstEdgeTo(edges, r[b])
      {
        assert r[a] == earlier[a] && earlier[a] in earlier;
        assert earlier[a] in Targets(init);
        FirstEdgeToSnoc(init, last, earlier[a]);
        assert FirstEdgeTo(edges, r[a]) == FirstEdgeTo(init, earlier[a]) < |init|;
        if b < |earlier| {
          assert r[b] == earlier[b] && earlier[b] in earlier;
          assert earlier[b] in Targets(init);
          FirstEdgeToSnoc(init, last, earlier[b]);
          assert FirstEdgeTo(init, earlier[a]) < FirstEdgeTo(init, earlier[b]);
        } else {
          assert r[b] == last.1 && last.1 !in Targets(init);
          FirstEdgeToSnoc(init, last, last.1);
        }
      }
    }
  }

  /** Relaxing edge `j` after the first `j` appends its target exactly as `Fresh` does. */
  lemma FreshStep<T(!new)>(processed: set<T>, edges: seq<(nat, T)>, j: nat, best: Item<T>,
                           front0: map<T, Item<T>>, order0: seq<T>, previous: map<T, Item<T>>, previousOrder: seq<T>,
                           front: map<T, Item<T>>, order: seq<T>)
    requires j < |edges|
    requires InsertionOrder(front0, order0) && InsertionOrder(previous, previousOrder)
    requires previousOrder == order0 + Fresh(edges[..j], front0.Keys + processed)
    requires EdgeRelaxed(processed, best, edges[j].0, edges[j].1, previous, previousOrder, front, order)
    ensures order == order0 + Fresh(edges[..j + 1], front0.Keys + processed)
  {
    var to := edges[j].1;
    var earlier := Fresh(edges[..j], front0.Keys + processed);
    assert edges[..j + 1][..j] == edges[..j];
    assert to in previous <==> to in order0 || to in earlier;
    if to !in previous && to !in processed {
      assert order0 + (earlier + [to]) == previousOrder + [to];
    }
  }

  /**
   * What relaxing one edge `(c, to)` out of the node of `best` does to `front`
   * (from `front0`) and its insertion order (from `order0`): the order grows by
   * the target exactly when the target gets a new item; a target that is neither in `front` nor processed gets an
   * item, a dearer item of the target is replaced by the route through `best`,
   * an item no dearer is kept, and no other item changes.
   */
  ghost predicate EdgeRelaxed<T(!new)>(processed: set<T>, best: Item<T>, c: nat, to: T,
                                     front0: map<T, Item<T>>, order0: seq<T>, front: map<T, Item<T>>, order: seq<T>)
  {
    && order == (if to !in front0 && to !in processed then order0 + [to] else order0)
    && (forall k :: k in front0 ==> k in front)
    && (forall k :: k in front && k != to ==> k in front0 && front[k] == front0[k])
    && (to in front <==> to in front0 || to !in processed)
    && (to in front0 ==> front[to].cost <= front0[to].cost)
    && (to in front0 && front0[to].cost <= best.cost + c ==> front[to] == front0[to])
    && (to in front ==> (to in front0 && front[to] == front0[to]) || front[to] == Item(best.cost + c, best.path + [to]))
    && (to !in processed ==> to in front && front[to].cost <= best.cost + c)
  }

  /**
   * Old items stay in `front`, never dearer, and are either unchanged or rerouted
   * through `best` along one of `edges`; new items are only for targets of
   * `edges`; no processed node has an item.
   */
  ghost predicate KeptOrRerouted<T(!new)>(processed: set<T>, best: Item<T>, edges: seq<(nat, T)>,
                                        front0: map<T, Item<T>>, front: map<T, Item<T>>)
  {
    && (forall k :: k in front0 ==> k in front && front[k].cost <= front0[k].cost)
    && (forall k :: k in front ==> k !in processed && (k in front0 || k in Targets(edges)))
    && (forall k :: k in front ==>
          || (k in front0 && front[k] == front0[k])
          || (&& best.cost <= front[k].cost && (front[k].cost - best.cost, k) in edges
              && front[k].path == best.path + [k]))
  }

  /** An old item no dearer than every route through `best` along the first `j` edges is unchanged. */
  ghost predicate CheapKept<T(!new)>(best: Item<T>, edges: seq<(nat, T)>, j: nat, front0: map<T, Item<T>>, front: map<T, Item<T>>)
    requires j <= |edges|
  {
    forall k :: k in front0 && (forall i :: 0 <= i < j && edges[i].1 == k ==> front0[k].cost <= best.cost + edges[i].0) ==>
      k in front && front[k] == front0[k]
  }

  /** Every unprocessed target of the first `j` edges has an item no dearer than the route through `best`. */
  ghost predicate RoutesBounded<T(!new)>(processed: set<T>, best: Item<T>, edges: seq<(nat, T)>, j: nat, front: map<T, Item<T>>)
    requires j <= |edges|
  {
    forall i :: 0 <= i < j && edges[i].1 !in processed ==>
      edges[i].1 in front && front[edges[i].1].cost <= best.cost + edges[i].0
  }

  /**
   * What relaxing the first `j` edges of `edges` out of the node of `best` has
   * done to `front` (from `front0`) and its order (from `order0`): the old order
   * is a prefix, and the three predicates above hold.
   */
  ghost predicate RelaxedSoFar<T(!new)>(processed: set<T>, best: Item<T>, edges: seq<(nat, T)>, j: nat,
                                      front0: map<T, Item<T>>, order0: seq<T>, front: map<T, Item<T>>, order: seq<T>)
    requires j <= |edges|
  {
    && |order0| <= |order| && order[..|order0|] == order0
    && KeptOrRerouted(processed, best, edges, front0, front)
    && CheapKept(best, edges, j, front0, front)
    && RoutesBounded(processed, best, edges, j, front)
  }

  /** Relaxing edge `j` keeps old items, never dearer, unchanged or rerouted, and keeps processed nodes out. */
  lemma KeptOrReroutedStep<T(!new)>(processed: set<T>, best: Item<T>, edges: seq<(nat, T)>, j: nat,
                                    front0: map<T, Item<T>>, previous: map<T, Item<T>>, previousOrder: seq<T>,
                                    front: map<T, Item<T>>, order: seq<T>)
    requires j < |edges|
    requires KeptOrRerouted(processed, best, edges, front0, previous)
    requires EdgeRelaxed(processed, best, edges[j].0, edges[j].1, previous, previousOrder, front, order)
    ensures KeptOrRerouted(processed, best, edges, front0, front)
  {
    var (c, to) := edges[j];
    assert edges[j] in edges;
    forall k | k in front
      ensures k !in processed && (k in front0 || k in Targets(edges))
    {
    }
    forall k | k in front
      ensures || (k in front0 && front[k] == front0[k])
              || (&& best.cost <= front[k].cost && (front[k].cost - best.cost, k) in edges
                  && front[k].path == best.path + [k])
    {
      if k == to && !(to in previous && front[to] == previous[to]) {
        assert front[to] == Item(best.cost + c, best.path + [to]);
      }
    }
  }

  /** Relaxing edge `j` leaves alone an old item no dearer than every route through `best` along the first `j + 1` edges. */
  lemma CheapKeptStep<T(!new)>(processed: set<T>, best: Item<T>, edges: seq<(nat, T)>, j: nat,
                               front0: map<T, Item<T>>, previous: map<T, Item<T>>, previousOrder: seq<T>,
                               front: map<T, Item<T>>, order: seq<T>)
    requires j < |edges|
    requires CheapKept(best, edges, j, front0, previous)
    requires EdgeRelaxed(processed, best, edges[j].0, edges[j].1, previous, previousOrder, front, order)
    ensures CheapKept(best, edges, j + 1, front0, front)
  {
    forall k | k in front0 && (forall i :: 0 <= i < j + 1 && edges[i].1 == k ==> front0[k].cost <= best.cost + edges[i].0)
      ensures k in front && front[k] == front0[k]
    {
      assert k in previous && previous[k] == front0[k];
    }
  }

  /** Relaxing edge `j` bounds its target by the route through `best`, and keeps the bounds of the earlier edges. */
  lemma RoutesBoundedStep<T(!new)>(processed: set<T>, best: Item<T>, edges: seq<(nat, T)>, j: nat,
                                   previous: map<T, Item<T>>, previousOrder: seq<T>, front: map<T, Item<T>>, order: seq<T>)
    requires j < |edges|
    requires RoutesBounded(processed, best, edges, j, previous)
    requires EdgeRelaxed(processed, best, edges[j].0, edges[j].1, previous, previousOrder, front, order)
    ensures RoutesBounded(processed, best, edges, j + 1, front)
  {
    forall i | 0 <= i <= j && edges[i].1 !in processed
      ensures edges[i].1 in front && front[edges[i].1].cost <= best.cost + edges[i].0
    {
      if edges[i].1 != edges[j].1 {
        assert i < j && edges[i].1 in previous;
      }
    }
  }

  /** Relaxing edge `j` after the first `j` extends what `RelaxedSoFar` states to the first `j + 1`. */
  lemma RelaxedSoFarStep<T(!new)>(processed: set<T>, best: Item<T>, edges: seq<(nat, T)>, j: nat,
                                  front0: map<T, Item<T>>, order0: seq<T>, previous: map<T, Item<T>>, previousOrder: seq<T>,
                                  front: map<T, Item<T>>, order: seq<T>)
    requires j < |edges|
    requires RelaxedSoFar(processed, best, edges, j, front0, order0, previous, previousOrder)
    requires EdgeRelaxed(processed, best, edges[j].0, edges[j].1, previous, previousOrder, front, order)
    ensures RelaxedSoFar(processed, best, edges, j + 1, front0, order0, front, order)
  {
    assert order[..|order0|] == order[..|previousOrder|][..|order0|];
    KeptOrReroutedStep(processed, best, edges, j, front0, previous, previousOrder, front, order);
    CheapKeptStep(processed, best, edges, j, front0, previous, previousOrder, front, order);
    RoutesBoundedStep(processed, best, edges, j, previous, previousOrder, front, order);
  }

  /** Before any edge is relaxed, `RelaxedSoFar` holds of the unchanged front. */
  lemma RelaxedSoFarStart<T(!new)>(processed: set<T>, best: Item<T>, edges: seq<(nat, T)>, front0: map<T, Item<T>>, order0: seq<T>)
    requires forall k :: k in front0 ==> k !in processed
    ensures RelaxedSoFar(processed, best, edges, 0, front0, order0, front0, order0)
  {
    assert order0[..|order0|] == order0;
  }

  /** Once every edge is relaxed, `RelaxedSoFar` speaks of all of them, by membership instead of index. */
  lemma RelaxedAll<T(!new)>(processed: set<T>, best: Item<T>, edges: seq<(nat, T)>,
                            front0: map<T, Item<T>>, order0: seq<T>, front: map<T, Item<T>>, order: seq<T>)
    requires RelaxedSoFar(processed, best, edges, |edges|, front0, order0, front, order)
    ensures forall k :: k in front0 && (forall e :: e in edges && e.1 == k ==> front0[k].cost <= best.cost + e.0) ==>
              front[k] == front0[k]
    ensures forall e :: e in edges && e.1 !in processed ==> e.1 in front && front[e.1].cost <= best.cost + e.0
  {
    forall k | k in front0 && (forall e :: e in edges && e.1 == k ==> front0[k].cost <= best.cost + e.0)
      ensures front[k] == front0[k]
    {
      forall i | 0 <= i < |edges| && edges[i].1 == k
        ensures front0[k].cost <= best.cost + edges[i].0
      {
        assert edges[i] in edges;
      }
    }
    forall e | e in edges && e.1 !in processed
      ensures e.1 in front && front[e.1].cost <= best.cost + e.0
    {
      var i :| 0 <= i < |edges| && edges[i] == e;
    }
  }

  /**
   * One edge `(c, to)` out of `current`, relaxed as the body of the loop over
   * `get_next(current)` does it: a target that is neither in `front` nor
   * processed gets a new item at the end of the insertion order; an item that
   * costs more than going through `best` has its cost and path replaced in place,
   * keeping its position; nothing else changes.
   */
  method RelaxEdge<T(==,!new)>(ghost getNext: T -> seq<(nat, T)>, ghost start: T, processed: set<T>, ghost current: T,
                               best: Item<T>, ghost bestCosts: seq<nat>, c: nat, to: T,
                               front0: map<T, Item<T>>, order0: seq<T>, ghost walks0: map<T, seq<nat>>)
    returns (front: map<T, Item<T>>, order: seq<T>, ghost walks: map<T, seq<nat>>)
    requires ItemWalk(getNext, start, current, best, bestCosts)
    requires (c, to) in getNext(current)
    requires InsertionOrder(front0, order0)
    requires forall k :: k in front0 ==> k !in processed
    requires FrontWalks(getNext, start, front0, walks0)
    ensures InsertionOrder(front, order)
    ensures EdgeRelaxed(processed, best, c, to, front0, order0, front, order)
    ensures FrontWalks(getNext, start, front, walks)
  {
    front, order, walks := front0, order0, walks0;
    var cost := best.cost + c;
    if to !in front {
      if to !in processed {
        ExtendItem(getNext, start, current, best, bestCosts, c, to, front, walks);
        InsertKey(front, order, to, Item(cost, best.path + [to]));
        front := front[to := Item(cost, best.path + [to])];
        order := order + [to];
        assert order[..|order0|] == order0;
        walks := walks[to := bestCosts + [c]];
      }
    } else if front[to].cost > cost {
      ExtendItem(getNext, start, current, best, bestCosts, c, to, front, walks);
      ReplaceItem(front, order, to, Item(cost, best.path + [to]));
      front := front[to := Item(cost, best.path + [to])];
      walks := walks[to := bestCosts + [c]];
    }
  }

  /**
   * The loop over `get_next(current)`: every edge out of `current` is relaxed in
   * turn. Afterwards the insertion order is the old one followed by the new
   * keys in the order of their first edge out of `current` (`Fresh`); old
   * items stay, never dearer, and are unchanged or rerouted through `best` at
   * the cost of one of its edges; an old item no dearer than every route
   * through `best` is unchanged; new items are only for targets of `current`;
   * every unprocessed target costs at most the route through `best`; and a
   * processed node never gets an item again.
   */
  method Relax<T(==,!new)>(getNext: T -> seq<(nat, T)>, ghost start: T, processed: set<T>, current: T,
                           best: Item<T>, ghost bestCosts: seq<nat>,
                           front0: map<T, Item<T>>, order0: seq<T>, ghost walks0: map<T, seq<nat>>)
    returns (front: map<T, Item<T>>, order: seq<T>, ghost walks: map<T, seq<nat>>)
    requires ItemWalk(getNext, start, current, best, bestCosts)
    requires InsertionOrder(front0, order0)
    requires forall k :: k in front0 ==> k !in processed
    requires FrontWalks(getNext, start, front0, walks0)
    ensures InsertionOrder(front, order)
    ensures |order0| <= |order| && order[..|order0|] == order0
    ensures AppendsFresh(order0, order, getNext(current), front0.Keys + processed)
    ensures KeptOrRerouted(processed, best, getNext(current), front0, front)
    ensures forall e :: e in getNext(current) && e.1 !in processed ==>
              e.1 in front && front[e.1].cost <= best.cost + e.0
    ensures forall k :: k in front0 && (forall e :: e in getNext(current) && e.1 == k ==> front0[k].cost <= best.cost + e.0) ==>
              front[k] == front0[k]
    ensures FrontWalks(getNext, start, front, walks)
  {
    var edges := getNext(current);
    front, order, walks := front0, order0, walks0;
    RelaxedSoFarStart(processed, best, edges, front0, order0);
    for j := 0 to |edges|
      invariant InsertionOrder(front, order)
      invariant RelaxedSoFar(processed, best, edges, j, front0, order0, front, order)
      invariant order == order0 + Fresh(edges[..j], front0.Keys + processed)
      invariant FrontWalks(getNext, start, front, walks)
    {
      var (c, to) := edges[j];
      ghost var previous, previousOrder := front, order;
      front, order, walks := RelaxEdge(getNext, start, processed, current, best, bestCosts, c, to, front, order, walks);
      RelaxedSoFarStep(processed, best, edges, j, front0, order0, previous, previousOrder, front, order);
      FreshStep(processed, edges, j, best, front0, order0, previous, previousOrder, front, order);
    }
    assert edges[..|edges|] == edges;
    assert AppendsFresh(order0, order, edges, front0.Keys + processed);
    RelaxedAll(processed, best, edges, front0, order0, front, order);
  }

  /**
   * `get_shortest_path(start, is_destination, get_next)`. The ghost set `nodes`
   * bounds the nodes reachable from `start`, which makes the search terminate.
   * A returned path starts at `start`, ends at a destination, follows edges and
   * is no dearer than any walk from `start` to a destination; `None` comes back
   * exactly when no destination is reachable.
   */
  method GetShortestPath<T(==,!new)>(start: T, isDestination: T -> bool, getNext: T -> seq<(nat, T)>, ghost nodes: set<T>)
    returns (r: Option<seq<T>>)
    requires start in nodes && Closed(getNext, nodes)
    ensures r.Some? ==> |r.value| > 0 && r.value[0] == start && isDestination(Last(r.value))
    ensures r.Some? ==> exists costs :: IsWalk(getNext, r.value, costs)
                                        && MinCostToDestination(getNext, start, isDestination, Sum(costs))
    ensures r.None? <==> !Reaches(getNext, start, isDestination)
  {
    var processed: set<T> := {};
    var front: map<T, Item<T>> := map[start := Item(0, [start])];
    var order: seq<T> := [start];
    ghost var walks: map<T, seq<nat>> := map[start := []];
    ghost var dist: map<T, nat> := map[];
    while |order| > 0
      invariant processed <= nodes && front.Keys <= nodes
      invariant InsertionOrder(front, order)
      invariant forall k :: k in front ==> k !in processed
      invariant FrontWalks(getNext, start, front, walks)
      invariant Settled(getNext, start, processed, dist)
      invariant forall p :: p in processed ==> !isDestination(p)
      invariant Relaxed(getNext, processed, dist, front)
      invariant start in processed || (start in front && front[start].cost == 0)
      decreases nodes - processed
    {
      ghost var front0, processed0, dist0 := front, processed, dist;
      var b := PickBest(front, order);
      var best := front[order[b]];
      assert ItemWalk(getNext, start, order[b], best, walks[order[b]]);
      var current := best.path[|best.path| - 1];
      ghost var bestCosts := walks[current];
      CheapestIsSettled(getNext, start, processed, dist, front, order, b);
      assert MinCostToDestination(getNext, start, isDestination, best.cost);
      assert LowerBound(getNext, start, current, best.cost);
      RemoveAt(front, order, b);
      front := front - {current};
      order := order[..b] + order[b + 1..];
      processed := processed + {current};
      dist := dist[current := best.cost];

      if isDestination(current) {
        assert IsWalkFrom(getNext, start, best.path, bestCosts) && isDestination(Last(best.path));
        return Some(best.path);
      }

      front, order, walks := Relax(getNext, start, processed, current, best, bestCosts, front, order, walks);
      TargetsInside(getNext, nodes, current);
      StillRelaxed(getNext, processed0, dist0, front0, current, best.cost, front);
    }
    forall ns, cs | IsWalkFrom(getNext, start, ns, cs) ensures !isDestination(Last(ns)) {
      ProcessedClosed(getNext, start, processed, dist, ns, cs);
    }
    return None;
  }
}
