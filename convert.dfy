/**
 * The colour-conversion planner of backend/src/nodes/utils/color/convert.py:
 * looking a colour space up by id, grouping the conversion table by input
 * space, and converting an image along a cheapest path of colour spaces found
 * by `ShortestPath.GetShortestPath`, one conversion per step: the first listed
 * conversion between the two spaces, which need not be the cheapest of them
 * when several exist (`FirstListedNotCheapest`).
 *
 * Images are opaque values of the type parameter `Img`; what a conversion does
 * to the pixels is its `convert` function, left abstract.
 */
module ColorConvert {
  import opened Wrappers
  import opened Walks
  import ShortestPath

  /** A colour space, identified by its id; `name` only appears in messages. */
  datatype ColorSpace = ColorSpace(id: int, name: string)

  /** One entry of the conversion table: a direct conversion from `input` to `output`. */
  datatype Conversion<!Img> = Conversion(input: ColorSpace, output: ColorSpace, cost: nat, convert: Img -> Img)

  /** The two `ValueError`s of the module. */
  datatype Error =
    | NoColorSpaceWithId(id: int)
    | ConversionNotPossible(input: ColorSpace, output: ColorSpace)

  /**
   * `color_space_from_id`: the first colour space of `colorSpaces` whose id is
   * `id`, or `NoColorSpaceWithId` exactly when there is none.
   */
  method ColorSpaceFromId(colorSpaces: seq<ColorSpace>, id: int) returns (r: Result<ColorSpace, Error>)
    ensures r.Ok? ==> exists i :: 0 <= i < |colorSpaces| && colorSpaces[i] == r.value && r.value.id == id
                                  && forall j :: 0 <= j < i ==> colorSpaces[j].id != id
    ensures r.Err? <==> forall i :: 0 <= i < |colorSpaces| ==> colorSpaces[i].id != id
    ensures r.Err? ==> r.error == NoColorSpaceWithId(id)
  {
    for i := 0 to |colorSpaces|
      invariant forall j :: 0 <= j < i ==> colorSpaces[j].id != id
    {
      if colorSpaces[i].id == id {
        return Ok(colorSpaces[i]);
      }
    }
    return Err(NoColorSpaceWithId(id));
  }

  /** The conversions of `conversions` whose input is `s`, in table order. */
  function ConversionsFrom<Img>(conversions: seq<Conversion<Img>>, s: ColorSpace): (r: seq<Conversion<Img>>)
    ensures |r| <= |conversions|
    ensures forall k :: 0 <= k < |r| ==> r[k].input == s
    ensures r == [] <==> forall i :: 0 <= i < |conversions| ==> conversions[i].input != s
  {
    if conversions == [] then []
    else
      var init, c := conversions[..|conversions| - 1], conversions[|conversions| - 1];
      ConversionsFrom(init, s) + (if c.input == s then [c] else [])
  }

  /**
   * The conversions out of `s` are entries of the table, and every entry of the
   * table whose input is `s` is among them.
   */
  lemma {:induction false} ConversionsFromMembers<Img>(conversions: seq<Conversion<Img>>, s: ColorSpace)
    ensures forall k :: 0 <= k < |ConversionsFrom(conversions, s)| ==> ConversionsFrom(conversions, s)[k] in conversions
    ensures forall i :: 0 <= i < |conversions| && conversions[i].input == s ==> conversions[i] in ConversionsFrom(conversions, s)
    decreases |conversions|
  {
    if conversions != [] {
      var init := conversions[..|conversions| - 1];
      ConversionsFromMembers(init, s);
      assert conversions == init + [conversions[|conversions| - 1]];
    }
  }

  /**
   * Filtering keeps table order: the conversions out of `s` in a table made of
   * two parts are those of the first part followed by those of the second.
   */
  lemma {:induction false} ConversionsFromAppend<Img>(front: seq<Conversion<Img>>, back: seq<Conversion<Img>>, s: ColorSpace)
    ensures ConversionsFrom(front + back, s) == ConversionsFrom(front, s) + ConversionsFrom(back, s)
    decreases |back|
  {
    if back == [] {
      assert front + back == front;
    } else {
      var init, c := back[..|back| - 1], back[|back| - 1];
      assert (front + back)[..|front + back| - 1] == front + init;
      ConversionsFromAppend(front, init, s);
    }
  }

  /**
   * The module-level loop that builds `__conversions_map`: every input space of
   * the table is a key, no other space is, and each key lists the conversions
   * out of it in table order.
   */
  method BuildConversionsMap<Img>(conversions: seq<Conversion<Img>>) returns (m: map<ColorSpace, seq<Conversion<Img>>>)
    ensures forall s :: s in m <==> exists i :: 0 <= i < |conversions| && conversions[i].input == s
    ensures forall s :: s in m ==> m[s] == ConversionsFrom(conversions, s)
  {
    m := map[];
    for i := 0 to |conversions|
      invariant Grouped(m, conversions[..i])
    {
      var conversion := conversions[i];
      var l := if conversion.input in m then m[conversion.input] else [];
      GroupedStep(m, conversions, i);
      m := m[conversion.input := l + [conversion]];
    }
    assert conversions[..|conversions|] == conversions;
    GroupedKeys(m, conversions);
  }

  /** `m` maps exactly the input spaces of `table` to their conversions, in table order. */
  ghost predicate Grouped<Img>(m: map<ColorSpace, seq<Conversion<Img>>>, table: seq<Conversion<Img>>)
  {
    forall s :: (s in m <==> ConversionsFrom(table, s) != []) && (s in m ==> m[s] == ConversionsFrom(table, s))
  }

  /** A map grouped by input space has exactly the input spaces of the table as keys. */
  lemma GroupedKeys<Img>(m: map<ColorSpace, seq<Conversion<Img>>>, table: seq<Conversion<Img>>)
    requires Grouped(m, table)
    ensures forall s :: s in m <==> exists i :: 0 <= i < |table| && table[i].input == s
  {
    forall s
      ensures s in m <==> exists i :: 0 <= i < |table| && table[i].input == s
    {
      assert s in m <==> ConversionsFrom(table, s) != [];
    }
  }

  /** Appending the next conversion of the table to the list of its input space keeps the map grouped. */
  lemma GroupedStep<Img>(m: map<ColorSpace, seq<Conversion<Img>>>, conversions: seq<Conversion<Img>>, i: nat)
    requires i < |conversions| && Grouped(m, conversions[..i])
    ensures var c := conversions[i];
            Grouped(m[c.input := (if c.input in m then m[c.input] else []) + [c]], conversions[..i + 1])
  {
    var c := conversions[i];
    var grown := m[c.input := (if c.input in m then m[c.input] else []) + [c]];
    assert conversions[..i + 1][..i] == conversions[..i];
    forall s
      ensures && (s in grown <==> ConversionsFrom(conversions[..i + 1], s) != [])
              && (s in grown ==> grown[s] == ConversionsFrom(conversions[..i + 1], s))
    {
      assert ConversionsFrom(conversions[..i + 1], s)
             == ConversionsFrom(conversions[..i], s) + (if c.input == s then [c] else []);
    }
  }

  /** The edges `(cost, output)` that `get_next` yields for `s`, in the order of `conversionsMap[s]`. */
  function Edges<Img>(conversionsMap: map<ColorSpace, seq<Conversion<Img>>>, s: ColorSpace): (edges: seq<(nat, ColorSpace)>)
    ensures s !in conversionsMap ==> edges == []
    ensures s in conversionsMap ==> |edges| == |conversionsMap[s]|
    ensures forall k :: 0 <= k < |edges| ==> edges[k] == (conversionsMap[s][k].cost, conversionsMap[s][k].output)
  {
    if s in conversionsMap then
      seq(|conversionsMap[s]|, k requires 0 <= k < |conversionsMap[s]| =>
        (conversionsMap[s][k].cost, conversionsMap[s][k].output))
    else []
  }

  /** The conversion graph: the `get_next` that `convert` hands to the search. */
  function Graph<Img>(conversionsMap: map<ColorSpace, seq<Conversion<Img>>>): (getNext: ColorSpace -> seq<(nat, ColorSpace)>)
    ensures forall s :: getNext(s) == Edges(conversionsMap, s)
  {
    s => Edges(conversionsMap, s)
  }

  /** The `is_destination` that `convert` hands to the search. */
  function IsSpace(target: ColorSpace): (isDestination: ColorSpace -> bool)
    ensures forall s :: isDestination(s) <==> s == target
  {
    s => s == target
  }

  /**
   * An edge `(c, b)` leaves `a` in the conversion graph exactly when the map
   * lists a conversion out of `a` into `b` of cost `c`.
   */
  lemma GraphEdge<Img>(conversionsMap: map<ColorSpace, seq<Conversion<Img>>>, a: ColorSpace, c: nat, b: ColorSpace)
    ensures (c, b) in Graph(conversionsMap)(a) <==>
              a in conversionsMap && exists k :: 0 <= k < |conversionsMap[a]| && conversionsMap[a][k].cost == c
                                                 && conversionsMap[a][k].output == b
  {
    var edges := Graph(conversionsMap)(a);
    if (c, b) in edges {
      var k :| 0 <= k < |edges| && edges[k] == (c, b);
    }
    if a in conversionsMap && exists k :: 0 <= k < |conversionsMap[a]| && conversionsMap[a][k].cost == c
                                          && conversionsMap[a][k].output == b {
      var k :| 0 <= k < |conversionsMap[a]| && conversionsMap[a][k].cost == c && conversionsMap[a][k].output == b;
      assert edges[k] == (c, b);
    }
  }

  /**
   * The index of the first conversion of `candidates` whose output is `target`,
   * or `|candidates|` when there is none.
   */
  function FirstTo<Img>(candidates: seq<Conversion<Img>>, target: ColorSpace): (k: nat)
    ensures k <= |candidates|
    ensures k < |candidates| ==> candidates[k].output == target
    ensures forall j :: 0 <= j < k ==> candidates[j].output != target
  {
    if candidates == [] then 0
    else if candidates[0].output == target then 0
    else 1 + FirstTo(candidates[1..], target)
  }

  /** Every step of `path` has a conversion in `conversionsMap`. */
  ghost predicate Chained<Img>(conversionsMap: map<ColorSpace, seq<Conversion<Img>>>, path: seq<ColorSpace>)
  {
    forall i :: 0 <= i < |path| - 1 ==>
      path[i] in conversionsMap && FirstTo(conversionsMap[path[i]], path[i + 1]) < |conversionsMap[path[i]]|
  }

  /**
   * `img` taken along `path`: one conversion per step, the first one out of
   * `path[i]` in `conversionsMap` whose output is `path[i + 1]`.
   */
  ghost function ApplyPath<Img>(conversionsMap: map<ColorSpace, seq<Conversion<Img>>>, path: seq<ColorSpace>, img: Img): Img
    requires Chained(conversionsMap, path)
    decreases |path|
  {
    if |path| <= 1 then img
    else
      var from := conversionsMap[path[|path| - 2]];
      var step := from[FirstTo(from, path[|path| - 1])];
      step.convert(ApplyPath(conversionsMap, path[..|path| - 1], img))
  }

  /** The conversion graph never leaves the input space and the outputs of the table. */
  lemma GraphClosed<Img>(conversionsMap: map<ColorSpace, seq<Conversion<Img>>>, input: ColorSpace, spaces: set<ColorSpace>)
    requires spaces == {input} + set s, k | s in conversionsMap && 0 <= k < |conversionsMap[s]| :: conversionsMap[s][k].output
    ensures Closed(Graph(conversionsMap), spaces)
  {
    forall n, j | n in spaces && 0 <= j < |Graph(conversionsMap)(n)|
      ensures Graph(conversionsMap)(n)[j].1 in spaces
    {
      assert Graph(conversionsMap)(n) == Edges(conversionsMap, n);
      assert n in conversionsMap;
      assert Graph(conversionsMap)(n)[j].1 == conversionsMap[n][j].output;
    }
  }

  /** A walk in the conversion graph has a conversion for each of its steps. */
  lemma WalkIsChained<Img>(conversionsMap: map<ColorSpace, seq<Conversion<Img>>>, path: seq<ColorSpace>, costs: seq<nat>)
    requires IsWalk(Graph(conversionsMap), path, costs)
    ensures Chained(conversionsMap, path)
  {
    forall i | 0 <= i < |path| - 1
      ensures path[i] in conversionsMap && FirstTo(conversionsMap[path[i]], path[i + 1]) < |conversionsMap[path[i]]|
    {
      WalkStep(Graph(conversionsMap), path, costs, i);
      var edges := Edges(conversionsMap, path[i]);
      assert Graph(conversionsMap)(path[i]) == edges;
      var k :| 0 <= k < |edges| && edges[k] == (costs[i], path[i + 1]);
      assert conversionsMap[path[i]][k].output == path[i + 1];
    }
  }

  /**
   * The loop at the end of `convert`: `img` taken along `path`, each step by
   * the first conversion out of `path[i - 1]` whose output is `path[i]`.
   */
  method ApplyChain<Img>(img: Img, path: seq<ColorSpace>, conversionsMap: map<ColorSpace, seq<Conversion<Img>>>)
    returns (current: Img)
    requires Chained(conversionsMap, path)
    ensures current == ApplyPath(conversionsMap, path, img)
  {
    current := img;
    if path == [] {
      return;
    }
    ChainedPrefix(conversionsMap, path, 1);
    for i := 1 to |path|
      invariant Chained(conversionsMap, path[..i])
      invariant current == ApplyPath(conversionsMap, path[..i], img)
    {
      var currIn, currOut := path[i - 1], path[i];
      var candidates := if currIn in conversionsMap then conversionsMap[currIn] else [];
      var k := FindConversionTo(candidates, currOut);
      ChainedPrefix(conversionsMap, path, i + 1);
      assert path[..i + 1][..i] == path[..i];
      current := candidates[k].convert(current);
    }
    assert path[..|path|] == path;
  }

  /** A prefix of a chained path is chained. */
  lemma ChainedPrefix<Img>(conversionsMap: map<ColorSpace, seq<Conversion<Img>>>, path: seq<ColorSpace>, n: nat)
    requires Chained(conversionsMap, path) && n <= |path|
    ensures Chained(conversionsMap, path[..n])
  {
  }

  /** The search for the first conversion of `candidates` whose output is `target`. */
  method FindConversionTo<Img>(candidates: seq<Conversion<Img>>, target: ColorSpace) returns (k: nat)
    ensures k == FirstTo(candidates, target)
  {
    k := 0;
    while k < |candidates| && candidates[k].output != target
      invariant k <= |candidates|
      invariant forall j :: 0 <= j < k ==> candidates[j].output != target
    {
      k := k + 1;
    }
  }

  /**
   * `convert(img, input, output)`: `img` itself when the spaces agree;
   * otherwise `ConversionNotPossible` exactly when no chain of conversions leads
   * from `input` to `output`, and else `img` taken along a cheapest path of
   * colour spaces `path`, one conversion per step: the first listed conversion
   * between the two spaces, which need not be the cheapest of them.
   */
  method Convert<Img>(img: Img, input: ColorSpace, output: ColorSpace,
                      conversionsMap: map<ColorSpace, seq<Conversion<Img>>>)
    returns (r: Result<Img, Error>, ghost path: seq<ColorSpace>)
    ensures input == output ==> r == Ok(img)
    ensures input != output ==> (r.Err? <==> !Reaches(Graph(conversionsMap), input, IsSpace(output)))
    ensures r.Err? ==> r.error == ConversionNotPossible(input, output)
    ensures r.Ok? && input != output ==>
              && |path| >= 2 && path[0] == input && Last(path) == output
              && (exists costs :: IsWalk(Graph(conversionsMap), path, costs)
                                  && MinCostToDestination(Graph(conversionsMap), input, IsSpace(output), Sum(costs)))
              && Chained(conversionsMap, path)
              && r.value == ApplyPath(conversionsMap, path, img)
  {
    if input == output {
      return Ok(img), [];
    }
    ghost var spaces := {input} + set s, k | s in conversionsMap && 0 <= k < |conversionsMap[s]| :: conversionsMap[s][k].output;
    GraphClosed(conversionsMap, input, spaces);
    var found := ShortestPath.GetShortestPath(input, IsSpace(output), Graph(conversionsMap), spaces);
    if found.None? {
      return Err(ConversionNotPossible(input, output)), [];
    }
    var p := found.value;
    ghost var costs :| IsWalk(Graph(conversionsMap), p, costs)
                       && MinCostToDestination(Graph(conversionsMap), input, IsSpace(output), Sum(costs));
    WalkIsChained(conversionsMap, p, costs);

    var current := ApplyChain(img, p, conversionsMap);
    return Ok(current), p;
  }

  /**
   * Two conversions join the same pair of spaces, the dearer one listed first.
   * The search prices the step `a -> b` at the cheaper one, so no walk from `a`
   * to `b` costs less than 1, but `convert` applies the first listed one, of
   * cost 5.
   */
  lemma FirstListedNotCheapest<Img>(f: Img -> Img, g: Img -> Img, img: Img)
    ensures var a, b := ColorSpace(0, "a"), ColorSpace(1, "b");
            var m := map[a := [Conversion(a, b, 5, f), Conversion(a, b, 1, g)]];
            && IsWalk(Graph(m), [a, b], [1]) && Sum([1]) == 1
            && MinCostToDestination(Graph(m), a, IsSpace(b), 1)
            && Chained(m, [a, b])
            && m[a][FirstTo(m[a], b)].cost == 5
            && ApplyPath(m, [a, b], img) == f(img)
  {
    var a, b := ColorSpace(0, "a"), ColorSpace(1, "b");
    var m := map[a := [Conversion(a, b, 5, f), Conversion(a, b, 1, g)]];
    assert Graph(m)(a) == [(5, b), (1, b)];
    assert IsWalk(Graph(m), [a, b][..1], [1][..0]);
    forall nodes, costs | IsWalkFrom(Graph(m), a, nodes, costs) && IsSpace(b)(Last(nodes))
      ensures 1 <= Sum(costs)
    {
      assert costs != [];
      var n := |nodes|;
      assert (costs[|costs| - 1], b) in Graph(m)(nodes[n - 2]);
      assert nodes[n - 2] in m;
    }
  }
}
