/**
 * Graph assembly in `include_graph`: one declared node per key of the map,
 * in insertion order, then one edge per (key, target) pair, key by key and
 * target by target. The graph is handed to the renderer as these sequences.
 */
module GraphBuild {
  import opened IncludeLine
  import opened IncludeMapping

  /** `graph.edge(node, i)`: from a scanned file to one of its targets. */
  datatype Edge = Edge(from: string, to: Target)

  /** What the renderer receives: the declared nodes and the edges, each in call order. */
  datatype Graph = Graph(nodes: seq<string>, edges: seq<Edge>)

  /** The edges of one key, one per target, in list order. */
  function EdgesFrom(key: string, targets: seq<Target>): seq<Edge> {
    seq(|targets|, i requires 0 <= i < |targets| => Edge(key, targets[i]))
  }

  /** The edges of a concatenation of target lists are the concatenation of their edges. */
  lemma EdgesFromAppend(key: string, xs: seq<Target>, ys: seq<Target>)
    ensures EdgesFrom(key, xs + ys) == EdgesFrom(key, xs) + EdgesFrom(key, ys)
  {
  }

  /** Every key of `keys` has a list. */
  ghost predicate Covers(keys: seq<string>, lists: map<string, seq<Target>>) {
    forall i :: 0 <= i < |keys| ==> keys[i] in lists
  }

  /** The edges of the keys, key by key. */
  function EdgesOf(keys: seq<string>, lists: map<string, seq<Target>>): seq<Edge>
    requires Covers(keys, lists)
    decreases |keys|
  {
    if keys == [] then []
    else EdgesOf(keys[..|keys| - 1], lists) + EdgesFrom(keys[|keys| - 1], lists[keys[|keys| - 1]])
  }

  /** The number of targets listed under the keys. */
  function TotalTargets(keys: seq<string>, lists: map<string, seq<Target>>): nat
    requires Covers(keys, lists)
    decreases |keys|
  {
    if keys == [] then 0
    else TotalTargets(keys[..|keys| - 1], lists) + |lists[keys[|keys| - 1]]|
  }

  /** The graph `include_graph` builds from a map. */
  function GraphOf(st: MapState): Graph
    requires WellFormed(st)
  {
    Graph(st.order, EdgesOf(st.order, st.lists))
  }

  /** The loops of `include_graph`: `graph.node` for each key, then `graph.edge` for each key and target. */
  method BuildGraph(m: IncludeMap) returns (g: Graph)
    requires m.Valid()
    ensures g == GraphOf(m.State())
  {
    var nodes: seq<string> := [];
    for i := 0 to |m.order|
      invariant nodes == m.order[..i]
    {
      nodes := nodes + [m.order[i]];
    }
    var edges: seq<Edge> := [];
    for i := 0 to |m.order|
      invariant Covers(m.order[..i], m.lists)
      invariant edges == EdgesOf(m.order[..i], m.lists)
    {
      var node := m.order[i];
      var inc := m.lists[node];
      for j := 0 to |inc|
        invariant edges == EdgesOf(m.order[..i], m.lists) + EdgesFrom(node, inc[..j])
      {
        edges := edges + [Edge(node, inc[j])];
      }
      assert inc[..|inc|] == inc;
      assert m.order[..i + 1][..i] == m.order[..i];
    }
    assert m.order[..|m.order|] == m.order;
    g := Graph(nodes, edges);
  }

  /** There is one edge per listed target: duplicates are kept. */
  lemma {:induction false} EdgeCount(keys: seq<string>, lists: map<string, seq<Target>>)
    requires Covers(keys, lists)
    ensures |EdgesOf(keys, lists)| == TotalTargets(keys, lists)
    decreases |keys|
  {
    if keys != [] {
      EdgeCount(keys[..|keys| - 1], lists);
    }
  }

  /** How often an edge comes from one key's list: once per occurrence of the target, if the key matches. */
  lemma {:induction false} EdgesFromMultiplicity(key: string, targets: seq<Target>, e: Edge)
    ensures multiset(EdgesFrom(key, targets))[e] == if e.from == key then multiset(targets)[e.to] else 0
    decreases |targets|
  {
    if targets != [] {
      var init := targets[..|targets| - 1];
      var last := targets[|targets| - 1];
      assert targets == init + [last];
      assert EdgesFrom(key, targets) == EdgesFrom(key, init) + [Edge(key, last)];
      EdgesFromMultiplicity(key, init, e);
    }
  }

  /**
   * Edge `(k, t)` occurs exactly as often as `t` occurs in the list of `k`
   * when `k` is a key, and never otherwise.
   */
  lemma {:induction false} EdgeMultiplicity(keys: seq<string>, lists: map<string, seq<Target>>, e: Edge)
    requires Covers(keys, lists) && Distinct(keys)
    ensures multiset(EdgesOf(keys, lists))[e] == if e.from in keys then multiset(lists[e.from])[e.to] else 0
    decreases |keys|
  {
    if keys != [] {
      var init := keys[..|keys| - 1];
      var last := keys[|keys| - 1];
      EdgeMultiplicity(init, lists, e);
      EdgesFromMultiplicity(last, lists[last], e);
      assert keys == init + [last];
      assert last !in init;
    }
  }

  /**
   * The graph of a well-formed map: its nodes are exactly the keys, in
   * insertion order; there is one edge per listed target; and an edge
   * `(k, t)` occurs as often as `t` in the list of `k`, and only for keys `k`.
   * Targets that are not keys are edge endpoints only.
   */
  lemma GraphOfShape(st: MapState, e: Edge)
    requires WellFormed(st)
    ensures GraphOf(st).nodes == st.order
    ensures forall k :: k in GraphOf(st).nodes <==> k in st.lists
    ensures |GraphOf(st).edges| == TotalTargets(st.order, st.lists)
    ensures multiset(GraphOf(st).edges)[e] == if e.from in st.lists then multiset(st.lists[e.from])[e.to] else 0
    ensures e in GraphOf(st).edges <==> e.from in st.lists && e.to in st.lists[e.from]
  {
    KeysInOrder(st);
    EdgeCount(st.order, st.lists);
    EdgeMultiplicity(st.order, st.lists, e);
  }
}
