/** The shape counts of a whole import: the two append loops and the totals at its end (`native.rs`). */
module ShapeImport {
  import opened ImportedRows
  import opened ShapeCounting
  import opened ShapeQueries

  // ---------------------------------------------------------------- the append loops

  function Rows(g: Graph): nat {
    |g.nodes| + |g.nodeProperties| + |g.edges| + |g.edgeProperties|
  }

  lemma {:induction false} AtMostAll(keys: seq<ShapeKey>, key: ShapeKey)
    ensures multiset(keys)[key] <= |keys|
  {
    if keys != [] {
      var n := |keys| - 1;
      assert keys == keys[..n] + [keys[n]];
      AtMostAll(keys[..n], key);
    }
  }

  lemma KeyPerRow(g: Graph)
    requires Sound(g)
    ensures |Keys(g)| == Rows(g)
  {
  }

  /** Everything counted so far, wherever it is, is exactly the rows stored so far. */
  ghost predicate Balanced(counts: ShapeCounts, batch: BatchShapeCounts, g: Graph)
    reads counts, batch, batch.slots
    requires Sound(g)
  {
    forall key :: counts.Total(key) + batch.Held(key) == multiset(Keys(g))[key]
  }

  lemma FullGraph(counts: ShapeCounts, batch: BatchShapeCounts, g: Graph)
    requires Sound(g) && Balanced(counts, batch, g) && Full(counts, batch)
    ensures Rows(g) >= MAX_COUNT
  {
    hide Sound, Keys, Rows;
    var key :| counts.Total(key) + batch.Held(key) >= MAX_COUNT;
    AtMostAll(Keys(g), key);
    KeyPerRow(g);
  }

  lemma GrowsSound(g: Graph, g': Graph, key: ShapeKey)
    requires Grows(g, g', key)
    ensures Sound(g')
  {
  }

  lemma MoreEdges(g: Graph, next: int, rows: seq<EdgeInput>, i: nat, keys: seq<int>)
    requires i < |rows| && forall j | 0 <= j < |rows| :: EdgeFits(rows[j], keys)
    ensures var (before, number) := AddedEdges(g, next, rows[..i], keys);
            AddedEdges(g, next, rows[..i + 1], keys)
            == (AddedEdge(before, number, rows[i], keys), if rows[i].StoredEdge? then number + 1 else number)
  {
    hide EdgeFits, AddedEdge;
    assert rows[..i + 1][..i] == rows[..i];
  }

  lemma NoEdges(g: Graph, next: int, keys: seq<int>)
    ensures AddedEdges(g, next, [], keys) == (g, next)
  {
  }

  lemma EndsStay(g: Graph, g': Graph, row: EdgeInput)
    requires EndsFound(g, row) && g'.nodes == g.nodes
    ensures EndsFound(g', row)
  {
  }

  lemma OwnersBelow(g: Graph, next: int)
    requires Sound(g) && forall i | 0 <= i < |g.edges| :: g.edges[i].id < next
    ensures Below(g.edgeProperties, next)
  {
  }

  lemma LastEdge(edges: seq<EdgeRow>, row: EdgeRow)
    ensures HasEdge(edges + [row], row.id) && EdgeOf(edges + [row], row.id) == row
  {
    assert (edges + [row])[|edges|] == row;
  }

  class Importer {
    var graph: Graph
    var nextEdge: int
    const counts: ShapeCounts

    ghost predicate Valid()
      reads this, counts
    {
      counts.Valid() && Sound(graph) && forall i | 0 <= i < |graph.edges| :: graph.edges[i].id < nextEdge
    }

    /** Between batches: spilled and hashed counts are those of the stored rows. */
    ghost predicate Exact()
      reads this, counts
      requires Sound(graph)
    {
      forall key :: counts.Total(key) == multiset(Keys(graph))[key]
    }

    /** The totals, key by key. */
    ghost function Totals(): (totals: multiset<ShapeKey>)
      reads this, counts
      requires Sound(graph) && Exact()
      ensures forall key :: totals[key] == counts.Total(key)
      ensures totals == multiset(Keys(graph))
    {
      multiset(Keys(graph))
    }

    constructor (maxEntries: nat)
      requires maxEntries > 0
      ensures Valid() && Exact() && graph == Graph([], [], [], []) && nextEdge == 1
    {
      counts := new ShapeCounts(maxEntries);
      graph := Graph([], [], [], []);
      nextEdge := 1;
    }

    /** One increment, for a row just stored. */
    method CountRow(batch: BatchShapeCounts, slot: nat, key: ShapeKey, ghost before: Graph) returns (ok: bool)
      requires batch.Valid() && counts.Valid() && slot < batch.slots.Length
      requires Grows(before, graph, key) && Balanced(counts, batch, before)
      modifies counts, batch.slots
      ensures batch.Valid() && counts.Valid()
      ensures ok ==> Balanced(counts, batch, graph)
      ensures !ok ==> Rows(before) >= MAX_COUNT
    {
      hide Sound, Keys, ShapeCounts.Total, BatchShapeCounts.Held, Rows, Full;
      if Full(counts, batch) {
        FullGraph(counts, batch, before);
      }
      ok := batch.Increment(counts, slot, key);
    }

    /** The property columns of a node that was stored with this ID and group. */
    method AppendNodeProperties(batch: BatchShapeCounts, id: int, group: int, values: seq<Value>, keys: seq<int>)
      returns (ok: bool)
      requires Valid() && batch.Valid() && Balanced(counts, batch, graph) && batch.slots.Length == |keys| + 1
      requires Fits(values, keys) && HasNode(graph.nodes, id) && GroupOf(graph.nodes, id) == group
      modifies this`graph, counts, batch.slots
      ensures Valid() && batch.Valid()
      ensures ok ==> Balanced(counts, batch, graph)
      ensures ok ==> graph == old(graph).(nodeProperties := old(graph).nodeProperties + Properties(id, values, keys))
      ensures !ok ==> Rows(graph) >= MAX_COUNT
    {
      hide Balanced, Sound, ShapeCounts.Valid, BatchShapeCounts.Valid, HasNode, GroupOf, Keys, Grows;
      var i := 0;
      while i < |values|
        invariant 0 <= i <= |values|
        invariant Valid() && batch.Valid() && Balanced(counts, batch, graph)
        invariant graph == old(graph).(nodeProperties := old(graph).nodeProperties
                                       + Properties(id, values[..i], keys[..i]))
      {
        assert values[..i + 1][..i] == values[..i] && keys[..i + 1][..i] == keys[..i];
        if !values[i].Null? {
          var row := PropertyRow(id, keys[i], values[i]);
          ghost var before := graph;
          NodePropertyGrows(graph, row);
          graph := WithNodeProperty(graph, row);
          GrowsSound(before, graph, NodeProperty(group, keys[i], ShapeOf(values[i])));
          ok := CountRow(batch, i + 1, NodeProperty(group, keys[i], ShapeOf(values[i])), before);
          if !ok {
            return;
          }
        }
        i := i + 1;
      }
      assert values[..i] == values && keys[..i] == keys;
      return true;
    }
  
    method StartBatch(properties: nat) returns (batch: BatchShapeCounts)
      requires Valid() && Exact()
      ensures fresh(batch) && fresh(batch.slots) && batch.Valid() && batch.slots.Length == properties + 1
      ensures Balanced(counts, batch, graph)
    {
      hide Sound, Keys, ShapeCounts.Total, BatchShapeCounts.Held, ShapeCounts.Valid;
      batch := new BatchShapeCounts(properties);
    }

    method FinishBatch(batch: BatchShapeCounts) returns (ok: bool)
      requires Valid() && batch.Valid() && Balanced(counts, batch, graph)
      modifies counts, batch.slots
      ensures Valid()
      ensures ok ==> Exact()
      ensures !ok ==> Rows(graph) >= MAX_COUNT
    {
      hide Sound, Keys, ShapeCounts.Total, BatchShapeCounts.Held, Rows, Full;
      if Full(counts, batch) {
        FullGraph(counts, batch, graph);
      }
      ok := batch.Flush(counts);
    }

    method AppendNode(batch: BatchShapeCounts, row: NodeInput, keys: seq<int>) returns (ok: bool)
      requires Valid() && batch.Valid() && Balanced(counts, batch, graph) && batch.slots.Length == |keys| + 1
      requires NodeFits(row, keys)
      modifies this`graph, counts, batch.slots
      ensures Valid() && batch.Valid()
      ensures ok ==> Balanced(counts, batch, graph) && graph == AddedNode(old(graph), row, keys)
      ensures !ok ==> Rows(graph) >= MAX_COUNT
    {
      hide Balanced, Sound, ShapeCounts.Valid, BatchShapeCounts.Valid, HasNode, GroupOf, Keys, Grows, Fits, Properties;
      if row.SkippedNode? || HasNode(graph.nodes, row.id) {
        return true;
      }
      ghost var before := graph;
      NodeGrows(graph, NodeRow(row.id, row.group));
      LastNode(graph.nodes, NodeRow(row.id, row.group));
      graph := WithNode(graph, NodeRow(row.id, row.group));
      GrowsSound(before, graph, Node(row.group));
      ok := CountRow(batch, 0, Node(row.group), before);
      if ok {
        ok := AppendNodeProperties(batch, row.id, row.group, row.values, keys);
      }
    }

    /** `append_nodes`: the nodes whose IDs are new are stored, each with its group and its properties, the total of
        each group grows by their number, and at the end of the batch the counts are those of the stored rows again.
        It fails only when there are as many rows as a count can hold. */
    method AppendNodes(rows: seq<NodeInput>, keys: seq<int>) returns (ok: bool)
      requires Valid() && Exact()
      requires forall i | 0 <= i < |rows| :: NodeFits(rows[i], keys)
      modifies this`graph, counts
      ensures Valid()
      ensures ok ==> Exact() && graph == AddedNodes(old(graph), rows, keys)
      ensures ok ==> NodesAreStored(old(graph), rows, keys, graph)
      ensures ok ==> forall x :: counts.Total(Node(x)) == old(counts.Total(Node(x)))
                                 + TakenWith(old(graph).nodes, rows, x)
      ensures !ok ==> Rows(graph) >= MAX_COUNT
    {
      hide Balanced, Exact, Sound, ShapeCounts.Valid, BatchShapeCounts.Valid, HasNode, NodeFits, AddedNode, Rows,
           NodesAreStored, ShapeCounts.Total, TakenWith;
      ghost var was := Totals();
      var batch := StartBatch(|keys|);
      var i := 0;
      while i < |rows|
        invariant 0 <= i <= |rows|
        invariant Valid() && batch.Valid() && Balanced(counts, batch, graph)
        invariant graph == AddedNodes(old(graph), rows[..i], keys)
      {
        assert rows[..i + 1][..i] == rows[..i];
        ok := AppendNode(batch, rows[i], keys);
        if !ok {
          return;
        }
        i := i + 1;
      }
      assert rows[..i] == rows;
      NodesStand(old(graph), rows, keys);
      NodeTotals(old(graph), rows, keys);
      ok := FinishBatch(batch);
      if ok {
        ghost var now := Totals();
        assert forall x :: was[Node(x)] == old(counts.Total(Node(x))) && now[Node(x)] == counts.Total(Node(x));
      }
    }

    /** The property columns of an edge that was stored. */
    method AppendEdgeProperties(batch: BatchShapeCounts, e: EdgeRow, values: seq<Value>, keys: seq<int>)
        returns (ok: bool)
      requires Valid() && batch.Valid() && Balanced(counts, batch, graph) && batch.slots.Length == |keys| + 1
      requires Fits(values, keys) && HasEdge(graph.edges, e.id) && EdgeOf(graph.edges, e.id) == e
      modifies this`graph, counts, batch.slots
      ensures Valid() && batch.Valid()
      ensures ok ==> Balanced(counts, batch, graph)
      ensures ok ==> graph == old(graph).(edgeProperties := old(graph).edgeProperties + Properties(e.id, values, keys))
      ensures !ok ==> Rows(graph) >= MAX_COUNT
    {
      hide Balanced, Sound, ShapeCounts.Valid, BatchShapeCounts.Valid, HasEdge, GroupOf, EdgeOf, Keys, Grows;
      var source, target := GroupOf(graph.nodes, e.from), GroupOf(graph.nodes, e.to);
      var i := 0;
      while i < |values|
        invariant 0 <= i <= |values|
        invariant Valid() && batch.Valid() && Balanced(counts, batch, graph)
        invariant graph == old(graph).(edgeProperties := old(graph).edgeProperties
                                       + Properties(e.id, values[..i], keys[..i]))
      {
        assert values[..i + 1][..i] == values[..i] && keys[..i + 1][..i] == keys[..i];
        if !values[i].Null? {
          var row := PropertyRow(e.id, keys[i], values[i]);
          var key := EdgeProperty(e.kind, source, target, keys[i], ShapeOf(values[i]));
          ghost var before := graph;
          EdgePropertyGrows(graph, row);
          graph := WithEdgeProperty(graph, row);
          GrowsSound(before, graph, key);
          ok := CountRow(batch, i + 1, key, before);
          if !ok {
            return;
          }
        }
        i := i + 1;
      }
      assert values[..i] == values && keys[..i] == keys;
      return true;
    }

    method AppendEdge(batch: BatchShapeCounts, row: EdgeInput, keys: seq<int>) returns (ok: bool)
      requires Valid() && batch.Valid() && Balanced(counts, batch, graph) && batch.slots.Length == |keys| + 1
      requires EdgeFits(row, keys) && EndsFound(graph, row)
      modifies this`graph, this`nextEdge, counts, batch.slots
      ensures Valid() && batch.Valid()
      ensures ok ==> Balanced(counts, batch, graph) && graph == AddedEdge(old(graph), old(nextEdge), row, keys)
      ensures ok ==> nextEdge == old(nextEdge) + if row.StoredEdge? then 1 else 0
      ensures ok ==> graph.nodes == old(graph).nodes
      ensures !ok ==> Rows(graph) >= MAX_COUNT
    {
      hide Balanced, Sound, ShapeCounts.Valid, BatchShapeCounts.Valid, HasNode, GroupOf, EdgeOf, Keys, Grows, Fits,
           Properties;
      if row.SkippedEdge? {
        return true;
      }
      var e := EdgeRow(nextEdge, row.from.id, row.to.id, row.kind);
      ghost var before := graph;
      EdgeGrows(graph, e);
      LastEdge(graph.edges, e);
      graph := WithEdge(graph, e);
      nextEdge := nextEdge + 1;
      GrowsSound(before, graph, Edge(row.kind, row.from.group, row.to.group));
      ok := CountRow(batch, 0, Edge(row.kind, row.from.group, row.to.group), before);
      if ok {
        ok := AppendEdgeProperties(batch, e, row.values, keys);
      }
    }

    /** `append_relationships`: the relationships are stored from their starts to their ends, each with its properties,
        and the total of a kind between two groups grows by the number of rows from the one to the other. */
    method AppendEdges(rows: seq<EdgeInput>, keys: seq<int>) returns (ok: bool)
      requires Valid() && Exact()
      requires forall i | 0 <= i < |rows| :: EdgeFits(rows[i], keys) && EndsFound(graph, rows[i])
      modifies this`graph, this`nextEdge, counts
      ensures Valid()
      ensures ok ==> Exact() && (graph, nextEdge) == AddedEdges(old(graph), old(nextEdge), rows, keys)
      ensures ok ==> EdgesAreStored(old(graph), old(nextEdge), rows, keys, graph, nextEdge)
      ensures ok ==> forall kind, x, y ::
                       counts.Total(Edge(kind, x, y))
                       == old(counts.Total(Edge(kind, x, y))) + RowsJoining(rows, kind, x, y)
      ensures !ok ==> Rows(graph) >= MAX_COUNT
    {
      hide Balanced, Exact, Sound, ShapeCounts.Valid, BatchShapeCounts.Valid, HasNode, GroupOf, EdgeFits, AddedEdge,
           Rows, EdgesAreStored, ShapeCounts.Total, RowsJoining, AddedEdges, EndsFound, Below, Keys;
      OwnersBelow(graph, nextEdge);
      NoEdges(graph, nextEdge, keys);
      ghost var was := Totals();
      var batch := StartBatch(|keys|);
      var i := 0;
      while i < |rows|
        invariant 0 <= i <= |rows| && graph.nodes == old(graph).nodes
        invariant Valid() && batch.Valid() && Balanced(counts, batch, graph)
        invariant (graph, nextEdge) == AddedEdges(old(graph), old(nextEdge), rows[..i], keys)
      {
        MoreEdges(old(graph), old(nextEdge), rows, i, keys);
        EndsStay(old(graph), graph, rows[i]);
        ok := AppendEdge(batch, rows[i], keys);
        if !ok {
          return;
        }
        i := i + 1;
      }
      assert rows[..i] == rows;
      EdgesStand(old(graph), old(nextEdge), rows, keys);
      EdgeTotals(old(graph), old(nextEdge), rows, keys);
      ok := FinishBatch(batch);
      if ok {
        ghost var now := Totals();
        assert forall kind, x, y :: was[Edge(kind, x, y)] == old(counts.Total(Edge(kind, x, y)))
                                    && now[Edge(kind, x, y)] == counts.Total(Edge(kind, x, y));
      }
    }

    /** The end of an import: with the entries flushed, the queries over the spill tables publish exactly
        what the backfill would count from the stored graph. */
    method Finish(ghost members: Members)
      requires Valid() && Exact()
      modifies counts
      ensures Valid() && counts.entries == map[]
      ensures forall row :: Finished(counts.spilled, members, row) == Backfill(graph, members, row)
      ensures forall row :: FinishHas(counts.spilled, members, row) <==> Backfill(graph, members, row) > 0
    {
      hide Sound, Keys, Finished, Backfill, FinishHas;
      counts.Flush();
      assert Counted(counts.spilled, graph) by {
        forall key ensures Get(counts.spilled, key) == multiset(Keys(graph))[key] {
          assert counts.Total(key) == Get(counts.spilled, key);
        }
      }
      forall row ensures Finished(counts.spilled, members, row) == Backfill(graph, members, row)
          && (FinishHas(counts.spilled, members, row) <==> Backfill(graph, members, row) > 0) {
        FinishIsBackfill(counts.spilled, graph, members, row);
      }
    }
  }
}
