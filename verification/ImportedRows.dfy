/** What an import batch adds to the stored graph: the rows it stores, one by one, and the shape keys they have
    (`native.rs`). */
module ImportedRows {
  import opened ShapeQueries

  // ---------------------------------------------------------------- a row more

  lemma {:induction false} GroupStays(nodes: seq<NodeRow>, row: NodeRow, id: int)
    requires HasNode(nodes, id) && !HasNode(nodes, row.id)
    ensures GroupOf(nodes + [row], id) == GroupOf(nodes, id)
  {
    assert (nodes + [row])[..|nodes|] == nodes;
  }

  lemma {:induction false} EdgeStays(edges: seq<EdgeRow>, row: EdgeRow, id: int)
    requires HasEdge(edges, id) && !HasEdge(edges, row.id)
    ensures EdgeOf(edges + [row], id) == EdgeOf(edges, id)
  {
    assert (edges + [row])[..|edges|] == edges;
  }

  lemma EdgeIsStored(g: Graph, id: int)
    requires Sound(g) && HasEdge(g.edges, id)
    ensures HasNode(g.nodes, EdgeOf(g.edges, id).from) && HasNode(g.nodes, EdgeOf(g.edges, id).to)
  {
    hide HasNode;
    var i: nat :| i < |g.edges| && g.edges[i].id == id;
    EdgeIsItself(g.edges, i);
  }

  function WithNode(g: Graph, row: NodeRow): Graph {
    g.(nodes := g.nodes + [row])
  }

  function WithNodeProperty(g: Graph, row: PropertyRow): Graph {
    g.(nodeProperties := g.nodeProperties + [row])
  }

  function WithEdge(g: Graph, row: EdgeRow): Graph {
    g.(edges := g.edges + [row])
  }

  function WithEdgeProperty(g: Graph, row: PropertyRow): Graph {
    g.(edgeProperties := g.edgeProperties + [row])
  }

  ghost predicate Grows(g: Graph, g': Graph, key: ShapeKey) {
    Sound(g) && Sound(g') && forall k :: multiset(Keys(g'))[k] == multiset(Keys(g))[k] + if k == key then 1 else 0
  }

  lemma StillThere(nodes: seq<NodeRow>, row: NodeRow, id: int)
    requires HasNode(nodes, id)
    ensures HasNode(nodes + [row], id)
  {
    var i: nat :| i < |nodes| && nodes[i].id == id;
    assert (nodes + [row])[i].id == id;
  }

  lemma EdgeStillThere(edges: seq<EdgeRow>, row: EdgeRow, id: int)
    requires HasEdge(edges, id)
    ensures HasEdge(edges + [row], id)
  {
    var i: nat :| i < |edges| && edges[i].id == id;
    assert (edges + [row])[i].id == id;
  }

  lemma NewId(nodes: seq<NodeRow>, row: NodeRow, i: nat)
    requires !HasNode(nodes, row.id) && i < |nodes|
    ensures nodes[i].id != row.id
  {
  }

  lemma WithNodeSound(g: Graph, row: NodeRow)
    requires Sound(g) && !HasNode(g.nodes, row.id)
    ensures Sound(WithNode(g, row))
  {
    hide HasNode, HasEdge;
    var g' := WithNode(g, row);
    forall i, j | 0 <= i < j < |g'.nodes| ensures g'.nodes[i].id != g'.nodes[j].id {
      NewId(g.nodes, row, i);
    }
    forall i | 0 <= i < |g.edges| ensures HasNode(g'.nodes, g.edges[i].from) && HasNode(g'.nodes, g.edges[i].to) {
      StillThere(g.nodes, row, g.edges[i].from);
      StillThere(g.nodes, row, g.edges[i].to);
    }
    forall i | 0 <= i < |g.nodeProperties| ensures HasNode(g'.nodes, g.nodeProperties[i].owner) {
      StillThere(g.nodes, row, g.nodeProperties[i].owner);
    }
  }

  lemma NewEdgeId(edges: seq<EdgeRow>, row: EdgeRow, i: nat)
    requires !HasEdge(edges, row.id) && i < |edges|
    ensures edges[i].id != row.id
  {
  }

  lemma WithEdgeSound(g: Graph, row: EdgeRow)
    requires Sound(g) && !HasEdge(g.edges, row.id) && HasNode(g.nodes, row.from) && HasNode(g.nodes, row.to)
    ensures Sound(WithEdge(g, row))
  {
    hide HasNode, HasEdge;
    var g' := WithEdge(g, row);
    forall i, j | 0 <= i < j < |g'.edges| ensures g'.edges[i].id != g'.edges[j].id {
      NewEdgeId(g.edges, row, i);
    }
    forall i | 0 <= i < |g.edgeProperties| ensures HasEdge(g'.edges, g.edgeProperties[i].owner) {
      EdgeStillThere(g.edges, row, g.edgeProperties[i].owner);
    }
  }

  /** The keys of the rows that were there do not change, for none of them joins to the new row. */
  lemma NodeGrows(g: Graph, row: NodeRow)
    requires Sound(g) && !HasNode(g.nodes, row.id)
    ensures Grows(g, WithNode(g, row), Node(row.group))
  {
    hide HasNode, HasEdge, GroupOf, EdgeOf, Sound;
    WithNodeSound(g, row);
    var g' := WithNode(g, row);
    assert NodeKeys(g') == NodeKeys(g) + [Node(row.group)];
    NodePropertyKeysStay(g, row);
    EdgeKeysStay(g, row);
    EdgePropertyKeysStay(g, row);
  }

  lemma NodePropertyKeysStay(g: Graph, row: NodeRow)
    requires Sound(g) && Sound(WithNode(g, row)) && !HasNode(g.nodes, row.id)
    ensures NodePropertyKeys(WithNode(g, row)) == NodePropertyKeys(g)
  {
    hide HasNode, HasEdge, GroupOf;
    forall i | 0 <= i < |g.nodeProperties| ensures NodePropertyKeys(WithNode(g, row))[i] == NodePropertyKeys(g)[i] {
      GroupStays(g.nodes, row, g.nodeProperties[i].owner);
    }
  }

  lemma EdgeKeysStay(g: Graph, row: NodeRow)
    requires Sound(g) && !HasNode(g.nodes, row.id)
    ensures EdgeKeys(WithNode(g, row)) == EdgeKeys(g)
  {
    hide HasNode, HasEdge, GroupOf;
    forall i | 0 <= i < |g.edges| ensures EdgeKeys(WithNode(g, row))[i] == EdgeKeys(g)[i] {
      GroupStays(g.nodes, row, g.edges[i].from);
      GroupStays(g.nodes, row, g.edges[i].to);
    }
  }

  lemma EdgePropertyKeysStay(g: Graph, row: NodeRow)
    requires Sound(g) && Sound(WithNode(g, row)) && !HasNode(g.nodes, row.id)
    ensures EdgePropertyKeys(WithNode(g, row)) == EdgePropertyKeys(g)
  {
    hide HasNode, HasEdge, GroupOf, EdgeOf;
    forall i | 0 <= i < |g.edgeProperties| ensures EdgePropertyKeys(WithNode(g, row))[i] == EdgePropertyKeys(g)[i] {
      var e := EdgeOf(g.edges, g.edgeProperties[i].owner);
      EdgeIsStored(g, g.edgeProperties[i].owner);
      GroupStays(g.nodes, row, e.from);
      GroupStays(g.nodes, row, e.to);
    }
  }

  lemma NodePropertySound(g: Graph, row: PropertyRow)
    requires Sound(g) && HasNode(g.nodes, row.owner) && Storable(row.value)
    ensures Sound(WithNodeProperty(g, row))
  {
    hide HasNode, HasEdge;
  }

  lemma EdgePropertySound(g: Graph, row: PropertyRow)
    requires Sound(g) && HasEdge(g.edges, row.owner) && Storable(row.value)
    ensures Sound(WithEdgeProperty(g, row))
  {
    hide HasNode, HasEdge;
  }

  lemma NodePropertyGrows(g: Graph, row: PropertyRow)
    requires Sound(g) && HasNode(g.nodes, row.owner) && Storable(row.value)
    ensures Grows(g, WithNodeProperty(g, row), NodePropertyKey(g, row))
  {
    hide HasNode, HasEdge, GroupOf, EdgeOf, Sound;
    NodePropertySound(g, row);
    var g' := WithNodeProperty(g, row);
    assert NodeKeys(g') == NodeKeys(g) && EdgeKeys(g') == EdgeKeys(g);
    assert NodePropertyKeys(g') == NodePropertyKeys(g) + [NodePropertyKey(g, row)];
    assert EdgePropertyKeys(g') == EdgePropertyKeys(g);
  }

  lemma EdgeGrows(g: Graph, row: EdgeRow)
    requires Sound(g) && !HasEdge(g.edges, row.id) && HasNode(g.nodes, row.from) && HasNode(g.nodes, row.to)
    ensures Grows(g, WithEdge(g, row), EdgeKey(g, row))
  {
    hide HasNode, HasEdge, GroupOf, EdgeOf, Sound;
    WithEdgeSound(g, row);
    var g' := WithEdge(g, row);
    assert NodeKeys(g') == NodeKeys(g) && NodePropertyKeys(g') == NodePropertyKeys(g);
    assert EdgeKeys(g') == EdgeKeys(g) + [EdgeKey(g, row)];
    OldEdgesStay(g, row);
  }

  lemma OldEdgesStay(g: Graph, row: EdgeRow)
    requires Sound(g) && Sound(WithEdge(g, row)) && !HasEdge(g.edges, row.id)
    ensures EdgePropertyKeys(WithEdge(g, row)) == EdgePropertyKeys(g)
  {
    hide HasNode, HasEdge, GroupOf, EdgeOf;
    forall i | 0 <= i < |g.edgeProperties| ensures EdgePropertyKeys(WithEdge(g, row))[i] == EdgePropertyKeys(g)[i] {
      EdgeStays(g.edges, row, g.edgeProperties[i].owner);
    }
  }

  lemma EdgePropertyGrows(g: Graph, row: PropertyRow)
    requires Sound(g) && HasEdge(g.edges, row.owner) && Storable(row.value)
    ensures Grows(g, WithEdgeProperty(g, row), EdgePropertyKey(g, row))
  {
    hide HasNode, HasEdge, GroupOf, EdgeOf, Sound;
    EdgePropertySound(g, row);
    var g' := WithEdgeProperty(g, row);
    assert NodeKeys(g') == NodeKeys(g) && NodePropertyKeys(g') == NodePropertyKeys(g) && EdgeKeys(g') == EdgeKeys(g);
    assert EdgePropertyKeys(g') == EdgePropertyKeys(g) + [EdgePropertyKey(g, row)];
  }

  // ---------------------------------------------------------------- what the batches add to the graph

  /** A node row as it is counted: skipped as a duplicate, or stored with one value per property column. */
  datatype NodeInput = SkippedNode | StoredNode(id: int, group: int, values: seq<Value>)

  /** What an endpoint lookup finds. */
  datatype ImportNode = ImportNode(id: int, group: int)

  datatype EdgeInput = SkippedEdge | StoredEdge(kind: int, from: ImportNode, to: ImportNode, values: seq<Value>)

  predicate Fits(values: seq<Value>, keys: seq<int>) {
    |values| == |keys| && forall i | 0 <= i < |values| :: values[i].Null? || Storable(values[i])
  }

  predicate NodeFits(row: NodeInput, keys: seq<int>) {
    row.StoredNode? ==> Fits(row.values, keys)
  }

  /** Lookups find stored nodes, with their groups. */
  predicate Finds(g: Graph, n: ImportNode) {
    HasNode(g.nodes, n.id) && GroupOf(g.nodes, n.id) == n.group
  }

  predicate EdgeFits(row: EdgeInput, keys: seq<int>) {
    row.StoredEdge? ==> Fits(row.values, keys)
  }

  predicate EndsFound(g: Graph, row: EdgeInput) {
    row.StoredEdge? ==> Finds(g, row.from) && Finds(g, row.to)
  }

  /** The rows of the columns that are not null. */
  function Properties(owner: int, values: seq<Value>, keys: seq<int>): seq<PropertyRow>
    requires |values| == |keys|
  {
    if values == [] then []
    else
      var n := |values| - 1;
      Properties(owner, values[..n], keys[..n]) + if values[n].Null? then []
          else [PropertyRow(owner, keys[n], values[n])]
  }

  /** A node whose ID is taken is not inserted. */
  function AddedNode(g: Graph, row: NodeInput, keys: seq<int>): Graph
    requires NodeFits(row, keys)
  {
    if row.SkippedNode? || HasNode(g.nodes, row.id) then g
    else
      g.(nodes := g.nodes + [NodeRow(row.id, row.group)],
         nodeProperties := g.nodeProperties + Properties(row.id, row.values, keys))
  }

  function AddedNodes(g: Graph, rows: seq<NodeInput>, keys: seq<int>): Graph
    requires forall i | 0 <= i < |rows| :: NodeFits(rows[i], keys)
  {
    if rows == [] then g else AddedNode(AddedNodes(g, rows[..|rows| - 1], keys), rows[|rows| - 1], keys)
  }

  function AddedEdge(g: Graph, next: int, row: EdgeInput, keys: seq<int>): Graph
    requires EdgeFits(row, keys)
  {
    if row.SkippedEdge? then g
    else
      g.(edges := g.edges + [EdgeRow(next, row.from.id, row.to.id, row.kind)],
         edgeProperties := g.edgeProperties + Properties(next, row.values, keys))
  }

  /** Relationships are numbered in order. */
  function AddedEdges(g: Graph, next: int, rows: seq<EdgeInput>, keys: seq<int>): (Graph, int)
    requires forall i | 0 <= i < |rows| :: EdgeFits(rows[i], keys)
  {
    if rows == [] then (g, next)
    else
      var (before, number) := AddedEdges(g, next, rows[..|rows| - 1], keys);
      (AddedEdge(before, number, rows[|rows| - 1], keys), if rows[|rows| - 1].StoredEdge? then number + 1 else number)
  }

  // ---------------------------------------------------------------- row by row

  /** Columns of a row that hold this value under this key. */
  function Cells(values: seq<Value>, keys: seq<int>, key: int, value: Value): nat
    requires |values| == |keys|
  {
    if value.Null? then 0 else |set c: nat | c < |values| && keys[c] == key && values[c] == value|
  }

  function PropertyRows(properties: seq<PropertyRow>, owner: int, key: int, value: Value): nat {
    multiset(properties)[PropertyRow(owner, key, value)]
  }

  lemma CellsSnoc(values: seq<Value>, keys: seq<int>, key: int, value: Value)
    requires |values| == |keys| > 0
    ensures var n := |values| - 1;
            Cells(values, keys, key, value)
            == Cells(values[..n], keys[..n], key, value) + One(!value.Null? && keys[n] == key && values[n] == value)
  {
    var n := |values| - 1;
    var before := set c: nat | c < n && keys[..n][c] == key && values[..n][c] == value;
    var all := set c: nat | c < |values| && keys[c] == key && values[c] == value;
    assert all == before + if keys[n] == key && values[n] == value then {n} else {};
  }

  /** Each column that is not null is one property row of the owner. */
  lemma {:induction false} PropertiesAre(owner: int, values: seq<Value>, keys: seq<int>, o: int, key: int, value: Value)
    requires |values| == |keys|
    ensures PropertyRows(Properties(owner, values, keys), o, key, value)
            == if o == owner then Cells(values, keys, key, value) else 0
    decreases |values|
  {
    hide Cells;
    if values == [] {
      NoCells(values, keys, key, value);
    } else {
      var n := |values| - 1;
      PropertiesAre(owner, values[..n], keys[..n], o, key, value);
      CellsSnoc(values, keys, key, value);
    }
  }

  lemma NoCells(values: seq<Value>, keys: seq<int>, key: int, value: Value)
    requires |values| == |keys|
    ensures |values| == 0 ==> Cells(values, keys, key, value) == 0
  {
    var columns := set c: nat | c < |values| && keys[c] == key && values[c] == value;
    assert |values| == 0 ==> columns == {};
  }

  /** The property rows of this owner are the columns that are not null. */
  ghost predicate ColumnsStand(properties: seq<PropertyRow>, owner: int, values: seq<Value>, keys: seq<int>) {
    |values| == |keys|
    && forall key, value :: PropertyRows(properties, owner, key, value) == Cells(values, keys, key, value)
  }

  // ---------------------------------------------------------------- stored relationships

  /** The relationships a batch stores. */
  function Stored(rows: seq<EdgeInput>): nat {
    Sum(rows, (r: EdgeInput) => One(r.StoredEdge?))
  }

  function RowsBetween(rows: seq<EdgeInput>, kind: int, a: int, b: int): nat {
    Sum(rows, (r: EdgeInput) => One(r.StoredEdge? && r.kind == kind && r.from.id == a && r.to.id == b))
  }

  function EdgesBetween(edges: seq<EdgeRow>, kind: int, a: int, b: int): nat {
    Sum(edges, (e: EdgeRow) => One(e.kind == kind && e.from == a && e.to == b))
  }

  function RowsJoining(rows: seq<EdgeInput>, kind: int, x: int, y: int): nat {
    Sum(rows, (r: EdgeInput) => One(r.StoredEdge? && r.kind == kind && r.from.group == x && r.to.group == y))
  }

  /** The relationship of a row stands at this place, from its start to its end. */
  predicate EdgeStands(edges: seq<EdgeRow>, at: nat, id: int, row: EdgeInput)
    requires row.StoredEdge?
  {
    && at < |edges| && edges[at].id == id && edges[at].kind == row.kind
    && edges[at].from == row.from.id && edges[at].to == row.to.id
  }

  /** Behind the relationships that were there come those of the rows, numbered in order. */
  ghost predicate EdgesInOrder(edges: seq<EdgeRow>, next: int, rows: seq<EdgeInput>, after: seq<EdgeRow>) {
    && edges <= after && |after| == |edges| + Stored(rows)
    && forall i | 0 <= i < |rows| && rows[i].StoredEdge? ::
         EdgeStands(after, |edges| + Stored(rows[..i]), next + Stored(rows[..i]), rows[i])
  }

  /** Each column of a stored row that is not null is one property row of its relationship, and there are no others. */
  ghost predicate EdgePropertiesPerRow(properties: seq<PropertyRow>, next: int, rows: seq<EdgeInput>, keys: seq<int>,
                                       after: seq<PropertyRow>)
  {
    && (forall i | 0 <= i < |rows| && rows[i].StoredEdge? ::
          ColumnsStand(after, next + Stored(rows[..i]), rows[i].values, keys))
    && (forall owner, key, value | owner < next || next + Stored(rows) <= owner ::
          PropertyRows(after, owner, key, value) == PropertyRows(properties, owner, key, value))
  }

  /** What a batch of relationships adds. */
  ghost predicate EdgesAreStored(g: Graph, next: int, rows: seq<EdgeInput>, keys: seq<int>, after: Graph, next': int) {
    && after.nodes == g.nodes && after.nodeProperties == g.nodeProperties && next' == next + Stored(rows)
    && EdgesInOrder(g.edges, next, rows, after.edges)
    && EdgePropertiesPerRow(g.edgeProperties, next, rows, keys, after.edgeProperties)
    && (forall kind, a, b ::
          EdgesBetween(after.edges, kind, a, b) == EdgesBetween(g.edges, kind, a, b) + RowsBetween(rows, kind, a, b))
  }

  predicate Below(properties: seq<PropertyRow>, next: int) {
    forall i | 0 <= i < |properties| :: properties[i].owner < next
  }

  lemma StoredSnoc(rows: seq<EdgeInput>)
    requires rows != []
    ensures Stored(rows) == Stored(rows[..|rows| - 1]) + One(rows[|rows| - 1].StoredEdge?)
  {
  }

  lemma {:induction false} StoredIsMonotone(rows: seq<EdgeInput>, i: nat)
    requires i < |rows|
    ensures Stored(rows[..i]) + One(rows[i].StoredEdge?) <= Stored(rows)
    decreases |rows| - i
  {
    hide Stored;
    var n := |rows| - 1;
    StoredSnoc(rows);
    if i < n {
      StoredIsMonotone(rows[..n], i);
      assert rows[..n][..i] == rows[..i];
    }
  }

  lemma {:induction false} NumbersGrow(g: Graph, next: int, rows: seq<EdgeInput>, keys: seq<int>)
    requires forall i | 0 <= i < |rows| :: EdgeFits(rows[i], keys)
    ensures AddedEdges(g, next, rows, keys).1 == next + Stored(rows)
    ensures AddedEdges(g, next, rows, keys).0.nodes == g.nodes
    ensures AddedEdges(g, next, rows, keys).0.nodeProperties == g.nodeProperties
    decreases |rows|
  {
    hide Properties, EdgeFits;
    if rows != [] {
      NumbersGrow(g, next, rows[..|rows| - 1], keys);
    }
  }

  lemma {:induction false} EdgesComeInOrder(g: Graph, next: int, rows: seq<EdgeInput>, keys: seq<int>)
    requires forall i | 0 <= i < |rows| :: EdgeFits(rows[i], keys)
    ensures EdgesInOrder(g.edges, next, rows, AddedEdges(g, next, rows, keys).0.edges)
    decreases |rows|
  {
    hide Stored, Properties, EdgeFits;
    if rows == [] {
      NoneStored();
    } else {
      var n := |rows| - 1;
      EdgesComeInOrder(g, next, rows[..n], keys);
      NumbersGrow(g, next, rows[..n], keys);
      StoredSnoc(rows);
      var after := AddedEdges(g, next, rows, keys).0.edges;
      forall i | 0 <= i < |rows| && rows[i].StoredEdge?
        ensures EdgeStands(after, |g.edges| + Stored(rows[..i]), next + Stored(rows[..i]), rows[i]) {
        if i < n {
          assert rows[..n][..i] == rows[..i] && rows[..n][i] == rows[i];
        }
      }
    }
  }

  lemma NoneStored()
    ensures Stored([]) == 0
  {
  }

  lemma {:induction false} PropertiesPerRow(g: Graph, next: int, rows: seq<EdgeInput>, keys: seq<int>)
    requires forall i | 0 <= i < |rows| :: EdgeFits(rows[i], keys)
    requires Below(g.edgeProperties, next)
    ensures EdgePropertiesPerRow(g.edgeProperties, next, rows, keys, AddedEdges(g, next, rows, keys).0.edgeProperties)
    decreases |rows|
  {
    hide Stored, Properties, Cells, EdgeFits, PropertyRows, ColumnsStand;
    if rows == [] {
      NoneStored();
    } else {
      var n := |rows| - 1;
      PropertiesPerRow(g, next, rows[..n], keys);
      NumbersGrow(g, next, rows[..n], keys);
      StoredSnoc(rows);
      var before := AddedEdges(g, next, rows[..n], keys).0.edgeProperties;
      var after := AddedEdges(g, next, rows, keys).0.edgeProperties;
      var number := next + Stored(rows[..n]);
      assert Below(g.edgeProperties, number);
      if rows[n].StoredEdge? {
        LastRowStands(g.edgeProperties, before, next, number, rows[n], keys);
      }
      forall i | 0 <= i < |rows| && rows[i].StoredEdge?
        ensures ColumnsStand(after, next + Stored(rows[..i]), rows[i].values, keys) {
        if i < n {
          assert rows[..n][..i] == rows[..i] && rows[..n][i] == rows[i];
          StoredIsMonotone(rows[..n], i);
          if rows[n].StoredEdge? {
            StaysBelow(before, next + Stored(rows[..i]), number, rows[i].values, rows[n], keys);
          }
        }
      }
    }
  }

  /** The relationship before stays as it is. */
  lemma StaysBelow(before: seq<PropertyRow>, owner: int, number: int, values: seq<Value>, row: EdgeInput,
                   keys: seq<int>)
    requires EdgeFits(row, keys) && row.StoredEdge? && owner < number && ColumnsStand(before, owner, values, keys)
    ensures ColumnsStand(before + Properties(number, row.values, keys), owner, values, keys)
  {
    hide Properties, Cells, PropertyRows;
    forall key, value
      ensures PropertyRows(before + Properties(number, row.values, keys), owner, key, value)
              == Cells(values, keys, key, value) {
      OneRowMore(before, number, row, keys, owner, key, value);
    }
  }

  lemma LastRowStands(properties: seq<PropertyRow>, before: seq<PropertyRow>, next: int, number: int, row: EdgeInput,
                      keys: seq<int>)
    requires EdgeFits(row, keys) && row.StoredEdge? && next <= number && Below(properties, next)
    requires forall owner, key, value | owner < next || number <= owner ::
               PropertyRows(before, owner, key, value) == PropertyRows(properties, owner, key, value)
    ensures var after := before + Properties(number, row.values, keys);
            && ColumnsStand(after, number, row.values, keys)
            && forall owner, key, value | owner < next || number < owner ::
                 PropertyRows(after, owner, key, value) == PropertyRows(properties, owner, key, value)
  {
    hide Properties, Cells, PropertyRows;
    var after := before + Properties(number, row.values, keys);
    forall key, value ensures PropertyRows(after, number, key, value) == Cells(row.values, keys, key, value) {
      OneRowMore(before, number, row, keys, number, key, value);
      NoOwner(properties, number, key, value);
    }
    forall owner, key, value | owner < next || number < owner
      ensures PropertyRows(after, owner, key, value) == PropertyRows(properties, owner, key, value) {
      OneRowMore(before, number, row, keys, owner, key, value);
    }
  }

  lemma OneRowMore(before: seq<PropertyRow>, number: int, row: EdgeInput, keys: seq<int>, owner: int, key: int,
                   value: Value)
    requires EdgeFits(row, keys)
    ensures row.StoredEdge? ==>
              PropertyRows(before + Properties(number, row.values, keys), owner, key, value)
              == PropertyRows(before, owner, key, value)
                 + if owner == number then Cells(row.values, keys, key, value) else 0
  {
    hide Properties, Cells;
    if row.StoredEdge? {
      PropertiesAre(number, row.values, keys, owner, key, value);
    }
  }

  lemma NoOwner(properties: seq<PropertyRow>, owner: int, key: int, value: Value)
    requires forall i | 0 <= i < |properties| :: properties[i].owner != owner
    ensures PropertyRows(properties, owner, key, value) == 0
  {
    assert PropertyRow(owner, key, value) !in properties;
  }

  lemma BetweenSnoc(edges: seq<EdgeRow>, e: EdgeRow, kind: int, a: int, b: int)
    ensures EdgesBetween(edges + [e], kind, a, b)
            == EdgesBetween(edges, kind, a, b) + One(e.kind == kind && e.from == a && e.to == b)
  {
    assert (edges + [e])[..|edges|] == edges;
  }

  lemma RowsBetweenSnoc(rows: seq<EdgeInput>, kind: int, a: int, b: int)
    requires rows != []
    ensures var n := |rows| - 1;
            var r := rows[n];
            RowsBetween(rows, kind, a, b)
            == RowsBetween(rows[..n], kind, a, b)
               + One(r.StoredEdge? && r.kind == kind && r.from.id == a && r.to.id == b)
  {
  }

  lemma {:induction false} EdgesPerPair(g: Graph, next: int, rows: seq<EdgeInput>, keys: seq<int>, kind: int, a: int,
                                        b: int)
    requires forall i | 0 <= i < |rows| :: EdgeFits(rows[i], keys)
    ensures EdgesBetween(AddedEdges(g, next, rows, keys).0.edges, kind, a, b)
            == EdgesBetween(g.edges, kind, a, b) + RowsBetween(rows, kind, a, b)
    decreases |rows|
  {
    hide EdgesBetween, Properties, EdgeFits;
    if rows != [] {
      hide RowsBetween;
      var n := |rows| - 1;
      EdgesPerPair(g, next, rows[..n], keys, kind, a, b);
      RowsBetweenSnoc(rows, kind, a, b);
      if rows[n].StoredEdge? {
        var (before, number) := AddedEdges(g, next, rows[..n], keys);
        BetweenSnoc(before.edges, EdgeRow(number, rows[n].from.id, rows[n].to.id, rows[n].kind), kind, a, b);
      }
    }
  }

  /** A batch stores each of its relationships from its start to its end, under the next numbers, with one property
      row for each column that is not null; and nothing else. */
  lemma EdgesStand(g: Graph, next: int, rows: seq<EdgeInput>, keys: seq<int>)
    requires forall i | 0 <= i < |rows| :: EdgeFits(rows[i], keys)
    requires Below(g.edgeProperties, next)
    ensures var (after, next') := AddedEdges(g, next, rows, keys);
            EdgesAreStored(g, next, rows, keys, after, next')
  {
    hide Stored, Cells, EdgeFits, EdgesBetween, RowsBetween, AddedEdges, EdgesInOrder, EdgePropertiesPerRow;
    NumbersGrow(g, next, rows, keys);
    EdgesComeInOrder(g, next, rows, keys);
    PropertiesPerRow(g, next, rows, keys);
    forall kind, a, b
      ensures EdgesBetween(AddedEdges(g, next, rows, keys).0.edges, kind, a, b)
              == EdgesBetween(g.edges, kind, a, b) + RowsBetween(rows, kind, a, b) {
      EdgesPerPair(g, next, rows, keys, kind, a, b);
    }
  }

  lemma RowsJoiningSnoc(rows: seq<EdgeInput>, kind: int, x: int, y: int)
    requires rows != []
    ensures var n := |rows| - 1;
            var r := rows[n];
            RowsJoining(rows, kind, x, y)
            == RowsJoining(rows[..n], kind, x, y)
               + One(r.StoredEdge? && r.kind == kind && r.from.group == x && r.to.group == y)
  {
  }

  /** The keys of the relationships grow by one for each that is stored, with the groups of its start and its end. */
  lemma {:induction false} EdgeKeysPerPair(g: Graph, next: int, rows: seq<EdgeInput>, keys: seq<int>, kind: int, x: int,
                                           y: int)
    requires forall i | 0 <= i < |rows| :: EdgeFits(rows[i], keys) && EndsFound(g, rows[i])
    ensures multiset(EdgeKeys(AddedEdges(g, next, rows, keys).0))[Edge(kind, x, y)]
            == multiset(EdgeKeys(g))[Edge(kind, x, y)] + RowsJoining(rows, kind, x, y)
    decreases |rows|
  {
    hide Properties, EdgeFits, RowsJoining, HasNode, GroupOf;
    if rows == [] {
      NoneJoining(kind, x, y);
    } else {
      var n := |rows| - 1;
      var row := rows[n];
      EdgeKeysPerPair(g, next, rows[..n], keys, kind, x, y);
      NumbersGrow(g, next, rows[..n], keys);
      RowsJoiningSnoc(rows, kind, x, y);
      var (before, number) := AddedEdges(g, next, rows[..n], keys);
      var after := AddedEdges(g, next, rows, keys).0;
      assert EndsFound(g, row);
      if row.StoredEdge? {
        assert EdgeKeys(after) == EdgeKeys(before) + [Edge(row.kind, row.from.group, row.to.group)];
      } else {
        assert after == before;
      }
    }
  }

  lemma NoneJoining(kind: int, x: int, y: int)
    ensures RowsJoining([], kind, x, y) == 0
  {
  }

  lemma KeysOfOneKind(g: Graph)
    requires Sound(g)
    ensures forall k | k in NodeKeys(g) :: k.Node?
    ensures forall k | k in NodePropertyKeys(g) :: k.NodeProperty?
    ensures forall k | k in EdgeKeys(g) :: k.Edge?
    ensures forall k | k in EdgePropertyKeys(g) :: k.EdgeProperty?
  {
    hide Sound, GroupOf, EdgeOf, ShapeOf;
  }

  lemma CountsByKind(g: Graph, k: ShapeKey)
    requires Sound(g)
    ensures k.Edge? ==> multiset(Keys(g))[k] == multiset(EdgeKeys(g))[k]
    ensures k.Node? ==> multiset(Keys(g))[k] == multiset(NodeKeys(g))[k]
  {
    hide Sound, NodeKeys, NodePropertyKeys, EdgeKeys, EdgePropertyKeys;
    KeysOfOneKind(g);
    var nodes, properties, edges := NodeKeys(g), NodePropertyKeys(g), EdgeKeys(g);
    var edgeProperties := EdgePropertyKeys(g);
    assert k.Edge? ==> k !in nodes && k !in properties && k !in edgeProperties;
    assert k.Node? ==> k !in edges && k !in properties && k !in edgeProperties;
    assert Keys(g) == nodes + properties + edges + edgeProperties;
    assert multiset(nodes + properties + edges + edgeProperties)
           == multiset(nodes) + multiset(properties) + multiset(edges) + multiset(edgeProperties);
  }

  /** The total of a kind of relationship between two groups grows by the number of rows from the one to the other. */
  lemma EdgeTotals(g: Graph, next: int, rows: seq<EdgeInput>, keys: seq<int>)
    requires forall i | 0 <= i < |rows| :: EdgeFits(rows[i], keys) && EndsFound(g, rows[i])
    requires Sound(g) && Sound(AddedEdges(g, next, rows, keys).0)
    ensures forall kind, x, y ::
              multiset(Keys(AddedEdges(g, next, rows, keys).0))[Edge(kind, x, y)]
              == multiset(Keys(g))[Edge(kind, x, y)] + RowsJoining(rows, kind, x, y)
  {
    hide Sound, Keys, EdgeKeys, NodeKeys, AddedEdges, RowsJoining, EdgeFits, EndsFound;
    forall kind, x, y
      ensures multiset(Keys(AddedEdges(g, next, rows, keys).0))[Edge(kind, x, y)]
              == multiset(Keys(g))[Edge(kind, x, y)] + RowsJoining(rows, kind, x, y) {
      CountsByKind(g, Edge(kind, x, y));
      CountsByKind(AddedEdges(g, next, rows, keys).0, Edge(kind, x, y));
      EdgeKeysPerPair(g, next, rows, keys, kind, x, y);
    }
  }

  // ---------------------------------------------------------------- stored nodes

  /** The row stores its node: no node has its ID, and no earlier row of the batch. */
  predicate Taken(nodes: seq<NodeRow>, rows: seq<NodeInput>, i: nat)
    requires i < |rows|
  {
    && rows[i].StoredNode? && !HasNode(nodes, rows[i].id)
    && forall j | 0 <= j < i && rows[j].StoredNode? :: rows[j].id != rows[i].id
  }

  predicate TakenIn(nodes: seq<NodeRow>, rows: seq<NodeInput>, i: nat, group: int)
    requires i < |rows|
  {
    Taken(nodes, rows, i) && rows[i].group == group
  }

  function TakenWith(nodes: seq<NodeRow>, rows: seq<NodeInput>, group: int): nat {
    |set i: nat | i < |rows| && TakenIn(nodes, rows, i, group)|
  }

  /** The node of a row stands in the graph, with its group and one property row for each column that is not null. */
  ghost predicate NodeStands(g: Graph, row: NodeInput, keys: seq<int>) {
    && row.StoredNode? && HasNode(g.nodes, row.id) && GroupOf(g.nodes, row.id) == row.group
    && ColumnsStand(g.nodeProperties, row.id, row.values, keys)
  }

  ghost predicate HasRow(rows: seq<NodeInput>, id: int) {
    exists i :: 0 <= i < |rows| && rows[i].StoredNode? && rows[i].id == id
  }

  /** What a batch of nodes adds. */
  ghost predicate NodesAreStored(g: Graph, rows: seq<NodeInput>, keys: seq<int>, after: Graph) {
    && after.edges == g.edges && after.edgeProperties == g.edgeProperties && g.nodes <= after.nodes
    && (forall id :: HasNode(after.nodes, id) <==> HasNode(g.nodes, id) || HasRow(rows, id))
    && (forall i | 0 <= i < |rows| && Taken(g.nodes, rows, i) :: NodeStands(after, rows[i], keys))
    && (forall owner, key, value | HasNode(g.nodes, owner) || !HasRow(rows, owner) ::
          PropertyRows(after.nodeProperties, owner, key, value) == PropertyRows(g.nodeProperties, owner, key, value))
  }

  lemma LastNode(nodes: seq<NodeRow>, row: NodeRow)
    ensures HasNode(nodes + [row], row.id) && GroupOf(nodes + [row], row.id) == row.group
  {
    assert (nodes + [row])[|nodes|] == row;
  }

  lemma HasRowSnoc(rows: seq<NodeInput>, id: int)
    requires rows != []
    ensures var n := |rows| - 1;
            HasRow(rows, id) <==> HasRow(rows[..n], id) || (rows[n].StoredNode? && rows[n].id == id)
  {
    var n := |rows| - 1;
    if HasRow(rows[..n], id) {
      var i :| 0 <= i < n && rows[..n][i].StoredNode? && rows[..n][i].id == id;
      assert rows[i].id == id;
    }
    if i :| 0 <= i < |rows| && rows[i].StoredNode? && rows[i].id == id {
      assert i < n ==> rows[..n][i] == rows[i];
    }
  }

  lemma HasNodeSnoc(nodes: seq<NodeRow>, row: NodeRow, id: int)
    ensures HasNode(nodes + [row], id) <==> HasNode(nodes, id) || row.id == id
  {
    if HasNode(nodes, id) {
      StillThere(nodes, row, id);
    }
    assert (nodes + [row])[|nodes|] == row;
  }

  lemma TakenBefore(nodes: seq<NodeRow>, rows: seq<NodeInput>, i: nat, n: nat, group: int)
    requires i < n <= |rows|
    ensures Taken(nodes, rows, i) <==> Taken(nodes, rows[..n], i)
    ensures TakenIn(nodes, rows, i, group) <==> TakenIn(nodes, rows[..n], i, group)
  {
    assert forall j | 0 <= j <= i :: rows[..n][j] == rows[j];
  }

  lemma TakenIsNew(nodes: seq<NodeRow>, rows: seq<NodeInput>)
    requires rows != []
    ensures var n := |rows| - 1;
            Taken(nodes, rows, n)
            <==> rows[n].StoredNode? && !HasNode(nodes, rows[n].id) && !HasRow(rows[..n], rows[n].id)
  {
    var n := |rows| - 1;
    assert forall j | 0 <= j < n :: rows[..n][j] == rows[j];
  }

  /** A batch stores each node whose ID is new, with its group and its properties, and nothing else. */
  lemma {:induction false} NodesStand(g: Graph, rows: seq<NodeInput>, keys: seq<int>)
    requires Sound(g) && forall i | 0 <= i < |rows| :: NodeFits(rows[i], keys)
    ensures NodesAreStored(g, rows, keys, AddedNodes(g, rows, keys))
    decreases |rows|
  {
    hide NodeFits, HasNode, HasRow, Taken, AddedNode, Sound, NodesAreStored;
    if rows == [] {
      NothingStored(g, rows, keys);
    } else {
      var n := |rows| - 1;
      NodesStand(g, rows[..n], keys);
      OneNodeMore(g, rows, keys, AddedNodes(g, rows[..n], keys));
    }
  }

  lemma NothingStored(g: Graph, rows: seq<NodeInput>, keys: seq<int>)
    requires rows == []
    ensures NodesAreStored(g, rows, keys, g)
  {
    hide HasNode, Cells, PropertyRows, Taken;
  }

  lemma OneNodeMore(g: Graph, rows: seq<NodeInput>, keys: seq<int>, before: Graph)
    requires Sound(g) && rows != [] && NodeFits(rows[|rows| - 1], keys)
    requires NodesAreStored(g, rows[..|rows| - 1], keys, before)
    ensures NodesAreStored(g, rows, keys, AddedNode(before, rows[|rows| - 1], keys))
  {
    hide NodeFits, HasNode, HasRow, Taken, Sound, NodeStands, PropertyRows, Properties;
    var n := |rows| - 1;
    var row, after := rows[n], AddedNode(before, rows[n], keys);
    TakenIsNew(g.nodes, rows);
    var isNew := row.StoredNode? && !HasNode(before.nodes, row.id);
    assert Taken(g.nodes, rows, n) <==> isNew;
    forall id ensures HasNode(after.nodes, id) <==> HasNode(g.nodes, id) || HasRow(rows, id) {
      HasRowSnoc(rows, id);
      if isNew {
        HasNodeSnoc(before.nodes, NodeRow(row.id, row.group), id);
      }
    }
    forall i | 0 <= i < |rows| && Taken(g.nodes, rows, i) ensures NodeStands(after, rows[i], keys) {
      if i < n {
        TakenBefore(g.nodes, rows, i, n, 0);
        assert rows[..n][i] == rows[i];
        assert NodeStands(before, rows[i], keys);
        if isNew {
          NodeStaysThere(before, rows[i], row, keys);
        }
      } else {
        assert i == n && isNew;
        NewOwner(g, rows, before, row.id);
        NodeIsThere(before, row, keys);
      }
    }
    forall owner, key, value | HasNode(g.nodes, owner) || !HasRow(rows, owner)
      ensures PropertyRows(after.nodeProperties, owner, key, value) == PropertyRows(g.nodeProperties, owner, key, value)
    {
      HasRowSnoc(rows, owner);
      if isNew {
        OneNodesRows(before.nodeProperties, row, keys, owner, key, value);
      }
    }
  }

  lemma OneNodesRows(before: seq<PropertyRow>, row: NodeInput, keys: seq<int>, owner: int, key: int, value: Value)
    requires NodeFits(row, keys)
    ensures row.StoredNode? ==>
              PropertyRows(before + Properties(row.id, row.values, keys), owner, key, value)
              == PropertyRows(before, owner, key, value)
                 + if owner == row.id then Cells(row.values, keys, key, value) else 0
  {
    hide Properties, Cells;
    if row.StoredNode? {
      PropertiesAre(row.id, row.values, keys, owner, key, value);
    }
  }

  lemma NodeStaysThere(before: Graph, row: NodeInput, other: NodeInput, keys: seq<int>)
    requires NodeStands(before, row, keys)
    requires NodeFits(other, keys) && other.StoredNode? && !HasNode(before.nodes, other.id)
    ensures NodeStands(AddedNode(before, other, keys), row, keys)
  {
    hide HasNode, GroupOf, Properties, Cells, PropertyRows, NodeFits;
    var added := NodeRow(other.id, other.group);
    GroupStays(before.nodes, added, row.id);
    StillThere(before.nodes, added, row.id);
    var after := AddedNode(before, other, keys);
    forall key, value
      ensures PropertyRows(after.nodeProperties, row.id, key, value) == Cells(row.values, keys, key, value) {
      OneNodesRows(before.nodeProperties, other, keys, row.id, key, value);
    }
  }

  /** A new node has no properties yet. */
  lemma NewOwner(g: Graph, rows: seq<NodeInput>, before: Graph, id: int)
    requires Sound(g) && rows != [] && Taken(g.nodes, rows, |rows| - 1) && id == rows[|rows| - 1].id
    requires forall owner, key, value | HasNode(g.nodes, owner) || !HasRow(rows[..|rows| - 1], owner) ::
               PropertyRows(before.nodeProperties, owner, key, value)
               == PropertyRows(g.nodeProperties, owner, key, value)
    ensures forall key, value :: PropertyRows(before.nodeProperties, id, key, value) == 0
  {
    hide HasNode, HasRow, PropertyRows;
    TakenIsNew(g.nodes, rows);
    forall key, value ensures PropertyRows(g.nodeProperties, id, key, value) == 0 {
      NoOwner(g.nodeProperties, id, key, value);
    }
  }

  lemma NodeIsThere(before: Graph, row: NodeInput, keys: seq<int>)
    requires NodeFits(row, keys) && row.StoredNode? && !HasNode(before.nodes, row.id)
    requires forall key, value :: PropertyRows(before.nodeProperties, row.id, key, value) == 0
    ensures NodeStands(AddedNode(before, row, keys), row, keys)
  {
    hide HasNode, GroupOf, Properties, Cells, PropertyRows;
    LastNode(before.nodes, NodeRow(row.id, row.group));
    var after := AddedNode(before, row, keys);
    forall key, value
      ensures PropertyRows(after.nodeProperties, row.id, key, value) == Cells(row.values, keys, key, value) {
      OneNodesRows(before.nodeProperties, row, keys, row.id, key, value);
    }
  }

  lemma TakenSnoc(nodes: seq<NodeRow>, rows: seq<NodeInput>, group: int)
    requires rows != []
    ensures var n := |rows| - 1;
            TakenWith(nodes, rows, group)
            == TakenWith(nodes, rows[..n], group) + One(TakenIn(nodes, rows, n, group))
  {
    hide TakenIn;
    var n := |rows| - 1;
    forall i: nat | i < n ensures TakenIn(nodes, rows, i, group) <==> TakenIn(nodes, rows[..n], i, group) {
      TakenBefore(nodes, rows, i, n, group);
    }
    var before := set i: nat | i < n && TakenIn(nodes, rows[..n], i, group);
    var all := set i: nat | i < |rows| && TakenIn(nodes, rows, i, group);
    assert all == before + if TakenIn(nodes, rows, n, group) then {n} else {};
  }

  lemma {:induction false} NodeKeysPerGroup(g: Graph, rows: seq<NodeInput>, keys: seq<int>, group: int)
    requires Sound(g) && forall i | 0 <= i < |rows| :: NodeFits(rows[i], keys)
    ensures multiset(NodeKeys(AddedNodes(g, rows, keys)))[Node(group)]
            == multiset(NodeKeys(g))[Node(group)] + TakenWith(g.nodes, rows, group)
    decreases |rows|
  {
    hide NodeFits, HasNode, HasRow, Taken, Sound, NodeStands, PropertyRows, Properties, TakenWith;
    if rows == [] {
      NoneTaken(g.nodes, rows, group);
    } else {
      var n := |rows| - 1;
      var before, after := AddedNodes(g, rows[..n], keys), AddedNodes(g, rows, keys);
      NodeKeysPerGroup(g, rows[..n], keys, group);
      NodesStand(g, rows[..n], keys);
      TakenIsNew(g.nodes, rows);
      TakenSnoc(g.nodes, rows, group);
      if Taken(g.nodes, rows, n) {
        assert NodeKeys(after) == NodeKeys(before) + [Node(rows[n].group)];
      } else {
        assert after == before;
      }
    }
  }

  lemma NoneTaken(nodes: seq<NodeRow>, rows: seq<NodeInput>, group: int)
    ensures rows == [] ==> TakenWith(nodes, rows, group) == 0
  {
    var all := set i: nat | i < |rows| && TakenIn(nodes, rows, i, group);
    assert rows == [] ==> all == {};
  }

  /** The total of a group grows by the number of nodes with it that are stored. */
  lemma NodeTotals(g: Graph, rows: seq<NodeInput>, keys: seq<int>)
    requires forall i | 0 <= i < |rows| :: NodeFits(rows[i], keys)
    requires Sound(g) && Sound(AddedNodes(g, rows, keys))
    ensures forall x :: multiset(Keys(AddedNodes(g, rows, keys)))[Node(x)]
                        == multiset(Keys(g))[Node(x)] + TakenWith(g.nodes, rows, x)
  {
    hide Sound, Keys, EdgeKeys, NodeKeys, AddedNodes, TakenWith, NodeFits;
    forall x ensures multiset(Keys(AddedNodes(g, rows, keys)))[Node(x)]
                     == multiset(Keys(g))[Node(x)] + TakenWith(g.nodes, rows, x) {
      CountsByKind(g, Node(x));
      CountsByKind(AddedNodes(g, rows, keys), Node(x));
      NodeKeysPerGroup(g, rows, keys, x);
    }
  }
}
