/** The graph-shape aggregates: expanding per-group totals at the end of an import, against counting the
    stored graph label by label (`native.rs`, `storage/src/schema.rs`). */
module ShapeQueries {
  import opened Bytes

  // ---------------------------------------------------------------- the graph's tables

  /** A property value; a blob is a canonical value, whose first byte is its tag. */
  datatype Value = Null | Integer(number: int) | Real(bits: nat) | Text(text: seq<byte>) | Blob(bytes: seq<byte>)

  predicate Storable(v: Value) {
    !v.Null? && (v.Blob? ==> v.bytes != [])
  }

  datatype NodeRow = NodeRow(id: int, group: int)
  datatype EdgeRow = EdgeRow(id: int, from: int, to: int, kind: int)
  datatype PropertyRow = PropertyRow(owner: int, key: int, value: Value)

  datatype Graph = Graph(nodes: seq<NodeRow>, nodeProperties: seq<PropertyRow>,
                         edges: seq<EdgeRow>, edgeProperties: seq<PropertyRow>)

  predicate HasNode(nodes: seq<NodeRow>, id: int) {
    exists i :: 0 <= i < |nodes| && nodes[i].id == id
  }

  predicate HasEdge(edges: seq<EdgeRow>, id: int) {
    exists i :: 0 <= i < |edges| && edges[i].id == id
  }

  /** Primary and foreign keys hold. */
  predicate Sound(g: Graph) {
    && (forall i, j | 0 <= i < j < |g.nodes| :: g.nodes[i].id != g.nodes[j].id)
    && (forall i, j | 0 <= i < j < |g.edges| :: g.edges[i].id != g.edges[j].id)
    && (forall i | 0 <= i < |g.edges| :: HasNode(g.nodes, g.edges[i].from) && HasNode(g.nodes, g.edges[i].to))
    && (forall i | 0 <= i < |g.nodeProperties| ::
      HasNode(g.nodes, g.nodeProperties[i].owner) && Storable(g.nodeProperties[i].value))
    && (forall i | 0 <= i < |g.edgeProperties| ::
      HasEdge(g.edges, g.edgeProperties[i].owner) && Storable(g.edgeProperties[i].value))
  }

  /** The rows of `label_group_member`: (group, label). */
  type Members = set<(int, int)>

  /** The left join of a group with its members; a group without any has the label 0. */
  function Labels(members: Members, group: int): set<int> {
    var own := Own(members, group);
    if own == {} then {0} else own
  }

  function Own(members: Members, group: int): set<int> {
    set m | m in members && m.0 == group :: m.1
  }

  // ---------------------------------------------------------------- counting rows

  function One(b: bool): nat {
    if b then 1 else 0
  }

  function Sum<T>(s: seq<T>, f: T -> nat): nat {
    if s == [] then 0 else Sum(s[..|s| - 1], f) + f(s[|s| - 1])
  }

  // ---------------------------------------------------------------- the backfill's queries

  function TypeOf(v: Value): string {
    match v
    case Null => "null"
    case Integer(_) => "integer"
    case Real(_) => "real"
    case Text(_) => "text"
    case Blob(_) => "blob"
  }

  function HexDigit(n: nat): char
    requires n < 16
  {
    if n < 10 then '0' + n as char else 'A' + (n - 10) as char
  }

  function Hex(b: byte): string {
    [HexDigit((b as nat) / 16), HexDigit((b as nat) % 16)]
  }

  /** `hex(substr(value, 1, 1))` of a blob. */
  function TagOf(v: Value): string {
    if v.Blob? && v.bytes != [] then Hex(v.bytes[0]) else ""
  }

  /** A row of the published aggregates, but for its count. */
  datatype Published =
    | NodeScope(labelId: int)
    | NodeShape(labelId: int, key: int, storageClass: string, tag: string)
    | EdgeScope(kind: int, source: int, target: int)
    | EdgeShape(kind: int, source: int, target: int, key: int, storageClass: string, tag: string)

  /** Rows of the join of `node` with its labels that have this id and this label. */
  function NodesWith(g: Graph, members: Members, id: int, labelId: int): nat {
    Sum(g.nodes, (n: NodeRow) => One(n.id == id && labelId in Labels(members, n.group)))
  }

  function EdgesWith(g: Graph, members: Members, id: int, kind: int, source: int, target: int): nat {
    Sum(g.edges, (e: EdgeRow) => if e.id == id && e.kind == kind
      then NodesWith(g, members, e.from, source) * NodesWith(g, members, e.to, target) else 0)
  }

  /** What `GRAPH_SHAPE_BACKFILL` counts for a row: it joins every property and edge to its nodes. */
  function Backfill(g: Graph, members: Members, row: Published): nat {
    match row
    case NodeScope(labelId) => Sum(g.nodes, (n: NodeRow) => One(labelId in Labels(members, n.group)))
    case NodeShape(labelId, key, storageClass, tag) =>
      Sum(g.nodeProperties, (p: PropertyRow) =>
        if p.key == key && TypeOf(p.value) == storageClass && TagOf(p.value) == tag
        then NodesWith(g, members, p.owner, labelId) else 0)
    case EdgeScope(kind, source, target) =>
      Sum(g.edges, (e: EdgeRow) => if e.kind == kind
        then NodesWith(g, members, e.from, source) * NodesWith(g, members, e.to, target) else 0)
    case EdgeShape(kind, source, target, key, storageClass, tag) =>
      Sum(g.edgeProperties, (p: PropertyRow) =>
        if p.key == key && TypeOf(p.value) == storageClass && TagOf(p.value) == tag
        then EdgesWith(g, members, p.owner, kind, source, target) else 0)
  }

  // ---------------------------------------------------------------- the importer's keys

  datatype PropertyShape = PropertyShape(storageClass: nat, tag: byte)

  /** `PropertyShape::of`. */
  function ShapeOf(v: Value): PropertyShape
    requires Storable(v)
  {
    match v
    case Integer(_) => PropertyShape(0, 0)
    case Real(_) => PropertyShape(1, 0)
    case Text(_) => PropertyShape(2, 0)
    case Blob(bytes) => PropertyShape(3, bytes[0])
  }

  datatype ShapeKey =
    | Node(group: int)
    | NodeProperty(group: int, key: int, shape: PropertyShape)
    | Edge(kind: int, source: int, target: int)
    | EdgeProperty(kind: int, source: int, target: int, key: int, shape: PropertyShape)

  type Counts = map<ShapeKey, nat>

  function Get(counts: Counts, key: ShapeKey): nat {
    if key in counts then counts[key] else 0
  }

  // ---------------------------------------------------------------- the queries at the end of an import

  function ClassText(shape: PropertyShape): string {
    match shape.storageClass
    case 0 => "integer"
    case 1 => "real"
    case 2 => "text"
    case _ => "blob"
  }

  /** `printf('%02X', tag)` of a blob. */
  function TagText(shape: PropertyShape): string {
    if shape.storageClass == 3 then Hex(shape.tag) else ""
  }

  /** The row that a spilled count adds to, for one choice of its labels. */
  function RowFor(key: ShapeKey, labelId: int, target: int): Published {
    match key
    case Node(_) => NodeScope(labelId)
    case NodeProperty(_, k, shape) => NodeShape(labelId, k, ClassText(shape), TagText(shape))
    case Edge(kind, _, _) => EdgeScope(kind, labelId, target)
    case EdgeProperty(kind, _, _, k, shape) => EdgeShape(kind, labelId, target, k, ClassText(shape), TagText(shape))
  }

  function FirstGroup(key: ShapeKey): int {
    if key.Edge? || key.EdgeProperty? then key.source else key.group
  }

  function SecondGroup(key: ShapeKey): int {
    if key.Edge? || key.EdgeProperty? then key.target else key.group
  }

  /** Whether the join of a spilled count with its group's members has this row. */
  ghost predicate Joins(members: Members, key: ShapeKey, row: Published) {
    exists labelId, target | labelId in Labels(members, FirstGroup(key))
        && target in Labels(members, SecondGroup(key)) ::
      RowFor(key, labelId, target) == row
  }

  ghost function SumWhere(counts: Counts, p: ShapeKey -> bool): nat {
    if counts == map[] then 0
    else
      var key :| key in counts;
      (if p(key) then counts[key] else 0) + SumWhere(counts - {key}, p)
  }

  /** `SUM(count)` of a row of `IMPORT_SHAPE_FINISH`. */
  ghost function Finished(counts: Counts, members: Members, row: Published): nat {
    SumWhere(counts, (key: ShapeKey) => Joins(members, key, row))
  }

  ghost predicate FinishHas(counts: Counts, members: Members, row: Published) {
    exists key :: key in counts && Joins(members, key, row)
  }

  // ---------------------------------------------------------------- every row of the graph as a key

  function GroupOf(nodes: seq<NodeRow>, id: int): int {
    if nodes == [] then 0 else if nodes[|nodes| - 1].id == id then nodes[|nodes| - 1].group
                               else GroupOf(nodes[..|nodes| - 1], id)
  }

  function EdgeOf(edges: seq<EdgeRow>, id: int): EdgeRow {
    if edges == [] then EdgeRow(id, 0, 0, 0)
    else if edges[|edges| - 1].id == id then edges[|edges| - 1] else EdgeOf(edges[..|edges| - 1], id)
  }

  function EdgeKey(g: Graph, e: EdgeRow): ShapeKey {
    Edge(e.kind, GroupOf(g.nodes, e.from), GroupOf(g.nodes, e.to))
  }

  function NodePropertyKey(g: Graph, p: PropertyRow): ShapeKey
    requires Storable(p.value)
  {
    NodeProperty(GroupOf(g.nodes, p.owner), p.key, ShapeOf(p.value))
  }

  function EdgePropertyKey(g: Graph, p: PropertyRow): ShapeKey
    requires Storable(p.value)
  {
    var e := EdgeOf(g.edges, p.owner);
    EdgeProperty(e.kind, GroupOf(g.nodes, e.from), GroupOf(g.nodes, e.to), p.key, ShapeOf(p.value))
  }

  function NodeKeys(g: Graph): seq<ShapeKey> {
    seq(|g.nodes|, i requires 0 <= i < |g.nodes| => Node(g.nodes[i].group))
  }

  function NodePropertyKeys(g: Graph): seq<ShapeKey>
    requires Sound(g)
  {
    seq(|g.nodeProperties|, i requires 0 <= i < |g.nodeProperties| => NodePropertyKey(g, g.nodeProperties[i]))
  }

  function EdgeKeys(g: Graph): seq<ShapeKey> {
    seq(|g.edges|, i requires 0 <= i < |g.edges| => EdgeKey(g, g.edges[i]))
  }

  function EdgePropertyKeys(g: Graph): seq<ShapeKey>
    requires Sound(g)
  {
    seq(|g.edgeProperties|, i requires 0 <= i < |g.edgeProperties| => EdgePropertyKey(g, g.edgeProperties[i]))
  }

  /** One key for every row. */
  function Keys(g: Graph): seq<ShapeKey>
    requires Sound(g)
  {
    NodeKeys(g) + NodePropertyKeys(g) + EdgeKeys(g) + EdgePropertyKeys(g)
  }

  /** The counts of a graph, key by key. */
  ghost predicate Counted(counts: Counts, g: Graph)
    requires Sound(g)
  {
    Tallies(counts, Keys(g))
  }

  // ---------------------------------------------------------------- sums

  lemma {:induction false} SumConcat<T>(s: seq<T>, t: seq<T>, f: T -> nat)
    ensures Sum(s + t, f) == Sum(s, f) + Sum(t, f)
  {
    if t == [] {
      assert s + t == s;
    } else {
      assert (s + t)[..|s + t| - 1] == s + t[..|t| - 1];
      SumConcat(s, t[..|t| - 1], f);
    }
  }

  lemma {:induction false} SumSame<T, U>(s: seq<T>, f: T -> nat, t: seq<U>, g: U -> nat)
    requires |s| == |t| && forall i | 0 <= i < |s| :: f(s[i]) == g(t[i])
    ensures Sum(s, f) == Sum(t, g)
  {
    if s != [] {
      SumSame(s[..|s| - 1], f, t[..|t| - 1], g);
    }
  }

  lemma {:induction false} SumZero<T>(s: seq<T>, f: T -> nat)
    requires forall i | 0 <= i < |s| :: f(s[i]) == 0
    ensures Sum(s, f) == 0
  {
    if s != [] {
      SumZero(s[..|s| - 1], f);
    }
  }

  /** Any key may be taken out first. */
  lemma {:induction false} SumWithout(counts: Counts, p: ShapeKey -> bool, key: ShapeKey)
    requires key in counts
    ensures SumWhere(counts, p) == (if p(key) then counts[key] else 0) + SumWhere(counts - {key}, p)
    decreases counts
  {
    var other :| other in counts && SumWhere(counts, p) == (if p(other) then counts[other] else 0)
        + SumWhere(counts - {other}, p);
    if other != key {
      SumWithout(counts - {other}, p, key);
      SumWithout(counts - {key}, p, other);
      assert (counts - {other}) - {key} == (counts - {key}) - {other};
    }
  }

  ghost function Less(counts: Counts, key: ShapeKey): Counts
    requires key in counts && counts[key] > 0
  {
    if counts[key] == 1 then counts - {key} else counts[key := counts[key] - 1]
  }

  lemma LessSum(counts: Counts, p: ShapeKey -> bool, key: ShapeKey)
    requires key in counts && counts[key] > 0
    ensures SumWhere(counts, p) == One(p(key)) + SumWhere(Less(counts, key), p)
  {
    SumWithout(counts, p, key);
    if counts[key] > 1 {
      SumWithout(Less(counts, key), p, key);
      assert Less(counts, key) - {key} == counts - {key};
    }
  }

  ghost predicate Tallies(counts: Counts, keys: seq<ShapeKey>) {
    && (forall key :: Get(counts, key) == multiset(keys)[key])
    && (forall key | key in counts :: counts[key] > 0)
  }

  /** Summing per-key counts is counting the rows behind them. */
  lemma {:induction false} CountsAreRows(counts: Counts, keys: seq<ShapeKey>, p: ShapeKey -> bool)
    requires Tallies(counts, keys)
    ensures SumWhere(counts, p) == Sum(keys, (key: ShapeKey) => One(p(key)))
  {
    if keys == [] {
      forall key ensures key !in counts {
        assert Get(counts, key) == multiset(keys)[key];
      }
      assert counts == map[];
    } else {
      var last, rest := keys[|keys| - 1], keys[..|keys| - 1];
      assert keys == rest + [last];
      assert multiset(keys) == multiset(rest) + multiset{last};
      assert Get(counts, last) == multiset(keys)[last];
      forall key ensures Get(Less(counts, last), key) == multiset(rest)[key] {
        assert Get(counts, key) == multiset(keys)[key];
      }
      CountsAreRows(Less(counts, last), rest, p);
      LessSum(counts, p, last);
    }
  }

  // ---------------------------------------------------------------- joins by primary key

  lemma {:induction false} GroupIsItsNodes(nodes: seq<NodeRow>, i: nat)
    requires i < |nodes| && forall i, j | 0 <= i < j < |nodes| :: nodes[i].id != nodes[j].id
    ensures GroupOf(nodes, nodes[i].id) == nodes[i].group
  {
    if i < |nodes| - 1 {
      GroupIsItsNodes(nodes[..|nodes| - 1], i);
    }
  }

  lemma {:induction false} EdgeIsItself(edges: seq<EdgeRow>, i: nat)
    requires i < |edges| && forall i, j | 0 <= i < j < |edges| :: edges[i].id != edges[j].id
    ensures EdgeOf(edges, edges[i].id) == edges[i]
  {
    if i < |edges| - 1 {
      EdgeIsItself(edges[..|edges| - 1], i);
    }
  }

  /** A join on a primary key meets one row. */
  lemma {:induction false} OneRow<T>(s: seq<T>, f: T -> nat, i: nat)
    requires i < |s| && forall j | 0 <= j < |s| && j != i :: f(s[j]) == 0
    ensures Sum(s, f) == f(s[i])
  {
    if i < |s| - 1 {
      OneRow(s[..|s| - 1], f, i);
    } else {
      SumZero(s[..|s| - 1], f);
    }
  }

  lemma NodesWithLabel(g: Graph, members: Members, id: int, labelId: int)
    requires Sound(g) && HasNode(g.nodes, id)
    ensures NodesWith(g, members, id, labelId) == One(labelId in Labels(members, GroupOf(g.nodes, id)))
  {
    hide Labels;
    var i: nat :| i < |g.nodes| && g.nodes[i].id == id;
    GroupIsItsNodes(g.nodes, i);
    OneRow(g.nodes, (n: NodeRow) => One(n.id == id && labelId in Labels(members, n.group)), i);
  }

  /** Both ends of an edge, joined to their labels. */
  function Ends(g: Graph, members: Members, e: EdgeRow, source: int, target: int): nat {
    One(source in Labels(members, GroupOf(g.nodes, e.from)) && target in Labels(members, GroupOf(g.nodes, e.to)))
  }

  lemma EndsOf(g: Graph, members: Members, e: EdgeRow, source: int, target: int)
    requires Sound(g) && HasNode(g.nodes, e.from) && HasNode(g.nodes, e.to)
    ensures NodesWith(g, members, e.from, source) * NodesWith(g, members, e.to, target)
            == Ends(g, members, e, source, target)
  {
    hide Labels, GroupOf, NodesWith, HasNode, Sound;
    NodesWithLabel(g, members, e.from, source);
    NodesWithLabel(g, members, e.to, target);
  }

  lemma EdgesWithLabels(g: Graph, members: Members, id: int, kind: int, source: int, target: int)
    requires Sound(g) && HasEdge(g.edges, id)
    ensures var e := EdgeOf(g.edges, id);
            EdgesWith(g, members, id, kind, source, target) == if e.kind == kind then
                Ends(g, members, e, source, target) else 0
  {
    hide Labels, GroupOf, NodesWith, HasNode, Ends;
    var i: nat :| i < |g.edges| && g.edges[i].id == id;
    EdgeIsItself(g.edges, i);
    OneRow(g.edges, (e: EdgeRow) => if e.id == id && e.kind == kind
      then NodesWith(g, members, e.from, source) * NodesWith(g, members, e.to, target) else 0, i);
    EndsOf(g, members, g.edges[i], source, target);
  }

  /** The labels of a group are those of its members; only a group without any has the label 0 by itself. */
  lemma LabelsAre(members: Members, group: int, labelId: int)
    ensures labelId in Labels(members, group)
            <==> (group, labelId) in members || (labelId == 0 && forall m | m in members :: m.0 != group)
  {
    if m :| m in members && m.0 == group {
      assert m.1 in Own(members, group);
    } else {
      assert Own(members, group) == {};
    }
    if labelId in Own(members, group) {
      var m :| m in members && m.0 == group && m.1 == labelId;
      assert m == (group, labelId);
    }
  }

  /** A label's count is the number of nodes whose groups have it as a member: no node with labels counts for 0. */
  lemma NodeScopeCounts(g: Graph, members: Members, labelId: int)
    ensures Backfill(g, members, NodeScope(labelId))
            == Sum(g.nodes, (n: NodeRow) =>
                 One((n.group, labelId) in members || (labelId == 0 && forall m | m in members :: m.0 != n.group)))
  {
    hide Labels;
    forall n: NodeRow ensures labelId in Labels(members, n.group)
        <==> (n.group, labelId) in members || (labelId == 0 && forall m | m in members :: m.0 != n.group) {
      LabelsAre(members, n.group, labelId);
    }
    SumSame(g.nodes, (n: NodeRow) => One(labelId in Labels(members, n.group)), g.nodes, (n: NodeRow) =>
              One((n.group, labelId) in members || (labelId == 0 && forall m | m in members :: m.0 != n.group)));
  }

  // ---------------------------------------------------------------- the two queries agree

  lemma SomeLabel(members: Members, group: int)
    ensures exists some :: some in Labels(members, group)
  {
    if m :| m in members && m.0 == group {
      var some: int := m.1;
      assert some in Own(members, group);
      assert some in Labels(members, group);
    } else {
      assert Own(members, group) == {};
      var none: int := 0;
      assert none in Labels(members, group);
    }
  }

  /** The texts of a shape are those of the value it was taken from. */
  lemma ShapeTexts(v: Value)
    requires Storable(v)
    ensures ClassText(ShapeOf(v)) == TypeOf(v) && TagText(ShapeOf(v)) == TagOf(v)
  {
  }

  lemma DigitIsExact(m: nat, n: nat)
    requires m < 16 && n < 16 && HexDigit(m) == HexDigit(n)
    ensures m == n
  {
  }

  lemma HexIsExact(a: byte, b: byte)
    requires Hex(a) == Hex(b)
    ensures a == b
  {
    hide HexDigit;
    assert Hex(a)[0] == Hex(b)[0] && Hex(a)[1] == Hex(b)[1];
    DigitIsExact((a as nat) / 16, (b as nat) / 16);
    DigitIsExact((a as nat) % 16, (b as nat) % 16);
  }

  /** Grouping by the numbers and printing them gives each row of texts once. */
  lemma TextsTellShapesApart(v: Value, w: Value)
    requires Storable(v) && Storable(w) && TypeOf(v) == TypeOf(w) && TagOf(v) == TagOf(w)
    ensures ShapeOf(v) == ShapeOf(w)
  {
    assert TypeOf(v)[0] == TypeOf(w)[0];
    if v.Blob? {
      HexIsExact(v.bytes[0], w.bytes[0]);
    }
  }

  ghost function Joined(members: Members, row: Published): ShapeKey -> nat {
    key => One(Joins(members, key, row))
  }

  lemma NodeJoins(members: Members, group: int, row: Published)
    ensures Joins(members, Node(group), row) <==> row.NodeScope? && row.labelId in Labels(members, group)
  {
    hide Labels;
    SomeLabel(members, group);
    var target :| target in Labels(members, group);
    if row.NodeScope? && row.labelId in Labels(members, group) {
      assert RowFor(Node(group), row.labelId, target) == row;
    }
  }

  lemma NodePropertyJoins(members: Members, group: int, k: int, v: Value, row: Published)
    requires Storable(v)
    ensures Joins(members, NodeProperty(group, k, ShapeOf(v)), row) <==>
            row.NodeShape? && row.labelId in Labels(members, group) && row.key == k
            && TypeOf(v) == row.storageClass && TagOf(v) == row.tag
  {
    hide Labels, ClassText, TagText, TypeOf, TagOf, ShapeOf;
    ShapeTexts(v);
    SomeLabel(members, group);
    var target :| target in Labels(members, group);
    if row.NodeShape? && row.labelId in Labels(members, group) {
      assert RowFor(NodeProperty(group, k, ShapeOf(v)), row.labelId, target)
          == NodeShape(row.labelId, k, TypeOf(v), TagOf(v));
    }
  }

  lemma EdgeJoins(members: Members, key: ShapeKey, row: Published)
    requires key.Edge?
    ensures Joins(members, key, row) <==>
            row.EdgeScope? && row.kind == key.kind
            && row.source in Labels(members, key.source) && row.target in Labels(members, key.target)
  {
    hide Labels;
    if row.EdgeScope? && row.source in Labels(members, key.source) && row.target in Labels(members, key.target) {
      assert RowFor(key, row.source, row.target) == EdgeScope(key.kind, row.source, row.target);
    }
  }

  lemma EdgePropertyJoins(members: Members, key: ShapeKey, v: Value, row: Published)
    requires Storable(v) && key.EdgeProperty? && key.shape == ShapeOf(v)
    ensures Joins(members, key, row) <==>
            row.EdgeShape? && row.kind == key.kind && row.key == key.key && TypeOf(v) == row.storageClass
                && TagOf(v) == row.tag
            && row.source in Labels(members, key.source) && row.target in Labels(members, key.target)
  {
    hide Labels, ClassText, TagText, TypeOf, TagOf, ShapeOf;
    ShapeTexts(v);
    if row.EdgeShape? && row.source in Labels(members, key.source) && row.target in Labels(members, key.target) {
      assert RowFor(key, row.source, row.target)
          == EdgeShape(key.kind, row.source, row.target, key.key, TypeOf(v), TagOf(v));
    }
  }

  lemma NodePart(g: Graph, members: Members, row: Published)
    ensures Sum(NodeKeys(g), Joined(members, row)) == if row.NodeScope? then Backfill(g, members, row) else 0
  {
    hide Joins, Labels;
    var keys := NodeKeys(g);
    forall i | 0 <= i < |keys| ensures Joined(members, row)(keys[i])
        == One(row.NodeScope? && row.labelId in Labels(members, g.nodes[i].group)) {
      NodeJoins(members, g.nodes[i].group, row);
    }
    if row.NodeScope? {
      SumSame(keys, Joined(members, row), g.nodes, (n: NodeRow) => One(row.labelId in Labels(members, n.group)));
    } else {
      SumZero(keys, Joined(members, row));
    }
  }

  lemma NodePropertyPart(g: Graph, members: Members, row: Published)
    requires Sound(g)
    ensures Sum(NodePropertyKeys(g), Joined(members, row)) == if row.NodeShape? then Backfill(g, members, row) else 0
  {
    hide Joins, Labels, TypeOf, TagOf, ShapeOf, GroupOf, NodesWith, HasNode;
    var keys := NodePropertyKeys(g);
    forall i | 0 <= i < |keys|
      ensures var p := g.nodeProperties[i];
              Joined(members, row)(keys[i]) == if row.NodeShape? && p.key == row.key
                  && TypeOf(p.value) == row.storageClass && TagOf(p.value) == row.tag
                then NodesWith(g, members, p.owner, row.labelId) else 0 {
      var p := g.nodeProperties[i];
      NodePropertyJoins(members, GroupOf(g.nodes, p.owner), p.key, p.value, row);
      if row.NodeShape? {
        NodesWithLabel(g, members, p.owner, row.labelId);
      }
    }
    if row.NodeShape? {
      SumSame(keys, Joined(members, row), g.nodeProperties, (p: PropertyRow) =>
        if p.key == row.key && TypeOf(p.value) == row.storageClass && TagOf(p.value) == row.tag
        then NodesWith(g, members, p.owner, row.labelId) else 0);
    } else {
      SumZero(keys, Joined(members, row));
    }
  }

  lemma EdgePart(g: Graph, members: Members, row: Published)
    requires Sound(g)
    ensures Sum(EdgeKeys(g), Joined(members, row)) == if row.EdgeScope? then Backfill(g, members, row) else 0
  {
    hide Joins, Labels, GroupOf, NodesWith, HasNode;
    var keys := EdgeKeys(g);
    forall i | 0 <= i < |keys|
      ensures var e := g.edges[i];
              Joined(members, row)(keys[i]) == if row.EdgeScope? && e.kind == row.kind
                then NodesWith(g, members, e.from, row.source) * NodesWith(g, members, e.to, row.target) else 0 {
      EdgeJoins(members, keys[i], row);
      if row.EdgeScope? {
        EndsOf(g, members, g.edges[i], row.source, row.target);
      }
    }
    if row.EdgeScope? {
      SumSame(keys, Joined(members, row), g.edges, (e: EdgeRow) => if e.kind == row.kind
        then NodesWith(g, members, e.from, row.source) * NodesWith(g, members, e.to, row.target) else 0);
    } else {
      SumZero(keys, Joined(members, row));
    }
  }

  lemma EdgePropertyPart(g: Graph, members: Members, row: Published)
    requires Sound(g)
    ensures Sum(EdgePropertyKeys(g), Joined(members, row)) == if row.EdgeShape? then Backfill(g, members, row) else 0
  {
    hide Joins, Labels, TypeOf, TagOf, ShapeOf, GroupOf, EdgeOf, EdgesWith, HasEdge;
    var keys := EdgePropertyKeys(g);
    forall i | 0 <= i < |keys|
      ensures var p := g.edgeProperties[i];
              Joined(members, row)(keys[i]) == if row.EdgeShape? && p.key == row.key
                  && TypeOf(p.value) == row.storageClass && TagOf(p.value) == row.tag
                then EdgesWith(g, members, p.owner, row.kind, row.source, row.target) else 0 {
      var p := g.edgeProperties[i];
      EdgePropertyJoins(members, keys[i], p.value, row);
      if row.EdgeShape? {
        EdgesWithLabels(g, members, p.owner, row.kind, row.source, row.target);
      }
    }
    if row.EdgeShape? {
      SumSame(keys, Joined(members, row), g.edgeProperties, (p: PropertyRow) =>
        if p.key == row.key && TypeOf(p.value) == row.storageClass && TagOf(p.value) == row.tag
        then EdgesWith(g, members, p.owner, row.kind, row.source, row.target) else 0);
    } else {
      SumZero(keys, Joined(members, row));
    }
  }

  /** Expanding the group totals once, at the end, publishes what the backfill would count from the stored
      graph: the same rows with the same counts. */
  lemma FinishIsBackfill(counts: Counts, g: Graph, members: Members, row: Published)
    requires Sound(g) && Counted(counts, g)
    ensures Finished(counts, members, row) == Backfill(g, members, row)
    ensures FinishHas(counts, members, row) <==> Backfill(g, members, row) > 0
  {
    hide Joins, Labels, NodeKeys, NodePropertyKeys, EdgeKeys, EdgePropertyKeys, Backfill, Sound;
    var p := (key: ShapeKey) => Joins(members, key, row);
    var keys := Keys(g);
    CountsAreRows(counts, keys, p);
    SumSame(keys, (key: ShapeKey) => One(p(key)), keys, Joined(members, row));
    SumConcat(NodeKeys(g) + NodePropertyKeys(g) + EdgeKeys(g), EdgePropertyKeys(g), Joined(members, row));
    SumConcat(NodeKeys(g) + NodePropertyKeys(g), EdgeKeys(g), Joined(members, row));
    SumConcat(NodeKeys(g), NodePropertyKeys(g), Joined(members, row));
    NodePart(g, members, row);
    NodePropertyPart(g, members, row);
    EdgePart(g, members, row);
    EdgePropertyPart(g, members, row);
    SomeTerm(counts, p);
  }

  lemma {:induction false} SomeTerm(counts: Counts, p: ShapeKey -> bool)
    requires forall key | key in counts :: counts[key] > 0
    ensures SumWhere(counts, p) > 0 <==> exists key :: key in counts && p(key)
    decreases counts
  {
    if counts != map[] {
      var key :| key in counts && SumWhere(counts, p) == (if p(key) then counts[key] else 0)
          + SumWhere(counts - {key}, p);
      SomeTerm(counts - {key}, p);
      assert forall k :: k in counts <==> k == key || k in counts - {key};
    }
  }
}
