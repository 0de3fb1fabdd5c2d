/** The integer-ID map itself: per group an affine range, a paged directory, or the disk table
    (`IntegerIdMap` in `id_map.rs`). */
module IntegerIds {
  import opened Bytes
  import opened IdPages
  import R = RadixMaps
  import opened Results

  // ---------------------------------------------------------------- affine ranges

  const LOWEST: int := -0x8000_0000_0000_0000

  /** Consecutive IDs with consecutive nodes of one label group. */
  datatype Affine = Affine(first: i64, last: i64, firstNode: i64, lastNode: i64, labelGroup: i64) {
    ghost predicate Ok() {
      first <= last && last - first == lastNode - firstNode
    }

    function Lookup(id: i64): Option<Node> {
      if id < first || id > last then None else Some(Node(Wrap(firstNode + (id - first)), labelGroup))
    }

    predicate Extends(id: i64, node: Node) {
      last + 1 == id && lastNode + 1 == node.id && labelGroup == node.labelGroup
    }

    /** The nodes of the IDs below `end`. */
    ghost function Below(end: int): map<i64, Node> {
      map id: i64 | LOWEST <= id < R.SIGN && Lookup(id).Some? && id < end :: Lookup(id).value
    }

    ghost function All(): map<i64, Node> {
      Below(last + 1)
    }
  }

  /** `as i64`. */
  function Wrap(n: int): i64 {
    ToI64(n % U64)
  }

  lemma WrapIsExact(n: i64)
    ensures Wrap(n) == n
  {
  }

  lemma AffineIsItsIds(a: Affine, id: i64)
    requires a.Ok()
    ensures a.Lookup(id) == if id in a.All() then Some(a.All()[id]) else None
    ensures id in a.All() <==> a.first <= id <= a.last
  {
  }

  lemma ExtendedIds(a: Affine, id: i64, node: Node)
    requires a.Ok() && a.Extends(id, node)
    ensures a.(last := id, lastNode := node.id).Ok() && a.(last := id, lastNode := node.id).All() == a.All()[id := node]
    ensures id !in a.All()
  {
    WrapIsExact(node.id);
  }

  lemma SingleId(id: i64, node: Node)
    ensures var a := Affine(id, id, node.id, node.id, node.labelGroup); a.Ok() && a.All() == map[id := node]
  {
    WrapIsExact(node.id);
  }

  lemma NextBelow(a: Affine, id: i64)
    requires a.Ok() && a.first <= id <= a.last
    ensures a.Below(id + 1) == a.Below(id)[id := Node(a.firstNode + (id - a.first), a.labelGroup)] && id !in a.Below(id)
    ensures a.Below(a.first) == map[]
  {
    WrapIsExact(a.firstNode + (id - a.first));
  }

  // ---------------------------------------------------------------- spool and table

  datatype Record = Record(group: nat, id: i64, node: Node)

  /** The records of one group, in order. */
  ghost function RecordsOf(spool: seq<Record>, group: nat): seq<Record> {
    if spool == [] then []
    else
      var last := spool[|spool| - 1];
      RecordsOf(spool[..|spool| - 1], group) + if last.group == group then [last] else []
  }

  lemma RecordsPush(spool: seq<Record>, r: Record, group: nat)
    ensures RecordsOf(spool + [r], group) == RecordsOf(spool, group) + if r.group == group then [r] else []
  {
    assert (spool + [r])[..|spool|] == spool;
  }

  /** The records name exactly these IDs, each with its node. */
  ghost predicate Recorded(records: seq<Record>, view: map<i64, Node>) {
    && (forall r | r in records :: r.id in view && view[r.id] == r.node)
    && forall id | id in view :: exists r :: r in records && r.id == id
  }

  type Rows = map<(nat, i64), Node>

  ghost function RowsOf(rows: Rows, group: nat): map<i64, Node> {
    map id: i64 | LOWEST <= id < R.SIGN && (group, id) in rows :: rows[(group, id)]
  }

  /** The table `external_id`, keyed by group and external ID. */
  class IdTable {
    var rows: Rows

    constructor ()
      ensures rows == map[]
    {
      rows := map[];
    }

    /** `INSERT OR IGNORE`: whether a row was added. */
    method InsertOrIgnore(group: nat, id: i64, node: Node) returns (inserted: bool)
      modifies this
      ensures inserted <==> id !in RowsOf(old(rows), group)
      ensures RowsOf(rows, group) == R.Added(RowsOf(old(rows), group), id, node)
      ensures forall g: nat | g != group :: RowsOf(rows, g) == RowsOf(old(rows), g)
    {
      inserted := (group, id) !in rows;
      if inserted {
        rows := rows[(group, id) := node];
      }
    }
  }

  // ---------------------------------------------------------------- groups

  datatype GroupMap = Empty | Range(range: Affine) | Paged(map': R.Radix) | Disk

  /** What a group's state, its spool records and its table rows have to do with its contents. */
  ghost predicate GroupOk(state: GroupMap, view: map<i64, Node>, sizes: R.Sizes, isSealed: bool, records: seq<Record>,
                          rows: map<i64, Node>) {
    match state
    case Empty => view == map[] && records == [] && rows == map[]
    case Range(range) => range.Ok() && view == range.All() && records == [] && rows == map[]
    case Paged(m) =>
      && R.Sound(m, sizes) && rows == map[]
      && (if isSealed then R.Knows(m, view, view.Keys) else R.Holds(m, view) && Recorded(records, view))
    case Disk => rows == view
  }

  function ChargedBy(state: GroupMap): nat {
    if state.Paged? then state.map'.charged else 0
  }

  ghost function Charged(groups: seq<GroupMap>): nat {
    if groups == [] then 0 else Charged(groups[..|groups| - 1]) + ChargedBy(groups[|groups| - 1])
  }

  lemma {:induction false} ChargedUpdate(groups: seq<GroupMap>, i: nat, state: GroupMap)
    requires i < |groups|
    ensures Charged(groups[i := state]) + ChargedBy(groups[i]) == Charged(groups) + ChargedBy(state)
    decreases |groups|
  {
    var k := |groups| - 1;
    if i < k {
      ChargedUpdate(groups[..k], i, state);
      assert groups[i := state][..k] == groups[..k][i := state];
    } else {
      assert groups[i := state][..k] == groups[..k];
    }
  }

  lemma {:induction false} ChargedGrow(groups: seq<GroupMap>, n: nat)
    ensures Charged(groups + seq(n, _ => Empty)) == Charged(groups)
  {
    if n == 0 {
      assert groups + seq(0, _ => Empty) == groups;
    } else {
      ChargedGrow(groups, n - 1);
      assert (groups + seq(n, _ => Empty))[..|groups| + n - 1] == groups + seq(n - 1, _ => Empty);
    }
  }

  datatype DirectLookup = Found(node: Node) | Missing | OnDisk

  /** Only one group's records and rows changed. */
  ghost predicate OthersSame(spool: seq<Record>, rows: Rows, spool': seq<Record>, rows': Rows, group: nat) {
    forall g: nat | g != group :: RecordsOf(spool', g) == RecordsOf(spool, g) && RowsOf(rows', g) == RowsOf(rows, g)
  }

  ghost predicate AllOk(groups: seq<GroupMap>, views: seq<map<i64, Node>>, sizes: R.Sizes, isSealed: bool,
                        spool: seq<Record>, rows: Rows) {
    && |views| == |groups|
    && (forall g: nat | g < |groups| :: GroupOk(groups[g], views[g], sizes, isSealed, RecordsOf(spool, g),
                                                RowsOf(rows, g)))
    && forall g: nat | g >= |groups| :: RecordsOf(spool, g) == [] && RowsOf(rows, g) == map[]
  }

  lemma ReplaceGroup(groups: seq<GroupMap>, views: seq<map<i64, Node>>, sizes: R.Sizes, isSealed: bool,
                     spool: seq<Record>, rows: Rows, group: nat, state: GroupMap, view: map<i64, Node>,
                         spool': seq<Record>, rows': Rows)
    requires AllOk(groups, views, sizes, isSealed, spool, rows) && group < |groups|
             && OthersSame(spool, rows, spool', rows', group)
    requires GroupOk(state, view, sizes, isSealed, RecordsOf(spool', group), RowsOf(rows', group))
    ensures AllOk(groups[group := state], views[group := view], sizes, isSealed, spool', rows')
  {
    hide GroupOk, RecordsOf, RowsOf;
  }

  lemma GrowGroups(groups: seq<GroupMap>, views: seq<map<i64, Node>>, sizes: R.Sizes, spool: seq<Record>, rows: Rows,
                   n: nat)
    requires AllOk(groups, views, sizes, false, spool, rows)
    ensures AllOk(groups + seq(n, _ => Empty), views + seq(n, _ => map[]), sizes, false, spool, rows)
  {
    hide RecordsOf, RowsOf;
  }

  lemma RecordOthers(spool: seq<Record>, rows: Rows, r: Record)
    ensures OthersSame(spool, rows, spool + [r], rows, r.group)
    ensures RecordsOf(spool + [r], r.group) == RecordsOf(spool, r.group) + [r]
  {
    forall g: nat ensures RecordsOf(spool + [r], g) == RecordsOf(spool, g) + if r.group == g then [r] else [] {
      RecordsPush(spool, r, g);
    }
  }

  lemma RecordedPush(records: seq<Record>, view: map<i64, Node>, r: Record)
    requires Recorded(records, view) && r.id !in view
    ensures Recorded(records + [r], view[r.id := r.node])
  {
    var records', view' := records + [r], view[r.id := r.node];
    forall id | id in view' ensures exists x :: x in records' && x.id == id {
      if id == r.id {
        assert r in records';
      } else {
        var x :| x in records && x.id == id;
        assert x in records';
      }
    }
  }

  class IntegerIdMap {
    var groups: seq<GroupMap>
    var used: nat
    const limit: nat
    const sizes: R.Sizes
    // The spool file with everything written to it; it is gone once the map is sealed.
    var spool: seq<Record>
    var isSealed: bool
    const table: IdTable

    // What each group maps its IDs to.
    ghost var views: seq<map<i64, Node>>

    ghost predicate Valid()
      reads this, table
    {
      used == Charged(groups) && used <= limit && AllOk(groups, views, sizes, isSealed, spool, table.rows)
    }

    /** The contents: a map from group and ID to the first node inserted for them. */
    ghost function View(group: int): map<i64, Node>
      reads this
    {
      if 0 <= group < |views| then views[group] else map[]
    }

    constructor (limit: nat, sizes: R.Sizes, table: IdTable)
      requires table.rows == map[]
      ensures Valid() && !isSealed && this.table == table && forall group :: View(group) == map[]
    {
      var eighth := limit / 8;
      var buffer: nat := if eighth < 512 then 512 else if eighth > 0x1_0000 then 0x1_0000 else eighth;
      this.limit, this.sizes, this.table := SaturatingSub(limit, 2 * buffer), sizes, table;
      groups, used, spool, isSealed, views := [], 0, [], false, [];
    }

    method Spool(group: nat, id: i64, node: Node)
      modifies this`spool
      ensures spool == old(spool) + [Record(group, id, node)]
    {
      spool := spool + [Record(group, id, node)];
    }

    /** Copies a group's records to the table. */
    method Migrate(group: nat, ghost view: map<i64, Node>)
      requires Recorded(RecordsOf(spool, group), view) && RowsOf(table.rows, group) == map[]
      modifies table
      ensures RowsOf(table.rows, group) == view
      ensures OthersSame(spool, old(table.rows), spool, table.rows, group)
    {
      hide RowsOf, RecordsOf, Recorded, R.Added, Copied;
      ghost var rows := table.rows;
      assert spool[..0] == [];
      CopyStarts(group, view);
      for i := 0 to |spool|
        invariant Copied(RecordsOf(spool[..i], group), RowsOf(table.rows, group), view)
        invariant OthersSame(spool, rows, spool, table.rows, group)
      {
        var r := spool[i];
        assert spool[..i + 1] == spool[..i] + [r];
        RecordsPush(spool[..i], r, group);
        if r.group == group {
          RecordIsIn(spool, i);
          CopyStep(RecordsOf(spool[..i], group), RowsOf(table.rows, group), view, r, RecordsOf(spool, group));
          var _ := table.InsertOrIgnore(group, r.id, r.node);
        } else {
          assert RecordsOf(spool[..i], group) + [] == RecordsOf(spool[..i], group);
        }
      }
      assert spool[..|spool|] == spool;
      CopyEnds(RecordsOf(spool, group), RowsOf(table.rows, group), view);
    }

    /** Copies an affine range to the table. */
    method RangeToTable(group: nat, range: Affine)
      requires range.Ok() && RowsOf(table.rows, group) == map[]
      modifies table
      ensures RowsOf(table.rows, group) == range.All()
      ensures OthersSame(spool, old(table.rows), spool, table.rows, group)
    {
      hide RowsOf, RecordsOf, Affine.Below;
      ghost var rows := table.rows;
      NextBelow(range, range.first);
      var id := range.first;
      while true
        invariant range.first <= id <= range.last
        invariant RowsOf(table.rows, group) == range.Below(id)
        invariant OthersSame(spool, rows, spool, table.rows, group)
        decreases range.last - id
      {
        NextBelow(range, id);
        var _ := table.InsertOrIgnore(group, id, Node(range.firstNode + (id - range.first), range.labelGroup));
        if id == range.last {
          break;
        }
        id := id + 1;
      }
    }

    /** Adds an affine range to an empty paged map, spooling each ID, until the budget refuses. */
    method RangeToPages(group: nat, range: Affine) returns (m: R.Radix, fits: bool)
      requires range.Ok() && RecordsOf(spool, group) == [] && used <= limit
      modifies this`spool, this`used
      ensures R.Sound(m, sizes) && used == old(used) + m.charged && used <= limit
      ensures fits ==> R.Holds(m, range.All()) && Recorded(RecordsOf(spool, group), range.All())
      ensures OthersSame(old(spool), table.rows, spool, table.rows, group)
    {
      hide RowsOf, RecordsOf, Recorded, Affine.Below, R.Holds, R.Sound, R.InsertCost, R.Added;
      m, fits := R.EMPTY_RADIX, true;
      EmptyRadix(sizes);
      NextBelow(range, range.first);
      var id := range.first;
      ghost var before := spool;
      while true
        invariant range.first <= id <= range.last
        invariant R.Sound(m, sizes) && used == old(used) + m.charged && used <= limit
        invariant fits ==> R.Holds(m, range.Below(id)) && Recorded(RecordsOf(spool, group), range.Below(id))
        invariant OthersSame(before, table.rows, spool, table.rows, group)
        decreases range.last - id
      {
        if fits {
          NextBelow(range, id);
          var node := Node(range.firstNode + (id - range.first), range.labelGroup);
          var inserted;
          m, used, inserted := R.Insert(m, id, node, used, limit, sizes, range.Below(id));
          if inserted.Err? {
            fits := false;
          } else {
            NewlyAdded(range.Below(id), id, node);
            Record1(spool, table.rows, Record(group, id, node), range.Below(id));
            Spool(group, id, node);
          }
        }
        if id == range.last {
          break;
        }
        id := id + 1;
      }
    }

    /** A range that cannot grow becomes pages, or rows when the budget refuses. */
    method Expand(group: nat, range: Affine, id: i64, node: Node) returns (state: GroupMap, inserted: bool)
      requires range.Ok() && id !in range.All() && used <= limit
      requires RecordsOf(spool, group) == [] && RowsOf(table.rows, group) == map[]
      modifies this`spool, this`used, table
      ensures inserted && GroupOk(state, range.All()[id := node], sizes, false, RecordsOf(spool, group),
                                  RowsOf(table.rows, group))
      ensures used == old(used) + ChargedBy(state) && used <= limit
      ensures OthersSame(old(spool), old(table.rows), spool, table.rows, group)
    {
      hide RowsOf, RecordsOf, Recorded, Affine.Below, R.Holds, R.Sound, R.InsertCost, R.Added;
      var m, fits := RangeToPages(group, range);
      ghost var spool1 := spool;
      if fits {
        var added;
        m, used, added := R.Insert(m, id, node, used, limit, sizes, range.All());
        if added.Ok? {
          NewlyAdded(range.All(), id, node);
          Record1(spool, table.rows, Record(group, id, node), range.All());
          Spool(group, id, node);
          return Paged(m), true;
        }
      }
      used := SaturatingSub(used, m.charged);
      RangeToTable(group, range);
      NewlyAdded(range.All(), id, node);
      inserted := table.InsertOrIgnore(group, id, node);
      return Disk, inserted;
    }

    /** Adds an ID to a paged group; when the budget refuses, the whole group moves to the table. */
    method InsertPaged(group: nat, m: R.Radix, id: i64, node: Node, ghost view: map<i64, Node>)
        returns (state: GroupMap, inserted: bool)
      requires GroupOk(Paged(m), view, sizes, false, RecordsOf(spool, group), RowsOf(table.rows, group))
               && m.charged <= used <= limit
      modifies this`spool, this`used, table
      ensures inserted <==> id !in view
      ensures GroupOk(state, R.Added(view, id, node), sizes, false, RecordsOf(spool, group), RowsOf(table.rows, group))
      ensures used + m.charged == old(used) + ChargedBy(state) && used <= limit
      ensures OthersSame(old(spool), old(table.rows), spool, table.rows, group)
    {
      hide RowsOf, RecordsOf, Recorded, R.Holds, R.Sound, R.InsertCost;
      var m', used', added := R.Insert(m, id, node, used, limit, sizes, view);
      used := used';
      match added {
        case Ok(isNew) =>
          if isNew {
            Record1(spool, table.rows, Record(group, id, node), view);
            Spool(group, id, node);
          }
          return Paged(m'), isNew;
        case Err(_) =>
          Migrate(group, view);
          used := SaturatingSub(used, m'.charged);
          inserted := table.InsertOrIgnore(group, id, node);
          return Disk, inserted;
      }
    }

    /** One more node: whether its ID is new in its group.  The first node inserted for an ID stays. */
    method Insert(group: i64, id: i64, node: Node) returns (r: Result<bool>)
      requires Valid()
      modifies this`groups, this`used, this`spool, this`views, table
      ensures Valid()
      ensures r.Ok? <==> !isSealed && group >= 0
      ensures r.Ok? ==> r.value == (id !in old(View(group)))
      ensures View(group) == if r.Ok? then R.Added(old(View(group)), id, node) else old(View(group))
      ensures forall other | other != group :: View(other) == old(View(other))
    {
      hide RowsOf, RecordsOf, Recorded, R.Holds, R.Sound, R.Knows, OthersSame, AllOk;
      if isSealed {
        return Err("integer IDs cannot be added after relationships start");
      }
      if group < 0 {
        return Err("invalid import ID group");
      }
      Grow(group);
      ghost var view, spool0, rows0 := views[group], spool, table.rows;
      GroupIsOk(groups, views, sizes, isSealed, spool, table.rows, group);
      var state, inserted := InsertInto(group, groups[group], id, node, view);
      ReplaceGroup(groups, views, sizes, isSealed, spool0, rows0, group, state, R.Added(view, id, node), spool,
                   table.rows);
      ChargedUpdate(groups, group, state);
      groups, views := groups[group := state], views[group := R.Added(view, id, node)];
      return Ok(inserted);
    }

    /** Extends the list of groups to include this one. */
    method Grow(group: nat)
      requires Valid() && !isSealed
      modifies this`groups, this`views
      ensures Valid() && group < |groups| == |views|
      ensures forall g :: View(g) == old(View(g))
    {
      hide GroupOk, RecordsOf, RowsOf, AllOk;
      if group >= |groups| {
        var n := group + 1 - |groups|;
        GrowGroups(groups, views, sizes, spool, table.rows, n);
        ChargedGrow(groups, n);
        SameLength(groups, views, sizes, spool, table.rows);
        groups, views := groups + seq(n, _ => Empty), views + seq(n, _ => map[]);
      } else {
        SameLength(groups, views, sizes, spool, table.rows);
      }
    }

    /** The transitions of one group. */
    method InsertInto(group: nat, state: GroupMap, id: i64, node: Node, ghost view: map<i64, Node>)
        returns (state': GroupMap, inserted: bool)
      requires GroupOk(state, view, sizes, false, RecordsOf(spool, group), RowsOf(table.rows, group))
      requires ChargedBy(state) <= used <= limit
      modifies this`spool, this`used, table
      ensures inserted == (id !in view)
      ensures GroupOk(state', R.Added(view, id, node), sizes, false, RecordsOf(spool, group), RowsOf(table.rows, group))
      ensures used + ChargedBy(state) == old(used) + ChargedBy(state') && used <= limit
      ensures OthersSame(old(spool), old(table.rows), spool, table.rows, group)
    {
      hide RowsOf, RecordsOf, Recorded, R.Holds, R.Sound, R.Knows;
      match state
      case Empty =>
        SingleId(id, node);
        return Range(Affine(id, id, node.id, node.id, node.labelGroup)), true;
      case Range(range) =>
        AffineIsItsIds(range, id);
        if range.Lookup(id).Some? {
          return state, false;
        }
        if range.Extends(id, node) {
          ExtendedIds(range, id, node);
          return Range(range.(last := id, lastNode := node.id)), true;
        }
        state', inserted := Expand(group, range, id, node);
      case Paged(m) =>
        state', inserted := InsertPaged(group, m, id, node, view);
      case Disk =>
        inserted := table.InsertOrIgnore(group, id, node);
        return Disk, inserted;
    }

    /** Seals one group, or moves it to the table when the budget refuses. */
    method SealGroup(index: nat, state: GroupMap, compress: bool, ghost view: map<i64, Node>) returns (state': GroupMap)
      requires GroupOk(state, view, sizes, false, RecordsOf(spool, index), RowsOf(table.rows, index))
      requires ChargedBy(state) <= used <= limit
      modifies this`used, table
      ensures Filled(state', view, sizes, RecordsOf(spool, index), RowsOf(table.rows, index), {})
      ensures used + ChargedBy(state) == old(used) + ChargedBy(state') && used <= limit
      ensures OthersSame(spool, old(table.rows), spool, table.rows, index)
      ensures !compress && old(used) + NeededFor(state) <= limit ==>
                used == old(used) + NeededFor(state) && (state'.Disk? ==> state.Disk?)
    {
      hide RowsOf, RecordsOf, Recorded, R.Holds, R.Sound, R.Knows, R.NeededByAll;
      if !state.Paged? {
        return state;
      }
      var m, left, ok := R.Seal(state.map', used, limit, compress, sizes, view);
      used := left;
      if ok {
        return Paged(m);
      }
      Migrate(index, view);
      used := SaturatingSub(used, m.charged);
      return Disk;
    }

    /** Seals the groups in order. */
    method SealGroups(compress: bool)
      requires Valid() && !isSealed
      modifies this`groups, this`used, table
      ensures Sealing(groups, views, sizes, spool, table.rows, |groups|) && |groups| == old(|groups|)
      ensures used == Charged(groups) && used <= limit
      ensures !compress && old(used + Needed(groups)) <= limit ==>
                forall g | 0 <= g < |groups| :: groups[g].Disk? ==> old(groups[g]).Disk?
    {
      hide RowsOf, RecordsOf, AllOk, NeededFor, Sealing, GroupOk, Filled, OthersSame;
      ghost var before := groups;
      SealingStarts(groups, views, sizes, spool, table.rows);
      SameLength(groups, views, sizes, spool, table.rows);
      assert before[..0] == [];
      for index := 0 to |groups|
        invariant |groups| == |before| == |views| && Sealing(groups, views, sizes, spool, table.rows, index)
        invariant used == Charged(groups) && used <= limit
        invariant forall g | index <= g < |groups| :: groups[g] == before[g]
        invariant !compress && old(used) + Needed(before) <= limit ==>
                    && used == old(used) + Needed(before[..index])
                    && forall g | 0 <= g < |groups| :: groups[g].Disk? ==> before[g].Disk?
      {
        NeededNext(before, index);
        NeededPrefix(before, index + 1);
        NextToSeal(groups, views, sizes, spool, table.rows, index);
        ghost var rows := table.rows;
        var state := SealGroup(index, groups[index], compress, views[index]);
        ChargedUpdate(groups, index, state);
        SealingStep(groups, views, sizes, spool, rows, index, state, table.rows);
        groups := groups[index := state];
      }
      assert before[..|before|] == before;
    }

    /** Fixes the contents for lookups: seals every paged group, then stores the spooled nodes. */
    method Seal()
      requires Valid()
      modifies this`groups, this`used, this`spool, this`isSealed, table
      ensures Valid() && isSealed
      ensures !old(isSealed) && old(used + Needed(groups)) <= limit ==>
                |groups| == |old(groups)| && forall g | 0 <= g < |groups| :: groups[g].Disk? ==> old(groups[g]).Disk?
    {
      hide RowsOf, RecordsOf, Recorded, R.Holds, R.Sound, R.Knows, OthersSame, AllOk, Needed, Sealing, Filling;
      if isSealed {
        return;
      }
      var dense := used + Needed(groups);
      SealGroups(dense > limit);
      ghost var sealedGroups := groups;
      FillingStarts(groups, views, sizes, spool, table.rows);
      ghost var records := spool;
      assert spool[..0] == [];
      for i := 0 to |spool|
        invariant spool == records
        invariant |groups| == |sealedGroups| && Filling(groups, views, sizes, spool, table.rows, i)
        invariant used == Charged(groups) && used <= limit
        invariant forall g | 0 <= g < |groups| :: groups[g].Disk? <==> sealedGroups[g].Disk?
      {
        var r := spool[i];
        FillingFacts(groups, views, sizes, spool, table.rows, i);
        if r.group < |groups| && groups[r.group].Paged? {
          var stored := R.Set(groups[r.group].map', r.id, r.node, sizes, views[r.group],
                              Ids(RecordsOf(spool[..i], r.group)));
          ChargedUpdate(groups, r.group, Paged(stored.value));
          FillingStep(groups, views, sizes, spool, table.rows, i, stored.value);
          groups := groups[r.group := Paged(stored.value)];
        } else {
          FillingSkip(groups, views, sizes, spool, table.rows, i);
        }
      }
      FillingEnds(groups, views, sizes, spool, table.rows);
      isSealed := true;
      spool := [];
    }

    method Lookup(group: i64, id: i64) returns (r: DirectLookup)
      requires Valid() && isSealed
      ensures Answer(r, table.rows, group, id) == if id in View(group) then Some(View(group)[id]) else None
    {
      hide R.Sound, R.Knows, R.Lookup, RowsOf;
      if group < 0 {
        return OnDisk;
      }
      RowIs(table.rows, group, id);
      if group >= |groups| {
        return OnDisk;
      }
      match groups[group]
      case Empty =>
        return Missing;
      case Range(range) =>
        AffineIsItsIds(range, id);
        var found := range.Lookup(id);
        return if found.Some? then Found(found.value) else Missing;
      case Paged(m) =>
        R.LookupIsView(m, views[group], views[group].Keys, id);
        var found := R.Lookup(m, id);
        return if found.Some? then Found(found.value) else Missing;
      case Disk =>
        return OnDisk;
    }
  }

  lemma RowIs(rows: Rows, group: nat, id: i64)
    ensures (group, id) in rows <==> id in RowsOf(rows, group)
    ensures (group, id) in rows ==> RowsOf(rows, group)[id] == rows[(group, id)]
  {
  }

  /** What a lookup means to the caller, who asks the table when told so. */
  function Answer(r: DirectLookup, rows: Rows, group: i64, id: i64): Option<Node> {
    match r
    case Found(node) => Some(node)
    case Missing => None
    case OnDisk => if group >= 0 && (group, id) in rows then Some(rows[(group, id)]) else None
  }

  // ---------------------------------------------------------------- sealing

  function NeededFor(state: GroupMap): nat {
    if state.Paged? then R.NeededByAll(state.map') else 0
  }

  /** The bytes all values will need. */
  function Needed(groups: seq<GroupMap>): nat {
    if groups == [] then 0 else Needed(groups[..|groups| - 1]) + NeededFor(groups[|groups| - 1])
  }

  lemma NeededNext(groups: seq<GroupMap>, i: nat)
    requires i < |groups|
    ensures Needed(groups[..i + 1]) == Needed(groups[..i]) + NeededFor(groups[i])
  {
    assert groups[..i + 1][..i] == groups[..i];
  }

  lemma {:induction false} NeededPrefix(groups: seq<GroupMap>, i: nat)
    requires i <= |groups|
    ensures Needed(groups[..i]) <= Needed(groups)
    decreases |groups| - i
  {
    if i < |groups| {
      NeededNext(groups, i);
      NeededPrefix(groups, i + 1);
    } else {
      assert groups[..i] == groups;
    }
  }

  /** A group whose page structure is final but whose nodes are known only for `done`. */
  ghost predicate Filled(state: GroupMap, view: map<i64, Node>, sizes: R.Sizes, records: seq<Record>, rows: map<i64,
                         Node>, done: set<i64>) {
    if state.Paged? then R.Sound(state.map', sizes) && R.Knows(state.map', view, done) && Recorded(records, view)
        && rows == map[]
    else GroupOk(state, view, sizes, false, records, rows)
  }

  /** The first `n` groups are sealed. */
  ghost predicate Sealing(groups: seq<GroupMap>, views: seq<map<i64, Node>>, sizes: R.Sizes, spool: seq<Record>,
                          rows: Rows, n: nat) {
    && |views| == |groups| && n <= |groups|
    && (forall g: nat | g < n :: Filled(groups[g], views[g], sizes, RecordsOf(spool, g), RowsOf(rows, g), {}))
    && (forall g: nat | n <= g < |groups| :: GroupOk(groups[g], views[g], sizes, false, RecordsOf(spool, g),
                                                     RowsOf(rows, g)))
    && forall g: nat | g >= |groups| :: RecordsOf(spool, g) == [] && RowsOf(rows, g) == map[]
  }

  lemma SealingStarts(groups: seq<GroupMap>, views: seq<map<i64, Node>>, sizes: R.Sizes, spool: seq<Record>, rows: Rows)
    requires AllOk(groups, views, sizes, false, spool, rows)
    ensures Sealing(groups, views, sizes, spool, rows, 0)
  {
    hide GroupOk, RecordsOf, RowsOf;
  }

  lemma NextToSeal(groups: seq<GroupMap>, views: seq<map<i64, Node>>, sizes: R.Sizes, spool: seq<Record>, rows: Rows,
                   n: nat)
    requires Sealing(groups, views, sizes, spool, rows, n) && n < |groups|
    ensures |views| == |groups| && GroupOk(groups[n], views[n], sizes, false, RecordsOf(spool, n), RowsOf(rows, n))
    ensures ChargedBy(groups[n]) <= Charged(groups)
  {
    hide GroupOk, RecordsOf, RowsOf;
    ChargedUpdate(groups, n, Empty);
  }

  lemma SealingStep(groups: seq<GroupMap>, views: seq<map<i64, Node>>, sizes: R.Sizes, spool: seq<Record>, rows: Rows,
                    n: nat, state: GroupMap, rows': Rows)
    requires Sealing(groups, views, sizes, spool, rows, n) && n < |groups| && OthersSame(spool, rows, spool, rows', n)
    requires Filled(state, views[n], sizes, RecordsOf(spool, n), RowsOf(rows', n), {})
    ensures Sealing(groups[n := state], views, sizes, spool, rows', n + 1)
  {
    hide GroupOk, RecordsOf, RowsOf, Filled;
  }

  ghost function Ids(records: seq<Record>): set<i64> {
    set r | r in records :: r.id
  }

  /** All groups are sealed, and the first `n` spooled nodes are stored. */
  ghost predicate Filling(groups: seq<GroupMap>, views: seq<map<i64, Node>>, sizes: R.Sizes, spool: seq<Record>,
                          rows: Rows, n: nat) {
    && |views| == |groups| && n <= |spool|
    && (forall g: nat | g < |groups| ::
          Filled(groups[g], views[g], sizes, RecordsOf(spool, g), RowsOf(rows, g), Ids(RecordsOf(spool[..n], g))))
    && forall g: nat | g >= |groups| :: RecordsOf(spool, g) == [] && RowsOf(rows, g) == map[]
  }

  lemma FillingStarts(groups: seq<GroupMap>, views: seq<map<i64, Node>>, sizes: R.Sizes, spool: seq<Record>, rows: Rows)
    requires Sealing(groups, views, sizes, spool, rows, |groups|)
    ensures Filling(groups, views, sizes, spool, rows, 0)
  {
    hide GroupOk, RowsOf, Filled;
    assert forall g: nat :: Ids(RecordsOf(spool[..0], g)) == {};
  }

  lemma FillingFacts(groups: seq<GroupMap>, views: seq<map<i64, Node>>, sizes: R.Sizes, spool: seq<Record>, rows: Rows,
                     n: nat)
    requires Filling(groups, views, sizes, spool, rows, n) && n < |spool|
    ensures |views| == |groups|
    ensures var r := spool[n];
            r.group < |groups| && groups[r.group].Paged? ==>
              && R.Sound(groups[r.group].map', sizes)
              && R.Knows(groups[r.group].map', views[r.group], Ids(RecordsOf(spool[..n], r.group)))
              && r.id in views[r.group] && views[r.group][r.id] == r.node
  {
    hide RowsOf, RecordsOf, R.Sound, R.Knows;
    RecordIsIn(spool, n);
    var r := spool[n];
    assert r.group < |groups| ==>
        Filled(groups[r.group], views[r.group], sizes, RecordsOf(spool, r.group), RowsOf(rows, r.group),
               Ids(RecordsOf(spool[..n], r.group)));
  }

  lemma IdsNext(spool: seq<Record>, n: nat, g: nat)
    requires n < |spool|
    ensures spool[n].group == g ==> Ids(RecordsOf(spool[..n + 1], g)) == Ids(RecordsOf(spool[..n], g)) + {spool[n].id}
    ensures spool[n].group != g ==> Ids(RecordsOf(spool[..n + 1], g)) == Ids(RecordsOf(spool[..n], g))
  {
    assert spool[..n + 1] == spool[..n] + [spool[n]];
    RecordsPush(spool[..n], spool[n], g);
  }

  lemma FillingStep(groups: seq<GroupMap>, views: seq<map<i64, Node>>, sizes: R.Sizes, spool: seq<Record>, rows: Rows,
                    n: nat, m: R.Radix)
    requires Filling(groups, views, sizes, spool, rows, n) && n < |spool|
    requires var r := spool[n];
             && r.group < |groups| && groups[r.group].Paged?
             && R.Sound(m, sizes) && R.Knows(m, views[r.group], Ids(RecordsOf(spool[..n], r.group)) + {r.id})
    ensures Filling(groups[spool[n].group := Paged(m)], views, sizes, spool, rows, n + 1)
  {
    hide RowsOf, RecordsOf, R.Sound, R.Knows, GroupOk, Recorded, Ids;
    forall g: nat | g < |groups|
      ensures Filled(groups[spool[n].group := Paged(m)][g], views[g], sizes, RecordsOf(spool, g), RowsOf(rows, g),
                     Ids(RecordsOf(spool[..n + 1], g))) {
      IdsNext(spool, n, g);
      assert Filled(groups[g], views[g], sizes, RecordsOf(spool, g), RowsOf(rows, g), Ids(RecordsOf(spool[..n], g)));
    }
  }

  lemma FillingSkip(groups: seq<GroupMap>, views: seq<map<i64, Node>>, sizes: R.Sizes, spool: seq<Record>, rows: Rows,
                    n: nat)
    requires Filling(groups, views, sizes, spool, rows, n) && n < |spool|
    requires spool[n].group < |groups| ==> !groups[spool[n].group].Paged?
    ensures Filling(groups, views, sizes, spool, rows, n + 1)
  {
    hide RowsOf, RecordsOf, R.Sound, R.Knows, GroupOk, Recorded, Ids;
    forall g: nat | g < |groups|
      ensures Filled(groups[g], views[g], sizes, RecordsOf(spool, g), RowsOf(rows, g),
                     Ids(RecordsOf(spool[..n + 1], g))) {
      IdsNext(spool, n, g);
      assert Filled(groups[g], views[g], sizes, RecordsOf(spool, g), RowsOf(rows, g), Ids(RecordsOf(spool[..n], g)));
    }
  }

  lemma FillingEnds(groups: seq<GroupMap>, views: seq<map<i64, Node>>, sizes: R.Sizes, spool: seq<Record>, rows: Rows)
    requires Filling(groups, views, sizes, spool, rows, |spool|)
    ensures AllOk(groups, views, sizes, true, [], rows)
  {
    hide RowsOf, R.Sound, R.Knows;
    assert spool[..|spool|] == spool;
    forall g: nat | g < |groups| ensures GroupOk(groups[g], views[g], sizes, true, RecordsOf([], g), RowsOf(rows, g)) {
      assert Filled(groups[g], views[g], sizes, RecordsOf(spool, g), RowsOf(rows, g), Ids(RecordsOf(spool, g)));
      if groups[g].Paged? {
        AllRecorded(RecordsOf(spool, g), views[g]);
        R.KnowsLess(groups[g].map', views[g], Ids(RecordsOf(spool, g)), views[g].Keys);
      }
    }
  }

  lemma AllRecorded(records: seq<Record>, view: map<i64, Node>)
    requires Recorded(records, view)
    ensures view.Keys <= Ids(records)
  {
    forall id | id in view ensures id in Ids(records) {
      var r :| r in records && r.id == id;
    }
  }

  lemma SameLength(groups: seq<GroupMap>, views: seq<map<i64, Node>>, sizes: R.Sizes, spool: seq<Record>, rows: Rows)
    requires AllOk(groups, views, sizes, false, spool, rows)
    ensures |views| == |groups|
  {
  }

  lemma GroupIsOk(groups: seq<GroupMap>, views: seq<map<i64, Node>>, sizes: R.Sizes, isSealed: bool,
                  spool: seq<Record>, rows: Rows, group: nat)
    requires AllOk(groups, views, sizes, isSealed, spool, rows) && group < |groups|
    ensures |views| == |groups| && GroupOk(groups[group], views[group], sizes, isSealed, RecordsOf(spool, group),
                                           RowsOf(rows, group))
    ensures ChargedBy(groups[group]) <= Charged(groups)
  {
    ChargedUpdate(groups, group, Empty);
  }

  lemma EmptyRadix(sizes: R.Sizes)
    ensures R.Sound(R.EMPTY_RADIX, sizes) && R.EMPTY_RADIX.charged == 0 && R.Holds(R.EMPTY_RADIX, map[])
            && Recorded([], map[])
  {
  }

  lemma NewlyAdded(view: map<i64, Node>, id: i64, node: Node)
    requires id !in view
    ensures R.Added(view, id, node) == view[id := node]
  {
  }

  /** One more record for an ID that is not in the view yet. */
  lemma Record1(spool: seq<Record>, rows: Rows, r: Record, view: map<i64, Node>)
    requires Recorded(RecordsOf(spool, r.group), view) && r.id !in view
    ensures Recorded(RecordsOf(spool + [r], r.group), view[r.id := r.node])
    ensures R.Added(view, r.id, r.node) == view[r.id := r.node]
    ensures OthersSame(spool, rows, spool + [r], rows, r.group)
  {
    RecordOthers(spool, rows, r);
    RecordedPush(RecordsOf(spool, r.group), view, r);
  }

  /** The table has all of these records, and nothing that is not in the view. */
  ghost predicate Copied(records: seq<Record>, rows: map<i64, Node>, view: map<i64, Node>) {
    && (forall id | id in rows :: id in view && view[id] == rows[id])
    && forall r | r in records :: r.id in rows
  }

  lemma CopyStarts(group: nat, view: map<i64, Node>)
    ensures Copied(RecordsOf([], group), map[], view)
  {
  }

  lemma CopyStep(records: seq<Record>, rows: map<i64, Node>, view: map<i64, Node>, r: Record, all: seq<Record>)
    requires Copied(records, rows, view) && Recorded(all, view) && r in all
    ensures Copied(records + [r], R.Added(rows, r.id, r.node), view)
  {
  }

  lemma CopyEnds(records: seq<Record>, rows: map<i64, Node>, view: map<i64, Node>)
    requires Copied(records, rows, view) && Recorded(records, view)
    ensures rows == view
  {
    forall id | id in view ensures id in rows {
      var r :| r in records && r.id == id;
    }
  }

  lemma {:induction false} RecordIsIn(spool: seq<Record>, i: nat)
    requires i < |spool|
    ensures spool[i] in RecordsOf(spool, spool[i].group)
    decreases |spool|
  {
    if i < |spool| - 1 {
      RecordIsIn(spool[..|spool| - 1], i);
    }
  }
}
