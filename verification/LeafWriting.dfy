/** What is known about a tree while its leaves are being written (`tree` in `page_writer.rs`). */
module LeafWriting {
  import opened Bytes
  import opened CellWriting
  import opened Layout
  import opened PageFile
  import opened PageFormat
  import opened Powers
  import opened TreeContents
  import opened Varints

  /** A finished page and the bytes its parent keeps about it. */
  datatype Child = Child(page: nat, boundary: seq<byte>)

  ghost function ChildrenOf(subs: seq<Sub>): (c: seq<Child>)
    ensures |c| == |subs|
  {
    seq(|subs|, i requires 0 <= i < |subs| => Child(subs[i].page, subs[i].boundary))
  }

  ghost function Lengths(subs: seq<Sub>): (bs: seq<nat>)
    ensures |bs| == |subs|
  {
    seq(|subs|, i requires 0 <= i < |subs| => |subs[i].boundary|)
  }

  /** A row that can be written. */
  predicate Storable(kind: Kind, row: Row) {
    |row.payload| < U64 && (kind == Index ==> row.rowid == 0)
  }

  predicate AllStorable(kind: Kind, rows: seq<Row>) {
    forall i | 0 <= i < |rows| :: Storable(kind, rows[i])
  }

  /** The boundary a row leaves when it is the last one before a new leaf. */
  function BoundarySize(kind: Kind, u: nat, row: Row): nat
    requires PageSize(u) && Storable(kind, row)
  {
    match kind
    case Table => VarintLength(ToU64(row.rowid))
    case Index => CellSize(kind, u, row)
  }

  ghost function Items(kind: Kind, u: nat, rows: seq<Row>): (items: seq<Item>)
    requires PageSize(u) && AllStorable(kind, rows)
    ensures |items| == |rows|
  {
    seq(|rows|, i requires 0 <= i < |rows| && AllStorable(kind, rows) =>
      Item(CellSize(kind, u, rows[i]), if i == 0 then 0 else BoundarySize(kind, u, rows[i - 1])))
  }

  // ---------------------------------------------------------------- sizes

  /** An index cell is at most a third of what an interior page holds. */
  lemma IndexCellIsSmall(u: nat, row: Row)
    requires PageSize(u) && Storable(Index, row)
    ensures 12 + 3 * Separator(CellSize(Index, u, row)) <= u
  {
    VarintLengthIsMinimal(|row.payload|);
  }

  lemma TableCellIsSmall(u: nat, row: Row)
    requires PageSize(u) && Storable(Table, row)
    ensures 8 + 2 + CellSize(Table, u, row) <= u
    ensures 12 + 3 * Separator(BoundarySize(Table, u, row)) <= u
  {
    VarintLengthIsMinimal(|row.payload|);
    VarintLengthIsMinimal(ToU64(row.rowid));
    if |row.payload| <= MaxLocal(Table, u) {
      ShortVarint(|row.payload|);
    }
  }

  /** Lengths below three seven-bit groups take at most three bytes. */
  lemma ShortVarint(value: u64)
    requires value < 0x20_0000
    ensures VarintLength(value) <= 3
  {
    VarintLengthIsMinimal(value);
    assert Pow128(3) == 0x20_0000;
    if VarintLength(value) > 3 {
      Pow128IsPow2(3);
      Pow128IsPow2(VarintLength(value) - 1);
      Pow2Grows(21, 7 * (VarintLength(value) - 1));
      assert false;
    }
  }

  /** A boundary leaves room for two more on an interior page. */
  lemma BoundaryIsSmall(kind: Kind, u: nat, row: Row)
    requires PageSize(u) && Storable(kind, row)
    ensures 12 + 3 * Separator(BoundarySize(kind, u, row)) <= u
    ensures 8 + 2 + CellSize(kind, u, row) <= u
  {
    match kind
    case Table => TableCellIsSmall(u, row);
    case Index => IndexCellIsSmall(u, row);
  }

  // ---------------------------------------------------------------- state of the leaf loop

  /** Every subtree has its boundary: more will follow it. */
  ghost predicate Bounded(file: File, u: nat, kind: Kind, depth: nat, subs: seq<Sub>)
    requires PageSize(u)
  {
    && (forall i | 0 <= i < |subs| :: SubTree(file, u, kind, depth, subs[i]) && Boundary(file, u, kind, subs[i]))
    && (kind == Table ==> AllSearchable(file, u, depth, subs))
  }

  lemma BoundedGrows(file: File, file': File, u: nat, kind: Kind, depth: nat, subs: seq<Sub>)
    requires PageSize(u) && Grows(file, file') && Bounded(file, u, kind, depth, subs)
    ensures Bounded(file', u, kind, depth, subs)
  {
    forall i | 0 <= i < |subs| ensures SubTree(file', u, kind, depth, subs[i]) && Boundary(file', u, kind, subs[i]) {
      assert SubTree(file, u, kind, depth, subs[i]) && Boundary(file, u, kind, subs[i]);
      ReadTreeGrows(file, file', u, kind, subs[i].page, depth);
      if kind == Index {
        EncodesGrows(file, file', u, kind, subs[i].boundary, subs[i].separator);
      }
    }
    if kind == Table {
      forall i | 0 <= i < |subs| ensures Searchable(file', u, subs[i].page, depth, subs[i].rows) {
        SearchableGrows(file, file', u, subs[i].page, depth, subs[i].rows);
      }
    }
  }

  /** The finished leaves hold everything before `pending`, which sits on the open leaf as `cells`. */
  ghost predicate LeafContents(file: File, u: nat, kind: Kind, rows: seq<Row>, cells: seq<seq<byte>>,
                               pending: seq<Row>, subs: seq<Sub>)
    requires PageSize(u)
  {
    && EncodesAll(file, u, kind, cells, pending)
    && Bounded(file, u, kind, 0, subs)
    && Left(kind, subs) + pending == rows
    && (rows != [] ==> pending != [])
  }

  /** The page breaks are those of the layout. */
  ghost predicate LeafLayout(u: nat, kind: Kind, rows: seq<Row>, cells: seq<seq<byte>>, subs: seq<Sub>)
    requires PageSize(u)
  {
    && AllStorable(kind, rows)
    && LeafFold(Items(kind, u, rows), u) == Leaves(Lengths(subs), 8 + 2 * |cells| + TotalLength(cells))
    && Small(Lengths(subs), u)
  }

  lemma LeafContentsGrow(file: File, file': File, u: nat, kind: Kind, rows: seq<Row>, cells: seq<seq<byte>>,
                         pending: seq<Row>, subs: seq<Sub>)
    requires PageSize(u) && Grows(file, file') && LeafContents(file, u, kind, rows, cells, pending, subs)
    ensures LeafContents(file', u, kind, rows, cells, pending, subs)
  {
    BoundedGrows(file, file', u, kind, 0, subs);
    forall i | 0 <= i < |cells| ensures Encodes(file', u, kind, cells[i], pending[i]) {
      EncodesGrows(file, file', u, kind, cells[i], pending[i]);
    }
  }

  // ---------------------------------------------------------------- one more row on the open leaf

  lemma ItemsGrow(kind: Kind, u: nat, rows: seq<Row>, row: Row)
    requires PageSize(u) && AllStorable(kind, rows) && Storable(kind, row)
    ensures AllStorable(kind, rows + [row])
    ensures Items(kind, u, rows + [row])
         == Items(kind, u, rows) + [Item(CellSize(kind, u, row),
                                         if rows == [] then 0 else BoundarySize(kind, u, rows[|rows| - 1]))]
  {
    hide PageSize, CellSize, BoundarySize;
    assert AllStorable(kind, rows + [row]);
    var a, b := Items(kind, u, rows + [row]), Items(kind, u, rows);
    assert forall i | 0 <= i < |rows| :: (rows + [row])[i] == rows[i];
    assert forall i | 0 <= i < |b| :: a[i] == b[i];
  }

  lemma AddContents(file: File, u: nat, kind: Kind, rows: seq<Row>, cells: seq<seq<byte>>, pending: seq<Row>,
                    subs: seq<Sub>, row: Row, cell: seq<byte>)
    requires PageSize(u) && LeafContents(file, u, kind, rows, cells, pending, subs)
    requires Encodes(file, u, kind, cell, row)
    ensures LeafContents(file, u, kind, rows + [row], cells + [cell], pending + [row], subs)
  {
    hide Encodes, Bounded, PageSize;
    assert Left(kind, subs) + (pending + [row]) == (Left(kind, subs) + pending) + [row];
  }

  lemma AddLayout(u: nat, kind: Kind, rows: seq<Row>, cells: seq<seq<byte>>, subs: seq<Sub>, row: Row, cell: seq<byte>)
    requires PageSize(u) && LeafLayout(u, kind, rows, cells, subs) && Storable(kind, row)
    requires |cell| == CellSize(kind, u, row) && Fit(cells + [cell], false, u)
    ensures LeafLayout(u, kind, rows + [row], cells + [cell], subs)
  {
    RowFold(kind, u, rows, row);
    TotalLengthPush(cells, cell);
    hide PageSize, CellSize, BoundarySize, LeafFold, TotalLength, Items;
  }

  // ---------------------------------------------------------------- closing a leaf

  /** The subtree that an open leaf becomes: an index leaf gives up its last entry as separator. */
  ghost function Closed(kind: Kind, page: nat, cells: seq<seq<byte>>, pending: seq<Row>): Sub
    requires pending != [] && |cells| == |pending|
  {
    var last := |pending| - 1;
    match kind
    case Index => Sub(page, cells[last], pending[..last], pending[last])
    case Table => Sub(page, Varint(ToU64(pending[last].rowid)), pending, pending[last])
  }

  ghost function KeptCells(kind: Kind, cells: seq<seq<byte>>): seq<seq<byte>>
    requires cells != []
  {
    if kind == Index then cells[..|cells| - 1] else cells
  }

  lemma BoundedPush(file: File, u: nat, kind: Kind, depth: nat, subs: seq<Sub>, sub: Sub)
    requires PageSize(u) && Bounded(file, u, kind, depth, subs)
    requires SubTree(file, u, kind, depth, sub) && Boundary(file, u, kind, sub)
    requires kind == Table ==> Searchable(file, u, sub.page, depth, sub.rows)
    ensures Bounded(file, u, kind, depth, subs + [sub])
  {
    hide SubTree, Boundary, Searchable;
  }

  lemma ClosedLeaf(file: File, u: nat, kind: Kind, page: nat, cells: seq<seq<byte>>, pending: seq<Row>)
    requires PageSize(u) && EncodesAll(file, u, kind, cells, pending) && pending != []
    requires page < U32 && page in file && |file[page]| == u
             && IsPage(file[page], kind, false, KeptCells(kind, cells), 0)
    requires kind == Index ==> |cells| >= 2
    ensures var sub := Closed(kind, page, cells, pending);
            && SubTree(file, u, kind, 0, sub) && Boundary(file, u, kind, sub)
            && (kind == Table ==> Searchable(file, u, page, 0, sub.rows))
  {
    var sub := Closed(kind, page, cells, pending);
    hide IsPage, PageSize, Encodes, ReadTree, Searchable;
    LeafPageIsRead(file, u, kind, page, KeptCells(kind, cells), sub.rows);
    if kind == Table {
      LeafPageIsSearchable(file, u, page, cells, pending);
    }
  }

  lemma CloseContents(file: File, u: nat, kind: Kind, rows: seq<Row>, cells: seq<seq<byte>>, pending: seq<Row>,
                      subs: seq<Sub>, page: nat)
    requires PageSize(u) && LeafContents(file, u, kind, rows, cells, pending, subs) && rows != []
    requires page < U32 && page in file && |file[page]| == u
             && IsPage(file[page], kind, false, KeptCells(kind, cells), 0)
    requires kind == Index ==> |cells| >= 2
    ensures var sub := Closed(kind, page, cells, pending);
            && Bounded(file, u, kind, 0, subs + [sub])
            && Left(kind, subs + [sub]) == rows
  {
    var sub := Closed(kind, page, cells, pending);
    ClosedLeaf(file, u, kind, page, cells, pending);
    BoundedPush(file, u, kind, 0, subs, sub);
    CloseLeft(kind, page, cells, pending, subs);
  }

  lemma CloseLeft(kind: Kind, page: nat, cells: seq<seq<byte>>, pending: seq<Row>, subs: seq<Sub>)
    requires pending != [] && |cells| == |pending|
    ensures Left(kind, subs + [Closed(kind, page, cells, pending)]) == Left(kind, subs) + pending
  {
    var sub := Closed(kind, page, cells, pending);
    assert (subs + [sub])[..|subs|] == subs;
    if kind == Index {
      assert pending == sub.rows + [sub.separator];
      assert Left(kind, subs) + sub.rows + [sub.separator] == Left(kind, subs) + pending;
    }
  }

  /** A new leaf starts with one row. */
  lemma RestartContents(file: File, u: nat, kind: Kind, rows: seq<Row>, subs: seq<Sub>, row: Row, cell: seq<byte>)
    requires PageSize(u) && Bounded(file, u, kind, 0, subs) && Left(kind, subs) == rows
             && Encodes(file, u, kind, cell, row)
    ensures LeafContents(file, u, kind, rows + [row], [cell], [row], subs)
  {
  }

  lemma BoundaryOfClosed(file: File, u: nat, kind: Kind, page: nat, cells: seq<seq<byte>>, pending: seq<Row>)
    requires PageSize(u) && pending != [] && |cells| == |pending|
    requires Storable(kind, pending[|pending| - 1])
    requires kind == Index ==> |cells[|cells| - 1]| == CellSize(kind, u, pending[|pending| - 1])
    ensures |Closed(kind, page, cells, pending).boundary| == BoundarySize(kind, u, pending[|pending| - 1])
  {
  }

  lemma EncodedSize(file: File, u: nat, kind: Kind, cell: seq<byte>, row: Row)
    requires PageSize(u) && Encodes(file, u, kind, cell, row)
    ensures |cell| == CellSize(kind, u, row) && Storable(kind, row)
  {
  }

  lemma CloseLayout(u: nat, kind: Kind, rows: seq<Row>, cells: seq<seq<byte>>, subs: seq<Sub>, sub: Sub, row: Row,
                    cell: seq<byte>)
    requires PageSize(u) && LeafLayout(u, kind, rows, cells, subs) && Storable(kind, row) && rows != []
    requires |cell| == CellSize(kind, u, row) && !Fit(cells + [cell], false, u)
    requires |sub.boundary| == BoundarySize(kind, u, rows[|rows| - 1])
    ensures LeafLayout(u, kind, rows + [row], [cell], subs + [sub])
  {
    hide PageSize, CellSize, BoundarySize, LeafFold, TotalLength, Items, Storable;
    BoundaryIsSmall(kind, u, rows[|rows| - 1]);
    RowFold(kind, u, rows, row);
    TotalLengthPush(cells, cell);
    OneCell(cell);
    assert Lengths(subs + [sub]) == Lengths(subs) + [|sub.boundary|];
  }

  lemma OneCell(cell: seq<byte>)
    ensures TotalLength([cell]) == |cell|
  {
    assert [cell][..0] == [];
  }

  /** The layout after one more row. */
  lemma RowFold(kind: Kind, u: nat, rows: seq<Row>, row: Row)
    requires PageSize(u) && AllStorable(kind, rows) && Storable(kind, row)
    ensures AllStorable(kind, rows + [row])
    ensures LeafFold(Items(kind, u, rows + [row]), u)
         == LeafStep(LeafFold(Items(kind, u, rows), u),
                     Item(CellSize(kind, u, row), if rows == [] then 0 else BoundarySize(kind, u, rows[|rows| - 1])), u)
  {
    ItemsGrow(kind, u, rows, row);
    hide PageSize, CellSize, BoundarySize;
    var items := Items(kind, u, rows + [row]);
    LeafFoldStep(items, |rows|, u);
    assert items[..|rows|] == Items(kind, u, rows) && items[..|rows| + 1] == items;
  }

  /** A leaf that has no room for one more cell holds at least two index entries. */
  lemma FullLeafHasTwo(file: File, u: nat, kind: Kind, cells: seq<seq<byte>>, pending: seq<Row>, row: Row,
                       cell: seq<byte>)
    requires PageSize(u) && EncodesAll(file, u, kind, cells, pending) && Storable(kind, row)
    requires |cell| == CellSize(kind, u, row) && !Fit(cells + [cell], false, u)
    ensures |cells| >= 1 && (kind == Index ==> |cells| >= 2)
  {
    BoundaryIsSmall(kind, u, row);
    TotalLengthPush(cells, cell);
    if |cells| == 1 && kind == Index {
      EncodedSize(file, u, kind, cells[0], pending[0]);
      IndexCellIsSmall(u, pending[0]);
    }
  }
}
