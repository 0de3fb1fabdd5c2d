/** Building a whole tree bottom-up: `tree`, `parent` and `level` in `page_writer.rs`. */
module TreeWriting {
  import opened Bytes
  import opened CellWriting
  import opened Layout
  import opened LeafWriting
  import opened LevelWriting
  import opened PageAllocation
  import opened PageFile
  import opened PageFormat
  import opened Results
  import opened TreeContents
  import opened Varints

  // ---------------------------------------------------------------- pages a tree needs

  ghost function OverflowTotal(kind: Kind, u: nat, rows: seq<Row>): nat
    requires PageSize(u)
  {
    if rows == [] then 0 else OverflowTotal(kind, u, rows[..|rows| - 1]) + RowPages(kind, u, rows[|rows| - 1])
  }

  /** Boundaries of all leaves but the last. */
  ghost function LeafBoundaries(kind: Kind, u: nat, rows: seq<Row>): seq<nat>
    requires PageSize(u) && AllStorable(kind, rows)
  {
    LeafFold(Items(kind, u, rows), u).boundaries
  }

  lemma NoLeaves(kind: Kind, u: nat)
    requires PageSize(u)
    ensures LeafFold(Items(kind, u, []), u) == Leaves([], 8)
  {
    hide PageSize;
    assert Items(kind, u, []) == [];
  }

  lemma NoneIsSmall(u: nat)
    requires PageSize(u)
    ensures Small([], u) && 12 + 3 * Separator(0) <= u
  {
  }

  lemma SmallPush(bs: seq<nat>, b: nat, u: nat)
    requires Small(bs, u) && 12 + 3 * Separator(b) <= u
    ensures Small(bs + [b], u)
  {
  }

  lemma AllButLast(kind: Kind, rows: seq<Row>)
    requires rows != [] && AllStorable(kind, rows)
    ensures AllStorable(kind, rows[..|rows| - 1]) && rows == rows[..|rows| - 1] + [rows[|rows| - 1]]
    ensures Storable(kind, rows[|rows| - 1]) && (|rows| > 1 ==> Storable(kind, rows[|rows| - 2]))
  {
    hide Storable;
  }

  /** A row more adds the boundary behind the row before it, or none; the first row adds none. */
  lemma NextBoundary(kind: Kind, u: nat, init: seq<Row>, row: Row)
    requires PageSize(u) && AllStorable(kind, init) && Storable(kind, row) && AllStorable(kind, init + [row])
    ensures init != [] ==> var more := LeafBoundaries(kind, u, init + [row]);
            more == LeafBoundaries(kind, u, init) || more == LeafBoundaries(kind, u, init)
                + [BoundarySize(kind, u, init[|init| - 1])]
    ensures init == [] ==> LeafBoundaries(kind, u, init + [row]) == []
  {
    hide PageSize, LeafFold, Items, CellSize, BoundarySize, Storable;
    RowFold(kind, u, init, row);
    BoundaryIsSmall(kind, u, row);
    if init == [] {
      NoLeaves(kind, u);
    }
  }

  lemma {:induction false} LeafBoundariesAreSmall(kind: Kind, u: nat, rows: seq<Row>)
    requires PageSize(u) && AllStorable(kind, rows)
    ensures Small(LeafBoundaries(kind, u, rows), u) && Small(LeafBoundaries(kind, u, rows) + [0], u)
    ensures rows == [] ==> LeafFold(Items(kind, u, rows), u) == Leaves([], 8)
    ensures |rows| == 1 ==> LeafBoundaries(kind, u, rows) == []
    decreases |rows|
  {
    hide PageSize, LeafBoundaries, LeafFold, BoundarySize, Storable, AllStorable, Small;
    NoneIsSmall(u);
    if rows == [] {
      NoLeaves(kind, u);
      NoBoundaries(kind, u);
    } else {
      AllButLast(kind, rows);
      var init, row := rows[..|rows| - 1], rows[|rows| - 1];
      assert init + [row] == rows;
      LeafBoundariesAreSmall(kind, u, init);
      NextBoundary(kind, u, init, row);
      if init != [] {
        BoundaryIsSmall(kind, u, init[|init| - 1]);
        SmallPush(LeafBoundaries(kind, u, init), BoundarySize(kind, u, init[|init| - 1]), u);
      }
    }
    SmallPush(LeafBoundaries(kind, u, rows), 0, u);
  }

  lemma NoBoundaries(kind: Kind, u: nat)
    requires PageSize(u)
    ensures LeafBoundaries(kind, u, []) == []
  {
    hide PageSize, LeafFold, Items;
    NoLeaves(kind, u);
  }

  /** Pages appended for a tree: overflow chains, leaves and interior pages, but not the root. */
  ghost function Needed(kind: Kind, u: nat, rows: seq<Row>): nat
    requires PageSize(u) && AllStorable(kind, rows)
  {
    LeafBoundariesAreSmall(kind, u, rows);
    var boundaries := LeafBoundaries(kind, u, rows);
    OverflowTotal(kind, u, rows) + if boundaries == [] then 0 else TreePages(boundaries + [0], u)
  }

  lemma {:induction false} OverflowTotalGrows(kind: Kind, u: nat, rows: seq<Row>, i: nat)
    requires PageSize(u) && i <= |rows|
    ensures OverflowTotal(kind, u, rows[..i]) <= OverflowTotal(kind, u, rows)
    decreases |rows|
  {
    if i < |rows| {
      assert rows[..|rows| - 1][..i] == rows[..i];
      OverflowTotalGrows(kind, u, rows[..|rows| - 1], i);
    } else {
      assert rows[..i] == rows;
    }
  }

  // ---------------------------------------------------------------- leaves

  /** Bytes in front of the payload, and the payload itself when it stays on the page; a row that
      does not fit comes back as one finished cell. */
  method StartCell(w: PageWriter, kind: Kind, row: Row) returns (r: Result<(seq<byte>, seq<byte>)>)
    requires w.Valid() && Storable(kind, row)
    modifies w`nextPage, w`rangeEnd, w`position, w`mine, w.disk, w.allocator
    ensures w.Valid() && w.nextPage >= old(w.nextPage)
    ensures Extended(old(w.disk.pages), old(w.mine), w.disk.pages, w.mine, w.Pending())
    ensures r.Ok? ==> Encodes(w.mine, w.pageSize, kind, r.value.0 + r.value.1, row)
    ensures w.allocator == null ==> (r.Ok? <==> old(w.Room()) >= RowPages(kind, w.pageSize, row))
    ensures w.allocator == null && r.Ok? ==> w.Room() == old(w.Room()) - RowPages(kind, w.pageSize, row)
    ensures r.Ok? ==> |w.mine| == old(|w.mine|) + RowPages(kind, w.pageSize, row)
    ensures w.allocator == null ==> w.rangeEnd == old(w.rangeEnd)
  {
    if |row.payload| <= MaxLocal(kind, w.pageSize) {
      var prefix := WritePrefix(kind, row);
      assert row.payload[..|row.payload|] == row.payload;
      NothingWritten(w.disk.pages, w.mine, w.Pending());
      return Ok((prefix, row.payload));
    }
    var cell := WriteCell(w, kind, row);
    if cell.Err? {
      return Err(cell.message);
    }
    assert cell.value + [] == cell.value;
    return Ok((cell.value, []));
  }

  ghost predicate NewPage(before: File, after: File, page: nat) {
    page !in before && after.Keys == before.Keys + {page} && |after| == |before| + 1
  }

  lemma OneMorePage(before: File, page: nat, image: seq<byte>)
    requires page !in before
    ensures NewPage(before, before[page := image], page)
  {
  }

  /** What the parent will know of the open leaf: the last rowid, or the last cell, which leaves the page. */
  method TakeBoundary(page: Page, kind: Kind, previous: i64, ghost pending: seq<Row>) returns (boundary: seq<byte>)
    requires page.Valid() && page.cells != [] && |page.cells| == |pending|
    requires kind == Table ==> previous == pending[|pending| - 1].rowid
    modifies page
    ensures page.Valid() && page.cells == KeptCells(kind, old(page.cells))
    ensures forall id :: boundary == Closed(kind, id, old(page.cells), pending).boundary
  {
    hide Page.Valid, Varint;
    if kind == Table {
      boundary := AppendVarint([], ToU64(previous));
      assert [] + Varint(ToU64(previous)) == Varint(ToU64(previous));
    } else {
      boundary := page.Pop();
    }
  }

  lemma AsManyCells(file: File, u: nat, kind: Kind, cells: seq<seq<byte>>, rows: seq<Row>)
    requires PageSize(u) && EncodesAll(file, u, kind, cells, rows)
    ensures |cells| == |rows|
  {
  }

  /** Moves the open leaf to the file and clears it; returns the child it became. */
  method FlushLeaf(w: PageWriter, page: Page, kind: Kind, previous: i64, ghost pending: seq<Row>)
      returns (r: Result<Child>)
    requires w.Valid() && page.Valid() && page.bytes.Length == w.pageSize && page.kind == kind && !page.interior
    requires EncodesAll(w.mine, w.pageSize, kind, page.cells, pending) && pending != []
    requires kind == Index ==> |page.cells| >= 2
    requires kind == Table ==> previous == pending[|pending| - 1].rowid
    modifies w`nextPage, w`rangeEnd, w`position, w`mine, w.disk, w.allocator, page, page.bytes
    ensures w.Valid() && w.nextPage >= old(w.nextPage) && page.Valid()
    ensures Extended(old(w.disk.pages), old(w.mine), w.disk.pages, w.mine, w.Pending())
    ensures r.Ok? ==> var id := r.value.page;
              && NewPage(old(w.mine), w.mine, id) && id in w.mine && id < U32 && |w.mine[id]| == w.pageSize
              && IsPage(w.mine[id], kind, false, KeptCells(kind, old(page.cells)), 0)
              && r.value.boundary == Closed(kind, id, old(page.cells), pending).boundary
    ensures r.Ok? ==> page.cells == []
    ensures w.allocator == null ==> (r.Ok? <==> old(w.Room()) >= 1) && w.rangeEnd == old(w.rangeEnd)
    ensures w.allocator == null && r.Ok? ==> w.Room() == old(w.Room()) - 1
  {
    hide PageWriter.Valid, IsPage, EncodesAll, Extended, NewPage, Page.Valid, PageWriter.Room, PageSize, KeptCells,
         Closed;
    AsManyCells(w.mine, w.pageSize, kind, page.cells, pending);
    var boundary := TakeBoundary(page, kind, previous, pending);
    var image := page.Image(0);
    var id := w.Append(image);
    if id.Err? {
      return Err(id.message);
    }
    OneMorePage(old(w.mine), id.value, image);
    page.Clear();
    return Ok(Child(id.value, boundary));
  }

  ghost function PagesOf(subs: seq<Sub>): set<nat> {
    set s | s in subs :: s.page
  }

  /** Each subtree has a page of its own, and the writer has appended it. */
  ghost predicate SeparatePages(mine: File, subs: seq<Sub>) {
    PagesOf(subs) <= mine.Keys && |PagesOf(subs)| == |subs|
  }

  lemma PagesPush(subs: seq<Sub>, sub: Sub)
    ensures PagesOf(subs + [sub]) == PagesOf(subs) + {sub.page}
  {
    forall page | page in PagesOf(subs) + {sub.page} ensures page in PagesOf(subs + [sub]) {
      if page == sub.page {
        assert sub in subs + [sub];
      } else {
        var s :| s in subs && s.page == page;
        assert s in subs + [sub];
      }
    }
  }

  lemma SeparatePush(mine: File, mine': File, subs: seq<Sub>, sub: Sub)
    requires SeparatePages(mine, subs) && NewPage(mine, mine', sub.page)
    ensures SeparatePages(mine', subs + [sub])
  {
    hide PagesOf;
    PagesPush(subs, sub);
  }

  /** The rows before the current one, as they lie on the open leaf and in the finished leaves. */
  ghost predicate LeafState(mine: File, u: nat, kind: Kind, rows: seq<Row>, cells: seq<seq<byte>>, pending: seq<Row>,
                            subs: seq<Sub>, children: seq<Child>)
    requires PageSize(u)
  {
    && LeafContents(mine, u, kind, rows, cells, pending, subs)
    && LeafLayout(u, kind, rows, cells, subs)
    && children == ChildrenOf(subs) && SeparatePages(mine, subs)
  }

  lemma LeafStateGrows(mine: File, mine': File, u: nat, kind: Kind, rows: seq<Row>, cells: seq<seq<byte>>,
                       pending: seq<Row>, subs: seq<Sub>, children: seq<Child>)
    requires PageSize(u) && Grows(mine, mine') && LeafState(mine, u, kind, rows, cells, pending, subs, children)
    ensures LeafState(mine', u, kind, rows, cells, pending, subs, children)
  {
    LeafContentsGrow(mine, mine', u, kind, rows, cells, pending, subs);
  }

  lemma LeafStateAdd(mine: File, u: nat, kind: Kind, rows: seq<Row>, cells: seq<seq<byte>>, pending: seq<Row>,
                     subs: seq<Sub>, children: seq<Child>, row: Row, cell: seq<byte>)
    requires PageSize(u) && LeafState(mine, u, kind, rows, cells, pending, subs, children)
    requires Encodes(mine, u, kind, cell, row) && Fit(cells + [cell], false, u)
    ensures LeafState(mine, u, kind, rows + [row], cells + [cell], pending + [row], subs, children)
  {
    EncodedSize(mine, u, kind, cell, row);
    AddContents(mine, u, kind, rows, cells, pending, subs, row, cell);
    AddLayout(u, kind, rows, cells, subs, row, cell);
  }

  lemma LastPending(mine: File, u: nat, kind: Kind, rows: seq<Row>, cells: seq<seq<byte>>, pending: seq<Row>,
                    subs: seq<Sub>)
    requires PageSize(u) && LeafContents(mine, u, kind, rows, cells, pending, subs) && pending != []
    ensures rows != [] && pending[|pending| - 1] == rows[|rows| - 1]
    ensures Encodes(mine, u, kind, cells[|cells| - 1], pending[|pending| - 1])
  {
    assert (Left(kind, subs) + pending)[|rows| - 1] == pending[|pending| - 1];
  }

  lemma CloseKeepsLayout(mine: File, u: nat, kind: Kind, rows: seq<Row>, cells: seq<seq<byte>>, pending: seq<Row>,
                         subs: seq<Sub>, row: Row, cell: seq<byte>, id: nat)
    requires PageSize(u) && LeafContents(mine, u, kind, rows, cells, pending, subs)
             && LeafLayout(u, kind, rows, cells, subs)
    requires Encodes(mine, u, kind, cell, row) && !Fit(cells + [cell], false, u) && pending != []
    ensures LeafLayout(u, kind, rows + [row], [cell], subs + [Closed(kind, id, cells, pending)])
  {
    var sub, last := Closed(kind, id, cells, pending), |pending| - 1;
    LastPending(mine, u, kind, rows, cells, pending, subs);
    EncodedSize(mine, u, kind, cell, row);
    EncodedSize(mine, u, kind, cells[last], pending[last]);
    BoundaryOfClosed(mine, u, kind, id, cells, pending);
    CloseLayout(u, kind, rows, cells, subs, sub, row, cell);
  }

  lemma CloseKeepsContents(mine: File, mine': File, u: nat, kind: Kind, rows: seq<Row>, cells: seq<seq<byte>>,
                           pending: seq<Row>, subs: seq<Sub>, row: Row, cell: seq<byte>, id: nat)
    requires PageSize(u) && Grows(mine, mine') && LeafContents(mine, u, kind, rows, cells, pending, subs) && rows != []
    requires Encodes(mine, u, kind, cell, row) && (kind == Index ==> |cells| >= 2)
    requires id in mine' && id < U32 && |mine'[id]| == u && IsPage(mine'[id], kind, false, KeptCells(kind, cells), 0)
    ensures LeafContents(mine', u, kind, rows + [row], [cell], [row], subs + [Closed(kind, id, cells, pending)])
  {
    var sub := Closed(kind, id, cells, pending);
    LeafContentsGrow(mine, mine', u, kind, rows, cells, pending, subs);
    CloseContents(mine', u, kind, rows, cells, pending, subs, id);
    EncodesGrows(mine, mine', u, kind, cell, row);
    RestartContents(mine', u, kind, rows, subs + [sub], row, cell);
  }

  /** A cell that does not fit ends the leaf; the leaf just flushed becomes a subtree. */
  lemma LeafStateClose(mine: File, mine': File, u: nat, kind: Kind, rows: seq<Row>, cells: seq<seq<byte>>,
                       pending: seq<Row>, subs: seq<Sub>, children: seq<Child>, row: Row, cell: seq<byte>, id: nat)
    requires PageSize(u) && Grows(mine, mine') && LeafState(mine, u, kind, rows, cells, pending, subs, children)
    requires Encodes(mine, u, kind, cell, row) && !Fit(cells + [cell], false, u)
    requires pending != [] && (kind == Index ==> |cells| >= 2) && NewPage(mine, mine', id)
    requires id in mine' && id < U32 && |mine'[id]| == u && IsPage(mine'[id], kind, false, KeptCells(kind, cells), 0)
    ensures var sub := Closed(kind, id, cells, pending);
            LeafState(mine', u, kind, rows + [row], [cell], [row], subs + [sub], children + [Child(id, sub.boundary)])
  {
    var sub := Closed(kind, id, cells, pending);
    hide LeafContents, LeafLayout, IsPage, Encodes, Fit, PageSize, KeptCells, SeparatePages, NewPage;
    SeparatePush(mine, mine', subs, sub);
    LastPending(mine, u, kind, rows, cells, pending, subs);
    CloseKeepsLayout(mine, u, kind, rows, cells, pending, subs, row, cell, id);
    CloseKeepsContents(mine, mine', u, kind, rows, cells, pending, subs, row, cell, id);
    ChildrenPush(subs, sub);
  }

  lemma ChildrenPush(subs: seq<Sub>, sub: Sub)
    ensures ChildrenOf(subs + [sub]) == ChildrenOf(subs) + [Child(sub.page, sub.boundary)]
    ensures Lengths(subs + [sub]) == Lengths(subs) + [|sub.boundary|]
  {
  }

  lemma LeafStateIsFull(mine: File, u: nat, kind: Kind, rows: seq<Row>, cells: seq<seq<byte>>, pending: seq<Row>,
                        subs: seq<Sub>, children: seq<Child>, row: Row, cell: seq<byte>)
    requires PageSize(u) && LeafState(mine, u, kind, rows, cells, pending, subs, children)
    requires Encodes(mine, u, kind, cell, row) && !Fit(cells + [cell], false, u)
    ensures pending != [] && (kind == Index ==> |cells| >= 2) && rows != []
            && rows[|rows| - 1] == pending[|pending| - 1]
    ensures EncodesAll(mine, u, kind, cells, pending)
  {
    hide Encodes, Fit, PageSize, LeafLayout, Bounded, Left, CellSize;
    EncodedSize(mine, u, kind, cell, row);
    FullLeafHasTwo(mine, u, kind, cells, pending, row, cell);
    LastPending(mine, u, kind, rows, cells, pending, subs);
  }

  /** The cell does not fit: the open leaf is flushed, and the cell is the first on the next one. */
  method BreakLeaf(w: PageWriter, page: Page, kind: Kind, children: seq<Child>, previous: i64, row: Row,
                   prefix: seq<byte>, payload: seq<byte>, ghost rows: seq<Row>, ghost pending: seq<Row>,
                       ghost subs: seq<Sub>)
    returns (r: Result<seq<Child>>, ghost pending': seq<Row>, ghost subs': seq<Sub>)
    requires w.Valid() && page.Valid() && page.bytes.Length == w.pageSize && page.kind == kind && !page.interior
    requires LeafState(w.mine, w.pageSize, kind, rows, page.cells, pending, subs, children)
    requires Encodes(w.mine, w.pageSize, kind, prefix + payload, row)
             && !Fit(page.cells + [prefix + payload], false, w.pageSize)
    requires rows != [] ==> previous == rows[|rows| - 1].rowid
    modifies w`nextPage, w`rangeEnd, w`position, w`mine, w.disk, w.allocator, page, page.bytes
    ensures w.Valid() && w.nextPage >= old(w.nextPage) && page.Valid()
    ensures Extended(old(w.disk.pages), old(w.mine), w.disk.pages, w.mine, w.Pending())
    ensures r.Ok? ==> LeafState(w.mine, w.pageSize, kind, rows + [row], page.cells, pending', subs', r.value)
    ensures r.Ok? ==> |subs'| == |subs| + 1 && |w.mine| == old(|w.mine|) + 1
    ensures w.allocator == null ==> (r.Ok? <==> old(w.Room()) >= 1) && w.rangeEnd == old(w.rangeEnd)
    ensures w.allocator == null && r.Ok? ==> w.Room() == old(w.Room()) - 1
  {
    hide PageWriter.Valid, Page.Valid, LockPage, Available, IsPage, Encodes, Extended, LeafState, PageSize, Closed,
         Fit, PageWriter.Room;
    ghost var u, mine, cells, cell := w.pageSize, w.mine, page.cells, prefix + payload;
    pending', subs' := pending, subs;
    LeafStateIsFull(mine, u, kind, rows, cells, pending, subs, children, row, cell);
    var flushed := FlushLeaf(w, page, kind, previous, pending);
    if flushed.Err? {
      return Err(flushed.message), pending', subs';
    }
    ExtendedGrows(old(w.disk.pages), mine, w.disk.pages, w.mine, w.Pending());
    LeafStateClose(mine, w.mine, u, kind, rows, cells, pending, subs, children, row, cell, flushed.value.page);
    EmptyPageFits(mine, u, kind, row, cell);
    page.FitsMeansFit(cell);
    page.PushParts(prefix, payload);
    return Ok(children + [flushed.value]), [row], subs + [Closed(kind, flushed.value.page, cells, pending)];
  }

  /** Puts one row on the open leaf, flushing the leaf first when the row does not fit. */
  method PlaceRow(w: PageWriter, page: Page, kind: Kind, children: seq<Child>, previous: i64, row: Row,
                  ghost rows: seq<Row>, ghost pending: seq<Row>, ghost subs: seq<Sub>)
    returns (r: Result<seq<Child>>, ghost pending': seq<Row>, ghost subs': seq<Sub>)
    requires w.Valid() && page.Valid() && page.bytes.Length == w.pageSize && page.kind == kind && !page.interior
    requires LeafState(w.mine, w.pageSize, kind, rows, page.cells, pending, subs, children) && Storable(kind, row)
    requires rows != [] ==> previous == rows[|rows| - 1].rowid
    modifies w`nextPage, w`rangeEnd, w`position, w`mine, w.disk, w.allocator, page, page.bytes
    ensures w.Valid() && w.nextPage >= old(w.nextPage) && page.Valid()
    ensures Extended(old(w.disk.pages), old(w.mine), w.disk.pages, w.mine, w.Pending())
    ensures r.Ok? ==> LeafState(w.mine, w.pageSize, kind, rows + [row], page.cells, pending', subs', r.value)
    ensures r.Ok? ==> |subs'| >= |subs|
    ensures w.allocator == null ==> w.rangeEnd == old(w.rangeEnd)
    ensures w.allocator == null && r.Ok? ==> w.Room() + RowPages(kind, w.pageSize, row) + |subs'|
                                             == old(w.Room()) + |subs|
    ensures r.Ok? ==> |w.mine| + |subs| == old(|w.mine|) + RowPages(kind, w.pageSize, row) + |subs'|
    ensures w.allocator == null && r.Err? ==> old(w.Room()) < RowPages(kind, w.pageSize, row)
                                              + PageBreaks(kind, w.pageSize, rows, row)
  {
    hide PageWriter.Valid, Page.Valid, LockPage, Available, IsPage, Encodes, Extended, LeafState, PageSize, RowPages,
         PageBreaks, Fit, PageWriter.Room;
    ghost var u, mine, pages := w.pageSize, w.mine, w.disk.pages;
    pending', subs' := pending, subs;
    var started := StartCell(w, kind, row);
    if started.Err? {
      return Err(started.message), pending', subs';
    }
    var (prefix, payload) := started.value;
    ghost var cell := prefix + payload;
    ghost var cells, mine1, pages1 := page.cells, w.mine, w.disk.pages;
    ExtendedGrows(pages, mine, pages1, mine1, w.Pending());
    LeafStateGrows(mine, mine1, u, kind, rows, cells, pending, subs, children);
    page.FitsMeansFit(cell);
    if page.Fits(|prefix| + |payload|) {
      LeafStateAdd(mine1, u, kind, rows, cells, pending, subs, children, row, cell);
      page.PushParts(prefix, payload);
      return Ok(children), pending + [row], subs;
    }
    BreakIsCounted(mine1, u, kind, rows, cells, pending, subs, children, row, cell);
    r, pending', subs' := BreakLeaf(w, page, kind, children, previous, row, prefix, payload, rows, pending, subs);
    ExtendedTransitive(pages, mine, pages1, mine1, w.disk.pages, w.mine, w.Pending());
  }

  lemma ExtendedGrows(a: File, m: File, b: File, m': File, pending: nat)
    requires Extended(a, m, b, m', pending)
    ensures Grows(m, m')
  {
  }

  /** Leaves finished by one more row: none or one. */
  ghost function PageBreaks(kind: Kind, u: nat, rows: seq<Row>, row: Row): nat
    requires PageSize(u)
  {
    if AllStorable(kind, rows + [row]) && AllStorable(kind, rows)
       && |LeafBoundaries(kind, u, rows + [row])| > |LeafBoundaries(kind, u, rows)| then 1 else 0
  }

  lemma BreakIsCounted(mine: File, u: nat, kind: Kind, rows: seq<Row>, cells: seq<seq<byte>>, pending: seq<Row>,
                       subs: seq<Sub>, children: seq<Child>, row: Row, cell: seq<byte>)
    requires PageSize(u) && LeafState(mine, u, kind, rows, cells, pending, subs, children)
    requires Encodes(mine, u, kind, cell, row) && !Fit(cells + [cell], false, u)
    ensures PageBreaks(kind, u, rows, row) == 1
  {
    EncodedSize(mine, u, kind, cell, row);
    RowFold(kind, u, rows, row);
    TotalLengthPush(cells, cell);
  }

  lemma EmptyPageFits(mine: File, u: nat, kind: Kind, row: Row, cell: seq<byte>)
    requires PageSize(u) && Encodes(mine, u, kind, cell, row)
    ensures Fit([] + [cell], false, u) && [] + [cell] == [cell]
  {
    EncodedSize(mine, u, kind, cell, row);
    BoundaryIsSmall(kind, u, row);
    OneCell(cell);
    assert [] + [cell] == [cell];
  }

  // ---------------------------------------------------------------- interior pages

  /** Lays the group out on an interior page: every child but the last becomes a cell. */
  method ParentImage(pageSize: PageBytes, kind: Kind, group: seq<Child>, ghost subs: seq<Sub>)
      returns (image: seq<byte>)
    requires group == ChildrenOf(subs) && |subs| >= 2 && OnePage(Lengths(subs), pageSize)
    requires forall i | 0 <= i < |subs| :: subs[i].page < U32
    ensures |image| == pageSize && IsParent(image, kind, subs)
  {
    hide PageSize, IsPage;
    var page := new Page(pageSize, kind, true);
    ghost var n := |subs| - 1;
    for i := 0 to |group| - 1
      invariant page.Valid() && page.bytes.Length == pageSize && page.interior && page.kind == kind
      invariant fresh(page) && fresh(page.bytes)
      invariant page.cells == ChildCells(subs[..i])
    {
      var child := group[i];
      var cell := BigEndian(child.page, 4) + child.boundary;
      ChildCellsFit(subs, i, pageSize);
      page.FitsMeansFit(cell + []);
      assert cell + [] == cell;
      assert ChildCells(subs[..i + 1]) == ChildCells(subs[..i]) + [cell];
      page.PushParts(cell, []);
    }
    image := page.Image(group[|group| - 1].page);
  }

  lemma {:induction false} ChildCellsLength(subs: seq<Sub>)
    ensures 2 * |subs| + TotalLength(ChildCells(subs)) == Separators(Lengths(subs))
  {
    if subs != [] {
      var n := |subs| - 1;
      ChildCellsLength(subs[..n]);
      assert ChildCells(subs)[..n] == ChildCells(subs[..n]) && Lengths(subs)[..n] == Lengths(subs[..n]);
    }
  }

  lemma {:induction false} SeparatorsGrow(bs: seq<nat>, i: nat)
    requires i <= |bs|
    ensures Separators(bs[..i]) <= Separators(bs)
    decreases |bs|
  {
    if i < |bs| {
      assert bs[..|bs| - 1][..i] == bs[..i];
      SeparatorsGrow(bs[..|bs| - 1], i);
    } else {
      assert bs[..i] == bs;
    }
  }

  /** Every prefix of the children fits on the page of their group. */
  lemma ChildCellsFit(subs: seq<Sub>, i: nat, u: nat)
    requires i < |subs| - 1 && OnePage(Lengths(subs), u)
    ensures Fit(ChildCells(subs[..i]) + [ChildCell(subs[i])], true, u)
  {
    var n := |subs| - 1;
    ChildCellsLength(subs[..i + 1]);
    assert ChildCells(subs[..i + 1]) == ChildCells(subs[..i]) + [ChildCell(subs[i])];
    assert Lengths(subs)[..n][..i + 1] == Lengths(subs[..i + 1]);
    SeparatorsGrow(Lengths(subs)[..n], i + 1);
  }

  /** Writes the parent of a group as a new page. */
  method AppendParent(w: PageWriter, kind: Kind, group: seq<Child>, ghost depth: nat, ghost subs: seq<Sub>)
    returns (r: Result<Child>)
    requires w.Valid() && group == ChildrenOf(subs) && |subs| >= 2 && OnePage(Lengths(subs), w.pageSize)
    requires Ready(w.mine, w.pageSize, kind, depth, subs)
    modifies w`nextPage, w`rangeEnd, w`position, w`mine, w.disk, w.allocator
    ensures w.Valid() && w.nextPage >= old(w.nextPage)
    ensures Extended(old(w.disk.pages), old(w.mine), w.disk.pages, w.mine, w.Pending())
    ensures r.Ok? ==> ParentOf(w.mine, w.pageSize, kind, depth, Merged(kind, r.value.page, subs), subs)
    ensures r.Ok? ==> r.value.boundary == subs[|subs| - 1].boundary && NewPage(old(w.mine), w.mine, r.value.page)
    ensures w.allocator == null ==> (r.Ok? <==> old(w.Room()) >= 1) && w.rangeEnd == old(w.rangeEnd)
    ensures w.allocator == null && r.Ok? ==> w.Room() == old(w.Room()) - 1
  {
    hide PageWriter.Valid, PageSize, LockPage, Available, IsParent, OnePage, ParentOf, Extended, NewPage, Ready, Skip,
         Lengths, Grows, PageWriter.Room, PageWriter.Pending;
    ghost var mine, pages := w.mine, w.disk.pages;
    PagesAreSmall(w.mine, w.pageSize, kind, depth, subs);
    var image := ParentImage(w.pageSize, kind, group, subs);
    var id := w.Append(image);
    if id.Err? {
      return Err(id.message);
    }
    ExtendedGrows(pages, mine, w.disk.pages, w.mine, w.Pending());
    ReadyGrows(mine, w.mine, w.pageSize, kind, depth, subs);
    ParentPage(w.mine, w.pageSize, kind, depth, id.value, subs);
    OneMorePage(mine, id.value, image);
    return Ok(Child(id.value, group[|group| - 1].boundary));
  }

  // ---------------------------------------------------------------- one level

  /** Parents written so far, and nothing else. */
  ghost predicate Progress(before: File, mineBefore: File, after: File, mine: File, pending: nat, parents: seq<Sub>) {
    && Extended(before, mineBefore, after, mine, pending)
    && (parents == [] ==> after == before && mine == mineBefore)
  }

  lemma ProgressStarts(pages: File, mine: File, pending: nat)
    ensures Progress(pages, mine, pages, mine, pending, [])
  {
  }

  lemma ProgressStep(a: File, m: File, b: File, m': File, c: File, m'': File, pending: nat, parents: seq<Sub>)
    requires Progress(a, m, b, m', pending, parents) && Extended(b, m', c, m'', pending)
    ensures Extended(a, m, c, m'', pending)
    ensures forall more :: more != [] ==> Progress(a, m, c, m'', pending, more)
    ensures c == b && m'' == m' ==> Progress(a, m, c, m'', pending, parents)
  {
  }

  /** The pages appended since `before` are those of `subs`, one for each. */
  ghost predicate Added(before: File, after: File, subs: seq<Sub>) {
    && after.Keys == before.Keys + PagesOf(subs) && |PagesOf(subs)| == |subs|
    && forall page | page in PagesOf(subs) :: page !in before
  }

  lemma NoneAdded(before: File)
    ensures Added(before, before, [])
  {
    assert PagesOf([]) == {};
  }

  lemma AddedPush(before: File, middle: File, after: File, subs: seq<Sub>, sub: Sub)
    requires Added(before, middle, subs) && NewPage(middle, after, sub.page)
    ensures Added(before, after, subs + [sub])
  {
    hide PagesOf;
    PagesPush(subs, sub);
    UnionPush(before.Keys, PagesOf(subs), sub.page);
  }

  lemma UnionPush(a: set<nat>, b: set<nat>, page: nat)
    requires page !in a + b
    ensures (a + b) + {page} == a + (b + {page}) && |b + {page}| == |b| + 1
  {
    assert page !in b;
  }

  /** Writes the deferred group, whose last child can no longer be borrowed. */
  method WriteDeferred(w: PageWriter, kind: Kind, previous: seq<Child>, next: seq<Child>, ghost depth: nat,
                       ghost subs: seq<Sub>, ghost deferred: seq<Sub>, ghost parents: seq<Sub>, ghost start: File)
    returns (r: Result<seq<Child>>, ghost parents': seq<Sub>)
    requires w.Valid() && Ready(w.mine, w.pageSize, kind, depth, subs)
    requires Ready(w.mine, w.pageSize, kind, depth, deferred) && |deferred| >= 2
             && OnePage(Lengths(deferred), w.pageSize)
    requires previous == ChildrenOf(deferred) && next == ChildrenOf(parents) && Added(start, w.mine, parents)
    modifies w`nextPage, w`rangeEnd, w`position, w`mine, w.disk, w.allocator
    ensures w.Valid() && w.nextPage >= old(w.nextPage) && Grows(old(w.mine), w.mine)
    ensures Extended(old(w.disk.pages), old(w.mine), w.disk.pages, w.mine, w.Pending())
    ensures Ready(w.mine, w.pageSize, kind, depth, subs)
    ensures r.Ok? ==> |parents'| == |parents| + 1 && parents'[..|parents|] == parents && r.value == ChildrenOf(parents')
    ensures r.Ok? ==> parents' == parents + [parents'[|parents|]]
    ensures r.Ok? ==> ParentOf(w.mine, w.pageSize, kind, depth, parents'[|parents|], deferred)
                      && Added(start, w.mine, parents')
    ensures w.allocator == null ==> (r.Ok? <==> old(w.Room()) >= 1) && w.rangeEnd == old(w.rangeEnd)
    ensures w.allocator == null && r.Ok? ==> w.Room() == old(w.Room()) - 1
  {
    hide PageWriter.Valid, PageSize, LockPage, Available, Extended, Ready, ParentOf, OnePage, Added, NewPage;
    ghost var mine, pages := w.mine, w.disk.pages;
    parents' := parents;
    var parent := AppendParent(w, kind, previous, depth, deferred);
    ExtendedGrows(pages, mine, w.disk.pages, w.mine, w.Pending());
    ReadyGrows(mine, w.mine, w.pageSize, kind, depth, subs);
    if parent.Err? {
      return Err(parent.message), parents';
    }
    ghost var merged := Merged(kind, parent.value.page, deferred);
    ChildrenPush(parents, merged);
    AddedPush(start, mine, w.mine, parents, merged);
    return Ok(next + [parent.value]), parents + [merged];
  }

  /** The next child starts a new group: the deferred group is written, the open one deferred. */
  method DeferGroup(w: PageWriter, kind: Kind, previous: Option<seq<Child>>, group: seq<Child>, used: nat,
                    next: seq<Child>, ghost depth: nat, ghost subs: seq<Sub>, ghost i: nat, ghost parents: seq<Sub>,
                        ghost start: File)
    returns (r: Result<seq<Child>>, ghost parents': seq<Sub>)
    requires w.Valid() && Ready(w.mine, w.pageSize, kind, depth, subs) && Small(Lengths(subs), w.pageSize) && i < |subs|
    requires LevelState(w.mine, w.pageSize, kind, depth, subs[..i], previous, group, used, next, parents)
    requires used + Additional(group) > w.pageSize && Added(start, w.mine, parents)
    modifies w`nextPage, w`rangeEnd, w`position, w`mine, w.disk, w.allocator
    ensures w.Valid() && w.nextPage >= old(w.nextPage)
    ensures Extended(old(w.disk.pages), old(w.mine), w.disk.pages, w.mine, w.Pending())
    ensures Ready(w.mine, w.pageSize, kind, depth, subs)
    ensures previous.None? ==> w.disk.pages == old(w.disk.pages) && w.mine == old(w.mine) && parents' == parents
    ensures previous.Some? && r.Ok? ==> parents' != []
    ensures r.Ok? ==> Added(start, w.mine, parents')
    ensures r.Ok? ==> LevelState(w.mine, w.pageSize, kind, depth, subs[..i + 1], Some(group),
                                 [Child(subs[i].page, subs[i].boundary)], 12, r.value, parents')
    ensures w.allocator == null ==> w.rangeEnd == old(w.rangeEnd)
    ensures w.allocator == null && r.Ok? ==> w.Room() + |parents'| == old(w.Room()) + |parents|
    ensures w.allocator == null && r.Err? ==> old(w.Room()) == 0 && |parents| + 2 <= |SubFold(subs, w.pageSize).closed|
  {
    hide PageWriter.Valid, PageSize, LockPage, Available, Extended, Ready, LevelState, ParentOf, Small, SubFold,
         Separators, OnePage, GroupFold, Added;
    ghost var u := w.pageSize;
    ghost var mine, pages := w.mine, w.disk.pages;
    NothingWritten(pages, mine, w.Pending());
    parents' := parents;
    UsedWithNext(mine, u, kind, depth, subs[..i], previous, group, used, next, parents);
    NextIsChildren(mine, u, kind, depth, subs[..i], previous, group, used, next, parents);
    assert subs[..i + 1] == subs[..i] + [subs[i]];
    var all := next;
    if previous.Some? {
      GroupsGrow(subs, i, u);
      DeferredGroup(mine, u, kind, depth, subs, i, previous, group, used, next, parents);
      ghost var deferred := SubFold(subs[..i], u).closed[|parents|];
      var written;
      written, parents' := WriteDeferred(w, kind, previous.value, next, depth, subs, deferred, parents, start);
      if written.Err? {
        return Err(written.message), parents';
      }
      all := written.value;
    } else {
      GrowsItself(mine);
    }
    LevelCut(mine, w.mine, u, kind, depth, subs[..i], previous, group, used, next, parents, subs[i], all, parents');
    return Ok(all), parents';
  }

  /** Reads the children of one level and writes the parents of all groups but the last two. */
  method GroupChildren(w: PageWriter, kind: Kind, children: seq<Child>, ghost depth: nat, ghost subs: seq<Sub>)
    returns (r: Result<(Option<seq<Child>>, seq<Child>, seq<Child>)>, ghost used': nat, ghost parents: seq<Sub>)
    requires w.Valid() && Ready(w.mine, w.pageSize, kind, depth, subs)
    requires children == ChildrenOf(subs) && Small(Lengths(subs), w.pageSize)
    modifies w`nextPage, w`rangeEnd, w`position, w`mine, w.disk, w.allocator
    ensures w.Valid() && w.nextPage >= old(w.nextPage)
    ensures Extended(old(w.disk.pages), old(w.mine), w.disk.pages, w.mine, w.Pending())
    ensures r.Ok? && parents == [] ==> w.disk.pages == old(w.disk.pages) && w.mine == old(w.mine)
    ensures r.Ok? ==> Ready(w.mine, w.pageSize, kind, depth, subs) && Added(old(w.mine), w.mine, parents)
    ensures r.Ok? ==> LevelState(w.mine, w.pageSize, kind, depth, subs, r.value.0, r.value.1, used', r.value.2, parents)
    ensures w.allocator == null ==> w.rangeEnd == old(w.rangeEnd)
    ensures w.allocator == null && r.Ok? ==> w.Room() + |parents| == old(w.Room())
    ensures w.allocator == null && r.Err? ==> old(w.Room()) + 2 <= |SubFold(subs, w.pageSize).closed|
  {
    hide PageWriter.Valid, PageSize, LockPage, Available, Extended, Ready, LevelState, ParentOf, Small, Progress,
         SubFold, Separators, Lengths, Added;
    ghost var u := w.pageSize;
    var previous: Option<seq<Child>> := None;
    var group: seq<Child> := [];
    var used: nat := 12;
    var next: seq<Child> := [];
    parents, used' := [], used;
    NothingWritten(w.disk.pages, w.mine, w.Pending());
    LevelStarts(w.mine, u, kind, depth);
    assert subs[..0] == [];
    ProgressStarts(w.disk.pages, w.mine, w.Pending());
    NoneAdded(w.mine);
    for i := 0 to |children|
      invariant w.Valid() && w.nextPage >= old(w.nextPage)
      invariant Progress(old(w.disk.pages), old(w.mine), w.disk.pages, w.mine, w.Pending(), parents)
      invariant Ready(w.mine, u, kind, depth, subs) && Added(old(w.mine), w.mine, parents)
      invariant LevelState(w.mine, u, kind, depth, subs[..i], previous, group, used, next, parents)
      invariant w.allocator == null ==> w.rangeEnd == old(w.rangeEnd) && w.Room() + |parents| == old(w.Room())
    {
      var child := children[i];
      assert subs[..i + 1] == subs[..i] + [subs[i]];
      if used + Additional(group) > w.pageSize {
        ghost var mine, pages, done := w.mine, w.disk.pages, parents;
        var deferred;
        deferred, parents := DeferGroup(w, kind, previous, group, used, next, depth, subs, i, parents, old(w.mine));
        ProgressStep(old(w.disk.pages), old(w.mine), pages, mine, w.disk.pages, w.mine, w.Pending(), done);
        if deferred.Err? {
          return Err(deferred.message), used, parents;
        }
        next := deferred.value;
        previous := Some(group);
        group := [child];
        used := 12;
      } else {
        LevelJoin(w.mine, u, kind, depth, subs[..i], previous, group, used, next, parents, subs[i]);
        used := used + Additional(group);
        group := group + [child];
      }
    }
    assert subs[..|children|] == subs;
    ProgressEnds(old(w.disk.pages), old(w.mine), w.disk.pages, w.mine, w.Pending(), parents);
    return Ok((previous, group, next)), used, parents;
  }

  lemma ProgressEnds(a: File, m: File, b: File, m': File, pending: nat, parents: seq<Sub>)
    requires Progress(a, m, b, m', pending, parents)
    ensures Extended(a, m, b, m', pending) && (parents == [] ==> b == a && m' == m)
  {
  }

  lemma GrowsItself(file: File)
    ensures Grows(file, file)
  {
  }

  lemma NextIsChildren(file: File, u: nat, kind: Kind, depth: nat, read: seq<Sub>, previous: Option<seq<Child>>,
                       group: seq<Child>, used: nat, next: seq<Child>, parents: seq<Sub>)
    requires PageSize(u) && LevelState(file, u, kind, depth, read, previous, group, used, next, parents)
    ensures next == ChildrenOf(parents)
  {
  }

  /** The deferred group is the last closed one, and it can be written. */
  lemma DeferredGroup(file: File, u: nat, kind: Kind, depth: nat, subs: seq<Sub>, i: nat, previous: Option<seq<Child>>,
                      group: seq<Child>, used: nat, next: seq<Child>, parents: seq<Sub>)
    requires PageSize(u) && i <= |subs| && LevelState(file, u, kind, depth, subs[..i], previous, group, used, next,
                                                      parents)
    requires previous.Some? && Ready(file, u, kind, depth, subs) && Small(Lengths(subs), u)
    ensures var closed := SubFold(subs[..i], u).closed;
            && |parents| + 1 == |closed| && previous.value == ChildrenOf(closed[|parents|])
            && Ready(file, u, kind, depth, closed[|parents|]) && |closed[|parents|]| >= 4
            && OnePage(Lengths(closed[|parents|]), u)
  {
    ClosedIsReady(file, u, kind, depth, subs, i, |parents|);
  }

  lemma {:induction false} GroupsGrow(subs: seq<Sub>, i: nat, u: nat)
    requires i < |subs| && 12 + Separators(Lengths(SubFold(subs[..i], u).open)) > u
    ensures |SubFold(subs[..i], u).closed| + 1 <= |SubFold(subs, u).closed|
  {
    SubFoldStep(subs, i, u);
    ClosedGrows(subs, i + 1, u);
  }

  lemma {:induction false} ClosedGrows(subs: seq<Sub>, i: nat, u: nat)
    requires i <= |subs|
    ensures |SubFold(subs[..i], u).closed| <= |SubFold(subs, u).closed|
    decreases |subs| - i
  {
    if i == |subs| {
      assert subs[..i] == subs;
    } else {
      SubFoldStep(subs, i, u);
      ClosedGrows(subs, i + 1, u);
    }
  }

  /** A last group of one child takes the last child of the deferred group. */
  method Borrow(previous: seq<Child>, group: seq<Child>) returns (previous': seq<Child>, group': seq<Child>)
    requires previous != []
    ensures previous' + group' == previous + group
    ensures |group'| == if |group| == 1 then 2 else |group|
  {
    previous', group' := previous, group;
    if |group| == 1 {
      group' := [previous[|previous| - 1]] + group;
      previous' := previous[..|previous| - 1];
    }
  }

  /** After borrowing, the two open lists are the last two final groups. */
  lemma LastTwoGroups(file: File, u: nat, kind: Kind, depth: nat, subs: seq<Sub>, previous: Option<seq<Child>>,
                      group: seq<Child>, used: nat, next: seq<Child>, parents: seq<Sub>, previous': seq<Child>,
                          group': seq<Child>)
    requires PageSize(u) && LevelState(file, u, kind, depth, subs, previous, group, used, next, parents)
    requires Small(Lengths(subs), u) && |subs| >= 2 && previous.Some?
    requires previous' + group' == previous.value + group && |group'| == if |group| == 1 then 2 else |group|
    ensures AtLeast(SubFold(subs, u).closed, 1)
    ensures var final := SubSettled(SubFold(subs, u));
            && |final| == |parents| + 2
            && previous' == ChildrenOf(final[|parents|]) && group' == ChildrenOf(final[|parents| + 1])
            && ParentsOf(file, u, kind, depth, parents, final[..|parents|]) && next == ChildrenOf(parents)
  {
    FinalGroups(subs, u);
    hide PageSize, ParentsOf, SubFold, Small, OnePageEach, NextLevel, Join, Separators;
    var g := SubFold(subs, u);
    BorrowedGroups(g, previous.value, group, previous', group');
    assert SubSettled(g)[..|parents|] == g.closed[..|parents|];
  }

  lemma BorrowedGroups(g: SubGroups, previous: seq<Child>, group: seq<Child>, previous': seq<Child>, group': seq<Child>)
    requires AtLeast(g.closed, 1) && g.closed != []
    requires previous == ChildrenOf(g.closed[|g.closed| - 1]) && group == ChildrenOf(g.open)
    requires previous' + group' == previous + group && |group'| == if |group| == 1 then 2 else |group|
    ensures var final, k := SubSettled(g), |g.closed|;
            |final| == k + 1 && previous' == ChildrenOf(final[k - 1]) && group' == ChildrenOf(final[k])
  {
    var lender := g.closed[|g.closed| - 1];
    var n := |previous'|;
    assert previous' == (previous + group)[..n] && group' == (previous + group)[n..];
  }

  /** Writes the last two groups of a level. */
  method CloseLevel(w: PageWriter, kind: Kind, previous: seq<Child>, group: seq<Child>, next: seq<Child>,
                    ghost depth: nat, ghost subs: seq<Sub>, ghost parents: seq<Sub>, ghost final: seq<seq<Sub>>,
                        ghost start: File)
    returns (r: Result<seq<Child>>, ghost parents': seq<Sub>)
    requires w.Valid() && Ready(w.mine, w.pageSize, kind, depth, subs) && Small(Lengths(subs), w.pageSize)
             && |subs| >= 2
    requires AtLeast(SubFold(subs, w.pageSize).closed, 1) && final == SubSettled(SubFold(subs, w.pageSize))
    requires |final| == |parents| + 2 && previous == ChildrenOf(final[|parents|])
             && group == ChildrenOf(final[|parents| + 1])
    requires ParentsOf(w.mine, w.pageSize, kind, depth, parents, final[..|parents|]) && next == ChildrenOf(parents)
    requires Added(start, w.mine, parents)
    modifies w`nextPage, w`rangeEnd, w`position, w`mine, w.disk, w.allocator
    ensures w.Valid() && w.nextPage >= old(w.nextPage)
    ensures Extended(old(w.disk.pages), old(w.mine), w.disk.pages, w.mine, w.Pending())
    ensures r.Ok? ==> ParentsOf(w.mine, w.pageSize, kind, depth, parents', final) && r.value == ChildrenOf(parents')
    ensures r.Ok? ==> |parents'| == |parents| + 2 && Added(start, w.mine, parents')
    ensures r.Ok? ==> Ready(w.mine, w.pageSize, kind, depth, subs)
    ensures w.allocator == null ==> (r.Ok? <==> old(w.Room()) >= 2) && w.rangeEnd == old(w.rangeEnd)
    ensures w.allocator == null && r.Ok? ==> w.Room() == old(w.Room()) - 2
  {
    hide PageWriter.Valid, PageSize, LockPage, Available, Extended, Ready, ParentOf, ParentsOf, Small, OnePage,
         SubFold, Added, NewPage;
    ghost var u, k, before, first := w.pageSize, |parents|, w.mine, w.disk.pages;
    parents' := parents;
    FinalIsReady(w.mine, u, kind, depth, subs, k);
    var left := AppendParent(w, kind, previous, depth, final[k]);
    if left.Err? {
      return Err(left.message), parents';
    }
    ghost var mine, pages := w.mine, w.disk.pages;
    ExtendedGrows(first, before, pages, mine, w.Pending());
    ReadyGrows(before, mine, u, kind, depth, subs);
    FinalIsReady(mine, u, kind, depth, subs, k + 1);
    var right := AppendParent(w, kind, group, depth, final[k + 1]);
    ExtendedTransitive(first, before, pages, mine, w.disk.pages, w.mine, w.Pending());
    if right.Err? {
      return Err(right.message), parents';
    }
    ExtendedGrows(pages, mine, w.disk.pages, w.mine, w.Pending());
    ReadyGrows(mine, w.mine, u, kind, depth, subs);
    ghost var a, b := Merged(kind, left.value.page, final[k]), Merged(kind, right.value.page, final[k + 1]);
    TwoMoreParents(before, mine, w.mine, u, kind, depth, parents, final, a, b);
    AddedPush(start, before, mine, parents, a);
    AddedPush(start, mine, w.mine, parents + [a], b);
    ChildrenPush(parents, a);
    ChildrenPush(parents + [a], b);
    return Ok(next + [left.value] + [right.value]), parents + [a] + [b];
  }

  lemma TwoMoreParents(start: File, mine: File, file: File, u: nat, kind: Kind, depth: nat, parents: seq<Sub>,
                       final: seq<seq<Sub>>, a: Sub, b: Sub)
    requires PageSize(u) && Grows(start, mine) && Grows(mine, file) && |final| == |parents| + 2
    requires ParentsOf(start, u, kind, depth, parents, final[..|parents|])
    requires ParentOf(mine, u, kind, depth, a, final[|parents|])
             && ParentOf(file, u, kind, depth, b, final[|parents| + 1])
    ensures ParentsOf(file, u, kind, depth, parents + [a] + [b], final)
  {
    hide ParentOf, PageSize;
    var k := |parents|;
    ParentsGrow(start, mine, u, kind, depth, parents, final[..k]);
    ParentsPush(mine, u, kind, depth, parents, parents + [a], final);
    ParentsGrow(mine, file, u, kind, depth, parents + [a], final[..k + 1]);
    ParentsPush(file, u, kind, depth, parents + [a], parents + [a] + [b], final);
    assert final[..k + 2] == final;
  }

  // ---------------------------------------------------------------- all leaves

  /** What has been spent on the first `i` rows never exceeds what the tree needs. */
  lemma NeededSoFar(kind: Kind, u: nat, rows: seq<Row>, i: nat)
    requires PageSize(u) && AllStorable(kind, rows) && i <= |rows|
    ensures AllStorable(kind, rows[..i])
    ensures OverflowTotal(kind, u, rows[..i]) + |LeafBoundaries(kind, u, rows[..i])| <= Needed(kind, u, rows)
  {
    assert AllStorable(kind, rows[..i]);
    OverflowTotalGrows(kind, u, rows, i);
    LeafFoldGrows(Items(kind, u, rows), i, u);
    assert Items(kind, u, rows[..i]) == Items(kind, u, rows)[..i];
    LeafBoundariesAreSmall(kind, u, rows);
  }

  lemma OverflowTotalStep(kind: Kind, u: nat, rows: seq<Row>, i: nat)
    requires PageSize(u) && i < |rows|
    ensures OverflowTotal(kind, u, rows[..i + 1]) == OverflowTotal(kind, u, rows[..i]) + RowPages(kind, u, rows[i])
  {
    assert rows[..i + 1][..i] == rows[..i];
  }

  /** A row that could not be placed needed pages that were not there. */
  lemma NeededNext(kind: Kind, u: nat, rows: seq<Row>, i: nat)
    requires PageSize(u) && AllStorable(kind, rows) && i < |rows|
    ensures AllStorable(kind, rows[..i])
    ensures OverflowTotal(kind, u, rows[..i]) + |LeafBoundaries(kind, u, rows[..i])|
            + RowPages(kind, u, rows[i]) + PageBreaks(kind, u, rows[..i], rows[i]) <= Needed(kind, u, rows)
  {
    hide PageSize, Needed, OverflowTotal, LeafBoundaries, RowPages, PageBreaks;
    NeededSoFar(kind, u, rows, i);
    NeededSoFar(kind, u, rows, i + 1);
    OverflowTotalStep(kind, u, rows, i);
    assert rows[..i + 1] == rows[..i] + [rows[i]];
    BreaksAddUp(kind, u, rows[..i], rows[i]);
  }

  lemma BreaksAddUp(kind: Kind, u: nat, rows: seq<Row>, row: Row)
    requires PageSize(u) && AllStorable(kind, rows) && Storable(kind, row)
    ensures AllStorable(kind, rows + [row])
    ensures |LeafBoundaries(kind, u, rows + [row])| == |LeafBoundaries(kind, u, rows)| + PageBreaks(kind, u, rows, row)
  {
    RowFold(kind, u, rows, row);
    hide LeafFold, Items, CellSize, BoundarySize;
  }

  lemma LeavesWritten(mine: File, u: nat, kind: Kind, rows: seq<Row>, cells: seq<seq<byte>>, pending: seq<Row>,
                      subs: seq<Sub>, children: seq<Child>)
    requires PageSize(u) && LeafState(mine, u, kind, rows, cells, pending, subs, children)
    ensures AllStorable(kind, rows) && LeafBoundaries(kind, u, rows) == Lengths(subs)
    ensures EncodesAll(mine, u, kind, cells, pending) && (rows != [] ==> pending != []) && children == ChildrenOf(subs)
    ensures SeparatePages(mine, subs)
  {
  }

  lemma LeavesStart(u: nat, kind: Kind)
    requires PageSize(u)
    ensures LeafState(map[], u, kind, [], [], [], [], [])
    ensures OverflowTotal(kind, u, []) == 0
  {
    assert PagesOf([]) == {};
    LeafBoundariesAreSmall(kind, u, []);
  }

  /** Reads every row and writes every leaf but the last, which stays on `page`. */
  method WriteLeaves(w: PageWriter, page: Page, kind: Kind, rows: seq<Row>)
    returns (r: Result<seq<Child>>, ghost pending: seq<Row>, ghost subs: seq<Sub>)
    requires w.Valid() && w.mine == map[] && AllStorable(kind, rows)
    requires page.Valid() && page.bytes.Length == w.pageSize && page.kind == kind && !page.interior && page.cells == []
    modifies w`nextPage, w`rangeEnd, w`position, w`mine, w.disk, w.allocator, page, page.bytes
    ensures w.Valid() && w.nextPage >= old(w.nextPage) && page.Valid()
    ensures Extended(old(w.disk.pages), old(w.mine), w.disk.pages, w.mine, w.Pending())
    ensures r.Ok? ==> LeafState(w.mine, w.pageSize, kind, rows, page.cells, pending, subs, r.value)
    ensures r.Ok? && kind == Table ==> Ascending(rows)
    ensures w.allocator == null ==> w.rangeEnd == old(w.rangeEnd)
    ensures w.allocator == null && r.Ok? ==> w.Room() + OverflowTotal(kind, w.pageSize, rows) + |subs| == old(w.Room())
    ensures r.Ok? ==> |w.mine| == OverflowTotal(kind, w.pageSize, rows) + |subs|
    ensures w.allocator == null && r.Err? && (kind == Table ==> Ascending(rows)) ==>
            old(w.Room()) < Needed(kind, w.pageSize, rows)
  {
    hide PageWriter.Valid, Page.Valid, LockPage, Available, PageSize, Extended, LeafState, OverflowTotal, Needed,
         RowPages, PageBreaks, LeafBoundaries;
    ghost var u := w.pageSize;
    var children := [];
    var previous: Option<i64> := None;
    pending, subs := [], [];
    LeavesStart(u, kind);
    NothingWritten(w.disk.pages, w.mine, w.Pending());
    assert rows[..0] == [];
    for i := 0 to |rows|
      invariant w.Valid() && w.nextPage >= old(w.nextPage) && page.Valid()
      invariant Extended(old(w.disk.pages), old(w.mine), w.disk.pages, w.mine, w.Pending())
      invariant LeafState(w.mine, u, kind, rows[..i], page.cells, pending, subs, children)
      invariant previous == if i == 0 then None else Some(rows[i - 1].rowid)
      invariant kind == Table ==> Ascending(rows[..i])
      invariant w.allocator == null ==> w.rangeEnd == old(w.rangeEnd)
      invariant w.allocator == null ==> w.Room() + OverflowTotal(kind, u, rows[..i]) + |subs| == old(w.Room())
      invariant |w.mine| == OverflowTotal(kind, u, rows[..i]) + |subs|
    {
      var row := rows[i];
      if kind == Table && previous.Some? && row.rowid <= previous.value {
        return Err("table rowids are not strictly increasing"), pending, subs;
      }
      LeavesWritten(w.mine, u, kind, rows[..i], page.cells, pending, subs, children);
      NeededNext(kind, u, rows, i);
      OverflowTotalStep(kind, u, rows, i);
      ghost var mine, pages := w.mine, w.disk.pages;
      var placed;
      placed, pending, subs := PlaceRow(w, page, kind, children,
                                        if previous.Some? then previous.value else 0, row, rows[..i], pending, subs);
      ExtendedTransitive(old(w.disk.pages), old(w.mine), pages, mine, w.disk.pages, w.mine, w.Pending());
      if placed.Err? {
        return Err(placed.message), pending, subs;
      }
      children := placed.value;
      previous := Some(row.rowid);
      assert rows[..i + 1] == rows[..i] + [row];
    }
    assert rows[..|rows|] == rows;
    return Ok(children), pending, subs;
  }

  // ---------------------------------------------------------------- one level, whole trees

  /** The root page replaces the file's; nothing else changes. */
  ghost predicate RootReplaced(before: File, mineBefore: File, after: File, mine: File, root: nat) {
    && root in after && after == before[root := after[root]] && mine == mineBefore - {root}
  }

  /** Where the root may be. */
  ghost predicate RootAllowed(w: PageWriter, root: nat)
    reads w, w.allocator
  {
    && (w.assignedRoot.Some? ==> w.assignedRoot.value == root)
    && 1 < root < (if w.allocator != null then w.allocator.bootstrapEnd else w.nextPage)
  }

  lemma PageHasRoom(u: nat)
    requires PageSize(u)
    ensures u >= 512
  {
  }

  lemma LevelGroups(subs: seq<Sub>, u: nat)
    requires Small(Lengths(subs), u) && u >= 12 && |subs| >= 2
    ensures |NextLevel(Lengths(subs), u)| == |SubFold(subs, u).closed| + 1
    ensures SubFold(subs, u).closed == [] <==> GroupFold(Lengths(subs), u).closed == []
  {
    hide GroupFold, SubFold;
    FinalGroups(subs, u);
    SubFoldLengths(subs, u);
  }

  /** When nothing was deferred, all children fit on the root. */
  lemma LevelEnds(file: File, u: nat, kind: Kind, depth: nat, subs: seq<Sub>, previous: Option<seq<Child>>,
                  group: seq<Child>, used: nat, next: seq<Child>, parents: seq<Sub>)
    requires PageSize(u) && LevelState(file, u, kind, depth, subs, previous, group, used, next, parents)
    requires subs != [] && Small(Lengths(subs), u)
    ensures previous.None? <==> SubFold(subs, u).closed == []
    ensures previous.None? ==> group == ChildrenOf(subs) && OnePage(Lengths(subs), u) && parents == []
    ensures previous.Some? ==> |previous.value| >= 4 && |parents| + 1 == |SubFold(subs, u).closed|
  {
    hide ParentsOf;
    SubFoldJoins(subs, u);
    SubFoldLengths(subs, u);
    GroupsFit(Lengths(subs), u);
    ClosedGroupsAreLarge(Lengths(subs), u);
    LengthsEachLengths(SubFold(subs, u).closed, 4);
    hide SubFold, GroupFold, PageSize;
    var g := SubFold(subs, u);
    if g.closed == [] {
      assert Join(g.closed) == [] && [] + g.open == g.open;
    }
  }

  lemma LevelIsReady(file: File, u: nat, kind: Kind, depth: nat, subs: seq<Sub>, parents: seq<Sub>,
                     final: seq<seq<Sub>>)
    requires PageSize(u) && Ready(file, u, kind, depth, subs) && Small(Lengths(subs), u) && |subs| >= 2
    requires AtLeast(SubFold(subs, u).closed, 1) && SubFold(subs, u).closed != []
             && final == SubSettled(SubFold(subs, u))
    requires ParentsOf(file, u, kind, depth, parents, final)
    ensures Ready(file, u, kind, depth + 1, parents) && Contents(kind, parents) == Contents(kind, subs)
    ensures |parents| >= 2 && Lengths(parents) == NextLevel(Lengths(subs), u) && Above(file, u, kind, parents, subs)
  {
    hide SubFold, Small, Ready, ParentOf, Contents, NextLevel, Above, Join;
    FinalGroups(subs, u);
    ParentsAreReady(file, u, kind, depth, subs, parents, final);
    ParentsAreAbove(file, u, kind, depth, parents, final);
  }

  /** Every subtree of one level is the child of a page of the next. */
  ghost predicate Above(file: File, u: nat, kind: Kind, parents: seq<Sub>, subs: seq<Sub>)
    requires PageSize(u)
  {
    forall s | s in subs :: exists m :: 0 <= m < |parents| && IsChild(file, u, kind, parents[m].page, s.page)
  }

  lemma {:induction false} ParentsAreAbove(file: File, u: nat, kind: Kind, depth: nat, parents: seq<Sub>,
                                           groups: seq<seq<Sub>>)
    requires PageSize(u) && ParentsOf(file, u, kind, depth, parents, groups)
    ensures Above(file, u, kind, parents, Join(groups))
  {
    hide IsChild, SubTree, Searchable, Merged;
    forall s | s in Join(groups) ensures exists m :: 0 <= m < |parents|
                                                     && IsChild(file, u, kind, parents[m].page, s.page) {
      var m := GroupOf(groups, s);
      assert ParentOf(file, u, kind, depth, parents[m], groups[m]);
    }
  }

  lemma {:induction false} GroupOf<T>(groups: seq<seq<T>>, x: T) returns (m: nat)
    requires x in Join(groups)
    ensures m < |groups| && x in groups[m]
    decreases |groups|
  {
    var last := |groups| - 1;
    if x in groups[last] {
      m := last;
    } else {
      m := GroupOf(groups[..last], x);
    }
  }

  /** What hangs from one level hangs from the next, and so do the pages of that level. */
  lemma NextAllUnder(mine: File, mine': File, u: nat, kind: Kind, subs: seq<Sub>, parents: seq<Sub>, nodes: set<nat>)
    requires PageSize(u) && Grows(mine, mine') && AllUnder(mine, u, kind, subs, nodes)
             && Above(mine', u, kind, parents, subs)
    ensures AllUnder(mine', u, kind, parents, nodes + PagesOf(parents))
  {
    hide IsChild;
    forall page | page in nodes + PagesOf(parents) ensures Under(mine', u, kind, parents, page) {
      if page in nodes {
        assert Under(mine, u, kind, subs, page);
        var i: nat, n: nat :| i < |subs| && LeadsDown(mine, u, kind, subs[i].page, n, page);
        LeadsDownGrows(mine, mine', u, kind, subs[i].page, n, page);
        assert subs[i] in subs;
        var m :| 0 <= m < |parents| && IsChild(mine', u, kind, parents[m].page, subs[i].page);
        assert LeadsDown(mine', u, kind, parents[m].page, n + 1, page);
      } else {
        PagesAreUnder(mine', u, kind, parents, page);
      }
    }
  }

  lemma PagesAreUnder(file: File, u: nat, kind: Kind, subs: seq<Sub>, page: nat)
    requires PageSize(u) && page in PagesOf(subs)
    ensures Under(file, u, kind, subs, page)
  {
    var s :| s in subs && s.page == page;
    var i :| 0 <= i < |subs| && subs[i] == s;
    assert LeadsDown(file, u, kind, subs[i].page, 0, page);
  }

  /** Borrows if need be, writes the last two groups, and hands over the level above. */
  method FinishLevel(w: PageWriter, kind: Kind, previous: seq<Child>, group: seq<Child>, next: seq<Child>,
                     ghost used: nat, ghost depth: nat, ghost subs: seq<Sub>, ghost parents: seq<Sub>,
                         ghost start: File)
    returns (r: Result<seq<Child>>, ghost parents': seq<Sub>)
    requires w.Valid() && Ready(w.mine, w.pageSize, kind, depth, subs) && Small(Lengths(subs), w.pageSize)
             && |subs| >= 2
    requires Added(start, w.mine, parents)
    requires LevelState(w.mine, w.pageSize, kind, depth, subs, Some(previous), group, used, next, parents)
    modifies w`nextPage, w`rangeEnd, w`position, w`mine, w.disk, w.allocator
    ensures w.Valid() && w.nextPage >= old(w.nextPage)
    ensures Extended(old(w.disk.pages), old(w.mine), w.disk.pages, w.mine, w.Pending())
    ensures r.Ok? ==>
              && Ready(w.mine, w.pageSize, kind, depth + 1, parents')
                 && Contents(kind, parents') == Contents(kind, subs)
              && r.value == ChildrenOf(parents') && |parents'| == |parents| + 2
              && Lengths(parents') == NextLevel(Lengths(subs), w.pageSize)
              && Above(w.mine, w.pageSize, kind, parents', subs) && Added(start, w.mine, parents')
    ensures w.allocator == null ==> (r.Ok? <==> old(w.Room()) >= 2) && w.rangeEnd == old(w.rangeEnd)
    ensures w.allocator == null && r.Ok? ==> w.Room() == old(w.Room()) - 2
  {
    hide PageWriter.Valid, PageSize, LockPage, Available, Extended, Ready, LevelState, ParentsOf, Small, SubFold,
         NextLevel, Contents, Above, Added;
    ghost var u := w.pageSize;
    LevelEnds(w.mine, u, kind, depth, subs, Some(previous), group, used, next, parents);
    var left, right := Borrow(previous, group);
    LastTwoGroups(w.mine, u, kind, depth, subs, Some(previous), group, used, next, parents, left, right);
    ghost var final := SubSettled(SubFold(subs, u));
    r, parents' := CloseLevel(w, kind, left, right, next, depth, subs, parents, final, start);
    if r.Ok? {
      LevelIsReady(w.mine, u, kind, depth, subs, parents', final);
    }
  }

  /** Turns the children of one level into parents; a single group becomes the root. */
  method Level(w: PageWriter, root: nat, kind: Kind, children: seq<Child>, ghost depth: nat, ghost subs: seq<Sub>)
    returns (r: Result<Option<seq<Child>>>, ghost parents: seq<Sub>)
    requires w.Valid() && Ready(w.mine, w.pageSize, kind, depth, subs) && |subs| >= 2
    requires children == ChildrenOf(subs) && Small(Lengths(subs), w.pageSize)
    modifies w`nextPage, w`rangeEnd, w`position, w`mine, w.disk, w.allocator
    ensures w.Valid() && w.nextPage >= old(w.nextPage)
    ensures r.Ok? ==> (r.value.None? <==> GroupFold(Lengths(subs), w.pageSize).closed == [])
    ensures r.Ok? && r.value.None? ==>
              && RootReplaced(old(w.disk.pages), old(w.mine), w.disk.pages, w.mine, root)
              && |w.disk.pages[root]| == w.pageSize && IsParent(w.disk.pages[root], kind, subs)
              && RootAllowed(w, root)
    ensures r.Err? || r.value.Some? ==> Extended(old(w.disk.pages), old(w.mine), w.disk.pages, w.mine, w.Pending())
    ensures r.Ok? && r.value.Some? ==>
              && Ready(w.mine, w.pageSize, kind, depth + 1, parents) && Contents(kind, parents) == Contents(kind, subs)
              && r.value.value == ChildrenOf(parents) && |parents| >= 2
              && Lengths(parents) == NextLevel(Lengths(subs), w.pageSize)
              && Above(w.mine, w.pageSize, kind, parents, subs) && Added(old(w.mine), w.mine, parents)
    ensures w.allocator == null ==> w.rangeEnd == old(w.rangeEnd)
    ensures w.allocator == null && r.Ok? ==> w.Room() + (if r.value.None? then 0 else |parents|) == old(w.Room())
    ensures w.allocator == null && r.Err? ==>
              if GroupFold(Lengths(subs), w.pageSize).closed != [] then
                  old(w.Room()) < |NextLevel(Lengths(subs), w.pageSize)|
              else w.Room() == old(w.Room()) && !RootAllowed(w, root)
  {
    hide PageWriter.Valid, PageSize, LockPage, Available, Extended, Ready, LevelState, Small, IsParent, SubFold,
         GroupFold, OnePage, NextLevel, Contents, Above, Added;
    ghost var u, mine, pages := w.pageSize, w.mine, w.disk.pages;
    PageHasRoom(u);
    LevelGroups(subs, u);
    var grouped;
    ghost var used;
    grouped, used, parents := GroupChildren(w, kind, children, depth, subs);
    if grouped.Err? {
      return Err(grouped.message), parents;
    }
    var (previous, group, next) := grouped.value;
    LevelEnds(w.mine, u, kind, depth, subs, previous, group, used, next, parents);
    if previous.None? {
      PagesAreSmall(w.mine, u, kind, depth, subs);
      var image := ParentImage(w.pageSize, kind, group, subs);
      var written := w.WriteRoot(root, image);
      if written.Err? {
        return Err(written.message), parents;
      }
      return Ok(None), parents;
    }
    ghost var mine1, pages1 := w.mine, w.disk.pages;
    var closed;
    closed, parents := FinishLevel(w, kind, previous.value, group, next, used, depth, subs, parents, mine);
    ExtendedTransitive(pages, mine, pages1, mine1, w.disk.pages, w.mine, w.Pending());
    if closed.Err? {
      return Err(closed.message), parents;
    }
    return Ok(Some(closed.value)), parents;
  }

  // ---------------------------------------------------------------- whole trees

  lemma LastLeafIsReady(mine: File, mine': File, u: nat, kind: Kind, rows: seq<Row>, cells: seq<seq<byte>>,
                        pending: seq<Row>, subs: seq<Sub>, children: seq<Child>, id: nat)
    requires PageSize(u) && Grows(mine, mine') && LeafState(mine, u, kind, rows, cells, pending, subs, children)
    requires rows != [] && (kind == Table ==> Ascending(rows))
    requires id in mine' && id < U32 && |mine'[id]| == u && IsPage(mine'[id], kind, false, cells, 0)
    ensures pending != []
    ensures var all := subs + [Sub(id, [], pending, pending[|pending| - 1])];
            && Ready(mine', u, kind, 0, all) && Contents(kind, all) == rows
            && ChildrenOf(all) == children + [Child(id, [])] && Lengths(all) == Lengths(subs) + [0]
               && Small(Lengths(all), u)
  {
    hide PageSize, IsPage, Encodes, ReadTree, LeafFold, CellSize, Searchable, Left;
    var sub := Sub(id, [], pending, pending[|pending| - 1]);
    LeafContentsGrow(mine, mine', u, kind, rows, cells, pending, subs);
    LastLeafTree(mine', u, kind, cells, pending, id);
    ChildrenPush(subs, sub);
    BoundedIsReady(mine', u, kind, 0, subs, sub);
    assert (subs + [sub])[..|subs|] == subs;
    SmallEnd(Lengths(subs), u);
  }

  lemma SmallEnd(bs: seq<nat>, u: nat)
    requires PageSize(u) && Small(bs, u)
    ensures Small(bs + [0], u)
  {
  }

  /** Subtrees that expect a successor, and one last subtree. */
  lemma BoundedIsReady(file: File, u: nat, kind: Kind, depth: nat, subs: seq<Sub>, last: Sub)
    requires PageSize(u) && Bounded(file, u, kind, depth, subs) && SubTree(file, u, kind, depth, last)
    requires kind == Table ==> Searchable(file, u, last.page, depth, last.rows)
    ensures SubTrees(file, u, kind, depth, subs + [last])
    ensures kind == Table ==> AllSearchable(file, u, depth, subs + [last])
  {
    hide SubTree, Boundary, Searchable, PageSize;
  }

  lemma LastLeafTree(file: File, u: nat, kind: Kind, cells: seq<seq<byte>>, pending: seq<Row>, id: nat)
    requires PageSize(u) && EncodesAll(file, u, kind, cells, pending)
    requires id in file && |file[id]| == u && IsPage(file[id], kind, false, cells, 0)
    ensures ReadTree(file, u, kind, id, 0) == Some(pending)
    ensures kind == Table ==> Searchable(file, u, id, 0, pending)
  {
    LeafPageIsRead(file, u, kind, id, cells, pending);
    if kind == Table {
      LeafPageIsSearchable(file, u, id, cells, pending);
    }
  }

  /** The finished tree: reading it from the root gives the rows, and a table can be searched. */
  ghost predicate Finished(file: File, u: nat, kind: Kind, root: nat, depth: nat, rows: seq<Row>)
    requires PageSize(u)
  {
    && ReadTree(file, u, kind, root, depth) == Some(rows)
    && (kind == Table ==> Searchable(file, u, root, depth, rows))
  }

  /** The pages a tree took, with its root. */
  function OwnPages(file: File, mine: File, root: nat): File
    requires root in file
  {
    mine[root := file[root]]
  }

  /** The tree can be read from its own pages alone, and they are in the file. */
  ghost predicate OnItsOwn(file: File, mine: File, u: nat, kind: Kind, root: nat, depth: nat, rows: seq<Row>)
    requires PageSize(u)
  {
    && root in file && Grows(OwnPages(file, mine, root), file)
    && Finished(OwnPages(file, mine, root), u, kind, root, depth, rows)
  }

  /** The page numbers a writer has taken since `base`: none of them is the lock-byte page. */
  ghost predicate Within(taken: set<nat>, base: nat, next: nat, pending: nat) {
    forall page | page in taken :: base <= page < next && page != pending
  }

  lemma WriterTakes(w: PageWriter)
    requires w.Valid()
    ensures Within(w.mine.Keys, w.base, w.nextPage, w.Pending()) && Owned(w.disk.pages, w.mine, w.base, w.nextPage)
  {
  }

  /** Pointers lead from the root to the page. */
  ghost predicate IsBelow(file: File, u: nat, kind: Kind, root: nat, page: nat)
    requires PageSize(u)
  {
    exists n: nat :: n > 0 && LeadsDown(file, u, kind, root, n, page)
  }

  /** What becomes of a tree whose root is written last.  `taken` are the pages appended for it, and `nodes`
      those that hold a leaf or an interior page.  A root that is none of them stands over all of `nodes`; a
      root that replaces one of `nodes` leaves nothing to read. */
  ghost predicate Placed(file: File, mine: File, u: nat, kind: Kind, root: nat, depth: nat, rows: seq<Row>,
                         taken: set<nat>, nodes: set<nat>)
    requires PageSize(u)
  {
    && mine.Keys == taken - {root} && nodes <= taken
    && (root !in taken ==>
          OnItsOwn(file, mine, u, kind, root, depth, rows)
          && forall page | page in nodes :: IsBelow(file, u, kind, root, page))
    && (root in nodes ==> Lost(file, u, kind, root))
  }

  /** The pages that hang from subtrees, all of them the writer's. */
  ghost predicate Hanging(mine: File, u: nat, kind: Kind, subs: seq<Sub>, nodes: set<nat>)
    requires PageSize(u)
  {
    AllUnder(mine, u, kind, subs, nodes) && nodes <= mine.Keys
  }

  lemma LeavesHang(mine: File, u: nat, kind: Kind, subs: seq<Sub>)
    requires PageSize(u) && SeparatePages(mine, subs)
    ensures Hanging(mine, u, kind, subs, PagesOf(subs)) && |PagesOf(subs)| == |subs|
  {
    hide PagesOf;
    forall page | page in PagesOf(subs) ensures Under(mine, u, kind, subs, page) {
      PagesAreUnder(mine, u, kind, subs, page);
    }
  }

  lemma ParentsHang(mine: File, mine': File, u: nat, kind: Kind, subs: seq<Sub>, parents: seq<Sub>, nodes: set<nat>)
    requires PageSize(u) && Grows(mine, mine') && Hanging(mine, u, kind, subs, nodes)
    requires Above(mine', u, kind, parents, subs) && Added(mine, mine', parents)
    ensures Hanging(mine', u, kind, parents, nodes + PagesOf(parents))
    ensures |nodes + PagesOf(parents)| == |nodes| + |parents| && |mine'| == |mine| + |parents|
  {
    NextAllUnder(mine, mine', u, kind, subs, parents, nodes);
    hide PagesOf, AllUnder, Above;
    UnionSize(nodes, PagesOf(parents));
    UnionSize(mine.Keys, PagesOf(parents));
    assert |mine'| == |mine'.Keys| && |mine| == |mine.Keys|;
  }

  lemma UnionSize(a: set<nat>, b: set<nat>)
    requires forall x | x in b :: x !in a
    ensures |a + b| == |a| + |b|
  {
    assert a !! b;
  }

  lemma LostUnderRoot(mine: File, file: File, mine': File, u: nat, kind: Kind, depth: nat, subs: seq<Sub>, root: nat,
                      nodes: set<nat>)
    requires PageSize(u) && Ready(mine, u, kind, depth, subs) && Hanging(mine, u, kind, subs, nodes) && root in nodes
    requires root in file && |file[root]| == u && IsParent(file[root], kind, subs) && mine' == mine - {root}
             && Grows(mine', file)
    ensures Lost(file, u, kind, root)
  {
    hide Ready, IsParent, Lost, LeadsDown;
    PagesAreSmall(mine, u, kind, depth, subs);
    assert Under(mine, u, kind, subs, root);
    forall p | p in mine && p != root ensures p in file && file[p] == mine[p] {
      assert p in mine';
    }
    RootBelowItselfIsLost(mine, file, u, kind, subs, root);
  }

  lemma NodesBelowRoot(mine: File, file: File, u: nat, kind: Kind, depth: nat, subs: seq<Sub>, root: nat,
                       nodes: set<nat>)
    requires PageSize(u) && Ready(mine, u, kind, depth, subs) && Hanging(mine, u, kind, subs, nodes)
             && Grows(mine, file)
    requires root in file && |file[root]| == u && IsParent(file[root], kind, subs)
    ensures forall page | page in nodes :: IsBelow(file, u, kind, root, page)
  {
    hide Ready, IsParent, IsChild;
    PagesAreSmall(mine, u, kind, depth, subs);
    forall page | page in nodes ensures IsBelow(file, u, kind, root, page) {
      assert Under(mine, u, kind, subs, page);
      var i: nat, n: nat :| i < |subs| && LeadsDown(mine, u, kind, subs[i].page, n, page);
      LeadsDownGrows(mine, file, u, kind, subs[i].page, n, page);
      GroupIsChildren(file, u, kind, root, subs, i);
      assert LeadsDown(file, u, kind, root, n + 1, page);
    }
  }

  /** Further pages do not disturb a finished tree. */
  lemma FinishedGrows(file: File, file': File, u: nat, kind: Kind, root: nat, depth: nat, rows: seq<Row>)
    requires PageSize(u) && Grows(file, file') && Finished(file, u, kind, root, depth, rows)
    ensures Finished(file', u, kind, root, depth, rows)
  {
    hide ReadTree, Searchable, Grows;
    ReadTreeGrows(file, file', u, kind, root, depth);
    if kind == Table {
      SearchableGrows(file, file', u, root, depth, rows);
    }
  }

  lemma RootLeafIsFinished(mine: File, file: File, u: nat, kind: Kind, rows: seq<Row>, cells: seq<seq<byte>>,
                           pending: seq<Row>, subs: seq<Sub>, children: seq<Child>, root: nat)
    requires PageSize(u) && LeafState(mine, u, kind, rows, cells, pending, subs, children) && children == []
    requires Grows(mine, file) && root in file && |file[root]| == u && IsPage(file[root], kind, false, cells, 0)
    ensures Finished(file, u, kind, root, 0, rows)
  {
    hide PageSize, IsPage, Encodes, ReadTree, LeafLayout, Searchable, Bounded;
    LeafContentsGrow(mine, file, u, kind, rows, cells, pending, subs);
    assert subs == [] && Left(kind, subs) == [] && [] + pending == pending;
    LastLeafTree(file, u, kind, cells, pending, root);
  }

  lemma RootIsFinished(mine: File, file: File, u: nat, kind: Kind, depth: nat, subs: seq<Sub>, root: nat)
    requires PageSize(u) && Ready(mine, u, kind, depth, subs) && Grows(mine, file)
    requires root in file && |file[root]| == u && IsParent(file[root], kind, subs)
    ensures Finished(file, u, kind, root, depth + 1, Contents(kind, subs))
  {
    ReadyGrows(mine, file, u, kind, depth, subs);
    ParentIsRead(file, u, kind, depth, root, subs);
    if kind == Table {
      ParentIsSearchable(file, u, depth, root, subs);
    }
  }

  /** Everything outside the new pages, the root and the lock-byte page is as before. */
  ghost predicate OnlyTree(before: File, mineBefore: File, after: File, mine: File, root: nat, pending: nat) {
    && mineBefore.Keys <= mine.Keys + {root}
    && forall p | p in before && p !in mine && p != root && p != pending :: p in after && after[p] == before[p]
  }

  lemma OnlyTreeRoot(before: File, m: File, middle: File, m': File, after: File, mine: File, root: nat, pending: nat)
    requires Extended(before, m, middle, m', pending) && RootReplaced(middle, m', after, mine, root)
    ensures OnlyTree(before, m, after, mine, root, pending)
  {
  }

  lemma OnlyTreeExtended(before: File, m: File, after: File, mine: File, root: nat, pending: nat)
    requires Extended(before, m, after, mine, pending)
    ensures OnlyTree(before, m, after, mine, root, pending)
  {
  }

  lemma OnlyTreeAfter(before: File, m: File, middle: File, m': File, after: File, mine: File, root: nat, pending: nat)
    requires Extended(before, m, middle, m', pending) && OnlyTree(middle, m', after, mine, root, pending)
    ensures OnlyTree(before, m, after, mine, root, pending)
  {
  }

  /** A root that is not one of the tree's pages leaves them as they are. */
  lemma RootIsNotMine(w: PageWriter, mine: File, root: nat)
    requires w.Valid() && w.mine == mine - {root} && root !in mine
    ensures w.mine == mine && Grows(mine, w.disk.pages)
  {
    assert mine - {root} == mine;
  }

  lemma NeededIs(kind: Kind, u: nat, rows: seq<Row>, subs: seq<Sub>)
    requires PageSize(u) && AllStorable(kind, rows) && LeafBoundaries(kind, u, rows) == Lengths(subs)
    ensures Small(Lengths(subs) + [0], u)
    ensures subs == [] ==> Needed(kind, u, rows) == OverflowTotal(kind, u, rows)
    ensures subs != [] ==>
              |Lengths(subs) + [0]| >= 2 && Needed(kind, u, rows)
                  == OverflowTotal(kind, u, rows) + TreePages(Lengths(subs) + [0], u)
  {
    LeafBoundariesAreSmall(kind, u, rows);
  }

  /** Builds levels until one group is left; that group becomes the root. */
  method BuildLevels(w: PageWriter, root: nat, kind: Kind, leaves: seq<Child>, ghost subs0: seq<Sub>,
                     ghost rows: seq<Row>)
    returns (r: Result<()>, ghost depth: nat, ghost taken: set<nat>, ghost nodes: set<nat>)
    requires w.Valid() && Ready(w.mine, w.pageSize, kind, 0, subs0) && |subs0| >= 2 && Contents(kind, subs0) == rows
    requires leaves == ChildrenOf(subs0) && Small(Lengths(subs0), w.pageSize) && SeparatePages(w.mine, subs0)
    modifies w`nextPage, w`rangeEnd, w`position, w`mine, w.disk, w.allocator
    ensures w.Valid() && w.nextPage >= old(w.nextPage)
    ensures OnlyTree(old(w.disk.pages), old(w.mine), w.disk.pages, w.mine, root, w.Pending())
    ensures r.Ok? ==> RootAllowed(w, root)
    ensures r.Ok? ==> Placed(w.disk.pages, w.mine, w.pageSize, kind, root, depth, rows, taken, nodes)
    ensures r.Ok? ==> |nodes| == TreePages(Lengths(subs0), w.pageSize) && |taken| + |subs0| == old(|w.mine|) + |nodes|
    ensures r.Ok? ==> Within(taken, w.base, w.nextPage, w.Pending())
    ensures w.allocator == null ==> w.rangeEnd == old(w.rangeEnd)
    ensures w.allocator == null && (r.Ok? || old(w.Room()) + |subs0| >= TreePages(Lengths(subs0), w.pageSize)) ==>
              w.Room() + TreePages(Lengths(subs0), w.pageSize) == old(w.Room()) + |subs0|
                  && (r.Err? ==> !RootAllowed(w, root))
  {
    hide PageWriter.Valid, PageSize, LockPage, Available, Extended, Ready, Small, IsParent, GroupFold, NextLevel,
         Contents, RootReplaced, Owned, OnlyTree, Placed, Hanging, Above, Added, Within, SeparatePages, PagesOf,
             RootAllowed;
    ghost var u: nat := w.pageSize;
    PageHasRoom(u);
    var children := leaves;
    ghost var subs := subs0;
    depth, taken, nodes := 0, {}, PagesOf(subs);
    NothingWritten(w.disk.pages, w.mine, w.Pending());
    LeavesHang(w.mine, u, kind, subs);
    while true
      invariant w.Valid() && w.nextPage >= old(w.nextPage)
      invariant Extended(old(w.disk.pages), old(w.mine), w.disk.pages, w.mine, w.Pending())
      invariant Ready(w.mine, u, kind, depth, subs) && |subs| >= 2 && Contents(kind, subs) == rows
      invariant children == ChildrenOf(subs) && Small(Lengths(subs), u) && Hanging(w.mine, u, kind, subs, nodes)
      invariant |nodes| + TreePages(Lengths(subs), u) == TreePages(Lengths(subs0), u) + |subs|
      invariant |w.mine| + |subs0| == old(|w.mine|) + |nodes|
      invariant w.allocator == null ==> w.rangeEnd == old(w.rangeEnd)
      invariant w.allocator == null ==> w.Room() + TreePages(Lengths(subs0), u) + |subs|
                                        == old(w.Room()) + |subs0| + TreePages(Lengths(subs), u)
      decreases |subs|
    {
      ghost var mine, pages, next := w.mine, w.disk.pages, w.nextPage;
      WriterTakes(w);
      NextLevelHalves(Lengths(subs), u);
      TreePagesAbove(Lengths(subs), u);
      var above;
      ghost var parents;
      above, parents := Level(w, root, kind, children, depth, subs);
      if above.Err? {
        ExtendedTransitive(old(w.disk.pages), old(w.mine), pages, mine, w.disk.pages, w.mine, w.Pending());
        OnlyTreeExtended(old(w.disk.pages), old(w.mine), w.disk.pages, w.mine, root, w.Pending());
        return Err(above.message), depth, taken, nodes;
      }
      if above.value.None? {
        OnlyTreeRoot(old(w.disk.pages), old(w.mine), pages, mine, w.disk.pages, w.mine, root, w.Pending());
        RootOfLevel(w, pages, mine, kind, depth, subs, root, nodes);
        WithinLater(mine.Keys, w.base, next, w.nextPage, w.Pending());
        return Ok(()), depth + 1, mine.Keys, nodes;
      }
      ExtendedTransitive(old(w.disk.pages), old(w.mine), pages, mine, w.disk.pages, w.mine, w.Pending());
      ExtendedGrows(pages, mine, w.disk.pages, w.mine, w.Pending());
      ParentsHang(mine, w.mine, u, kind, subs, parents, nodes);
      nodes := nodes + PagesOf(parents);
      subs, depth := parents, depth + 1;
      children := above.value.value;
    }
  }

  lemma WithinLater(taken: set<nat>, base: nat, next: nat, next': nat, pending: nat)
    requires Within(taken, base, next, pending) && next <= next'
    ensures Within(taken, base, next', pending)
  {
  }

  lemma TreePagesAbove(bs: seq<nat>, u: nat)
    requires Small(bs, u) && u >= 12 && |bs| >= 2
    ensures GroupFold(bs, u).closed == [] ==> TreePages(bs, u) == |bs|
    ensures GroupFold(bs, u).closed != [] ==>
              && |NextLevel(bs, u)| >= 2 && Small(NextLevel(bs, u), u)
              && TreePages(bs, u) == |bs| + TreePages(NextLevel(bs, u), u)
              && TreePages(NextLevel(bs, u), u) >= |NextLevel(bs, u)|
  {
    NextLevelHalves(bs, u);
    SettledGroups(bs, u);
  }

  lemma RootOfLevel(w: PageWriter, pages: File, mine: File, kind: Kind, depth: nat, subs: seq<Sub>, root: nat,
                    nodes: set<nat>)
    requires w.Valid() && Ready(mine, w.pageSize, kind, depth, subs)
             && RootReplaced(pages, mine, w.disk.pages, w.mine, root)
    requires |w.disk.pages[root]| == w.pageSize && IsParent(w.disk.pages[root], kind, subs)
    requires Hanging(mine, w.pageSize, kind, subs, nodes)
    ensures Placed(w.disk.pages, w.mine, w.pageSize, kind, root, depth + 1, Contents(kind, subs), mine.Keys, nodes)
  {
    hide Finished, Ready, IsParent, Contents, PageSize, LockPage, Lost, IsBelow;
    if root !in mine {
      RootIsNotMine(w, mine, root);
      RootIsFinished(mine, OwnPages(w.disk.pages, mine, root), w.pageSize, kind, depth, subs, root);
      NodesBelowRoot(mine, w.disk.pages, w.pageSize, kind, depth, subs, root, nodes);
    }
    if root in nodes {
      LostUnderRoot(mine, w.disk.pages, w.mine, w.pageSize, kind, depth, subs, root, nodes);
    }
  }

  /** Completes a tree whose leaves are written, except the one still open. */
  method FinishTree(w: PageWriter, page: Page, root: nat, kind: Kind, leaves: seq<Child>, ghost rows: seq<Row>,
                    ghost pending: seq<Row>, ghost subs: seq<Sub>)
    returns (r: Result<()>, ghost depth: nat, ghost taken: set<nat>, ghost nodes: set<nat>)
    requires w.Valid() && page.Valid() && page.bytes.Length == w.pageSize && page.kind == kind && !page.interior
    requires LeafState(w.mine, w.pageSize, kind, rows, page.cells, pending, subs, leaves)
    requires (kind == Table ==> Ascending(rows)) && |w.mine| == OverflowTotal(kind, w.pageSize, rows) + |subs|
    modifies w`nextPage, w`rangeEnd, w`position, w`mine, w.disk, w.allocator, page.bytes
    ensures w.Valid() && w.nextPage >= old(w.nextPage)
    ensures OnlyTree(old(w.disk.pages), old(w.mine), w.disk.pages, w.mine, root, w.Pending())
    ensures r.Ok? ==> RootAllowed(w, root)
    ensures AllStorable(kind, rows)
    ensures r.Ok? ==> Placed(w.disk.pages, w.mine, w.pageSize, kind, root, depth, rows, taken, nodes)
    ensures r.Ok? ==> |taken| == Needed(kind, w.pageSize, rows) == |nodes| + OverflowTotal(kind, w.pageSize, rows)
    ensures r.Ok? ==> Within(taken, w.base, w.nextPage, w.Pending())
    ensures w.allocator == null ==> w.rangeEnd == old(w.rangeEnd)
    ensures w.allocator == null
            && (r.Ok? || old(w.Room()) + OverflowTotal(kind, w.pageSize, rows) + |subs|
                >= Needed(kind, w.pageSize, rows)) ==>
              && w.Room() + Needed(kind, w.pageSize, rows) == old(w.Room()) + OverflowTotal(kind, w.pageSize, rows)
                 + |subs|
              && (r.Err? ==> !RootAllowed(w, root))
  {
    hide PageWriter.Valid, PageSize, LockPage, Available, LeafState, Extended, Ready, Small, Contents, RootReplaced,
         Placed, Within, Owned, OnlyTree, Needed, OverflowTotal, TreePages, IsPage, LeafBoundaries, ChildrenOf,
             Lengths, Page.Valid, AllStorable, Ascending, SeparatePages, RootAllowed;
    depth, taken, nodes := 0, {}, {};
    ghost var u, mine, pages := w.pageSize, w.mine, w.disk.pages;
    LeavesWritten(mine, u, kind, rows, page.cells, pending, subs, leaves);
    NeededIs(kind, u, rows, subs);
    NothingWritten(pages, mine, w.Pending());
    WriterTakes(w);
    var image := page.Image(0);
    if leaves == [] {
      NoSubs(subs);
      var written := w.WriteRoot(root, image);
      RootGuard(w, root);
      if written.Err? {
        OnlyTreeExtended(pages, mine, w.disk.pages, w.mine, root, w.Pending());
        return Err(written.message), depth, taken, nodes;
      }
      LeafRoot(w, pages, mine, kind, rows, page.cells, pending, subs, leaves, root);
      return Ok(()), depth, mine.Keys, nodes;
    }
    SomeRows(mine, u, kind, rows, page.cells, pending, subs, leaves);
    TreePagesAtLeast(Lengths(subs) + [0], u);
    var last;
    ghost var all;
    last, all := AppendLastLeaf(w, image, kind, leaves, rows, page.cells, pending, subs);
    if last.Err? {
      OnlyTreeExtended(pages, mine, w.disk.pages, w.mine, root, w.Pending());
      return Err(last.message), depth, taken, nodes;
    }
    ghost var mine1, pages1 := w.mine, w.disk.pages;
    r, depth, taken, nodes := BuildLevels(w, root, kind, leaves + [last.value], all, rows);
    OnlyTreeAfter(pages, mine, pages1, mine1, w.disk.pages, w.mine, root, w.Pending());
  }

  /** The open leaf is the last one; no boundary follows it. */
  method AppendLastLeaf(w: PageWriter, image: seq<byte>, kind: Kind, leaves: seq<Child>, ghost rows: seq<Row>,
                        ghost cells: seq<seq<byte>>, ghost pending: seq<Row>, ghost subs: seq<Sub>)
    returns (r: Result<Child>, ghost all: seq<Sub>)
    requires w.Valid() && |image| == w.pageSize && IsPage(image, kind, false, cells, 0)
    requires LeafState(w.mine, w.pageSize, kind, rows, cells, pending, subs, leaves) && SeparatePages(w.mine, subs)
    requires rows != [] && (kind == Table ==> Ascending(rows))
    modifies w`nextPage, w`rangeEnd, w`position, w`mine, w.disk, w.allocator
    ensures w.Valid() && w.nextPage >= old(w.nextPage)
    ensures Extended(old(w.disk.pages), old(w.mine), w.disk.pages, w.mine, w.Pending())
    ensures r.Ok? ==>
              && Ready(w.mine, w.pageSize, kind, 0, all) && Contents(kind, all) == rows && |all| == |subs| + 1
              && leaves + [r.value] == ChildrenOf(all) && Lengths(all) == Lengths(subs) + [0]
                 && Small(Lengths(all), w.pageSize)
              && SeparatePages(w.mine, all) && |w.mine| == old(|w.mine|) + 1
    ensures w.allocator == null ==> (r.Ok? <==> old(w.Room()) >= 1) && w.rangeEnd == old(w.rangeEnd)
    ensures w.allocator == null && r.Ok? ==> w.Room() == old(w.Room()) - 1
  {
    hide PageWriter.Valid, PageSize, LeafState, Extended, Ready, Small, Contents, IsPage, ChildrenOf, Lengths,
         Ascending, SeparatePages, NewPage, PageWriter.Room;
    all := subs;
    var id := w.Append(image);
    if id.Err? {
      return Err(id.message), all;
    }
    ExtendedGrows(old(w.disk.pages), old(w.mine), w.disk.pages, w.mine, w.Pending());
    OneMorePage(old(w.mine), id.value, image);
    LastLeafIsReady(old(w.mine), w.mine, w.pageSize, kind, rows, cells, pending, subs, leaves, id.value);
    ghost var last := Sub(id.value, [], pending, pending[|pending| - 1]);
    SeparatePush(old(w.mine), w.mine, subs, last);
    NewPageCounts(old(w.mine), w.mine, id.value);
    return Ok(Child(id.value, [])), subs + [last];
  }

  lemma NoSubs(subs: seq<Sub>)
    requires ChildrenOf(subs) == []
    ensures subs == []
  {
    assert |ChildrenOf(subs)| == |subs|;
  }

  lemma NewPageCounts(before: File, after: File, page: nat)
    requires NewPage(before, after, page)
    ensures |after| == |before| + 1
  {
  }

  lemma RootGuard(w: PageWriter, root: nat)
    ensures RootAllowed(w, root) <==>
              (w.assignedRoot.Some? ==> w.assignedRoot.value == root)
              && 1 < root < (if w.allocator != null then w.allocator.bootstrapEnd else w.nextPage)
  {
  }

  lemma TreePagesAtLeast(bs: seq<nat>, u: nat)
    requires PageSize(u) && Small(bs, u) && |bs| >= 2
    ensures TreePages(bs, u) >= |bs|
  {
  }

  /** A finished leaf means there were rows. */
  lemma SomeRows(mine: File, u: nat, kind: Kind, rows: seq<Row>, cells: seq<seq<byte>>, pending: seq<Row>,
                 subs: seq<Sub>, children: seq<Child>)
    requires PageSize(u) && LeafState(mine, u, kind, rows, cells, pending, subs, children) && children != []
    ensures rows != [] && subs != []
  {
    LeafBoundariesAreSmall(kind, u, rows);
  }

  /** All rows on one page: the open leaf becomes the root. */
  lemma LeafRoot(w: PageWriter, pages: File, mine: File, kind: Kind, rows: seq<Row>, cells: seq<seq<byte>>,
                 pending: seq<Row>, subs: seq<Sub>, children: seq<Child>, root: nat)
    requires w.Valid() && LeafState(mine, w.pageSize, kind, rows, cells, pending, subs, children) && children == []
    requires root in w.disk.pages && w.disk.pages == pages[root := w.disk.pages[root]] && w.mine == mine - {root}
    requires |w.disk.pages[root]| == w.pageSize && IsPage(w.disk.pages[root], kind, false, cells, 0)
    ensures OnlyTree(pages, mine, w.disk.pages, w.mine, root, w.Pending())
    ensures Placed(w.disk.pages, w.mine, w.pageSize, kind, root, 0, rows, mine.Keys, {})
  {
    hide Finished, LeafState, IsPage, PageSize, LockPage, Lost, IsBelow;
    if root !in mine {
      RootIsNotMine(w, mine, root);
      RootLeafIsFinished(mine, OwnPages(w.disk.pages, mine, root), w.pageSize, kind, rows, cells, pending, subs,
                         children, root);
    }
  }

  /** A tree built with shared blocks needs its root claimed once. */
  method ClaimTree(w: PageWriter, root: nat) returns (r: Result<()>)
    requires w.Valid()
    modifies w.allocator
    ensures w.Valid()
    ensures w.allocator == null ==> r.Ok?
    ensures w.allocator != null ==>
              (r.Ok? <==> (w.assignedRoot.Some? ==> w.assignedRoot.value == root)
                          && (!w.dynamicWorker ==> 1 < root < w.allocator.bootstrapEnd
                                                   && root !in old(w.allocator.roots)))
    ensures w.allocator != null ==>
              w.allocator.roots == if r.Ok? && !w.dynamicWorker then old(w.allocator.roots) + {root}
                  else old(w.allocator.roots)
  {
    if w.allocator != null {
      if w.assignedRoot.Some? && w.assignedRoot.value != root {
        return Err("dynamic writer cannot replace another tree root");
      }
      if !w.dynamicWorker {
        r := w.allocator.ClaimRoot(root);
        return r;
      }
    }
    return Ok(());
  }

  lemma MineIsLater(w: PageWriter)
    requires w.Valid()
    ensures forall p | p in w.mine :: p >= w.base
    ensures w.allocator != null ==> w.allocator.bootstrapEnd <= w.base
  {
  }

  /** Only a root among the tree's pages is in doubt. */
  lemma WhereTheRootIs(file: File, mine: File, u: nat, kind: Kind, root: nat, depth: nat, rows: seq<Row>,
                       taken: set<nat>, nodes: set<nat>, base: nat, next: nat, pending: nat)
    requires PageSize(u) && Placed(file, mine, u, kind, root, depth, rows, taken, nodes)
             && Within(taken, base, next, pending)
    ensures root < base || root == pending ==> root !in taken
    ensures root !in taken ==> Finished(file, u, kind, root, depth, rows)
  {
    hide OnItsOwn, Finished, IsBelow, Lost;
    if root !in taken {
      StandsInFile(file, mine, u, kind, root, depth, rows);
    }
  }

  /** The usable pages between two page numbers. */
  ghost function Usable(start: nat, end: nat, pending: nat): (pages: set<nat>)
    ensures |pages| == Available(start, end, pending)
    ensures forall p: nat :: p in pages <==> start <= p < end && p != pending
    decreases end
  {
    if start >= end then {}
    else if end - 1 == pending then Usable(start, end - 1, pending)
    else Usable(start, end - 1, pending) + {end - 1}
  }

  lemma SameSize(a: set<nat>, b: set<nat>)
    requires a <= b && |a| == |b|
    ensures a == b
  {
    assert b == a + (b - a);
    UnionSize(a, b - a);
  }

  lemma AllTaken(taken: set<nat>, base: nat, next: nat, pending: nat)
    requires Within(taken, base, next, pending) && base <= next && |taken| == Available(base, next, pending)
    ensures forall p: nat :: p in taken <==> base <= p < next && p != pending
  {
    hide Available;
    assert taken <= Usable(base, next, pending);
    SameSize(taken, Usable(base, next, pending));
  }

  /** Without overflow pages the tree can be read exactly when its root is none of its pages. */
  lemma RootDecides(file: File, mine: File, u: nat, kind: Kind, root: nat, depth: nat, rows: seq<Row>, taken: set<nat>,
                    nodes: set<nat>)
    requires PageSize(u) && Placed(file, mine, u, kind, root, depth, rows, taken, nodes) && |taken| == |nodes|
    ensures Readable(file, u, kind, root, rows) <==> root !in taken
  {
    hide OnItsOwn, IsBelow, ReadTree, Searchable;
    SameSize(nodes, taken);
    if root !in taken {
      StandsInFile(file, mine, u, kind, root, depth, rows);
    }
  }

  lemma RoomIs(w: PageWriter)
    ensures w.Room() == Available(w.nextPage, if w.rangeEnd.Some? then w.rangeEnd.value else LAST_PAGE, w.Pending())
  {
  }

  lemma RoomTaken(w: PageWriter, start: nat, room: nat)
    requires w.Valid() && w.allocator == null && start <= w.nextPage
    requires room == Available(start, if w.rangeEnd.Some? then w.rangeEnd.value else LAST_PAGE, w.Pending())
    ensures room == w.Room() + Available(start, w.nextPage, w.Pending())
  {
    hide LockPage, Owned;
  }

  lemma RootInReach(base: nat, next: nat, root: nat, pending: nat)
    requires base <= next
    ensures base <= root && root != pending ==> (root < next
                                                 <==> Available(base, root, pending) < Available(base, next, pending))
  {
  }

  ghost predicate Readable(file: File, u: nat, kind: Kind, root: nat, rows: seq<Row>)
    requires PageSize(u)
  {
    exists depth: nat :: Finished(file, u, kind, root, depth, rows)
  }

  /** Writes the leaves, the levels above them and the root. */
  method BuildTree(w: PageWriter, root: nat, kind: Kind, rows: seq<Row>)
    returns (r: Result<()>, ghost depth: nat, ghost taken: set<nat>, ghost nodes: set<nat>)
    requires w.Valid() && w.mine == map[] && AllStorable(kind, rows)
    modifies w`nextPage, w`rangeEnd, w`position, w`mine, w.disk, w.allocator
    ensures w.Valid() && w.nextPage >= old(w.nextPage)
    ensures OnlyTree(old(w.disk.pages), map[], w.disk.pages, w.mine, root, w.Pending())
    ensures r.Ok? ==> (kind == Table ==> Ascending(rows)) && RootAllowed(w, root)
    ensures r.Ok? ==> Placed(w.disk.pages, w.mine, w.pageSize, kind, root, depth, rows, taken, nodes)
    ensures r.Ok? ==> |taken| == Needed(kind, w.pageSize, rows) == |nodes| + OverflowTotal(kind, w.pageSize, rows)
    ensures r.Ok? ==> Within(taken, w.base, w.nextPage, w.Pending())
    ensures w.allocator == null ==> w.rangeEnd == old(w.rangeEnd)
    ensures w.allocator == null
            && (r.Ok? || ((kind == Table ==> Ascending(rows)) && Needed(kind, w.pageSize, rows) <= old(w.Room()))) ==>
              w.Room() + Needed(kind, w.pageSize, rows) == old(w.Room()) && (r.Err? ==> !RootAllowed(w, root))
  {
    hide PageWriter.Valid, PageSize, LeafState, Extended, OnlyTree, Needed, OverflowTotal, Placed, Within, RootAllowed,
         Ascending, PageWriter.Room;
    depth, taken, nodes := 0, {}, {};
    var page := new Page(w.pageSize, kind, false);
    var leaves;
    ghost var pending, subs;
    leaves, pending, subs := WriteLeaves(w, page, kind, rows);
    if leaves.Err? {
      OnlyTreeExtended(old(w.disk.pages), map[], w.disk.pages, w.mine, root, w.Pending());
      return Err(leaves.message), depth, taken, nodes;
    }
    ghost var pages, mine := w.disk.pages, w.mine;
    r, depth, taken, nodes := FinishTree(w, page, root, kind, leaves.value, rows, pending, subs);
    OnlyTreeAfter(old(w.disk.pages), map[], pages, mine, w.disk.pages, w.mine, root, w.Pending());
  }

  /** `tree`: one record stream becomes one packed b-tree under an existing root page.
      `taken` and `nodes` describe the pages appended for it, see `Placed`.  The guard on the root compares it
      with the writer's next page after everything else is written, so without an allocator the root may be one
      of the tree's own pages. */
  method Tree(w: PageWriter, root: nat, kind: Kind, rows: seq<Row>)
    returns (r: Result<()>, ghost depth: nat, ghost taken: set<nat>, ghost nodes: set<nat>)
    requires w.Valid() && AllStorable(kind, rows)
    modifies w`nextPage, w`rangeEnd, w`position, w`mine, w`base, w.disk, w.allocator
    ensures w.Valid() && w.nextPage >= old(w.nextPage) && w.base >= old(w.nextPage)
    ensures r.Ok? && kind == Table ==> Ascending(rows)
    ensures r.Ok? ==> Placed(w.disk.pages, w.mine, w.pageSize, kind, root, depth, rows, taken, nodes)
    ensures r.Ok? ==> |taken| == Needed(kind, w.pageSize, rows) == |nodes| + OverflowTotal(kind, w.pageSize, rows)
    ensures r.Ok? ==> Within(taken, w.base, w.nextPage, w.Pending())
    ensures r.Ok? && root !in taken ==> Finished(w.disk.pages, w.pageSize, kind, root, depth, rows)
    ensures r.Ok? && (root < w.base || root == w.Pending()) ==> root !in taken
    ensures r.Ok? && w.allocator != null ==> root < w.base
    ensures OnlyTree(old(w.disk.pages), map[], w.disk.pages, w.mine, root, w.Pending())
    ensures forall p | p in w.mine :: p >= old(w.nextPage)
    ensures w.allocator == null ==> w.rangeEnd == old(w.rangeEnd) && w.base == old(w.nextPage)
    ensures w.allocator == null && r.Ok? ==> forall p: nat :: p in taken
                                                              <==> w.base <= p < w.nextPage && p != w.Pending()
    ensures w.allocator == null && r.Ok? && OverflowTotal(kind, w.pageSize, rows) == 0 ==>
              (Readable(w.disk.pages, w.pageSize, kind, root, rows) <==> root < w.base || root == w.Pending())
    ensures w.allocator == null && (w.assignedRoot.Some? ==> w.assignedRoot.value == root)
            && (root < w.base || root != w.Pending()) ==>
              (r.Ok? <==> (kind == Table ==> Ascending(rows)) && Needed(kind, w.pageSize, rows) <= old(w.Room())
                          && 1 < root
                          && (root < w.base || Available(w.base, root, w.Pending()) < Needed(kind, w.pageSize, rows)))
    ensures w.allocator == null && r.Ok? ==> w.Room() == old(w.Room()) - Needed(kind, w.pageSize, rows)
  {
    hide PageWriter.Valid, PageSize, LockPage, Available, Extended, Finished, OnlyTree, Needed, OverflowTotal, Placed,
         Within, Readable, RootAllowed, Ascending, PageWriter.Room;
    depth, taken, nodes := 0, {}, {};
    ghost var start, room := w.nextPage, w.Room();
    w.BeginTree();
    RoomIs(w);
    NothingWritten(w.disk.pages, w.mine, w.Pending());
    OnlyTreeExtended(w.disk.pages, w.mine, w.disk.pages, w.mine, root, w.Pending());
    var claimed := ClaimTree(w, root);
    if claimed.Err? {
      return Err(claimed.message), depth, taken, nodes;
    }
    r, depth, taken, nodes := BuildTree(w, root, kind, rows);
    MineIsLater(w);
    if r.Ok? {
      WhereTheRootIs(w.disk.pages, w.mine, w.pageSize, kind, root, depth, rows, taken, nodes, w.base, w.nextPage,
                     w.Pending());
    }
    RootGuard(w, root);
    if w.allocator == null {
      RoomTaken(w, start, room);
      RootInReach(w.base, w.nextPage, root, w.Pending());
      if r.Ok? {
        AllTaken(taken, w.base, w.nextPage, w.Pending());
        if OverflowTotal(kind, w.pageSize, rows) == 0 {
          RootDecides(w.disk.pages, w.mine, w.pageSize, kind, root, depth, rows, taken, nodes);
        }
      }
    }
  }

  // ---------------------------------------------------------------- a root among the tree's own pages

  function TwoRows(): seq<Row> {
    [Row(1, Zeros(400)), Row(2, Zeros(400))]
  }

  /** On pages of 512 bytes each of the two rows fills a leaf, and neither needs an overflow page. */
  lemma TwoRowsTwoLeaves()
    ensures AllStorable(Table, TwoRows()) && Ascending(TwoRows())
    ensures OverflowTotal(Table, 512, TwoRows()) == 0 && Needed(Table, 512, TwoRows()) == 2
  {
    hide CellSize, BoundarySize, RowPages, OverflowTotal, LeafBoundaries, TreePages, Small;
    var a, b := Row(1, Zeros(400)), Row(2, Zeros(400));
    CellOf400(a);
    CellOf400(b);
    NoOverflow(a, b);
    TwoLeaves(a, b);
    LeafBoundariesAreSmall(Table, 512, [a, b]);
    assert LeafBoundaries(Table, 512, [a, b]) + [0] == [BoundarySize(Table, 512, a), 0];
    OneGroup(BoundarySize(Table, 512, a));
  }

  lemma NoOverflow(a: Row, b: Row)
    requires RowPages(Table, 512, a) == 0 && RowPages(Table, 512, b) == 0
    ensures OverflowTotal(Table, 512, [a, b]) == 0
  {
    hide RowPages;
    assert [a, b][..1] == [a] && [a][..0] == [];
    assert OverflowTotal(Table, 512, [a]) == OverflowTotal(Table, 512, []) + RowPages(Table, 512, a);
  }

  lemma TwoLeaves(a: Row, b: Row)
    requires Storable(Table, a) && Storable(Table, b) && AllStorable(Table, [a, b])
    requires 401 <= CellSize(Table, 512, a) <= 418 && 401 <= CellSize(Table, 512, b) <= 418
    ensures LeafBoundaries(Table, 512, [a, b]) == [BoundarySize(Table, 512, a)]
  {
    hide CellSize, BoundarySize, Items, LeafFold, Storable;
    NoLeaves(Table, 512);
    RowFold(Table, 512, [], a);
    assert [] + [a] == [a] && [a] + [b] == [a, b];
    RowFold(Table, 512, [a], b);
  }

  lemma CellOf400(row: Row)
    requires |row.payload| == 400
    ensures 401 <= CellSize(Table, 512, row) <= 418 && RowPages(Table, 512, row) == 0
            && BoundarySize(Table, 512, row) <= 9
  {
    VarintLengthIsMinimal(400);
    VarintLengthIsMinimal(ToU64(row.rowid));
  }

  lemma OneGroup(b: nat)
    requires Small([b, 0], 512) && b <= 9
    ensures TreePages([b, 0], 512) == 2
  {
    assert [b, 0][..1] == [b] && [b][..0] == [];
    assert Separators([b]) == Separators([]) + Separator(b);
    assert GroupFold([b], 512) == GroupStep(GroupFold([], 512), b, 512);
    assert GroupFold([b, 0], 512) == GroupStep(GroupFold([b], 512), 0, 512);
  }

  /** A root on the page the writer takes next passes the guard, and the table is lost. */
  method RootOverItsLeaf(w: PageWriter) returns (r: Result<()>)
    requires w.Valid() && w.pageSize == 512 && w.allocator == null && w.assignedRoot.None?
    requires 1 < w.nextPage && w.nextPage != w.Pending() && w.Room() >= 2
    modifies w`nextPage, w`rangeEnd, w`position, w`mine, w`base, w.disk
    ensures r.Ok? && Lost(w.disk.pages, 512, Table, old(w.nextPage))
  {
    hide PageWriter.Valid, LockPage, Finished, OnlyTree, Needed, OverflowTotal, Within, Readable, Ascending, TwoRows,
         OnItsOwn, Lost;
    TwoRowsTwoLeaves();
    ghost var depth, taken, nodes;
    r, depth, taken, nodes := Tree(w, w.nextPage, Table, TwoRows());
    SameSize(nodes, taken);
  }

  lemma StandsInFile(file: File, mine: File, u: nat, kind: Kind, root: nat, depth: nat, rows: seq<Row>)
    requires PageSize(u) && OnItsOwn(file, mine, u, kind, root, depth, rows)
    ensures Finished(file, u, kind, root, depth, rows)
  {
    hide Finished, Grows;
    FinishedGrows(OwnPages(file, mine, root), file, u, kind, root, depth, rows);
  }
}
