/** Cells and overflow chains: `cell` in `page_writer.rs`.  Every pointer of a chain is computed
    before the page it names is written. */
module CellWriting {
  import opened Bytes
  import opened PageAllocation
  import opened PageFile
  import opened PageFormat
  import opened Results
  import opened TreeContents
  import opened Varints

  /** Overflow pages for `n` bytes. */
  function ChainPages(n: nat, u: nat): (pages: nat)
    requires PageSize(u)
    ensures n > 0 ==> pages >= 1
  {
    if n == 0 then 0 else if n <= u - 4 then 1 else 1 + ChainPages(n - (u - 4), u)
  }

  lemma ChainPagesStep(n: nat, u: nat)
    requires PageSize(u) && n > 0
    ensures ChainPages(n, u) == 1 + ChainPages(n - if n < u - 4 then n else u - 4, u)
  {
  }

  lemma {:induction false} ChainPagesIsCeiling(n: nat, u: nat)
    requires PageSize(u)
    ensures ChainPages(n, u) == (n + u - 5) / (u - 4)
  {
    if n > u - 4 {
      ChainPagesIsCeiling(n - (u - 4), u);
    }
  }

  // ---------------------------------------------------------------- chains

  /** Full overflow pages holding `data`, linked from `first` up to, not including, `next`. */
  ghost predicate Segment(file: File, u: nat, first: nat, next: nat, data: seq<byte>)
    requires PageSize(u)
    decreases |data|
  {
    if data == [] then first == next
    else
      && first in file && |file[first]| == u && |data| >= u - 4
      && file[first][4..] == data[..u - 4]
      && Segment(file, u, ReadWord(file[first], 0, 4), next, data[u - 4..])
  }

  lemma {:induction false} SegmentAppend(file: File, u: nat, first: nat, at: nat, data: seq<byte>, next: nat)
    requires PageSize(u) && Segment(file, u, first, at, data)
    requires at in file && |file[at]| == u && ReadWord(file[at], 0, 4) == next
    ensures Segment(file, u, first, next, data + file[at][4..])
    decreases |data|
  {
    var chunk := file[at][4..];
    if data == [] {
      assert data + chunk == chunk && chunk[u - 4..] == [];
    } else {
      SegmentAppend(file, u, ReadWord(file[first], 0, 4), at, data[u - 4..], next);
      assert (data + chunk)[u - 4..] == data[u - 4..] + chunk && (data + chunk)[..u - 4] == data[..u - 4];
    }
  }

  lemma {:induction false} SegmentReads(file: File, u: nat, first: nat, next: nat, data: seq<byte>, rest: seq<byte>)
    requires PageSize(u) && Segment(file, u, first, next, data) && rest != []
    requires ReadChain(file, u, next, |rest|) == Some(rest)
    ensures ReadChain(file, u, first, |data| + |rest|) == Some(data + rest)
    decreases |data|
  {
    hide ReadWord, ReadChain;
    if data == [] {
      assert data + rest == rest;
    } else {
      SegmentReads(file, u, ReadWord(file[first], 0, 4), next, data[u - 4..], rest);
      OnePageReads(file, u, first, data[..u - 4], data[u - 4..] + rest);
      assert data[..u - 4] + (data[u - 4..] + rest) == data + rest;
    }
  }

  /** A full page and the rest of the chain. */
  lemma OnePageReads(file: File, u: nat, first: nat, chunk: seq<byte>, tail: seq<byte>)
    requires PageSize(u) && first in file && |file[first]| == u && file[first][4..] == chunk && tail != []
    requires ReadChain(file, u, ReadWord(file[first], 0, 4), |tail|) == Some(tail)
    ensures ReadChain(file, u, first, |chunk| + |tail|) == Some(chunk + tail)
  {
    hide ReadWord;
  }

  lemma {:induction false} SegmentGrows(file: File, file': File, u: nat, first: nat, next: nat, data: seq<byte>)
    requires PageSize(u) && Grows(file, file') && Segment(file, u, first, next, data)
    ensures Segment(file', u, first, next, data)
    decreases |data|
  {
    if data != [] {
      SegmentGrows(file, file', u, ReadWord(file[first], 0, 4), next, data[u - 4..]);
    }
  }

  /** One overflow page. */
  function ChainPage(next: nat, chunk: seq<byte>, u: nat): (page: seq<byte>)
    requires PageSize(u) && |chunk| <= u - 4
    ensures |page| == u
  {
    BigEndian(next, 4) + chunk + Zeros(u - 4 - |chunk|)
  }

  lemma ChainPageReads(next: nat, chunk: seq<byte>, u: nat)
    requires PageSize(u) && |chunk| <= u - 4 && next < U32
    ensures ReadWord(ChainPage(next, chunk, u), 0, 4) == next
    ensures ChainPage(next, chunk, u)[4..4 + |chunk|] == chunk
    ensures |chunk| == u - 4 ==> ChainPage(next, chunk, u)[4..] == chunk
  {
    hide PageSize, BigEndian;
    var page := ChainPage(next, chunk, u);
    assert page[0..4] == BigEndian(next, 4);
    assert Pow256(4) == U32 by { FourBytes(); }
    WordRoundTrip(page, 0, 4, next);
  }

  /** The page that was just written continues the chain, or ends it. */
  lemma ChainStep(file: File, u: nat, first: nat, id: nat, done: seq<byte>, chunk: seq<byte>, next: nat)
    requires PageSize(u) && Segment(file, u, first, id, done) && next < U32
    requires 0 < |chunk| <= u - 4 && id in file && file[id] == ChainPage(next, chunk, u)
    ensures |chunk| == u - 4 ==> Segment(file, u, first, next, done + chunk)
    ensures next == 0 ==> ReadChain(file, u, first, |done| + |chunk|) == Some(done + chunk)
  {
    ChainPageReads(next, chunk, u);
    if |chunk| == u - 4 {
      SegmentAppend(file, u, first, id, done, next);
    }
    if next == 0 {
      assert ReadChain(file, u, id, |chunk|) == Some(chunk);
      SegmentReads(file, u, first, id, done, chunk);
    }
  }

  lemma FourBytes()
    ensures Pow256(4) == U32
  {
  }

  /** Of `data`, `done` is on linked pages from `first` to `next`; `remaining` is not written yet. */
  ghost predicate Writing(file: File, u: nat, first: nat, next: nat, done: seq<byte>, remaining: seq<byte>,
                          data: seq<byte>)
    requires PageSize(u)
  {
    && done + remaining == data
    && (remaining != [] ==> Segment(file, u, first, next, done))
    && (remaining == [] ==> ReadChain(file, u, first, |data|) == Some(data))
  }

  lemma WritingStep(file: File, file': File, u: nat, first: nat, id: nat, done: seq<byte>, remaining: seq<byte>,
                    data: seq<byte>, take: nat, next: nat)
    requires PageSize(u) && Writing(file, u, first, id, done, remaining, data) && remaining != [] && next < U32
    requires take == if |remaining| < u - 4 then |remaining| else u - 4
    requires next == 0 <==> take == |remaining|
    requires id !in file && file' == file[id := ChainPage(next, remaining[..take], u)]
    ensures Writing(file', u, first, next, done + remaining[..take], remaining[take..], data)
  {
    var chunk := remaining[..take];
    assert remaining == chunk + remaining[take..];
    assert (done + chunk) + remaining[take..] == done + remaining == data;
    SegmentGrows(file, file', u, first, id, done);
    ChainStep(file', u, first, id, done, chunk, next);
    assert remaining[take..] == [] ==> done + chunk == data;
  }

  lemma SkipIsSmall(page: nat, u: nat)
    requires PageSize(u)
    ensures Skip(page, LockPage(u)) > 0 || page == 0
    ensures page <= LAST_PAGE ==> Skip(page, LockPage(u)) < U32
  {
    LockPageIsSmall(u);
  }

  lemma RoomIsSmall(w: PageWriter)
    requires w.Valid()
    ensures w.Room() <= LAST_PAGE < U32
  {
  }

  /** Writes one page of a chain, with the number the next one will have. */
  method WriteLink(w: PageWriter, remaining: seq<byte>, take: nat) returns (r: Result<()>, ghost next: nat)
    requires w.Valid() && 0 < take <= |remaining| && take <= w.pageSize - 4
    requires w.allocator != null ==> w.Room() >= 1
    modifies w`nextPage, w`rangeEnd, w`position, w`mine, w.disk, w.allocator
    ensures w.Valid() && w.nextPage >= old(w.nextPage)
    ensures Extended(old(w.disk.pages), old(w.mine), w.disk.pages, w.mine, w.Pending())
    ensures (r.Ok? <==> old(w.Room()) >= 1) && w.rangeEnd == old(w.rangeEnd)
    ensures r.Ok? ==> w.Room() == old(w.Room()) - 1 && next < U32
    ensures r.Ok? ==> var id := Skip(old(w.nextPage), w.Pending());
              id !in old(w.mine) && w.mine == old(w.mine)[id := ChainPage(next, remaining[..take], w.pageSize)]
    ensures next == if |remaining| > take then Skip(Skip(old(w.nextPage), w.Pending()) + 1, w.Pending()) else 0
    ensures r.Ok? && |remaining| > take ==> next == Skip(w.nextPage, w.Pending()) > 0
  {
    hide PageWriter.Valid, PageSize, LockPage, Extended, ChainPage, PageWriter.Room, Skip;
    var id := Skip(w.nextPage, w.Pending());
    var link := if |remaining| > take then Skip(id + 1, w.Pending()) else 0;
    next := link;
    SkipIsSmall(id + 1, w.pageSize);
    var appended := w.Append(ChainPage(link, remaining[..take], w.pageSize));
    r := if appended.Ok? then Ok(()) else Err(appended.message);
  }

  /** Writes `data` as an overflow chain.  The predicted first page is where reading starts. */
  method WriteChain(w: PageWriter, data: seq<byte>) returns (r: Result<()>)
    requires w.Valid() && data != []
    requires w.allocator != null ==> w.Room() >= ChainPages(|data|, w.pageSize)
    modifies w`nextPage, w`rangeEnd, w`position, w`mine, w.disk, w.allocator
    ensures w.Valid() && w.nextPage >= old(w.nextPage)
    ensures Extended(old(w.disk.pages), old(w.mine), w.disk.pages, w.mine, w.Pending())
    ensures r.Ok? <==> old(w.Room()) >= ChainPages(|data|, w.pageSize)
    ensures r.Ok? ==> w.Room() == old(w.Room()) - ChainPages(|data|, w.pageSize)
    ensures r.Ok? ==> |w.mine| == old(|w.mine|) + ChainPages(|data|, w.pageSize)
    ensures r.Ok? ==> ReadChain(w.mine, w.pageSize, Skip(old(w.nextPage), w.Pending()), |data|) == Some(data)
    ensures w.allocator == null ==> w.rangeEnd == old(w.rangeEnd)
  {
    var u: nat := w.pageSize;
    var remaining := data;
    ghost var first, done := Skip(w.nextPage, w.Pending()), [];
    NothingWritten(w.disk.pages, w.mine, w.Pending());
    assert Writing(w.mine, u, first, first, done, remaining, data);
    hide PageWriter.Valid, PageSize, LockPage, Writing, Extended, ReadChain, ChainPage, ChainPages, PageWriter.Room,
         Skip;
    while remaining != []
      invariant w.Valid() && w.nextPage >= old(w.nextPage)
      invariant Extended(old(w.disk.pages), old(w.mine), w.disk.pages, w.mine, w.Pending())
      invariant w.Room() + ChainPages(|data|, u) == old(w.Room()) + ChainPages(|remaining|, u)
      invariant |w.mine| + ChainPages(|remaining|, u) == old(|w.mine|) + ChainPages(|data|, u)
      invariant w.allocator == null ==> w.rangeEnd == old(w.rangeEnd)
      invariant Writing(w.mine, u, first, if remaining == [] then 0
                        else Skip(w.nextPage, w.Pending()), done, remaining, data)
      decreases |remaining|
    {
      var take := if |remaining| < u - 4 then |remaining| else u - 4;
      ghost var mine, pages, id := w.mine, w.disk.pages, Skip(w.nextPage, w.Pending());
      ghost var next;
      r, next := WriteLink(w, remaining, take);
      ExtendedTransitive(old(w.disk.pages), old(w.mine), pages, mine, w.disk.pages, w.mine, w.Pending());
      ChainPagesStep(|remaining|, u);
      if r.Err? {
        return;
      }
      WritingStep(mine, w.mine, u, first, id, done, remaining, data, take, next);
      done := done + remaining[..take];
      remaining := remaining[take..];
    }
    assert Writing(w.mine, u, first, 0, done, [], data);
    WritingEnds(w.mine, u, first, done, data);
    return Ok(());
  }

  lemma WritingEnds(file: File, u: nat, first: nat, done: seq<byte>, data: seq<byte>)
    requires PageSize(u) && Writing(file, u, first, 0, done, [], data)
    ensures ReadChain(file, u, first, |data|) == Some(data)
  {
  }

  // ---------------------------------------------------------------- cells

  /** Length of the stored form of a row. */
  function CellSize(kind: Kind, u: nat, row: Row): nat
    requires PageSize(u) && |row.payload| < U64
  {
    var local := LocalSize(kind, u, |row.payload|);
    |CellPrefix(kind, row)| + local + if local < |row.payload| then 4 else 0
  }

  /** Overflow pages a row needs. */
  function RowPages(kind: Kind, u: nat, row: Row): nat
    requires PageSize(u)
  {
    ChainPages(|row.payload| - LocalSize(kind, u, |row.payload|), u)
  }

  method WritePrefix(kind: Kind, row: Row) returns (cell: seq<byte>)
    requires |row.payload| < U64
    ensures cell == CellPrefix(kind, row)
  {
    cell := AppendVarint([], |row.payload|);
    if kind == Table {
      cell := AppendVarint(cell, ToU64(row.rowid));
    }
  }

  /** The number of bytes of a payload that stay on the page. */
  method LocalBytes(kind: Kind, u: nat, length: nat) returns (local: nat)
    requires PageSize(u)
    ensures local == LocalSize(kind, u, length)
  {
    var minimum := (u - 12) * 32 / 255 - 23;
    var maximum := if kind == Table then u - 35 else (u - 12) * 64 / 255 - 23;
    if length <= maximum {
      local := length;
    } else {
      var candidate := minimum + (length - minimum) % (u - 4);
      local := if candidate <= maximum then candidate else minimum;
    }
  }

  /** Builds the cell of a row, writing its overflow chain first when it has one. */
  method WriteCell(w: PageWriter, kind: Kind, row: Row) returns (r: Result<seq<byte>>)
    requires w.Valid() && |row.payload| < U64 && (kind == Index ==> row.rowid == 0)
    modifies w`nextPage, w`rangeEnd, w`position, w`mine, w.disk, w.allocator
    ensures w.Valid() && w.nextPage >= old(w.nextPage)
    ensures Extended(old(w.disk.pages), old(w.mine), w.disk.pages, w.mine, w.Pending())
    ensures r.Ok? ==> Encodes(w.mine, w.pageSize, kind, r.value, row) && |r.value| == CellSize(kind, w.pageSize, row)
    ensures w.allocator == null ==> (r.Ok? <==> old(w.Room()) >= RowPages(kind, w.pageSize, row))
    ensures w.allocator == null && r.Ok? ==> w.Room() == old(w.Room()) - RowPages(kind, w.pageSize, row)
    ensures r.Ok? ==> |w.mine| == old(|w.mine|) + RowPages(kind, w.pageSize, row)
    ensures w.allocator == null ==> w.rangeEnd == old(w.rangeEnd)
  {
    var u: nat := w.pageSize;
    var record := row.payload;
    var cell := WritePrefix(kind, row);
    var local := LocalBytes(kind, u, |record|);
    cell := cell + record[..local];
    if local == |record| {
      NothingWritten(w.disk.pages, w.mine, w.Pending());
      return Ok(cell);
    }
    r := WriteOverflow(w, kind, row, cell, local);
  }

  method CountPages(length: nat, u: nat) returns (pages: nat)
    requires PageSize(u)
    ensures pages == ChainPages(length, u)
  {
    ChainPagesIsCeiling(length, u);
    pages := (length + u - 5) / (u - 4);
  }

  /** Completes a cell whose payload does not fit on its page. */
  method WriteOverflow(w: PageWriter, kind: Kind, row: Row, front: seq<byte>, local: nat) returns (r: Result<seq<byte>>)
    requires w.Valid() && |row.payload| < U64 && (kind == Index ==> row.rowid == 0)
    requires local == LocalSize(kind, w.pageSize, |row.payload|) < |row.payload|
    requires front == CellPrefix(kind, row) + row.payload[..local]
    modifies w`nextPage, w`rangeEnd, w`position, w`mine, w.disk, w.allocator
    ensures w.Valid() && w.nextPage >= old(w.nextPage)
    ensures Extended(old(w.disk.pages), old(w.mine), w.disk.pages, w.mine, w.Pending())
    ensures r.Ok? ==> Encodes(w.mine, w.pageSize, kind, r.value, row) && |r.value| == |front| + 4
    ensures w.allocator == null ==> (r.Ok? <==> old(w.Room()) >= RowPages(kind, w.pageSize, row))
    ensures w.allocator == null && r.Ok? ==> w.Room() == old(w.Room()) - RowPages(kind, w.pageSize, row)
    ensures r.Ok? ==> |w.mine| == old(|w.mine|) + RowPages(kind, w.pageSize, row)
    ensures w.allocator == null ==> w.rangeEnd == old(w.rangeEnd)
  {
    var u: nat := w.pageSize;
    var rest := row.payload[local..];
    var pages := CountPages(|rest|, u);
    assert pages == RowPages(kind, u, row);
    hide RowPages, PageSize, LockPage, Extended, ReadChain, ChainPages, LocalSize, BigEndian, Skip, CellPrefix,
         PageWriter.Valid, PageWriter.Room, Encodes, ReadWord;
    var first := WriteTail(w, rest, pages);
    if first.Err? {
      return Err(first.message);
    }
    var cell := front + BigEndian(first.value, 4);
    PointerReads(front, first.value);
    OverflowEncodes(w.mine, u, kind, row, front, local, cell, first.value);
    return Ok(cell);
  }

  lemma OverflowEncodes(file: File, u: nat, kind: Kind, row: Row, front: seq<byte>, local: nat, cell: seq<byte>,
                        first: nat)
    requires PageSize(u) && |row.payload| < U64 && (kind == Index ==> row.rowid == 0)
    requires local == LocalSize(kind, u, |row.payload|) < |row.payload|
             && front == CellPrefix(kind, row) + row.payload[..local]
    requires |cell| == |front| + 4 && cell[..|front|] == front && ReadWord(cell, |front|, 4) == first
    requires ReadChain(file, u, first, |row.payload| - local) == Some(row.payload[local..])
    ensures Encodes(file, u, kind, cell, row)
  {
    hide PageSize, ReadChain, LocalSize, CellPrefix, ReadWord;
  }

  /** Finds room for a chain in one block, predicts its first page and writes it. */
  method WriteTail(w: PageWriter, rest: seq<byte>, pages: nat) returns (r: Result<nat>)
    requires w.Valid() && rest != [] && pages == ChainPages(|rest|, w.pageSize)
    modifies w`nextPage, w`rangeEnd, w`position, w`mine, w.disk, w.allocator
    ensures w.Valid() && w.nextPage >= old(w.nextPage)
    ensures Extended(old(w.disk.pages), old(w.mine), w.disk.pages, w.mine, w.Pending())
    ensures r.Ok? ==> r.value < U32 && ReadChain(w.mine, w.pageSize, r.value, |rest|) == Some(rest)
    ensures w.allocator == null ==> (r.Ok? <==> old(w.Room()) >= pages)
    ensures w.allocator == null && r.Ok? ==> w.Room() == old(w.Room()) - pages
    ensures r.Ok? ==> |w.mine| == old(|w.mine|) + pages
    ensures w.allocator == null ==> w.rangeEnd == old(w.rangeEnd)
  {
    var u: nat := w.pageSize;
    RoomIsSmall(w);
    hide PageSize, LockPage, Extended, ReadChain, ChainPages, Skip, PageWriter.Valid, PageWriter.Room;
    NothingWritten(w.disk.pages, w.mine, w.Pending());
    if pages >= U32 {
      return Err("overflow chain page count exhausted");
    }
    var ready := w.EnsureContiguous(pages);
    if ready.Err? {
      return Err(ready.message);
    }
    var first := Skip(w.nextPage, w.Pending());
    SkipIsSmall(w.nextPage, u);
    NextIsSmall(w);
    var chain := WriteChain(w, rest);
    if chain.Err? {
      return Err(chain.message);
    }
    return Ok(first);
  }

  lemma NextIsSmall(w: PageWriter)
    requires w.Valid()
    ensures w.nextPage <= LAST_PAGE
  {
  }

  lemma PointerReads(front: seq<byte>, pointer: nat)
    requires pointer < U32
    ensures var cell := front + BigEndian(pointer, 4);
            |cell| == |front| + 4 && cell[..|front|] == front && ReadWord(cell, |front|, 4) == pointer
  {
    FourBytes();
    var cell := front + BigEndian(pointer, 4);
    assert cell[|front|..|front| + 4] == BigEndian(pointer, 4);
    WordRoundTrip(cell, |front|, 4, pointer);
  }
}
