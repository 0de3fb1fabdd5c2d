/** What the pages of a tree under construction contain, and how each new page is read back. */
module TreeContents {
  import opened Bytes
  import opened PageFile
  import opened PageFormat
  import opened Results
  import opened Varints

  // ---------------------------------------------------------------- cells

  /** The integers in front of the payload. */
  function CellPrefix(kind: Kind, row: Row): seq<byte>
    requires |row.payload| < U64
  {
    Varint(|row.payload|) + match kind case Table => Varint(ToU64(row.rowid)) case Index => []
  }

  /** `cell` is the stored form of `row`; what does not fit is in an overflow chain of `file`. */
  ghost predicate Encodes(file: File, u: nat, kind: Kind, cell: seq<byte>, row: Row)
    requires PageSize(u)
  {
    && |row.payload| < U64 && (kind == Index ==> row.rowid == 0)
    && var local := LocalSize(kind, u, |row.payload|);
    && var front := CellPrefix(kind, row) + row.payload[..local];
    if local == |row.payload| then cell == front
    else
      && |cell| == |front| + 4 && cell[..|front|] == front
      && ReadChain(file, u, ReadWord(cell, |front|, 4), |row.payload| - local) == Some(row.payload[local..])
  }

  lemma PrefixIsThere(file: File, u: nat, kind: Kind, cell: seq<byte>, row: Row)
    requires PageSize(u) && Encodes(file, u, kind, cell, row)
    ensures |CellPrefix(kind, row)| <= |cell| && cell[..|CellPrefix(kind, row)|] == CellPrefix(kind, row)
  {
    hide PageSize, ReadChain, LocalSize, CellPrefix;
    var prefix := CellPrefix(kind, row);
    var front := prefix + row.payload[..LocalSize(kind, u, |row.payload|)];
    assert cell[..|front|] == front && front[..|prefix|] == prefix;
    assert cell[..|prefix|] == cell[..|front|][..|prefix|];
  }

  lemma PrefixReads(kind: Kind, row: Row, bytes: seq<byte>)
    requires |row.payload| < U64
    requires |CellPrefix(kind, row)| <= |bytes| && bytes[..|CellPrefix(kind, row)|] == CellPrefix(kind, row)
    ensures ReadVarint(bytes, 0) == Ok((|row.payload|, |Varint(|row.payload|)|))
    ensures kind == Table ==> ReadVarint(bytes, |Varint(|row.payload|)|)
                              == Ok((ToU64(row.rowid), |CellPrefix(kind, row)|))
  {
    hide ReadVarint, Varint;
    var prefix, first := CellPrefix(kind, row), Varint(|row.payload|);
    assert bytes[0..0 + |first|] == prefix[..|first|] == first;
    VarintRoundTrip(bytes, 0, |row.payload|);
    if kind == Table {
      var second := Varint(ToU64(row.rowid));
      assert bytes[|first|..|first| + |second|] == prefix[|first|..] == second;
      VarintRoundTrip(bytes, |first|, ToU64(row.rowid));
    }
  }

  lemma EncodesReads(file: File, u: nat, kind: Kind, cell: seq<byte>, row: Row)
    requires PageSize(u) && Encodes(file, u, kind, cell, row)
    ensures ReadCell(file, u, kind, cell) == Some(row)
  {
    hide PageSize, ReadChain, LocalSize, ReadVarint, Varint, ReadPayload;
    PrefixIsThere(file, u, kind, cell, row);
    PrefixReads(kind, row, cell);
    if kind == Table {
      CastRoundTrip(row.rowid);
    }
    PayloadReads(file, u, kind, cell, row);
  }

  lemma PayloadReads(file: File, u: nat, kind: Kind, cell: seq<byte>, row: Row)
    requires PageSize(u) && Encodes(file, u, kind, cell, row)
    ensures ReadPayload(file, u, kind, cell, |CellPrefix(kind, row)|, |row.payload|) == Some(row.payload)
  {
    hide ReadChain, Varint;
    var local, at := LocalSize(kind, u, |row.payload|), |CellPrefix(kind, row)|;
    hide LocalSize, PageSize;
    var front := CellPrefix(kind, row) + row.payload[..local];
    assert cell[at..at + local] == row.payload[..local] by {
      assert cell[..|front|] == front;
      assert cell[at..at + local] == cell[..|front|][at..];
    }
    if local != |row.payload| {
      assert row.payload == row.payload[..local] + row.payload[local..];
    } else {
      assert row.payload[..local] == row.payload && cell[at..] == cell[at..at + local];
    }
  }

  lemma EncodesGrows(file: File, file': File, u: nat, kind: Kind, cell: seq<byte>, row: Row)
    requires PageSize(u) && Grows(file, file') && Encodes(file, u, kind, cell, row)
    ensures Encodes(file', u, kind, cell, row)
  {
    var local := LocalSize(kind, u, |row.payload|);
    if local != |row.payload| {
      ReadChainGrows(file, file', u, ReadWord(cell, |CellPrefix(kind, row)| + local, 4), |row.payload| - local);
    }
  }

  // ---------------------------------------------------------------- leaves

  ghost predicate EncodesAll(file: File, u: nat, kind: Kind, cells: seq<seq<byte>>, rows: seq<Row>)
    requires PageSize(u)
  {
    |cells| == |rows| && forall i | 0 <= i < |cells| :: Encodes(file, u, kind, cells[i], rows[i])
  }

  lemma CellIsRead(image: seq<byte>, kind: Kind, interior: bool, cells: seq<seq<byte>>, right: nat, i: nat)
    requires IsPage(image, kind, interior, cells, right) && i < |cells|
    ensures CellBytes(image, interior, i) == Some(cells[i])
  {
    assert CellIn(image, interior, i, cells[i]);
  }

  lemma {:induction false} LeafIsRead(file: File, u: nat, kind: Kind, image: seq<byte>, cells: seq<seq<byte>>,
                                      rows: seq<Row>, right: nat, n: nat)
    requires PageSize(u) && IsPage(image, kind, false, cells, right)
    requires EncodesAll(file, u, kind, cells, rows) && n <= |cells|
    ensures ReadLeaf(file, u, kind, image, n) == Some(rows[..n])
  {
    hide IsPage, ReadCell, Encodes, PageSize, CellBytes;
    if n > 0 {
      LeafIsRead(file, u, kind, image, cells, rows, right, n - 1);
      CellIsRead(image, kind, false, cells, right, n - 1);
      EncodesReads(file, u, kind, cells[n - 1], rows[n - 1]);
      assert rows[..n] == rows[..n - 1] + [rows[n - 1]];
    }
  }

  lemma LeafPageIsRead(file: File, u: nat, kind: Kind, page: nat, cells: seq<seq<byte>>, rows: seq<Row>)
    requires PageSize(u) && page in file && |file[page]| == u && IsPage(file[page], kind, false, cells, 0)
    requires EncodesAll(file, u, kind, cells, rows)
    ensures ReadTree(file, u, kind, page, 0) == Some(rows)
  {
    LeafIsRead(file, u, kind, file[page], cells, rows, 0, |cells|);
    assert rows[..|cells|] == rows;
  }

  // ---------------------------------------------------------------- subtrees

  /** A finished subtree: the root page, the boundary bytes kept for its parent, its rows, and
      the entry the boundary stands for. */
  datatype Sub = Sub(page: nat, boundary: seq<byte>, rows: seq<Row>, separator: Row)

  ghost predicate SubTree(file: File, u: nat, kind: Kind, depth: nat, s: Sub)
    requires PageSize(u)
  {
    && s.page < U32 && s.rows != [] && ReadTree(file, u, kind, s.page, depth) == Some(s.rows)
  }

  /** The boundary of a subtree that is followed by another one. */
  ghost predicate Boundary(file: File, u: nat, kind: Kind, s: Sub)
    requires PageSize(u)
  {
    match kind
    case Index => Encodes(file, u, kind, s.boundary, s.separator)
    case Table => s.rows != [] && s.separator == s.rows[|s.rows| - 1] && s.boundary == Varint(ToU64(s.separator.rowid))
  }

  ghost predicate SubTrees(file: File, u: nat, kind: Kind, depth: nat, subs: seq<Sub>)
    requires PageSize(u)
  {
    && (forall i | 0 <= i < |subs| :: SubTree(file, u, kind, depth, subs[i]))
    && forall i | 0 <= i < |subs| - 1 :: Boundary(file, u, kind, subs[i])
  }

  /** All entries of the subtrees and of the boundaries behind them. */
  ghost function Left(kind: Kind, subs: seq<Sub>): seq<Row> {
    if subs == [] then []
    else
      var s := subs[|subs| - 1];
      Left(kind, subs[..|subs| - 1]) + s.rows + if kind == Index then [s.separator] else []
  }

  /** All entries of a list of neighbouring subtrees; the last boundary lies outside. */
  ghost function Contents(kind: Kind, subs: seq<Sub>): seq<Row>
    requires subs != []
  {
    Left(kind, subs[..|subs| - 1]) + subs[|subs| - 1].rows
  }

  lemma {:induction false} LeftOfConcat(kind: Kind, a: seq<Sub>, b: seq<Sub>)
    ensures Left(kind, a + b) == Left(kind, a) + Left(kind, b)
  {
    if b == [] {
      assert a + b == a;
    } else {
      var init := b[..|b| - 1];
      assert (a + b)[..|a + b| - 1] == a + init;
      LeftOfConcat(kind, a, init);
    }
  }

  lemma SubTreesGrow(file: File, file': File, u: nat, kind: Kind, depth: nat, subs: seq<Sub>)
    requires PageSize(u) && Grows(file, file') && SubTrees(file, u, kind, depth, subs)
    ensures SubTrees(file', u, kind, depth, subs)
  {
    forall i | 0 <= i < |subs| ensures SubTree(file', u, kind, depth, subs[i]) {
      assert SubTree(file, u, kind, depth, subs[i]);
      ReadTreeGrows(file, file', u, kind, subs[i].page, depth);
    }
    forall i | 0 <= i < |subs| - 1 ensures Boundary(file', u, kind, subs[i]) {
      assert Boundary(file, u, kind, subs[i]);
      if kind == Index {
        EncodesGrows(file, file', u, kind, subs[i].boundary, subs[i].separator);
      }
    }
  }

  // ---------------------------------------------------------------- interior pages

  /** The cell that points to a subtree and carries its boundary. */
  function ChildCell(s: Sub): seq<byte> {
    BigEndian(s.page, 4) + s.boundary
  }

  ghost function ChildCells(subs: seq<Sub>): (cells: seq<seq<byte>>)
    ensures |cells| == |subs|
  {
    seq(|subs|, i requires 0 <= i < |subs| => ChildCell(subs[i]))
  }

  ghost predicate IsParent(image: seq<byte>, kind: Kind, group: seq<Sub>) {
    |group| >= 2 && IsPage(image, kind, true, ChildCells(group[..|group| - 1]), group[|group| - 1].page)
  }

  lemma ChildCellIsRead(image: seq<byte>, kind: Kind, group: seq<Sub>, i: nat)
    requires IsParent(image, kind, group) && i < |group| - 1 && group[i].page < U32
    ensures CellBytes(image, true, i).Some?
    ensures var bytes := CellBytes(image, true, i).value;
            && |bytes| == 4 + |group[i].boundary| && ReadWord(bytes, 0, 4) == group[i].page
            && bytes[4..] == group[i].boundary
  {
    var cells := ChildCells(group[..|group| - 1]);
    CellIsRead(image, kind, true, cells, group[|group| - 1].page, i);
    var cell := cells[i];
    hide IsPage, BigEndian, CellBytes;
    assert cell[0..4] == BigEndian(group[i].page, 4);
    assert Pow256(4) == U32;
    WordRoundTrip(cell, 0, 4, group[i].page);
  }

  lemma SeparatorIsRead(file: File, u: nat, image: seq<byte>, group: seq<Sub>, i: nat)
    requires PageSize(u) && IsParent(image, Index, group) && i < |group| - 1 && group[i].page < U32
    requires Boundary(file, u, Index, group[i])
    ensures CellBytes(image, true, i).Some? && |CellBytes(image, true, i).value| >= 4
    ensures ReadCell(file, u, Index, CellBytes(image, true, i).value[4..]) == Some(group[i].separator)
  {
    ChildCellIsRead(image, Index, group, i);
    EncodesReads(file, u, Index, group[i].boundary, group[i].separator);
  }

  lemma KeyIsRead(file: File, u: nat, image: seq<byte>, group: seq<Sub>, i: nat)
    requires PageSize(u) && IsParent(image, Table, group) && i < |group| - 1 && group[i].page < U32
    requires Boundary(file, u, Table, group[i])
    ensures CellBytes(image, true, i).Some? && |CellBytes(image, true, i).value| >= 4
    ensures ReadWord(CellBytes(image, true, i).value, 0, 4) == group[i].page
    ensures var bytes := CellBytes(image, true, i).value;
            var key := ReadVarint(bytes, 4);
            key.Ok? && key.value.0 < U64 && key.value.1 == |bytes| && ToI64(key.value.0) == group[i].separator.rowid
  {
    ChildCellIsRead(image, Table, group, i);
    var s, bytes := group[i], CellBytes(image, true, i).value;
    hide IsParent, CellBytes, ReadVarint, Varint;
    assert bytes[4..4 + |s.boundary|] == bytes[4..] == Varint(ToU64(s.separator.rowid));
    VarintRoundTrip(bytes, 4, ToU64(s.separator.rowid));
    CastRoundTrip(s.separator.rowid);
  }

  lemma {:induction false} LeftIsRead(file: File, u: nat, kind: Kind, depth: nat, image: seq<byte>, group: seq<Sub>,
                                      n: nat)
    requires PageSize(u) && IsParent(image, kind, group) && SubTrees(file, u, kind, depth, group) && n < |group|
    ensures ReadLeft(file, u, kind, image, depth + 1, n) == Some(Left(kind, group[..n]))
  {
    if n > 0 {
      LeftIsRead(file, u, kind, depth, image, group, n - 1);
      LeftGrows(kind, group, n - 1);
      ChildStep(file, u, kind, depth, image, group, n - 1, Left(kind, group[..n - 1]));
    }
  }

  lemma LeftGrows(kind: Kind, group: seq<Sub>, n: nat)
    requires n < |group|
    ensures Left(kind, group[..n + 1])
         == if kind == Index then Left(kind, group[..n]) + group[n].rows + [group[n].separator]
             else Left(kind, group[..n]) + group[n].rows
  {
    assert group[..n + 1][..n] == group[..n];
  }

  lemma ChildStep(file: File, u: nat, kind: Kind, depth: nat, image: seq<byte>, group: seq<Sub>, n: nat, left: seq<Row>)
    requires PageSize(u) && IsParent(image, kind, group) && SubTrees(file, u, kind, depth, group) && n < |group| - 1
    requires ReadLeft(file, u, kind, image, depth + 1, n) == Some(left)
    ensures ReadLeft(file, u, kind, image, depth + 1, n + 1)
         == Some(if kind == Index then left + group[n].rows + [group[n].separator] else left + group[n].rows)
  {
    assert SubTree(file, u, kind, depth, group[n]) && Boundary(file, u, kind, group[n]);
    ChildCellIsRead(image, kind, group, n);
    if kind == Index {
      SeparatorIsRead(file, u, image, group, n);
    } else {
      KeyIsRead(file, u, image, group, n);
    }
    hide ReadVarint, IsPage, ReadCell, Encodes, PageSize, IsParent, ReadTree, SubTrees, Boundary, CellBytes;
  }

  /** A parent page turns neighbouring subtrees into one tree with the same contents. */
  lemma ParentIsRead(file: File, u: nat, kind: Kind, depth: nat, page: nat, group: seq<Sub>)
    requires PageSize(u) && page in file && |file[page]| == u && IsParent(file[page], kind, group)
    requires SubTrees(file, u, kind, depth, group)
    ensures ReadTree(file, u, kind, page, depth + 1) == Some(Contents(kind, group))
  {
    LeftIsRead(file, u, kind, depth, file[page], group, |group| - 1);
    assert SubTree(file, u, kind, depth, group[|group| - 1]);
  }

  // ---------------------------------------------------------------- searching table trees

  /** First row with the given rowid. */
  ghost function Search(rows: seq<Row>, rowid: i64): Option<seq<byte>> {
    if rows == [] then None
    else if rows[0].rowid == rowid then Some(rows[0].payload)
    else Search(rows[1..], rowid)
  }

  ghost predicate Ascending(rows: seq<Row>) {
    forall i, j | 0 <= i < j < |rows| :: rows[i].rowid < rows[j].rowid
  }

  lemma {:induction false} SearchBelow(a: seq<Row>, b: seq<Row>, rowid: i64)
    requires forall r | r in b :: rowid < r.rowid
    ensures Search(a + b, rowid) == Search(a, rowid)
  {
    if a == [] {
      if b != [] {
        assert a + b == b && b[0] in b;
        assert forall r | r in b[1..] :: r in b;
        SearchBelow([], b[1..], rowid);
        assert [] + b[1..] == b[1..];
      }
    } else {
      assert (a + b)[1..] == a[1..] + b;
      SearchBelow(a[1..], b, rowid);
    }
  }

  lemma {:induction false} SearchAbove(a: seq<Row>, b: seq<Row>, rowid: i64)
    requires forall r | r in a :: r.rowid < rowid
    ensures Search(a + b, rowid) == Search(b, rowid)
  {
    if a == [] {
      assert a + b == b;
    } else {
      assert (a + b)[1..] == a[1..] + b && a[0] in a;
      assert forall r | r in a[1..] :: r in a;
      SearchAbove(a[1..], b, rowid);
    }
  }

  /** Descending from `page` by interior keys finds exactly the rows of the tree. */
  ghost predicate Searchable(file: File, u: nat, page: nat, depth: nat, rows: seq<Row>)
    requires PageSize(u)
  {
    forall rowid: i64 :: Lookup(file, u, page, depth, rowid) == Some(Search(rows, rowid))
  }

  lemma {:induction false} LeafIsSearched(file: File, u: nat, image: seq<byte>, cells: seq<seq<byte>>, rows: seq<Row>,
                                          i: nat, rowid: i64)
    requires PageSize(u) && IsPage(image, Table, false, cells, 0)
    requires EncodesAll(file, u, Table, cells, rows) && i <= |cells|
    ensures FindInLeaf(file, u, image, i, |cells|, rowid) == Some(Search(rows[i..], rowid))
    decreases |cells| - i
  {
    hide IsPage, ReadCell, Encodes, PageSize;
    if i < |cells| {
      CellIsRead(image, Table, false, cells, 0, i);
      EncodesReads(file, u, Table, cells[i], rows[i]);
      LeafIsSearched(file, u, image, cells, rows, i + 1, rowid);
      assert rows[i..][1..] == rows[i + 1..];
    }
  }

  lemma LeafPageIsSearchable(file: File, u: nat, page: nat, cells: seq<seq<byte>>, rows: seq<Row>)
    requires PageSize(u) && page in file && |file[page]| == u && IsPage(file[page], Table, false, cells, 0)
    requires EncodesAll(file, u, Table, cells, rows)
    ensures Searchable(file, u, page, 0, rows)
  {
    forall rowid: i64 ensures Lookup(file, u, page, 0, rowid) == Some(Search(rows, rowid)) {
      LeafIsSearched(file, u, file[page], cells, rows, 0, rowid);
      assert rows[0..] == rows;
    }
  }

  lemma SearchableGrows(file: File, file': File, u: nat, page: nat, depth: nat, rows: seq<Row>)
    requires PageSize(u) && Grows(file, file') && Searchable(file, u, page, depth, rows)
    ensures Searchable(file', u, page, depth, rows)
  {
    forall rowid: i64 ensures Lookup(file', u, page, depth, rowid) == Some(Search(rows, rowid)) {
      assert Lookup(file, u, page, depth, rowid) == Some(Search(rows, rowid));
      LookupGrows(file, file', u, page, depth, rowid);
    }
  }

  ghost predicate AllSearchable(file: File, u: nat, depth: nat, subs: seq<Sub>)
    requires PageSize(u)
  {
    forall i | 0 <= i < |subs| :: Searchable(file, u, subs[i].page, depth, subs[i].rows)
  }

  /** Left-to-right contents from subtree `i` on. */
  ghost function ContentsFrom(subs: seq<Sub>, i: nat): seq<Row>
    requires i <= |subs|
    decreases |subs| - i
  {
    if i == |subs| then [] else subs[i].rows + ContentsFrom(subs, i + 1)
  }

  lemma {:induction false} ContentsFromLeft(subs: seq<Sub>, i: nat)
    requires i <= |subs|
    ensures Left(Table, subs) == Left(Table, subs[..i]) + ContentsFrom(subs, i)
    decreases |subs| - i
  {
    if i == |subs| {
      assert subs[..i] == subs;
    } else {
      ContentsFromLeft(subs, i + 1);
      assert subs[..i + 1][..i] == subs[..i];
      var a, b, c := Left(Table, subs[..i]), subs[i].rows, ContentsFrom(subs, i + 1);
      assert Left(Table, subs[..i + 1]) == a + b;
      assert (a + b) + c == a + (b + c);
    }
  }

  /** A separator tells on which side of it a rowid is. */
  lemma SeparatorDecides(first: seq<Row>, rest: seq<Row>, rowid: i64)
    requires first != [] && Ascending(first + rest)
    ensures Ascending(rest)
    ensures Search(first + rest, rowid) == Search(if rowid <= first[|first| - 1].rowid then first else rest, rowid)
  {
    hide Search;
    var n, all := |first|, first + rest;
    assert all[n - 1] == first[n - 1];
    assert forall k | 0 <= k < |rest| :: all[n + k] == rest[k];
    if rowid <= first[n - 1].rowid {
      forall r | r in rest ensures rowid < r.rowid {
        var k :| 0 <= k < |rest| && rest[k] == r;
        assert all[n + k] == r;
      }
      SearchBelow(first, rest, rowid);
    } else {
      forall r | r in first ensures r.rowid < rowid {
        var k :| 0 <= k < n && first[k] == r;
        assert all[k] == r;
      }
      SearchAbove(first, rest, rowid);
    }
  }

  /** Some child from `i` on is this page and finds what the children from `i` on hold. */
  ghost predicate LeadsTo(group: seq<Sub>, i: nat, page: nat, rowid: i64)
    requires i <= |group|
  {
    exists k :: i <= k < |group| && group[k].page == page && Search(group[k].rows, rowid)
                == Search(ContentsFrom(group, i), rowid)
  }

  lemma LeadsHere(group: seq<Sub>, i: nat, rowid: i64)
    requires i < |group| && Search(group[i].rows, rowid) == Search(ContentsFrom(group, i), rowid)
    ensures LeadsTo(group, i, group[i].page, rowid)
  {
    hide Search, ContentsFrom;
  }

  lemma LeadsFurther(group: seq<Sub>, i: nat, page: nat, rowid: i64)
    requires i < |group| && LeadsTo(group, i + 1, page, rowid)
    requires Search(ContentsFrom(group, i), rowid) == Search(ContentsFrom(group, i + 1), rowid)
    ensures LeadsTo(group, i, page, rowid)
  {
    hide Search, ContentsFrom;
  }

  /** The child chosen by the keys holds every row with that rowid among the children from `i` on. */
  lemma {:induction false} ChildIsFound(file: File, u: nat, depth: nat, image: seq<byte>, group: seq<Sub>, i: nat,
                                        rowid: i64)
    requires PageSize(u) && IsParent(image, Table, group) && SubTrees(file, u, Table, depth, group)
    requires i < |group| && Ascending(ContentsFrom(group, i))
    ensures var found := FindChild(image, i, |group| - 1, rowid);
            found.Some? && LeadsTo(group, i, found.value, rowid)
    decreases |group| - i
  {
    hide Search, ReadWord, ReadVarint, CellBytes, Ascending, Encodes, PageSize, ReadTree;
    var s := group[i];
    assert SubTree(file, u, Table, depth, s);
    var rest := ContentsFrom(group, i + 1);
    assert ContentsFrom(group, i) == s.rows + rest;
    if i == |group| - 1 {
      assert s.rows + rest == s.rows;
      LeadsHere(group, i, rowid);
    } else {
      assert Boundary(file, u, Table, s);
      KeyIsRead(file, u, image, group, i);
      SeparatorDecides(s.rows, rest, rowid);
      if rowid <= s.separator.rowid {
        LeadsHere(group, i, rowid);
      } else {
        hide LeadsTo;
        ChildIsFound(file, u, depth, image, group, i + 1, rowid);
        LeadsFurther(group, i, FindChild(image, i + 1, |group| - 1, rowid).value, rowid);
      }
    }
  }

  lemma ParentIsSearchable(file: File, u: nat, depth: nat, page: nat, group: seq<Sub>)
    requires PageSize(u) && page in file && |file[page]| == u && IsParent(file[page], Table, group)
    requires SubTrees(file, u, Table, depth, group) && AllSearchable(file, u, depth, group)
    requires Ascending(Contents(Table, group))
    ensures Searchable(file, u, page, depth + 1, Contents(Table, group))
  {
    ContentsFromLeft(group, 0);
    var last := |group| - 1;
    assert Left(Table, group) == Contents(Table, group);
    assert ContentsFrom(group, 0) == Contents(Table, group);
    forall rowid: i64 ensures Lookup(file, u, page, depth + 1, rowid) == Some(Search(Contents(Table, group), rowid)) {
      ChildIsFound(file, u, depth, file[page], group, 0, rowid);
      var found := FindChild(file[page], 0, last, rowid).value;
      var k :| 0 <= k < |group| && group[k].page == found
               && Search(group[k].rows, rowid) == Search(ContentsFrom(group, 0), rowid);
      assert Searchable(file, u, group[k].page, depth, group[k].rows);
    }
  }

  // ---------------------------------------------------------------- a root among its own pages

  /** The child an interior page points to: `i` counts its cells, the right-most child comes last. */
  ghost predicate IsChild(file: File, u: nat, kind: Kind, page: nat, child: nat)
    requires PageSize(u)
  {
    var image := PageAt(file, u, kind, page, true);
    image.Some? && (child == ReadWord(image.value, 8, 4) || exists i: nat :: IsLeftChild(image.value, i, child))
  }

  ghost predicate IsLeftChild(image: seq<byte>, i: nat, child: nat)
    requires |image| >= 512
  {
    var cell := CellBytes(image, true, i);
    i < ReadWord(image, 3, 2) && cell.Some? && |cell.value| >= 4 && child == ReadWord(cell.value, 0, 4)
  }

  /** `n` pointers lead from one page to another. */
  ghost predicate LeadsDown(file: File, u: nat, kind: Kind, page: nat, n: nat, target: nat)
    requires PageSize(u)
    decreases n
  {
    if n == 0 then page == target else exists child: nat :: IsChild(file, u, kind, page, child)
                                                            && LeadsDown(file, u, kind, child, n - 1, target)
  }

  lemma {:induction false} LeftChildReads(file: File, u: nat, kind: Kind, image: seq<byte>, depth: nat, n: nat, i: nat,
                                          child: nat)
    requires PageSize(u) && |image| == u && depth > 0 && i < n && ReadLeft(file, u, kind, image, depth, n).Some?
    requires IsLeftChild(image, i, child)
    ensures ReadTree(file, u, kind, child, depth - 1).Some?
    decreases n
  {
    hide ReadTree, ReadCell, ReadWord, CellBytes;
    if i < n - 1 {
      LeftChildReads(file, u, kind, image, depth, n - 1, i, child);
    }
  }

  lemma ChildReads(file: File, u: nat, kind: Kind, page: nat, depth: nat, child: nat)
    requires PageSize(u) && ReadTree(file, u, kind, page, depth).Some? && IsChild(file, u, kind, page, child)
    ensures depth > 0 && ReadTree(file, u, kind, child, depth - 1).Some?
  {
    hide ReadLeft, ReadLeaf, ReadWord, CellBytes, IsLeftChild;
    var image := PageAt(file, u, kind, page, true).value;
    if depth > 0 && child != ReadWord(image, 8, 4) {
      var i: nat :| IsLeftChild(image, i, child);
      CellIndex(image, i, child);
      LeftChildReads(file, u, kind, image, depth, ReadWord(image, 3, 2), i, child);
    }
  }

  lemma CellIndex(image: seq<byte>, i: nat, child: nat)
    requires |image| >= 512 && IsLeftChild(image, i, child)
    ensures i < ReadWord(image, 3, 2)
  {
  }

  lemma {:induction false} DescendantReads(file: File, u: nat, kind: Kind, page: nat, depth: nat, n: nat, target: nat)
    requires PageSize(u) && ReadTree(file, u, kind, page, depth).Some? && LeadsDown(file, u, kind, page, n, target)
    ensures n <= depth && ReadTree(file, u, kind, target, depth - n).Some?
    decreases n
  {
    hide ReadTree, IsChild;
    if n > 0 {
      var child: nat :| IsChild(file, u, kind, page, child) && LeadsDown(file, u, kind, child, n - 1, target);
      ChildReads(file, u, kind, page, depth, child);
      DescendantReads(file, u, kind, child, depth - 1, n - 1, target);
    }
  }

  /** A page that pointers lead back to is no tree of any depth. */
  lemma {:induction false} CycleIsLost(file: File, u: nat, kind: Kind, root: nat, n: nat, depth: nat)
    requires PageSize(u) && n > 0 && LeadsDown(file, u, kind, root, n, root)
    ensures ReadTree(file, u, kind, root, depth) == None
    decreases depth
  {
    hide ReadTree, LeadsDown;
    if ReadTree(file, u, kind, root, depth).Some? {
      DescendantReads(file, u, kind, root, depth, n, root);
      CycleIsLost(file, u, kind, root, n, depth - n);
    }
  }

  /** From one of the subtrees pointers lead to the page. */
  ghost predicate Under(file: File, u: nat, kind: Kind, subs: seq<Sub>, page: nat)
    requires PageSize(u)
  {
    exists i: nat, n: nat :: i < |subs| && LeadsDown(file, u, kind, subs[i].page, n, page)
  }

  ghost predicate AllUnder(file: File, u: nat, kind: Kind, subs: seq<Sub>, nodes: set<nat>)
    requires PageSize(u)
  {
    forall page | page in nodes :: Under(file, u, kind, subs, page)
  }

  lemma IsChildGrows(file: File, file': File, u: nat, kind: Kind, page: nat, child: nat)
    requires PageSize(u) && page in file && page in file' && file'[page] == file[page]
    requires IsChild(file, u, kind, page, child)
    ensures IsChild(file', u, kind, page, child)
  {
  }

  lemma {:induction false} LeadsDownGrows(file: File, file': File, u: nat, kind: Kind, page: nat, n: nat, target: nat)
    requires PageSize(u) && Grows(file, file') && LeadsDown(file, u, kind, page, n, target)
    ensures LeadsDown(file', u, kind, page, n, target)
    decreases n
  {
    hide IsChild;
    if n > 0 {
      var child: nat :| IsChild(file, u, kind, page, child) && LeadsDown(file, u, kind, child, n - 1, target);
      ParentIsThere(file, u, kind, page, child);
      IsChildGrows(file, file', u, kind, page, child);
      LeadsDownGrows(file, file', u, kind, child, n - 1, target);
    }
  }

  lemma ParentIsThere(file: File, u: nat, kind: Kind, page: nat, child: nat)
    requires PageSize(u) && IsChild(file, u, kind, page, child)
    ensures page in file
  {
  }

  /** Replacing the page the pointers lead to leaves a way to it: the one up to where it is met first. */
  lemma {:induction false} StillLeadsDown(file: File, file': File, u: nat, kind: Kind, page: nat, n: nat, target: nat)
      returns (m: nat)
    requires PageSize(u) && LeadsDown(file, u, kind, page, n, target)
    requires forall p | p in file && p != target :: p in file' && file'[p] == file[p]
    ensures LeadsDown(file', u, kind, page, m, target)
    decreases n
  {
    hide IsChild;
    if page == target {
      m := 0;
    } else {
      var child: nat :| IsChild(file, u, kind, page, child) && LeadsDown(file, u, kind, child, n - 1, target);
      ParentIsThere(file, u, kind, page, child);
      IsChildGrows(file, file', u, kind, page, child);
      m := StillLeadsDown(file, file', u, kind, child, n - 1, target);
      m := m + 1;
    }
  }

  /** Every subtree of a group is a child of the group's page. */
  lemma GroupIsChildren(file: File, u: nat, kind: Kind, page: nat, group: seq<Sub>, i: nat)
    requires PageSize(u) && page in file && |file[page]| == u && IsParent(file[page], kind, group)
    requires i < |group| && forall k | 0 <= k < |group| :: group[k].page < U32
    ensures IsChild(file, u, kind, page, group[i].page)
  {
    var image := file[page];
    if i < |group| - 1 {
      ChildCellIsRead(image, kind, group, i);
      assert IsLeftChild(image, i, group[i].page);
    }
  }

  /** Whatever depth is tried, nothing can be read from the root. */
  ghost predicate Lost(file: File, u: nat, kind: Kind, root: nat)
    requires PageSize(u)
  {
    forall depth: nat :: ReadTree(file, u, kind, root, depth) == None
  }

  /** A root over a page from which its tree hangs leaves nothing to read. */
  lemma RootBelowItselfIsLost(below: File, file: File, u: nat, kind: Kind, subs: seq<Sub>, root: nat)
    requires PageSize(u) && Under(below, u, kind, subs, root) && forall k | 0 <= k < |subs| :: subs[k].page < U32
    requires root in file && |file[root]| == u && IsParent(file[root], kind, subs)
    requires forall p | p in below && p != root :: p in file && file[p] == below[p]
    ensures Lost(file, u, kind, root)
  {
    var i: nat, n: nat :| i < |subs| && LeadsDown(below, u, kind, subs[i].page, n, root);
    hide ReadTree, IsChild;
    var m := StillLeadsDown(below, file, u, kind, subs[i].page, n, root);
    GroupIsChildren(file, u, kind, root, subs, i);
    assert LeadsDown(file, u, kind, root, m + 1, root);
    forall depth: nat ensures ReadTree(file, u, kind, root, depth) == None {
      CycleIsLost(file, u, kind, root, m + 1, depth);
    }
  }

  /** The smallest case: two leaves or more under a root that was put on one of them. */
  lemma RootOverLeafIsLost(below: File, file: File, u: nat, kind: Kind, leaves: seq<Sub>, i: nat)
    requires PageSize(u) && i < |leaves| && forall k | 0 <= k < |leaves| :: leaves[k].page < U32
    requires var root := leaves[i].page;
             && root in file && |file[root]| == u && IsParent(file[root], kind, leaves)
             && forall p | p in below && p != root :: p in file && file[p] == below[p]
    ensures Lost(file, u, kind, leaves[i].page)
  {
    assert LeadsDown(below, u, kind, leaves[i].page, 0, leaves[i].page);
    RootBelowItselfIsLost(below, file, u, kind, leaves, leaves[i].page);
  }
}
