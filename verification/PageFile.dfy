/** Reading a b-tree back from database pages, following sections 1.6 and 1.7 of the SQLite file
    format.  This reader is independent of the writer and is what the writer is proved against. */
module PageFile {
  import opened Bytes
  import opened PageFormat
  import opened Powers
  import opened Results
  import opened Varints

  /** Index entries carry rowid zero. */
  datatype Row = Row(rowid: i64, payload: seq<byte>)

  type File = map<nat, seq<byte>>

  /** Largest payload kept entirely on its page. */
  function MaxLocal(kind: Kind, u: nat): (m: nat)
    requires PageSize(u)
  {
    match kind
    case Table => u - 35
    case Index => (u - 12) * 64 / 255 - 23
  }

  function MinLocal(u: nat): nat
    requires PageSize(u)
  {
    (u - 12) * 32 / 255 - 23
  }

  /** Number of payload bytes kept on the b-tree page. */
  function LocalSize(kind: Kind, u: nat, length: nat): (local: nat)
    requires PageSize(u)
    ensures local <= length && local <= MaxLocal(kind, u)
    ensures local == length <==> length <= MaxLocal(kind, u)
  {
    if length <= MaxLocal(kind, u) then length
    else
      var candidate := MinLocal(u) + (length - MinLocal(u)) % (u - 4);
      if candidate <= MaxLocal(kind, u) then candidate else MinLocal(u)
  }

  /** What is left of a payload behind its local bytes fills overflow pages. */
  predicate FillsPages(length: nat, local: nat, u: nat)
    requires PageSize(u)
  {
    (length - local) % (u - 4) == 0
  }

  /** Above the limit a payload keeps the fewest bytes within its bounds that let it fill its overflow pages, and the
      lower bound where no number of bytes does. */
  lemma LocalSizeFills(kind: Kind, u: nat, length: nat)
    requires PageSize(u) && length > MaxLocal(kind, u)
    ensures var local := LocalSize(kind, u, length);
            && MinLocal(u) <= local
            && (forall m: nat | MinLocal(u) <= m <= MaxLocal(kind, u) && FillsPages(length, m, u) ::
                  local <= m && FillsPages(length, local, u))
            && (!FillsPages(length, local, u) ==> local == MinLocal(u))
  {
    hide PageSize, FillsPages;
    BoundsInOrder(kind, u);
    var low := MinLocal(u);
    RemainderFills(length, low, u);
    forall m: nat | low <= m <= MaxLocal(kind, u) && FillsPages(length, m, u)
      ensures LocalSize(kind, u, length) <= m && FillsPages(length, LocalSize(kind, u, length), u) {
      FewestFill(length, low, u, m);
    }
  }

  lemma BoundsInOrder(kind: Kind, u: nat)
    requires PageSize(u)
    ensures 4 < u && 0 <= MinLocal(u) <= MaxLocal(kind, u)
  {
  }

  /** A lower bound and the remainder behind it leave full pages. */
  lemma RemainderFills(length: nat, low: nat, u: nat)
    requires PageSize(u) && low <= length
    ensures FillsPages(length, low + (length - low) % (u - 4), u)
  {
    var n := length - low;
    var d := u - 4;
    assert length - (low + n % d) == n - n % d;
    WholePages(n, d);
  }

  lemma WholePages(n: nat, d: nat)
    requires d >= 1
    ensures (n - n % d) % d == 0
  {
    var q, r := n / d, n % d;
    assert n == q * d + r;
    Remainder(n - r, d, q, 0);
  }

  /** No fewer bytes than the remainder leave full pages. */
  lemma FewestFill(length: nat, low: nat, u: nat, m: nat)
    requires PageSize(u) && low <= m <= length && FillsPages(length, m, u)
    ensures low + (length - low) % (u - 4) <= m
  {
    FewestBytes(length - low, m - low, u - 4);
  }

  lemma FewestBytes(n: nat, m: nat, d: nat)
    requires d >= 1 && m <= n && (n - m) % d == 0
    ensures n % d <= m
  {
    var q := (n - m) / d;
    assert n - m == q * d;
    if m < d {
      Remainder(n, d, q, m);
    }
  }

  // ---------------------------------------------------------------- payloads

  /** The last `remaining` bytes of a payload, from the overflow chain that starts at `page`. */
  function ReadChain(file: File, u: nat, page: nat, remaining: nat): Option<seq<byte>>
    requires PageSize(u)
    decreases remaining
  {
    if page !in file || |file[page]| != u then None
    else
      var next := ReadWord(file[page], 0, 4);
      if remaining <= u - 4 then
        if next == 0 then Some(file[page][4..4 + remaining]) else None
      else
        match ReadChain(file, u, next, remaining - (u - 4))
        case None => None
        case Some(rest) => Some(file[page][4..] + rest)
  }

  /** The payload of `length` bytes that starts at `offset` of a cell and ends it. */
  function ReadPayload(file: File, u: nat, kind: Kind, cell: seq<byte>, offset: nat, length: nat): Option<seq<byte>>
    requires PageSize(u)
  {
    var local := LocalSize(kind, u, length);
    if local == length then
      if offset + local == |cell| then Some(cell[offset..]) else None
    else if offset + local + 4 == |cell| then
      match ReadChain(file, u, ReadWord(cell, offset + local, 4), length - local)
      case None => None
      case Some(rest) => Some(cell[offset..offset + local] + rest)
    else None
  }

  /** A leaf cell, or the separator of an index interior cell. */
  function ReadCell(file: File, u: nat, kind: Kind, cell: seq<byte>): Option<Row>
    requires PageSize(u)
  {
    match ReadVarint(cell, 0)
    case Err(_) => None
    case Ok((length, offset)) =>
      match kind
      case Index =>
        (match ReadPayload(file, u, kind, cell, offset, length)
         case None => None
         case Some(payload) => Some(Row(0, payload)))
      case Table =>
        match ReadVarint(cell, offset)
        case Err(_) => None
        case Ok((rowid, offset)) =>
          match ReadPayload(file, u, kind, cell, offset, length)
          case None => None
          case Some(payload) => if rowid < U64 then Some(Row(ToI64(rowid), payload)) else None
  }

  // ---------------------------------------------------------------- pages

  /** The bytes of the `i`-th cell. */
  function CellBytes(image: seq<byte>, interior: bool, i: nat): Option<seq<byte>> {
    if HeaderSize(interior) + 2 * i + 2 <= |image|
       && CellPointer(image, interior, i) <= CellEnd(image, interior, i) <= |image| then
      Some(image[CellPointer(image, interior, i)..CellEnd(image, interior, i)])
    else None
  }

  /** The page image, if the page exists, has the expected size and type, and is packed. */
  function PageAt(file: File, u: nat, kind: Kind, page: nat, interior: bool): Option<seq<byte>>
    requires PageSize(u)
  {
    if page in file && |file[page]| == u && file[page][0] == PageType(kind, interior)
       && PackedHeader(file[page], interior) then Some(file[page])
    else None
  }

  /** Cells `0..n` of a leaf. */
  function ReadLeaf(file: File, u: nat, kind: Kind, image: seq<byte>, n: nat): Option<seq<Row>>
    requires PageSize(u)
    decreases n
  {
    if n == 0 then Some([])
    else
      match ReadLeaf(file, u, kind, image, n - 1)
      case None => None
      case Some(rows) =>
        match CellBytes(image, false, n - 1)
        case None => None
        case Some(cell) =>
          match ReadCell(file, u, kind, cell)
          case None => None
          case Some(row) => Some(rows + [row])
  }

  /** Everything left of the `n`-th child of an interior page: children `0..n` and, in an index,
      the entries that separate them. */
  function ReadLeft(file: File, u: nat, kind: Kind, image: seq<byte>, depth: nat, n: nat): Option<seq<Row>>
    requires PageSize(u)
    decreases depth, 0, n
  {
    if n == 0 || depth == 0 then Some([])
    else
      match ReadLeft(file, u, kind, image, depth, n - 1)
      case None => None
      case Some(rows) =>
        match CellBytes(image, true, n - 1)
        case None => None
        case Some(cell) =>
          if |cell| < 4 then None
          else
            match ReadTree(file, u, kind, ReadWord(cell, 0, 4), depth - 1)
            case None => None
            case Some(child) =>
              if child == [] then None
              else
                match kind
                case Table =>
                  (match ReadVarint(cell, 4)
                   case Err(_) => None
                   case Ok((_, end)) => if end == |cell| then Some(rows + child) else None)
                case Index =>
                  match ReadCell(file, u, kind, cell[4..])
                  case None => None
                  case Some(separator) => Some(rows + child + [separator])
  }

  /** In-order contents of a tree whose leaves all lie `depth` levels below `page`.  An interior
      page without cells and an empty page below another one are rejected. */
  function ReadTree(file: File, u: nat, kind: Kind, page: nat, depth: nat): Option<seq<Row>>
    requires PageSize(u)
    decreases depth, 1, 0
  {
    match PageAt(file, u, kind, page, depth > 0)
    case None => None
    case Some(image) =>
      var n := ReadWord(image, 3, 2);
      if depth == 0 then ReadLeaf(file, u, kind, image, n)
      else if n == 0 then None
      else
        match ReadLeft(file, u, kind, image, depth, n)
        case None => None
        case Some(rows) =>
          match ReadTree(file, u, kind, ReadWord(image, 8, 4), depth - 1)
          case None => None
          case Some(last) => if last == [] then None else Some(rows + last)
  }

  // ---------------------------------------------------------------- lookups in table trees

  /** First row of a leaf, among cells `i..n`, with the given rowid. */
  function FindInLeaf(file: File, u: nat, image: seq<byte>, i: nat, n: nat, rowid: i64): Option<Option<seq<byte>>>
    requires PageSize(u)
    decreases n - i
  {
    if i >= n then Some(None)
    else
      match CellBytes(image, false, i)
      case None => None
      case Some(cell) =>
        match ReadCell(file, u, Table, cell)
        case None => None
        case Some(row) => if row.rowid == rowid then Some(Some(row.payload))
                          else FindInLeaf(file, u, image, i + 1, n, rowid)
  }

  /** The child to descend into: the first of cells `i..n` whose key is not below `rowid`, else the right-most. */
  function FindChild(image: seq<byte>, i: nat, n: nat, rowid: i64): Option<nat>
    decreases n - i
  {
    if i >= n then
      if |image| >= 12 then Some(ReadWord(image, 8, 4)) else None
    else
      match CellBytes(image, true, i)
      case None => None
      case Some(cell) =>
        if |cell| < 4 then None
        else
          match ReadVarint(cell, 4)
          case Err(_) => None
          case Ok((key, end)) =>
            if key >= U64 || end != |cell| then None
            else if rowid <= ToI64(key) then Some(ReadWord(cell, 0, 4))
            else FindChild(image, i + 1, n, rowid)
  }

  /** Searches a table tree for a rowid by its interior keys; the outer option reports corruption. */
  function Lookup(file: File, u: nat, page: nat, depth: nat, rowid: i64): Option<Option<seq<byte>>>
    requires PageSize(u)
    decreases depth
  {
    match PageAt(file, u, Table, page, depth > 0)
    case None => None
    case Some(image) =>
      var n := ReadWord(image, 3, 2);
      if depth == 0 then FindInLeaf(file, u, image, 0, n, rowid)
      else
        match FindChild(image, 0, n, rowid)
        case None => None
        case Some(child) => Lookup(file, u, child, depth - 1, rowid)
  }

  // ---------------------------------------------------------------- growing files

  ghost predicate Grows(file: File, file': File) {
    forall p | p in file :: p in file' && file'[p] == file[p]
  }

  lemma {:induction false} ReadChainGrows(file: File, file': File, u: nat, page: nat, remaining: nat)
    requires PageSize(u) && Grows(file, file') && ReadChain(file, u, page, remaining).Some?
    ensures ReadChain(file', u, page, remaining) == ReadChain(file, u, page, remaining)
    decreases remaining
  {
    if remaining > u - 4 {
      ReadChainGrows(file, file', u, ReadWord(file[page], 0, 4), remaining - (u - 4));
    }
  }

  lemma ReadPayloadGrows(file: File, file': File, u: nat, kind: Kind, cell: seq<byte>, offset: nat, length: nat)
    requires PageSize(u) && Grows(file, file') && ReadPayload(file, u, kind, cell, offset, length).Some?
    ensures ReadPayload(file', u, kind, cell, offset, length) == ReadPayload(file, u, kind, cell, offset, length)
  {
    var local := LocalSize(kind, u, length);
    hide LocalSize, ReadChain;
    if local != length {
      ReadChainGrows(file, file', u, ReadWord(cell, offset + local, 4), length - local);
    }
  }

  lemma ReadCellGrows(file: File, file': File, u: nat, kind: Kind, cell: seq<byte>)
    requires PageSize(u) && Grows(file, file') && ReadCell(file, u, kind, cell).Some?
    ensures ReadCell(file', u, kind, cell) == ReadCell(file, u, kind, cell)
  {
    hide PageSize, ReadPayload, ReadVarint;
    var (length, offset) := ReadVarint(cell, 0).value;
    var at := match kind case Index => offset case Table => ReadVarint(cell, offset).value.1;
    ReadPayloadGrows(file, file', u, kind, cell, at, length);
  }

  lemma {:induction false} ReadLeafGrows(file: File, file': File, u: nat, kind: Kind, image: seq<byte>, n: nat)
    requires PageSize(u) && Grows(file, file') && ReadLeaf(file, u, kind, image, n).Some?
    ensures ReadLeaf(file', u, kind, image, n) == ReadLeaf(file, u, kind, image, n)
  {
    if n > 0 {
      ReadLeafGrows(file, file', u, kind, image, n - 1);
      ReadCellGrows(file, file', u, kind, CellBytes(image, false, n - 1).value);
    }
  }

  lemma {:induction false} ReadLeftGrows(file: File, file': File, u: nat, kind: Kind, image: seq<byte>, depth: nat,
                                         n: nat)
    requires PageSize(u) && Grows(file, file') && ReadLeft(file, u, kind, image, depth, n).Some?
    ensures ReadLeft(file', u, kind, image, depth, n) == ReadLeft(file, u, kind, image, depth, n)
    decreases depth, 0, n
  {
    hide ReadTree, ReadCell, CellBytes, ReadWord, PageAt, Grows, PageSize;
    if n > 0 && depth > 0 {
      ReadLeftGrows(file, file', u, kind, image, depth, n - 1);
      var cell := CellBytes(image, true, n - 1).value;
      ReadTreeGrows(file, file', u, kind, ReadWord(cell, 0, 4), depth - 1);
      if kind == Index {
        ReadCellGrows(file, file', u, kind, cell[4..]);
      }
    }
  }

  /** Writing further pages does not disturb a tree that can already be read. */
  lemma {:induction false} ReadTreeGrows(file: File, file': File, u: nat, kind: Kind, page: nat, depth: nat)
    requires PageSize(u) && Grows(file, file') && ReadTree(file, u, kind, page, depth).Some?
    ensures ReadTree(file', u, kind, page, depth) == ReadTree(file, u, kind, page, depth)
    decreases depth, 1, 0
  {
    hide ReadLeft, ReadLeaf, ReadWord;
    var image := file[page];
    var n := ReadWord(image, 3, 2);
    if depth == 0 {
      ReadLeafGrows(file, file', u, kind, image, n);
    } else {
      ReadLeftGrows(file, file', u, kind, image, depth, n);
      ReadTreeGrows(file, file', u, kind, ReadWord(image, 8, 4), depth - 1);
    }
  }

  lemma {:induction false} FindInLeafGrows(file: File, file': File, u: nat, image: seq<byte>, i: nat, n: nat,
                                           rowid: i64)
    requires PageSize(u) && Grows(file, file') && FindInLeaf(file, u, image, i, n, rowid).Some?
    ensures FindInLeaf(file', u, image, i, n, rowid) == FindInLeaf(file, u, image, i, n, rowid)
    decreases n - i
  {
    if i < n {
      var cell := CellBytes(image, false, i).value;
      ReadCellGrows(file, file', u, Table, cell);
      if ReadCell(file, u, Table, cell).value.rowid != rowid {
        FindInLeafGrows(file, file', u, image, i + 1, n, rowid);
      }
    }
  }

  lemma {:induction false} LookupGrows(file: File, file': File, u: nat, page: nat, depth: nat, rowid: i64)
    requires PageSize(u) && Grows(file, file') && Lookup(file, u, page, depth, rowid).Some?
    ensures Lookup(file', u, page, depth, rowid) == Lookup(file, u, page, depth, rowid)
    decreases depth
  {
    var image := file[page];
    var n := ReadWord(image, 3, 2);
    if depth == 0 {
      FindInLeafGrows(file, file', u, image, 0, n, rowid);
    } else {
      LookupGrows(file, file', u, FindChild(image, 0, n, rowid).value, depth - 1, rowid);
    }
  }
}
