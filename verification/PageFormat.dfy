/** B-tree pages of the SQLite file format, section 1.6: one page image holds its cells. */
module PageFormat {
  import opened Bytes

  datatype Kind = Table | Index

  function PageType(kind: Kind, interior: bool): byte {
    match kind
    case Table => if interior then 5 else 13
    case Index => if interior then 2 else 10
  }

  function HeaderSize(interior: bool): nat {
    if interior then 12 else 8
  }

  predicate PageSize(u: nat) {
    u in {512, 1024, 2048, 4096, 8192, 16384, 32768}
  }

  type PageBytes = u: nat | PageSize(u) witness 512

  function TotalLength(cells: seq<seq<byte>>): nat {
    if cells == [] then 0 else TotalLength(cells[..|cells| - 1]) + |cells[|cells| - 1]|
  }

  /** The header, one two-byte pointer per cell, and the cells fit in `size` bytes. */
  predicate Fit(cells: seq<seq<byte>>, interior: bool, size: nat) {
    HeaderSize(interior) + 2 * |cells| + TotalLength(cells) <= size
  }

  /** Offset stored in the `i`-th cell pointer. */
  function CellPointer(image: seq<byte>, interior: bool, i: nat): nat
    requires HeaderSize(interior) + 2 * i + 2 <= |image|
  {
    ReadWord(image, HeaderSize(interior) + 2 * i, 2)
  }

  /** Where the `i`-th cell of a packed page ends: at the cell before it, the first one at the end of the page. */
  function CellEnd(image: seq<byte>, interior: bool, i: nat): nat
    requires HeaderSize(interior) + 2 * i + 2 <= |image|
  {
    if i == 0 then |image| else CellPointer(image, interior, i - 1)
  }

  /** The header of a packed page: no freeblock, no fragments, and a cell content area that starts behind the
      cell pointers, at the smallest of them. */
  predicate PackedHeader(image: seq<byte>, interior: bool) {
    && HeaderSize(interior) <= |image|
    && ReadWord(image, 1, 2) == 0 && image[7] == 0
    && var n, start := ReadWord(image, 3, 2), ReadWord(image, 5, 2);
       && HeaderSize(interior) + 2 * n <= start <= |image|
       && (forall i | 0 <= i < n :: start <= CellPointer(image, interior, i))
       && (if n == 0 then start == |image| else start == CellPointer(image, interior, n - 1))
  }

  /** `image` is a packed page of the given kind whose `i`-th pointer leads to the bytes of `cells[i]`. */
  ghost predicate IsPage(image: seq<byte>, kind: Kind, interior: bool, cells: seq<seq<byte>>, right: nat) {
    && PackedHeader(image, interior)
    && image[0] == PageType(kind, interior)
    && ReadWord(image, 3, 2) == |cells|
    && (interior ==> ReadWord(image, 8, 4) == right)
    && forall i | 0 <= i < |cells| :: CellIn(image, interior, i, cells[i])
  }

  ghost predicate CellIn(image: seq<byte>, interior: bool, i: nat, cell: seq<byte>)
    requires HeaderSize(interior) + 2 * i + 2 <= |image|
  {
    var from, to := CellPointer(image, interior, i), CellEnd(image, interior, i);
    from <= to <= |image| && image[from..to] == cell
  }

  /** The cells of a page fill it from the start of its content area to its end. */
  lemma CellsFillPage(image: seq<byte>, kind: Kind, interior: bool, cells: seq<seq<byte>>, right: nat)
    requires IsPage(image, kind, interior, cells, right)
    ensures ReadWord(image, 5, 2) + TotalLength(cells) == |image|
    ensures image[ReadWord(image, 5, 2)..] == Stacked(cells)
  {
    hide ReadWord;
    StackedCells(image, interior, cells, |cells|);
    assert cells[..|cells|] == cells;
  }

  /** The cells one below the other, as they lie at the end of a page. */
  ghost function Stacked(cells: seq<seq<byte>>): seq<byte> {
    if cells == [] then [] else cells[|cells| - 1] + Stacked(cells[..|cells| - 1])
  }

  lemma {:induction false} StackedCells(image: seq<byte>, interior: bool, cells: seq<seq<byte>>, n: nat)
    requires n <= |cells| && HeaderSize(interior) + 2 * |cells| <= |image|
    requires forall i | 0 <= i < |cells| :: CellIn(image, interior, i, cells[i])
    ensures var at := if n == 0 then |image| else CellPointer(image, interior, n - 1);
            at + TotalLength(cells[..n]) == |image| && image[at..] == Stacked(cells[..n])
  {
    hide ReadWord;
    if n > 0 {
      StackedCells(image, interior, cells, n - 1);
      assert CellIn(image, interior, n - 1, cells[n - 1]);
      assert cells[..n][..n - 1] == cells[..n - 1];
    }
  }

  /** Two bytes as a number, the more significant first. */
  function Two(image: seq<byte>, at: nat): nat
    requires at + 2 <= |image|
  {
    image[at] as nat * 256 + image[at + 1]
  }

  lemma TwoBytes(image: seq<byte>, at: nat)
    requires at + 2 <= |image|
    ensures ReadWord(image, at, 2) == Two(image, at)
  {
    var word := image[at..at + 2];
    assert word[..1] == [image[at]] && word[..1][..0] == [];
    assert FromBigEndian(word[..1][..0]) == 0;
    assert FromBigEndian(word[..1]) == image[at];
  }

  lemma FourBytes(image: seq<byte>, at: nat)
    requires at + 4 <= |image|
    ensures ReadWord(image, at, 4) == Two(image, at) * 0x1_0000 + Two(image, at + 2)
  {
    var word := image[at..at + 4];
    assert word[..3] == image[at..at + 3] && word[..3][..2] == image[at..at + 2];
    TwoBytes(image, at);
    assert FromBigEndian(word[..3]) == FromBigEndian(word[..3][..2]) * 256 + image[at + 2];
  }

  /** The bytes of a page as section 1.6 numbers them: its type, no freeblock, the number of cells, the start of
      their content, no fragments, the right-most pointer, and one pointer to each cell. */
  lemma BytesOfPage(image: seq<byte>, kind: Kind, interior: bool, cells: seq<seq<byte>>, right: nat)
    requires IsPage(image, kind, interior, cells, right)
    ensures image[0] == (if kind.Table? then 5 else 2) + (if interior then 0 else 8)
    ensures Two(image, 1) == 0 && image[7] == 0
    ensures Two(image, 3) == |cells| && Two(image, 5) + TotalLength(cells) == |image|
    ensures interior ==> Two(image, 8) * 0x1_0000 + Two(image, 10) == right
    ensures forall i | 0 <= i < |cells| :: PointsTo(image, (if interior then 12 else 8) + 2 * i, cells, i)
  {
    hide ReadWord, Two, TotalLength, CellIn, PointsTo;
    TwoBytes(image, 1);
    TwoBytes(image, 3);
    TwoBytes(image, 5);
    CellsFillPage(image, kind, interior, cells, right);
    if interior {
      FourBytes(image, 8);
    }
    forall i | 0 <= i < |cells| ensures PointsTo(image, (if interior then 12 else 8) + 2 * i, cells, i) {
      CellPointed(image, interior, cells, i);
    }
  }

  /** The word at `at` is the place of the `i`-th cell. */
  ghost predicate PointsTo(image: seq<byte>, at: nat, cells: seq<seq<byte>>, i: nat) {
    && i < |cells| && at + 2 <= |image|
    && var start := Two(image, at);
       start + TotalLength(cells[..i + 1]) == |image| && cells[i] <= image[start..]
  }

  lemma CellPointed(image: seq<byte>, interior: bool, cells: seq<seq<byte>>, i: nat)
    requires i < |cells| && HeaderSize(interior) + 2 * |cells| <= |image|
    requires forall k | 0 <= k < |cells| :: CellIn(image, interior, k, cells[k])
    ensures PointsTo(image, HeaderSize(interior) + 2 * i, cells, i)
  {
    hide ReadWord, TotalLength, Two;
    TwoBytes(image, HeaderSize(interior) + 2 * i);
    StackedCells(image, interior, cells, i + 1);
    assert CellIn(image, interior, i, cells[i]);
    var start, end := CellPointer(image, interior, i), CellEnd(image, interior, i);
    assert image[start..][..end - start] == image[start..end];
  }

  // ---------------------------------------------------------------- packing cells

  lemma TotalLengthPush(cells: seq<seq<byte>>, cell: seq<byte>)
    ensures TotalLength(cells + [cell]) == TotalLength(cells) + |cell|
  {
    assert (cells + [cell])[..|cells|] == cells;
  }

  lemma {:induction false} TotalLengthPrefix(cells: seq<seq<byte>>, i: nat)
    requires i <= |cells|
    ensures TotalLength(cells[..i]) <= TotalLength(cells)
    decreases |cells|
  {
    if i < |cells| {
      assert cells[..|cells| - 1][..i] == cells[..i];
      TotalLengthPrefix(cells[..|cells| - 1], i);
    } else {
      assert cells[..i] == cells;
    }
  }

  /** The `i`-th cell of a buffer that packs its cells downwards from its end. */
  ghost predicate CellAt(buffer: seq<byte>, offset: nat, cells: seq<seq<byte>>, i: nat)
    requires i < |cells|
  {
    && offset == |buffer| - TotalLength(cells[..i + 1])
    && offset + |cells[i]| <= |buffer|
    && buffer[offset..offset + |cells[i]|] == cells[i]
  }

  ghost predicate Packed(buffer: seq<byte>, offsets: seq<nat>, bottom: nat, cells: seq<seq<byte>>) {
    && |offsets| == |cells|
    && bottom == |buffer| - TotalLength(cells)
    && forall i | 0 <= i < |cells| :: bottom <= offsets[i] && CellAt(buffer, offsets[i], cells, i)
  }

  lemma PushPacked(buffer: seq<byte>, offsets: seq<nat>, bottom: nat, cells: seq<seq<byte>>, cell: seq<byte>)
    requires Packed(buffer, offsets, bottom, cells) && |cell| <= bottom <= |buffer|
    ensures Packed(buffer[..bottom - |cell|] + cell + buffer[bottom..], offsets + [bottom - |cell|], bottom - |cell|,
                   cells + [cell])
  {
    var low := bottom - |cell|;
    var buffer' := buffer[..low] + cell + buffer[bottom..];
    var cells', offsets' := cells + [cell], offsets + [low];
    TotalLengthPush(cells, cell);
    forall i | 0 <= i < |cells'| ensures low <= offsets'[i] && CellAt(buffer', offsets'[i], cells', i) {
      if i < |cells| {
        assert cells'[..i + 1] == cells[..i + 1] && CellAt(buffer, offsets[i], cells, i);
        var o := offsets[i];
        assert buffer'[o..o + |cells[i]|] == buffer[o..o + |cells[i]|];
      } else {
        assert cells'[..i + 1] == cells';
      }
    }
  }

  lemma PopPacked(buffer: seq<byte>, offsets: seq<nat>, bottom: nat, cells: seq<seq<byte>>)
    requires Packed(buffer, offsets, bottom, cells) && cells != []
    ensures var last := |cells| - 1;
            var end := if last > 0 then offsets[last - 1] else |buffer|;
            && offsets[last] <= end <= |buffer| && buffer[offsets[last]..end] == cells[last]
            && Packed(buffer, offsets[..last], end, cells[..last])
  {
    var last := |cells| - 1;
    var rest := cells[..last];
    assert cells[..last + 1] == cells && CellAt(buffer, offsets[last], cells, last);
    if last > 0 {
      assert cells[..last - 1 + 1] == rest && CellAt(buffer, offsets[last - 1], cells, last - 1);
    }
    forall i | 0 <= i < last ensures |buffer| - TotalLength(rest) <= offsets[i] && CellAt(buffer, offsets[i], rest, i) {
      assert rest[..i + 1] == cells[..i + 1] && CellAt(buffer, offsets[i], cells, i);
      TotalLengthPrefix(rest, i + 1);
    }
  }

  /** Overwriting the free area below the cells keeps them. */
  lemma FreeAreaIsFree(buffer: seq<byte>, buffer': seq<byte>, offsets: seq<nat>, bottom: nat, cells: seq<seq<byte>>)
    requires Packed(buffer, offsets, bottom, cells) && bottom <= |buffer| == |buffer'|
    requires buffer'[bottom..] == buffer[bottom..]
    ensures Packed(buffer', offsets, bottom, cells)
  {
    forall i | 0 <= i < |cells| ensures CellAt(buffer', offsets[i], cells, i) {
      assert CellAt(buffer, offsets[i], cells, i);
      var o, n := offsets[i], |cells[i]|;
      assert buffer'[o..o + n] == buffer'[bottom..][o - bottom..o - bottom + n];
      assert buffer[o..o + n] == buffer[bottom..][o - bottom..o - bottom + n];
    }
  }

  lemma PointerIs(image: seq<byte>, interior: bool, i: nat, offset: nat)
    requires PointerWritten(image, interior, i, offset) && offset <= |image| <= 0x8000
    ensures HeaderSize(interior) + 2 * i + 2 <= |image| && CellPointer(image, interior, i) == offset
  {
    assert Pow256(2) == 0x1_0000;
    hide Pow256, BigEndian, ReadWord;
    WordRoundTrip(image, HeaderSize(interior) + 2 * i, 2, offset);
  }

  /** Each cell ends where the one before it starts. */
  lemma CellExtent(image: seq<byte>, offsets: seq<nat>, bottom: nat, cells: seq<seq<byte>>, i: nat)
    requires Packed(image, offsets, bottom, cells) && i < |cells|
    ensures var end := if i == 0 then |image| else offsets[i - 1];
            offsets[i] <= end <= |image| && image[offsets[i]..end] == cells[i]
  {
    hide TotalLength;
    assert CellAt(image, offsets[i], cells, i);
    TotalLengthPush(cells[..i], cells[i]);
    assert cells[..i + 1] == cells[..i] + [cells[i]];
    if i > 0 {
      assert CellAt(image, offsets[i - 1], cells, i - 1);
      assert cells[..i - 1 + 1] == cells[..i];
    } else {
      NoLength(cells[..i]);
    }
  }

  lemma NoLength(cells: seq<seq<byte>>)
    requires cells == []
    ensures TotalLength(cells) == 0
  {
  }

  /** A packed buffer with its header and pointers written is a page. */
  lemma PackedIsPage(image: seq<byte>, kind: Kind, interior: bool, offsets: seq<nat>, bottom: nat,
                     cells: seq<seq<byte>>, right: nat)
    requires Packed(image, offsets, bottom, cells) && HeaderSize(interior) + 2 * |cells| <= bottom <= |image| <= 0x8000
    requires image[0] == PageType(kind, interior) && image[3..5] == BigEndian(|cells|, 2)
    requires image[1] == image[2] == image[7] == 0 && image[5..7] == BigEndian(bottom, 2)
    requires interior ==> image[8..12] == BigEndian(right, 4) && right < U32
    requires forall k | 0 <= k < |cells| :: PointerWritten(image, interior, k, offsets[k])
    ensures IsPage(image, kind, interior, cells, right)
  {
    hide BigEndian, ReadWord, TotalLength, CellAt, CellPointer, PointerWritten, CellIn, CellEnd;
    HeaderWords(image, interior, |cells|, bottom, right);
    OffsetsInside(image, offsets, bottom, cells);
    forall i | 0 <= i < |cells| ensures CellPointer(image, interior, i) == offsets[i] {
      PointerIs(image, interior, i, offsets[i]);
    }
    forall i | 0 <= i < |cells| ensures CellIn(image, interior, i, cells[i]) {
      CellExtent(image, offsets, bottom, cells, i);
      InPlace(image, interior, offsets, cells, i);
    }
  }

  lemma InPlace(image: seq<byte>, interior: bool, offsets: seq<nat>, cells: seq<seq<byte>>, i: nat)
    requires i < |cells| == |offsets| && HeaderSize(interior) + 2 * |cells| <= |image|
    requires forall k | 0 <= k <= i :: CellPointer(image, interior, k) == offsets[k]
    requires var end := if i == 0 then |image| else offsets[i - 1];
             offsets[i] <= end <= |image| && image[offsets[i]..end] == cells[i]
    ensures CellIn(image, interior, i, cells[i])
  {
  }

  lemma HeaderWords(image: seq<byte>, interior: bool, n: nat, bottom: nat, right: nat)
    requires HeaderSize(interior) <= |image| && n <= bottom <= 0x8000
    requires image[1] == image[2] == 0 && image[3..5] == BigEndian(n, 2) && image[5..7] == BigEndian(bottom, 2)
    requires interior ==> image[8..12] == BigEndian(right, 4) && right < U32
    ensures ReadWord(image, 1, 2) == 0 && ReadWord(image, 3, 2) == n && ReadWord(image, 5, 2) == bottom
    ensures interior ==> ReadWord(image, 8, 4) == right
  {
    assert Pow256(2) == 0x1_0000 && Pow256(4) == U32;
    NoFreeblock(image);
    hide Pow256, BigEndian, ReadWord;
    WordRoundTrip(image, 3, 2, n);
    WordRoundTrip(image, 5, 2, bottom);
    if interior {
      WordRoundTrip(image, 8, 4, right);
    }
  }

  lemma NoFreeblock(image: seq<byte>)
    requires |image| >= 8 && image[1] == image[2] == 0
    ensures ReadWord(image, 1, 2) == 0
  {
    assert image[1..3] == [0, 0] && [0, 0][..1] == [0] && [0][..0] == [];
    assert FromBigEndian([0]) == FromBigEndian([]) * 256 + 0;
  }

  /** The last cell is the lowest. */
  lemma OffsetsInside(image: seq<byte>, offsets: seq<nat>, bottom: nat, cells: seq<seq<byte>>)
    requires Packed(image, offsets, bottom, cells) && bottom <= |image|
    ensures |offsets| == |cells| && forall k | 0 <= k < |offsets| :: bottom <= offsets[k] <= |image|
    ensures if cells == [] then bottom == |image| else bottom == offsets[|offsets| - 1]
  {
    forall k | 0 <= k < |offsets| ensures offsets[k] <= |image| {
      assert CellAt(image, offsets[k], cells, k);
    }
    if cells != [] {
      assert CellAt(image, offsets[|cells| - 1], cells, |cells| - 1);
      assert cells[..|cells| - 1 + 1] == cells;
    }
  }

  ghost predicate PointerWritten(image: seq<byte>, interior: bool, i: nat, offset: nat) {
    var at := HeaderSize(interior) + 2 * i;
    at + 2 <= |image| && image[at..at + 2] == BigEndian(offset, 2)
  }

  // ---------------------------------------------------------------- the page builder

  /** A page under construction: cells are packed downwards from the end of the buffer. */
  class Page {
    const kind: Kind
    const interior: bool
    const bytes: array<byte>
    var offsets: seq<nat>
    var bottom: nat

    // The cells pushed so far, in pointer order.
    ghost var cells: seq<seq<byte>>

    ghost predicate Valid()
      reads this, bytes
    {
      && PageSize(bytes.Length)
      && Fit(cells, interior, bytes.Length)
      && Packed(bytes[..], offsets, bottom, cells)
    }

    constructor (size: nat, kind: Kind, interior: bool)
      requires PageSize(size)
      ensures Valid() && cells == [] && fresh(bytes) && bytes.Length == size
      ensures this.kind == kind && this.interior == interior
    {
      this.kind, this.interior := kind, interior;
      bytes := new byte[size](_ => 0);
      offsets := [];
      bottom := size;
      cells := [];
    }

    predicate Fits(length: nat)
      reads this
    {
      HeaderSize(interior) + (|offsets| + 1) * 2 + length <= bottom
    }

    /** `Fits` decides whether the page can still take a cell of this length. */
    lemma FitsMeansFit(cell: seq<byte>)
      requires Valid()
      ensures Fits(|cell|) <==> Fit(cells + [cell], interior, bytes.Length)
    {
      TotalLengthPush(cells, cell);
    }

    /** Places one more cell, given in two parts, below the others. */
    method PushParts(prefix: seq<byte>, payload: seq<byte>)
      requires Valid() && Fits(|prefix| + |payload|)
      modifies this, bytes
      ensures Valid() && cells == old(cells) + [prefix + payload]
    {
      hide PageSize, CellAt;
      ghost var was := bytes[..];
      PushPacked(was, offsets, bottom, cells, prefix + payload);
      TotalLengthPush(cells, prefix + payload);
      bottom := bottom - (|prefix| + |payload|);
      var split := bottom + |prefix|;
      forall k | 0 <= k < |prefix| {
        bytes[bottom + k] := prefix[k];
      }
      forall k | 0 <= k < |payload| {
        bytes[split + k] := payload[k];
      }
      assert bytes[..] == was[..bottom] + (prefix + payload) + was[split + |payload|..];
      offsets := offsets + [bottom];
      cells := cells + [prefix + payload];
    }

    /** Takes the last cell back off the page. */
    method Pop() returns (value: seq<byte>)
      requires Valid() && |cells| > 0
      modifies this
      ensures Valid() && old(cells) == cells + [value]
    {
      hide PageSize, CellAt;
      PopPacked(bytes[..], offsets, bottom, cells);
      ghost var last := |cells| - 1;
      TotalLengthPush(cells[..last], cells[last]);
      assert cells == cells[..last] + [cells[last]];
      var start := offsets[|offsets| - 1];
      offsets := offsets[..|offsets| - 1];
      var end := if |offsets| > 0 then offsets[|offsets| - 1] else bytes.Length;
      assert bytes[..][start..end] == bytes[start..end];
      value := bytes[start..end];
      bottom := end;
      cells := cells[..last];
    }

    /** Completes the header and the pointer array, and hands out the finished page. */
    method Image(right: u32) returns (image: seq<byte>)
      requires Valid()
      modifies bytes
      ensures Valid() && |image| == bytes.Length
      ensures IsPage(image, kind, interior, cells, right)
    {
      ghost var was := bytes[..];
      hide CellAt, IsPage, PageSize, BigEndian, TotalLength;
      WriteHeader(bytes, kind, interior, |offsets|, bottom, right);
      ghost var header := bytes[..];
      WritePointers(bytes, interior, offsets, bottom);
      assert bytes[..][bottom..] == header[bottom..] == was[bottom..];
      assert bytes[..][..HeaderSize(interior)] == header[..HeaderSize(interior)];
      assert bytes[..][3..5] == header[3..5] && bytes[..][5..7] == header[5..7];
      assert interior ==> bytes[..][8..12] == header[8..12];
      image := bytes[..];
      FreeAreaIsFree(was, image, offsets, bottom, cells);
      PackedIsPage(image, kind, interior, offsets, bottom, cells, right);
    }

    method Clear()
      requires Valid()
      modifies this, bytes
      ensures Valid() && cells == []
    {
      forall k | 0 <= k < bytes.Length {
        bytes[k] := 0;
      }
      offsets := [];
      bottom := bytes.Length;
      cells := [];
    }
  }

  /** The page header: no freeblock, the number of cells, where they start, no fragments. */
  method WriteHeader(bytes: array<byte>, kind: Kind, interior: bool, n: nat, bottom: nat, right: u32)
    requires HeaderSize(interior) <= bytes.Length
    modifies bytes
    ensures bytes[0] == PageType(kind, interior) && bytes[1] == bytes[2] == bytes[7] == 0
    ensures bytes[3..5] == BigEndian(n, 2) && bytes[5..7] == BigEndian(bottom, 2)
    ensures interior ==> bytes[8..12] == BigEndian(right, 4)
    ensures forall k | HeaderSize(interior) <= k < bytes.Length :: bytes[k] == old(bytes[k])
  {
    hide BigEndian;
    bytes[0] := PageType(kind, interior);
    bytes[1], bytes[2], bytes[7] := 0, 0, 0;
    WriteWord(bytes, 3, 2, n);
    WriteWord(bytes, 5, 2, bottom);
    if interior {
      WriteWord(bytes, 8, 4, right);
    }
  }

  /** The cell pointer array right after the header. */
  method WritePointers(bytes: array<byte>, interior: bool, offsets: seq<nat>, bottom: nat)
    requires HeaderSize(interior) + 2 * |offsets| <= bottom <= bytes.Length
    modifies bytes
    ensures forall k | 0 <= k < |offsets| :: PointerWritten(bytes[..], interior, k, offsets[k])
    ensures forall k | 0 <= k < bytes.Length && (k < HeaderSize(interior) || bottom <= k) :: bytes[k] == old(bytes[k])
  {
    hide BigEndian;
    var header := HeaderSize(interior);
    for i := 0 to |offsets|
      invariant forall k | 0 <= k < i :: PointerWritten(bytes[..], interior, k, offsets[k])
      invariant forall k | 0 <= k < bytes.Length && (k < header || bottom <= k) :: bytes[k] == old(bytes[k])
    {
      ghost var before := bytes[..];
      WriteWord(bytes, header + 2 * i, 2, offsets[i]);
      forall k | 0 <= k < i ensures PointerWritten(bytes[..], interior, k, offsets[k]) {
        assert PointerWritten(before, interior, k, offsets[k]);
        assert bytes[..][header + 2 * k..header + 2 * k + 2] == before[header + 2 * k..header + 2 * k + 2];
      }
      assert bytes[..][header + 2 * i..header + 2 * i + 2] == bytes[header + 2 * i..header + 2 * i + 2];
    }
  }

  method WriteWord(bytes: array<byte>, at: nat, width: nat, value: nat)
    requires at + width <= bytes.Length
    modifies bytes
    ensures bytes[at..at + width] == BigEndian(value, width)
    ensures forall k | 0 <= k < bytes.Length && !(at <= k < at + width) :: bytes[k] == old(bytes[k])
  {
    var word := BigEndian(value, width);
    forall k | 0 <= k < width {
      bytes[at + k] := word[k];
    }
  }
}
