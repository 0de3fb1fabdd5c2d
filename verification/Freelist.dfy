/** Linking the returned pages into the database's freelist: the second half of `finish` in
    `page_writer.rs`, and section 1.5 of the SQLite file format. */
module Freelist {
  import opened AllocatorProtocol
  import opened Bytes
  import opened PageAllocation
  import opened PageFile
  import opened PageFormat
  import opened Results

  // ---------------------------------------------------------------- reading a freelist

  /** Leaf page numbers of a trunk page. */
  function Leaves(image: seq<byte>, n: nat): (leaves: seq<nat>)
    requires 8 + 4 * n <= |image|
    ensures |leaves| == n
  {
    seq(n, i requires 0 <= i < n => ReadWord(image, 8 + 4 * i, 4))
  }

  /** A trunk page and its leaves: at most `u / 4 - 2` of them. */
  function TrunkPages(file: File, u: nat, trunk: nat): Option<seq<nat>> {
    if trunk !in file || |file[trunk]| != u || u < 8 then None
    else
      var n := ReadWord(file[trunk], 4, 4);
      if 8 + 4 * n > u then None else Some([trunk] + Leaves(file[trunk], n))
  }

  /** All pages of a freelist of `count` pages, in the order a reader meets them. */
  function ReadFreelist(file: File, u: nat, trunk: nat, count: nat): Option<seq<nat>>
    decreases count
  {
    if count == 0 then if trunk == 0 then Some([]) else None
    else
      match TrunkPages(file, u, trunk)
      case None => None
      case Some(pages) =>
        if |pages| > count then None
        else
          match ReadFreelist(file, u, ReadWord(file[trunk], 0, 4), count - |pages|)
          case None => None
          case Some(rest) => Some(pages + rest)
  }

  /** From `start`, trunk pages for these groups of pages, the last one pointing to `end`. */
  ghost predicate Links(file: File, u: nat, start: nat, groups: seq<seq<nat>>, end: nat)
    decreases |groups|
  {
    if groups == [] then start == end
    else TrunkPages(file, u, start) == Some(groups[0]) && Links(file, u, ReadWord(file[start], 0, 4), groups[1..], end)
  }

  ghost function Flatten(groups: seq<seq<nat>>): seq<nat> {
    if groups == [] then [] else groups[0] + Flatten(groups[1..])
  }

  lemma {:induction false} FlattenPush(groups: seq<seq<nat>>, group: seq<nat>)
    ensures Flatten(groups + [group]) == Flatten(groups) + group
  {
    if groups == [] {
      assert groups + [group] == [group] && [group][1..] == [];
    } else {
      FlattenPush(groups[1..], group);
      assert (groups + [group])[1..] == groups[1..] + [group];
      assert groups[0] + (Flatten(groups[1..]) + group) == (groups[0] + Flatten(groups[1..])) + group;
    }
  }

  lemma {:induction false} LinksPush(file: File, u: nat, start: nat, groups: seq<seq<nat>>, trunk: nat, group: seq<nat>)
    requires Links(file, u, start, groups, trunk) && TrunkPages(file, u, trunk) == Some(group)
    ensures Links(file, u, start, groups + [group], ReadWord(file[trunk], 0, 4))
    decreases |groups|
  {
    if groups == [] {
      assert [group][1..] == [];
    } else {
      LinksPush(file, u, ReadWord(file[start], 0, 4), groups[1..], trunk, group);
      assert (groups + [group])[1..] == groups[1..] + [group];
    }
  }

  /** Pages outside the list do not matter. */
  lemma {:induction false} LinksFrame(file: File, file': File, u: nat, start: nat, groups: seq<seq<nat>>, end: nat)
    requires Links(file, u, start, groups, end)
    requires forall p | p in Flatten(groups) && p in file :: p in file' && file'[p] == file[p]
    ensures Links(file', u, start, groups, end)
    decreases |groups|
  {
    if groups != [] {
      assert groups[0][0] == start && start in Flatten(groups);
      LinksFrame(file, file', u, ReadWord(file[start], 0, 4), groups[1..], end);
    }
  }

  lemma {:induction false} FreelistFrame(file: File, file': File, u: nat, trunk: nat, count: nat, old': seq<nat>)
    requires ReadFreelist(file, u, trunk, count) == Some(old')
    requires forall p | p in old' && p in file :: p in file' && file'[p] == file[p]
    ensures ReadFreelist(file', u, trunk, count) == Some(old')
    decreases count
  {
    if count > 0 {
      var pages := TrunkPages(file, u, trunk).value;
      var next := ReadWord(file[trunk], 0, 4);
      var rest := ReadFreelist(file, u, next, count - |pages|).value;
      assert old' == pages + rest && pages[0] == trunk && trunk in old';
      FreelistFrame(file, file', u, next, count - |pages|, rest);
    }
  }

  /** New trunks in front of an existing list. */
  lemma {:induction false} LinkedListIsRead(file: File, u: nat, start: nat, groups: seq<seq<nat>>, end: nat,
                                            count: nat, old': seq<nat>)
    requires Links(file, u, start, groups, end) && ReadFreelist(file, u, end, count) == Some(old')
    ensures ReadFreelist(file, u, start, |Flatten(groups)| + count) == Some(Flatten(groups) + old')
    decreases |groups|
  {
    if groups == [] {
      assert [] + old' == old';
    } else {
      LinkedListIsRead(file, u, ReadWord(file[start], 0, 4), groups[1..], end, count, old');
      assert groups[0] + (Flatten(groups[1..]) + old') == (groups[0] + Flatten(groups[1..])) + old';
    }
  }

  // ---------------------------------------------------------------- the pages of the returned ranges

  ghost function Expand(r: Range): seq<nat>
    requires r.0 <= r.1
  {
    seq(r.1 - r.0, i requires 0 <= i < r.1 - r.0 => r.0 + i)
  }

  ghost predicate NonEmpty(ranges: seq<Range>) {
    forall i | 0 <= i < |ranges| :: ranges[i].0 < ranges[i].1
  }

  ghost function Expanded(ranges: seq<Range>): seq<nat>
    requires NonEmpty(ranges)
  {
    if ranges == [] then [] else Expand(ranges[0]) + Expanded(ranges[1..])
  }

  lemma {:induction false} ExpandedIs(ranges: seq<Range>)
    requires NonEmpty(ranges)
    ensures forall p: nat :: p in Expanded(ranges) <==> In(ranges, p)
    ensures |Expanded(ranges)| == Pages(ranges)
  {
    if ranges != [] {
      ExpandedIs(ranges[1..]);
      PagesFront(ranges);
      forall p: nat ensures p in Expanded(ranges) <==> In(ranges, p) {
        FirstRange(ranges, p);
        var r := ranges[0];
        if r.0 <= p < r.1 {
          assert Expand(r)[p - r.0] == p;
        }
      }
    }
  }

  lemma {:induction false} PagesFront(ranges: seq<Range>)
    requires ranges != []
    ensures Pages(ranges) == Pages(ranges[1..]) + ranges[0].1 - ranges[0].0
  {
    if |ranges| > 1 {
      PagesFront(ranges[..|ranges| - 1]);
      assert ranges[..|ranges| - 1][1..] == ranges[1..][..|ranges| - 2];
    } else {
      assert ranges[1..] == [] && ranges[..0] == [];
    }
  }

  ghost predicate Distinct(s: seq<nat>) {
    forall i, j | 0 <= i < j < |s| :: s[i] != s[j]
  }

  lemma {:induction false} ExpandedIsDistinct(ranges: seq<Range>)
    requires Separate(ranges)
    ensures NonEmpty(ranges) && Distinct(Expanded(ranges))
  {
    if ranges != [] {
      FirstRange(ranges, 0);
      ExpandedIsDistinct(ranges[1..]);
      ExpandedIs(ranges[1..]);
      var first, rest := Expand(ranges[0]), Expanded(ranges[1..]);
      forall p | p in first ensures p !in rest {
        FirstRange(ranges, p);
      }
      hide Separate, In, Expand, NonEmpty;
      DistinctConcat(first, rest);
    }
  }

  lemma DistinctConcat(a: seq<nat>, b: seq<nat>)
    requires Distinct(a) && Distinct(b) && forall p | p in a :: p !in b
    ensures Distinct(a + b)
  {
    forall i, j | 0 <= i < j < |a + b| ensures (a + b)[i] != (a + b)[j] {
      if i < |a| <= j {
        assert a[i] in a && b[j - |a|] in b;
      }
    }
  }

  lemma RestNonEmpty(ranges: seq<Range>, taken: nat)
    requires NonEmpty(ranges) && taken <= |ranges|
    ensures NonEmpty(ranges[taken..])
  {
  }

  lemma EmptyRange(r: Range)
    requires r.0 == r.1
    ensures Expand(r) == []
  {
  }

  lemma TakePage(r: Range)
    requires r.0 < r.1
    ensures Expand(r) == [r.0] + Expand((r.0 + 1, r.1))
  {
  }

  lemma NoRangesLeft(ranges: seq<Range>)
    requires NonEmpty(ranges)
    ensures Expanded(ranges[|ranges|..]) == []
  {
  }

  lemma TakeRange(ranges: seq<Range>, taken: nat)
    requires NonEmpty(ranges) && taken < |ranges|
    ensures NonEmpty(ranges[taken..]) && NonEmpty(ranges[taken + 1..]) && ranges[taken].0 < ranges[taken].1
    ensures Expanded(ranges[taken..]) == Expand(ranges[taken]) + Expanded(ranges[taken + 1..])
  {
    assert ranges[taken..][0] == ranges[taken] && ranges[taken..][1..] == ranges[taken + 1..];
  }

  /** Reads the returned ranges page by page. */
  class FreeReader {
    const ranges: seq<Range>
    var taken: nat
    var range: Range

    ghost predicate Valid()
      reads this
    {
      NonEmpty(ranges) && taken <= |ranges| && range.0 <= range.1
    }

    ghost function Remaining(): seq<nat>
      requires Valid()
      reads this
    {
      Expand(range) + Expanded(ranges[taken..])
    }

    constructor (ranges: seq<Range>)
      requires NonEmpty(ranges)
      ensures Valid() && Remaining() == Expanded(ranges)
    {
      this.ranges, taken, range := ranges, 0, (0, 0);
      new;
      assert ranges[0..] == ranges && Expand((0, 0)) == [];
    }

    method Next() returns (page: Option<nat>)
      requires Valid()
      modifies this
      ensures Valid()
      ensures page == if old(Remaining()) == [] then None else Some(old(Remaining())[0])
      ensures Remaining() == if old(Remaining()) == [] then [] else old(Remaining())[1..]
    {
      hide Expand, Expanded, NonEmpty;
      if range.0 == range.1 {
        EmptyRange(range);
        if taken == |ranges| {
          NoRangesLeft(ranges);
          return None;
        }
        TakeRange(ranges, taken);
        range := ranges[taken];
        taken := taken + 1;
      }
      var next := range.0;
      TakePage(range);
      RestNonEmpty(ranges, taken);
      assert ([next] + Expand((next + 1, range.1)) + Expanded(ranges[taken..]))[1..]
             == Expand((next + 1, range.1)) + Expanded(ranges[taken..]);
      range := (next + 1, range.1);
      return Some(next);
    }
  }

  // ---------------------------------------------------------------- writing trunks

  ghost function LeafBytes(leaves: seq<nat>): (b: seq<byte>)
    ensures |b| == 4 * |leaves|
  {
    if leaves == [] then [] else LeafBytes(leaves[..|leaves| - 1]) + BigEndian(leaves[|leaves| - 1], 4)
  }

  lemma {:induction false} LeafBytesAt(leaves: seq<nat>, i: nat)
    requires i < |leaves|
    ensures LeafBytes(leaves)[4 * i..4 * i + 4] == BigEndian(leaves[i], 4)
    decreases |leaves|
  {
    var k := |leaves| - 1;
    if i < k {
      LeafBytesAt(leaves[..k], i);
      assert LeafBytes(leaves)[4 * i..4 * i + 4] == LeafBytes(leaves[..k])[4 * i..4 * i + 4];
    }
  }

  /** A trunk page as bytes: next trunk, leaf count, leaves, zeros. */
  ghost predicate IsTrunk(image: seq<byte>, next: nat, leaves: seq<nat>) {
    && 8 + 4 * |leaves| <= |image|
    && image[..4] == BigEndian(next, 4) && image[4..8] == BigEndian(|leaves|, 4)
    && image[8..8 + 4 * |leaves|] == LeafBytes(leaves)
  }

  lemma SliceOfSlice(s: seq<byte>, a: nat, b: nat, c: nat, d: nat)
    requires a <= b <= |s| && c <= d <= b - a
    ensures s[a..b][c..d] == s[a + c..a + d]
  {
    forall i | 0 <= i < d - c ensures s[a..b][c..d][i] == s[a + c..a + d][i] {
    }
  }

  lemma Spliced(a: seq<byte>, b: seq<byte>, c: seq<byte>, from: nat)
    requires from <= |a|
    ensures (a + b + c)[from..|a| + |b|] == a[from..] + b
  {
  }

  lemma TrunkIsRead(file: File, u: nat, trunk: nat, next: nat, leaves: seq<nat>)
    requires trunk in file && |file[trunk]| == u && IsTrunk(file[trunk], next, leaves)
    requires next < U32 && |leaves| < U32 && forall i | 0 <= i < |leaves| :: leaves[i] < U32
    ensures TrunkPages(file, u, trunk) == Some([trunk] + leaves) && ReadWord(file[trunk], 0, 4) == next
  {
    var image := file[trunk];
    assert Pow256(4) == U32;
    assert image[0..4] == image[..4];
    WordRoundTrip(image, 0, 4, next);
    WordRoundTrip(image, 4, 4, |leaves|);
    forall i | 0 <= i < |leaves| ensures Leaves(image, |leaves|)[i] == leaves[i] {
      LeafBytesAt(leaves, i);
      SliceOfSlice(image, 8, 8 + 4 * |leaves|, 4 * i, 4 * i + 4);
      WordRoundTrip(image, 8 + 4 * i, 4, leaves[i]);
    }
    assert Leaves(image, |leaves|) == leaves;
  }

  /** Overwrites four bytes of a page. */
  method PutWord(page: array<byte>, at: nat, value: nat)
    requires at + 4 <= page.Length
    modifies page
    ensures page[..] == old(page[..at]) + BigEndian(value, 4) + old(page[at + 4..])
  {
    var word := BigEndian(value, 4);
    page[at], page[at + 1], page[at + 2], page[at + 3] := word[0], word[1], word[2], word[3];
  }

  /** Writes a leaf's number behind those already on the trunk. */
  method PutLeaf(page: array<byte>, count: nat, leaf: nat, ghost leaves: seq<nat>)
    requires 12 + 4 * count <= page.Length && count == |leaves| && page[8..8 + 4 * count] == LeafBytes(leaves)
    modifies page
    ensures page[8..8 + 4 * (count + 1)] == LeafBytes(leaves + [leaf])
  {
    hide LeafBytes, BigEndian;
    ghost var front, rest := page[..8 + count * 4], page[12 + count * 4..];
    assert front[8..] == page[8..8 + count * 4];
    PutWord(page, 8 + count * 4, leaf);
    NextLeaf(front, BigEndian(leaf, 4), rest, leaves, leaf);
    assert page[8..8 + 4 * (count + 1)] == page[..][8..8 + 4 * (count + 1)];
  }

  /** Fills one trunk page with as many leaves as it takes and the number of the next trunk. */
  method FillTrunk(u: PageBytes, reader: FreeReader, oldTrunk: nat)
    returns (image: seq<byte>, next: Option<nat>, count: nat, ghost leaves: seq<nat>)
    requires reader.Valid()
    modifies reader
    ensures reader.Valid() && |image| == u && count == |leaves| < U32
    ensures count <= u / 4 - 8
    ensures IsTrunk(image, if next.Some? then next.value else oldTrunk, leaves)
    ensures old(reader.Remaining()) == leaves + (if next.Some? then [next.value] else []) + reader.Remaining()
    ensures next.None? ==> reader.Remaining() == []
  {
    hide LeafBytes, PageSize, IsTrunk, BigEndian, FreeReader.Remaining, FreeReader.Valid;
    SmallestPage(u);
    var capacity := u / 4 - 8;
    var page := new byte[u](_ => 0);
    count := 0;
    leaves := [];
    NoLeafBytes();
    ghost var all := reader.Remaining();
    var more := true;
    while count < capacity && more
      invariant reader.Valid() && count == |leaves| <= capacity
      invariant all == leaves + reader.Remaining() && (!more ==> reader.Remaining() == [])
      invariant page[8..8 + 4 * count] == LeafBytes(leaves)
      decreases capacity - count, more
    {
      var leaf := reader.Next();
      if leaf.None? {
        more := false;
      } else {
        PutLeaf(page, count, leaf.value, leaves);
        leaves := leaves + [leaf.value];
        count := count + 1;
      }
    }
    next := reader.Next();
    ghost var body := page[..];
    PutWord(page, 0, if next.Some? then next.value else oldTrunk);
    ghost var first := page[..];
    PutWord(page, 4, count);
    image := page[..];
    TrunkHeader(body, first, image, if next.Some? then next.value else oldTrunk, leaves);
  }

  lemma SmallestPage(u: nat)
    requires PageSize(u)
    ensures 512 <= u <= 32768
  {
  }

  lemma NoLeafBytes()
    ensures LeafBytes([]) == []
  {
  }

  lemma NextLeaf(front: seq<byte>, word: seq<byte>, rest: seq<byte>, leaves: seq<nat>, leaf: nat)
    requires |front| == 8 + 4 * |leaves| && front[8..] == LeafBytes(leaves) && word == BigEndian(leaf, 4)
    ensures (front + word + rest)[8..|front| + 4] == LeafBytes(leaves + [leaf])
  {
    assert (leaves + [leaf])[..|leaves|] == leaves;
    hide BigEndian, LeafBytes;
    Spliced(front, word, rest, 8);
  }

  /** The header words go in last. */
  lemma TrunkHeader(body: seq<byte>, first: seq<byte>, image: seq<byte>, next: nat, leaves: seq<nat>)
    requires 8 + 4 * |leaves| <= |body| && body[8..8 + 4 * |leaves|] == LeafBytes(leaves)
    requires first == body[..0] + BigEndian(next, 4) + body[4..]
    requires image == first[..4] + BigEndian(|leaves|, 4) + first[8..]
    ensures IsTrunk(image, next, leaves)
  {
    hide BigEndian, LeafBytes;
    var w, v := BigEndian(next, 4), BigEndian(|leaves|, 4);
    assert first == w + body[4..];
    assert first[..4] == w && first[8..] == body[8..];
    HeaderParts(w, v, body[8..], 4 * |leaves|);
    assert body[8..][..4 * |leaves|] == body[8..8 + 4 * |leaves|];
  }

  lemma HeaderParts(w: seq<byte>, v: seq<byte>, rest: seq<byte>, n: nat)
    requires |w| == |v| == 4 && n <= |rest|
    ensures var image := w + v + rest; image[..4] == w && image[4..8] == v && image[8..8 + n] == rest[..n]
  {
  }

  // ---------------------------------------------------------------- the whole list

  /** Pages outside `free` are as before. */
  ghost predicate Kept(before: File, free: seq<nat>, now: File) {
    forall p | p in before && p !in free :: p in now && now[p] == before[p]
  }

  lemma AllKept(pages: File, free: seq<nat>)
    ensures Kept(pages, free, pages)
  {
  }

  lemma KeptBut(before: File, free: seq<nat>, now: File, page: nat, image: seq<byte>)
    requires Kept(before, free, now) && page in free
    ensures Kept(before, free, now[page := image])
  {
  }

  /** Writes a trunk page for every group of free pages, each pointing to the next and the last one
      to the old list; it fails when there is no page to start with. */
  method WriteTrunks(disk: DatabaseFile, u: PageBytes, reader: FreeReader, oldTrunk: nat)
    returns (r: Result<(nat, nat)>, ghost groups: seq<seq<nat>>)
    requires reader.Valid() && oldTrunk < U32 && Distinct(reader.Remaining()) && AllPages(reader.Remaining())
    modifies disk, reader
    ensures r.Ok? ==> old(reader.Remaining()) != [] && r.value
                      == (old(reader.Remaining())[0], |old(reader.Remaining())|)
    ensures r.Err? <==> old(reader.Remaining()) == [] || |old(reader.Remaining())| > LAST_PAGE
    ensures r.Ok? ==> Flatten(groups) == old(reader.Remaining()) && Links(disk.pages, u, r.value.0, groups, oldTrunk)
    ensures Kept(old(disk.pages), old(reader.Remaining()), disk.pages)
  {
    hide FreeReader.Valid, FreeReader.Remaining, Kept, Links, Flatten, PageSize, IsTrunk, Distinct, AllPages;
    ghost var all := reader.Remaining();
    groups := [];
    var first := reader.Next();
    if first.None? {
      AllKept(disk.pages, all);
      return Err("missing free pages"), groups;
    }
    var trunk: nat, counted: nat := first.value, 0;
    ghost var before := disk.pages;
    LinksStart(disk.pages, u, trunk);
    AllKept(disk.pages, all);
    assert all == [] + [trunk] + reader.Remaining();
    while true
      invariant reader.Valid() && counted == |Flatten(groups)| <= LAST_PAGE
      invariant all == Flatten(groups) + [trunk] + reader.Remaining()
      invariant Links(disk.pages, u, first.value, groups, trunk)
      invariant Kept(before, all, disk.pages)
      decreases |reader.Remaining()|
    {
      ghost var rest := reader.Remaining();
      var image: seq<byte>, next: Option<nat>, count: nat;
      ghost var leaves: seq<nat>;
      image, next, count, leaves := FillTrunk(u, reader, oldTrunk);
      FlattenPush(groups, [trunk] + leaves);
      GroupFirst(Flatten(groups), trunk, leaves, if next.Some? then [next.value] else [], reader.Remaining());
      if counted + count + 1 > LAST_PAGE {
        return Err("free-page count overflow"), groups;
      }
      counted := counted + count + 1;
      GroupFacts(Flatten(groups), trunk, leaves, next, reader.Remaining(), all);
      LinkTrunk(disk.pages, u, first.value, groups, trunk, image, if next.Some? then next.value else oldTrunk, leaves);
      KeptBut(before, all, disk.pages, trunk, image);
      disk.pages := disk.pages[trunk := image];
      groups := groups + [[trunk] + leaves];
      match next {
        case Some(page) => trunk := page;
        case None => return Ok((first.value, counted)), groups;
      }
    }
  }

  ghost predicate AllPages(pages: seq<nat>) {
    forall i | 0 <= i < |pages| :: pages[i] < U32
  }

  lemma LinksStart(file: File, u: nat, trunk: nat)
    ensures Links(file, u, trunk, [], trunk) && Flatten([]) == []
  {
  }

  lemma GroupFirst(a: seq<nat>, trunk: nat, leaves: seq<nat>, next: seq<nat>, rest: seq<nat>)
    ensures a + [trunk] + (leaves + next + rest) == (a + ([trunk] + leaves)) + next + rest
  {
  }

  lemma GroupFacts(a: seq<nat>, trunk: nat, leaves: seq<nat>, next: Option<nat>, rest: seq<nat>, all: seq<nat>)
    requires all == (a + ([trunk] + leaves)) + (if next.Some? then [next.value] else []) + rest
    requires Distinct(all) && AllPages(all)
    ensures trunk !in a && trunk in all && trunk < U32 && AllPages(leaves) && (next.Some? ==> next.value < U32)
  {
    var more := (if next.Some? then [next.value] else []) + rest;
    assert all == a + [trunk] + leaves + more;
    assert all[|a|] == trunk;
    assert forall i | 0 <= i < |a| :: all[i] == a[i];
    assert forall i | 0 <= i < |leaves| :: all[|a| + 1 + i] == leaves[i];
    if next.Some? {
      assert all[|a| + 1 + |leaves|] == next.value;
    }
  }

  /** Writing the next trunk page extends the list. */
  lemma LinkTrunk(file: File, u: nat, start: nat, groups: seq<seq<nat>>, trunk: nat, image: seq<byte>, next: nat,
                  leaves: seq<nat>)
    requires Links(file, u, start, groups, trunk) && trunk !in Flatten(groups)
    requires |image| == u && IsTrunk(image, next, leaves) && next < U32 && |leaves| < U32 && AllPages(leaves)
    ensures Links(file[trunk := image], u, start, groups + [[trunk] + leaves], next)
  {
    hide IsTrunk, Links, Flatten;
    var file' := file[trunk := image];
    LinksFrame(file, file', u, start, groups, trunk);
    TrunkIsRead(file', u, trunk, next, leaves);
    LinksPush(file', u, start, groups, trunk, [trunk] + leaves);
  }

  /** The part of the database header that `finish` rewrites: the words at bytes 24, 28, 32, 36 and 92. */
  datatype Header = Header(changeCounter: u32, databaseSize: u32, firstTrunk: u32, freePages: u32, versionValidFor: u32)

  /** Prepends the returned pages to the freelist the header describes. */
  method RebuildFreelist(disk: DatabaseFile, u: PageBytes, ranges: seq<Range>, freeCount: u32, header: Header)
    returns (r: Result<Header>)
    requires Separate(ranges) && forall p: nat | In(ranges, p) :: p < U32
    modifies disk
    ensures r.Ok? <==> 0 < freeCount == Pages(ranges) && header.freePages + freeCount <= LAST_PAGE
    ensures r.Ok? ==> r.value.(firstTrunk := header.firstTrunk, freePages := header.freePages) == header
    ensures forall p | p in old(disk.pages) && !In(ranges, p) :: p in disk.pages && disk.pages[p] == old(disk.pages)[p]
    ensures r.Ok? ==> NonEmpty(ranges) && forall old' |
              ReadFreelist(old(disk.pages), u, header.firstTrunk, header.freePages) == Some(old')
              && (forall p | p in old' :: !In(ranges, p)) ::
              ReadFreelist(disk.pages, u, r.value.firstTrunk, r.value.freePages) == Some(Expanded(ranges) + old')
  {
    hide Separate, In, Pages, Expanded, Distinct, AllPages, Links, Flatten, ReadFreelist, PageSize, FreeReader.Valid,
         FreeReader.Remaining;
    ExpandedIsDistinct(ranges);
    ExpandedIs(ranges);
    PagesAreAll(ranges);
    var reader := new FreeReader(ranges);
    var written;
    ghost var groups;
    written, groups := WriteTrunks(disk, u, reader, header.firstTrunk);
    if written.Err? {
      return Err(written.message);
    }
    var (first, counted) := written.value;
    if counted != freeCount {
      return Err("free-page count mismatch");
    }
    if header.freePages + freeCount > LAST_PAGE {
      return Err("free-page count overflow");
    }
    FirstIsAPage(Expanded(ranges));
    r := Ok(header.(firstTrunk := first, freePages := header.freePages + freeCount));
    ghost var after := disk.pages;
    forall old' | ReadFreelist(old(disk.pages), u, header.firstTrunk, header.freePages) == Some(old')
        && (forall p | p in old' :: !In(ranges, p))
      ensures ReadFreelist(after, u, first, header.freePages + freeCount) == Some(Expanded(ranges) + old') {
      FreelistFrame(old(disk.pages), after, u, header.firstTrunk, header.freePages, old');
      LinkedListIsRead(after, u, first, groups, header.firstTrunk, header.freePages, old');
    }
  }

  lemma PagesAreAll(ranges: seq<Range>)
    requires NonEmpty(ranges) && forall p: nat | In(ranges, p) :: p < U32
    ensures AllPages(Expanded(ranges))
  {
    ExpandedIs(ranges);
    forall i | 0 <= i < |Expanded(ranges)| ensures Expanded(ranges)[i] < U32 {
      assert Expanded(ranges)[i] in Expanded(ranges);
    }
  }

  lemma FirstIsAPage(pages: seq<nat>)
    requires AllPages(pages) && pages != []
    ensures pages[0] < U32
  {
  }

  // ---------------------------------------------------------------- finish

  /** Everything given back once the coordinator returns its own tail. */
  function AllReturned(allocator: BlockAllocator, next: nat, end: nat): seq<Range>
    reads allocator
  {
    allocator.free + UsableRanges(next, end, allocator.pending)
  }

  lemma {:induction false} PagesConcat(a: seq<Range>, b: seq<Range>)
    ensures Pages(a + b) == Pages(a) + Pages(b)
    decreases |b|
  {
    if b == [] {
      assert a + b == a;
    } else {
      var k := |b| - 1;
      PagesConcat(a, b[..k]);
      assert (a + b)[..|a + b| - 1] == a + b[..k];
    }
  }

  lemma UsablePages(start: nat, end: nat, pending: nat)
    requires start <= end
    ensures Pages(UsableRanges(start, end, pending)) == Available(start, end, pending)
  {
    var ranges := UsableRanges(start, end, pending);
    if |ranges| == 2 {
      assert ranges == [ranges[0]] + [ranges[1]];
      PagesConcat([ranges[0]], [ranges[1]]);
      OnePages(ranges[0]);
      OnePages(ranges[1]);
    } else if |ranges| == 1 {
      assert ranges == [ranges[0]];
      OnePages(ranges[0]);
    }
  }

  lemma OnePages(r: Range)
    ensures Pages([r]) == r.1 - r.0
  {
    assert [r][..0] == [];
  }

  /** `finish`: only the writer of the whole file may publish, only after every worker
      completed; unused pages go to the freelist and the header gets the new size. */
  method Finish(w: PageWriter, header: Header) returns (r: Result<Header>)
    requires w.Valid() && w.nextPage >= 2
    requires w.allocator != null ==>
               var returned := AllReturned(w.allocator, w.nextPage, w.rangeEnd.value);
               && Separate(returned) && (forall p: nat | In(returned, p) :: p < U32)
               && w.allocator.freeCount == Pages(w.allocator.free) && Pages(returned) < U32
    modifies w`nextPage, w.disk, w.allocator
    ensures w.allocator == null ==> (r.Ok? <==> !w.dynamicWorker && w.rangeEnd.None?)
    ensures w.allocator != null ==>
              (r.Ok? <==> !w.dynamicWorker && old(w.allocator.active) == 0 && !old(w.allocator.failed)
                          && (old(Pages(AllReturned(w.allocator, w.nextPage, w.rangeEnd.value))) == 0
                              || header.freePages + old(Pages(AllReturned(w.allocator, w.nextPage, w.rangeEnd.value)))
                                  <= LAST_PAGE))
    ensures r.Ok? ==>
              && w.nextPage == (if w.allocator == null then old(w.nextPage) else old(w.allocator.next))
              && r.value.databaseSize == w.nextPage - 1
              && r.value.changeCounter == r.value.versionValidFor == (header.changeCounter + 1) % U32
    ensures r.Ok? && w.allocator == null ==>
              w.disk.pages == old(w.disk.pages) && r.value.firstTrunk == header.firstTrunk
                  && r.value.freePages == header.freePages
    ensures r.Ok? && w.allocator != null ==>
              var returned := old(AllReturned(w.allocator, w.nextPage, w.rangeEnd.value));
              && NonEmpty(returned)
              && (forall p | p in old(w.disk.pages) && !In(returned, p) ::
                  p in w.disk.pages && w.disk.pages[p] == old(w.disk.pages)[p])
              && forall old' |
                   ReadFreelist(old(w.disk.pages), w.pageSize, header.firstTrunk, header.freePages) == Some(old')
                   && (forall p | p in old' :: !In(returned, p)) ::
                   ReadFreelist(w.disk.pages, w.pageSize, r.value.firstTrunk, r.value.freePages)
                       == Some(Expanded(returned) + old')
  {
    hide In, Pages, Expanded, ReadFreelist, PageSize, LockPage, Separate, Owned;
    if w.dynamicWorker || (w.allocator == null && w.rangeEnd.Some?) {
      return Err("range writers must complete without updating the database header");
    }
    var header' := header;
    if w.allocator != null {
      var allocator := w.allocator;
      if allocator.active != 0 {
        return Err("dynamic workers have not completed");
      }
      if allocator.failed {
        return Err("dynamic worker was abandoned or failed");
      }
      ghost var returned := AllReturned(allocator, w.nextPage, w.rangeEnd.value);
      PagesConcat(allocator.free, UsableRanges(w.nextPage, w.rangeEnd.value, allocator.pending));
      UsablePages(w.nextPage, w.rangeEnd.value, allocator.pending);
      ExpandedIsDistinct(returned);
      ExpandedIs(returned);
      allocator.ReturnTail(w.nextPage, w.rangeEnd.value);
      w.nextPage := allocator.next;
      if allocator.freeCount > 0 {
        var rebuilt := RebuildFreelist(w.disk, w.pageSize, allocator.free, allocator.freeCount, header);
        if rebuilt.Err? {
          return Err(rebuilt.message);
        }
        header' := rebuilt.value;
      } else {
        assert forall old': seq<nat> :: Expanded(returned) + old' == old';
      }
    }
    var change := (header'.changeCounter + 1) % U32;
    return Ok(header'.(changeCounter := change, databaseSize := w.nextPage - 1, versionValidFor := change));
  }
}
