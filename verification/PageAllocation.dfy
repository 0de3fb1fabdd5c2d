/** Page numbers: the shared block allocator and the writer that consumes pages in order. */
module PageAllocation {
  import opened Bytes
  import opened PageFile
  import opened PageFormat
  import opened Results

  const LAST_PAGE: nat := U32 - 1

  /** The page that holds the lock bytes; SQLite never stores data on it. */
  function LockPage(u: nat): nat
    requires PageSize(u)
  {
    0x4000_0000 / u + 1
  }

  /** It is the page whose bytes include that at 2 to the 30th. */
  lemma LockByteIsOnIt(u: nat)
    requires PageSize(u)
    ensures (LockPage(u) - 1) * u <= 0x4000_0000 < LockPage(u) * u
  {
    var before := 0x4000_0000 / u;
    assert 0x4000_0000 == u * before + 0x4000_0000 % u;
    assert before * u == u * before && (before + 1) * u == u * before + u;
  }

  /** Usable pages in `start..end`. */
  function Available(start: nat, end: nat, pending: nat): nat {
    if start >= end then 0 else if start <= pending < end then end - start - 1 else end - start
  }

  /** `page`, or the one after it when `page` is the lock-byte page. */
  function Skip(page: nat, pending: nat): nat {
    if page == pending then page + 1 else page
  }

  function AddU32(a: nat, b: nat): Result<nat> {
    if a + b <= LAST_PAGE then Ok(a + b) else Err("database page space exhausted")
  }

  /** The end of a range of `pages` usable pages from `start`. */
  function RangeEnd(start: nat, pages: nat, pending: nat): (r: Result<nat>)
    ensures r.Ok? ==> start <= r.value <= LAST_PAGE && Available(start, r.value, pending) == pages
    ensures r.Ok? && pages > 0 ==> start < r.value && pending != r.value - 1
    ensures r.Err? <==> start + pages + (if start <= pending < start + pages then 1 else 0) > LAST_PAGE
  {
    match AddU32(start, pages)
    case Err(m) => Err(m)
    case Ok(end) => if start <= pending < end then AddU32(end, 1) else Ok(end)
  }

  /** The usable parts of `start..end`. */
  function UsableRanges(start: nat, end: nat, pending: nat): seq<(nat, nat)> {
    if start >= end then []
    else if start <= pending < end then
      (if start < pending then [(start, pending)] else []) + (if pending + 1 < end then [(pending + 1, end)] else [])
    else [(start, end)]
  }

  class BlockAllocator {
    var next: nat
    const bootstrapEnd: nat
    const blockPages: nat
    const pending: nat
    var active: nat
    var failed: bool
    var roots: set<nat>
    var free: seq<(nat, nat)>
    var freeCount: nat

    ghost predicate Valid()
      reads this
    {
      1 < bootstrapEnd <= next <= LAST_PAGE && blockPages >= 1
    }

    constructor (nextPage: nat, blockPages: nat, pending: nat)
      requires 1 < nextPage <= LAST_PAGE && blockPages >= 1
      ensures Valid() && next == bootstrapEnd == nextPage && this.pending == pending && this.blockPages == blockPages
      ensures active == 0 && !failed && roots == {} && free == [] && freeCount == 0
    {
      next, bootstrapEnd, this.blockPages, this.pending := nextPage, nextPage, blockPages, pending;
      active, failed, roots, free, freeCount := 0, false, {}, [], 0;
    }

    method ClaimRoot(root: nat) returns (r: Result<()>)
      requires Valid()
      modifies this`roots
      ensures Valid()
      ensures r.Ok? <==> 1 < root < bootstrapEnd && root !in old(roots)
      ensures roots == if r.Ok? then old(roots) + {root} else old(roots)
    {
      if root <= 1 || root >= bootstrapEnd {
        return Err("invalid dynamic tree root");
      }
      if root in roots {
        return Err("dynamic tree root is already claimed");
      }
      roots := roots + {root};
      return Ok(());
    }

    /** Takes a block of at least `needed` usable pages.  `start` is the value of the shared counter
        that the exchange finally replaces: other writers may have advanced it any distance. */
    method Grant(needed: nat) returns (r: Result<(nat, nat)>)
      requires Valid()
      modifies this`next
      ensures Valid() && old(next) <= next
      ensures var pages := if blockPages > needed then blockPages else needed;
              match r
              case Ok((start, end)) => old(next) <= start < end == next
                                       && Available(start, end, pending) == pages >= needed
              case Err(_) => RangeEnd(next, pages, pending).Err?
      ensures r.Ok? ==> pending != r.value.1 - 1
    {
      var pages := if blockPages > needed then blockPages else needed;
      var start :| next <= start <= LAST_PAGE;
      next := start;
      match RangeEnd(start, pages, pending) {
        case Err(m) => return Err(m);
        case Ok(end) =>
          next := end;
          return Ok((start, end));
      }
    }

    /** Gives the unused tail of a block back. */
    method ReturnTail(start: nat, end: nat)
      modifies this`free, this`freeCount
      ensures free == old(free) + UsableRanges(start, end, pending)
      ensures freeCount == old(freeCount) + Available(start, end, pending)
    {
      free := free + UsableRanges(start, end, pending);
      freeCount := freeCount + Available(start, end, pending);
    }
  }

  /** Pages of the file that were appended for the current tree. */
  ghost predicate Owned(file: File, mine: File, base: nat, next: nat) {
    Grows(mine, file) && forall p | p in mine :: base <= p < next
  }

  lemma OwnedSkip(file: File, mine: File, base: nat, next: nat, page: seq<byte>)
    requires Owned(file, mine, base, next)
    ensures Owned(file[next := page], mine, base, next + 1) && next !in mine
  {
  }

  lemma OwnedAdd(file: File, mine: File, base: nat, next: nat, page: seq<byte>)
    requires Owned(file, mine, base, next) && base <= next
    ensures Owned(file[next := page], mine[next := page], base, next + 1) && next !in mine
  {
  }

  lemma OwnedLater(file: File, mine: File, base: nat, next: nat, next': nat)
    requires Owned(file, mine, base, next) && next <= next'
    ensures Owned(file, mine, base, next')
  {
  }

  lemma LockPageIsSmall(u: nat)
    requires PageSize(u)
    ensures 1 < LockPage(u) < 0x40_0000 < LAST_PAGE
  {
  }

  class DatabaseFile {
    var pages: File
  }

  class PageWriter {
    const pageSize: PageBytes
    // The database file, shared by every writer that has it open.
    const disk: DatabaseFile
    var position: nat
    var nextPage: nat
    var rangeEnd: Option<nat>
    var assignedRoot: Option<nat>
    var allocator: BlockAllocator?
    var dynamicWorker: bool
    var dynamicCompleted: bool

    // The pages appended for the current tree; none of them is below `base`.
    ghost var mine: File
    ghost var base: nat

    ghost predicate Valid()
      reads this, disk, allocator
    {
      && nextPage <= LAST_PAGE
      && (rangeEnd.Some? ==> nextPage <= rangeEnd.value <= LAST_PAGE)
      && (allocator != null ==>
            && allocator.Valid() && allocator.pending == LockPage(pageSize)
            && rangeEnd.Some? && rangeEnd.value <= allocator.next && allocator.bootstrapEnd <= base <= allocator.next)
      && (position == nextPage || (allocator != null && rangeEnd == Some(nextPage)))
      && (base <= nextPage || (allocator != null && rangeEnd == Some(nextPage)))
      && Owned(disk.pages, mine, base, nextPage) && LockPage(pageSize) !in mine
    }

    function Pending(): nat
    {
      LockPage(pageSize)
    }

    /** Usable pages left before the writer must stop or ask for another block. */
    function Room(): nat
      reads this
    {
      Available(nextPage, if rangeEnd.Some? then rangeEnd.value else LAST_PAGE, Pending())
    }

    /** Makes sure the next `pages` usable pages lie in one block. */
    method EnsureContiguous(pages: nat) returns (r: Result<()>)
      requires Valid() && pages >= 1
      modifies this`nextPage, this`rangeEnd, this`position, allocator
      ensures Valid() && nextPage >= old(nextPage)
      ensures allocator == null || old(Room()) >= pages ==>
                r.Ok? && nextPage == old(nextPage) && rangeEnd == old(rangeEnd) && position == old(position)
      ensures r.Ok? && allocator != null ==> Room() >= pages
    {
      if allocator == null {
        return Ok(());
      }
      var end := rangeEnd.value;
      if Available(nextPage, end, allocator.pending) >= pages {
        return Ok(());
      }
      hide Owned;
      allocator.ReturnTail(nextPage, end);
      rangeEnd := Some(nextPage);
      var range := allocator.Grant(pages);
      if range.Err? {
        return Err(range.message);
      }
      OwnedLater(disk.pages, mine, base, nextPage, range.value.0);
      nextPage := range.value.0;
      rangeEnd := Some(range.value.1);
      position := range.value.0;
      return Ok(());
    }

    method WriteAt(page: seq<byte>)
      modifies this`position, disk
      ensures disk.pages == old(disk.pages)[old(position) := page] && position == old(position) + 1
    {
      disk.pages := disk.pages[position := page];
      position := position + 1;
    }

    /** Appends one page at the next usable page number. */
    method Append(page: seq<byte>) returns (r: Result<nat>)
      requires Valid() && |page| == pageSize
      modifies this`nextPage, this`rangeEnd, this`position, this`mine, disk, allocator
      ensures Valid() && nextPage >= old(nextPage)
      ensures Extended(old(disk.pages), old(mine), disk.pages, mine, Pending()) && base == old(base)
      ensures r.Ok? ==> r.value !in old(mine) && r.value < LAST_PAGE && mine == old(mine)[r.value := page]
                        && r.value >= old(nextPage)
      ensures allocator == null || old(Room()) >= 1 ==> (r.Ok? <==> old(Room()) >= 1) && rangeEnd == old(rangeEnd)
      ensures r.Ok? && (allocator == null || old(Room()) >= 1) ==>
                r.value == Skip(old(nextPage), Pending()) && nextPage == r.value + 1 && Room() == old(Room()) - 1
    {
      var ready := EnsureContiguous(1);
      if ready.Err? {
        return Err(ready.message);
      }
      r := AppendHere(page);
    }

    /** Leaves the lock-byte page blank when it is next. */
    method StepOverLock()
      requires Valid() && (rangeEnd.Some? ==> nextPage < rangeEnd.value)
      modifies this`nextPage, this`position, disk
      ensures Valid() && nextPage == Skip(old(nextPage), Pending())
      ensures Extended(old(disk.pages), mine, disk.pages, mine, Pending())
    {
      LockPageIsSmall(pageSize);
      hide Owned, LockPage, PageSize, Extended;
      NothingWritten(disk.pages, mine, Pending());
      if nextPage == Pending() {
        OwnedSkip(disk.pages, mine, base, nextPage, Zeros(pageSize));
        ExtendedOverLock(disk.pages, mine, Zeros(pageSize), Pending());
        WriteAt(Zeros(pageSize));
        nextPage := nextPage + 1;
      }
    }

    method AppendHere(page: seq<byte>) returns (r: Result<nat>)
      requires Valid() && |page| == pageSize && (allocator != null ==> Room() >= 1)
      modifies this`nextPage, this`position, this`mine, disk
      ensures Valid() && nextPage >= old(nextPage)
      ensures Extended(old(disk.pages), old(mine), disk.pages, mine, Pending())
      ensures r.Ok? <==> old(Room()) >= 1
      ensures r.Ok? ==> r.value !in old(mine) && r.value < LAST_PAGE && mine == old(mine)[r.value := page]
      ensures r.Ok? ==> r.value == Skip(old(nextPage), Pending()) && nextPage == r.value + 1
                        && Room() == old(Room()) - 1
    {
      LockPageIsSmall(pageSize);
      hide Owned, LockPage, PageSize, Extended;
      NothingWritten(disk.pages, mine, Pending());
      if rangeEnd.Some? && nextPage >= rangeEnd.value {
        return Err("packed tree exceeded its reserved page range");
      }
      StepOverLock();
      if rangeEnd.Some? && nextPage >= rangeEnd.value {
        return Err("packed tree exceeded its reserved page range");
      }
      var id := nextPage;
      if nextPage + 1 > LAST_PAGE {
        return Err("database page space exhausted");
      }
      OwnedAdd(disk.pages, mine, base, nextPage, page);
      ExtendedByPage(old(disk.pages), disk.pages, mine, id, page, Pending());
      nextPage := nextPage + 1;
      WriteAt(page);
      mine := mine[id := page];
      return Ok(id);
    }

    /** Replaces an existing root page and returns to the end of the appended pages. */
    method WriteRoot(root: nat, page: seq<byte>) returns (r: Result<()>)
      requires Valid() && |page| == pageSize
      modifies this`position, this`mine, disk
      ensures Valid()
      ensures r.Ok? <==> (assignedRoot.Some? ==> assignedRoot.value == root)
                         && 1 < root < (if allocator != null then allocator.bootstrapEnd else nextPage)
      ensures r.Ok? ==> disk.pages == old(disk.pages)[root := page] && mine == old(mine) - {root}
      ensures r.Err? ==> disk.pages == old(disk.pages) && mine == old(mine)
    {
      if assignedRoot.Some? && assignedRoot.value != root {
        return Err("range writer cannot replace another tree root");
      }
      var limit := if allocator != null then allocator.bootstrapEnd else nextPage;
      if root <= 1 || root >= limit {
        return Err("invalid body root page");
      }
      var end := position;
      position := root;
      WriteAt(page);
      position := end;
      mine := mine - {root};
      return Ok(());
    }

    /** A writer for the whole file; `next` is the first page behind it. */
    constructor (disk: DatabaseFile, pageSize: PageBytes, next: nat)
      requires 1 < next <= LAST_PAGE
      ensures Valid() && this.disk == disk && this.pageSize == pageSize && nextPage == next
      ensures rangeEnd == None && assignedRoot == None && allocator == null && mine == map[] && base == next
      ensures !dynamicWorker && !dynamicCompleted
    {
      this.disk, this.pageSize := disk, pageSize;
      position, nextPage, rangeEnd, assignedRoot := next, next, None, None;
      allocator, dynamicWorker, dynamicCompleted := null, false, false;
      mine, base := map[], next;
    }

    /** Reserves an exact range of usable pages behind everything written so far. */
    method Reserve(pages: nat) returns (r: Result<(nat, nat)>)
      requires Valid()
      modifies this`nextPage, this`position
      ensures Valid()
      ensures r.Ok? ==> rangeEnd.None? && r.value.0 == old(nextPage) && r.value.1 == nextPage
                        && Available(r.value.0, r.value.1, Pending()) == pages
                        && (if pages > 0 then Pending() != r.value.1 - 1 else r.value.1 == r.value.0)
      ensures r.Ok? <==> rangeEnd.None? && RangeEnd(old(nextPage), pages, Pending()).Ok?
      ensures r.Err? ==> nextPage == old(nextPage)
    {
      if rangeEnd.Some? {
        return Err("cannot reserve pages from a range writer");
      }
      var start := nextPage;
      match RangeEnd(start, pages, Pending()) {
        case Err(m) => return Err(m);
        case Ok(end) =>
          OwnedLater(disk.pages, mine, base, nextPage, end);
          position := end;
          nextPage := end;
          return Ok((start, end));
      }
    }

    /** A writer for one tree inside a reserved range. */
    method Fork(root: nat, range: (nat, nat)) returns (r: Result<PageWriter>)
      requires Valid()
      ensures r.Ok? <==> rangeEnd.None? && range.1 <= nextPage && range.0 <= range.1 && 1 < root < range.0
      ensures r.Ok? ==> var w := r.value;
                && fresh(w) && w.Valid() && w.disk == disk && w.pageSize == pageSize && w.allocator == null
                && w.nextPage == w.base == range.0 && w.rangeEnd == Some(range.1) && w.mine == map[]
                && w.assignedRoot == Some(root) && !w.dynamicWorker
    {
      if rangeEnd.Some? || range.1 > nextPage || range.0 > range.1 || root <= 1 || root >= range.0 {
        return Err("invalid disjoint page range");
      }
      var w := new PageWriter(disk, pageSize, range.0);
      w.rangeEnd, w.assignedRoot := Some(range.1), Some(root);
      return Ok(w);
    }

    /** A range writer must have consumed every page of its range; a dynamic worker returns its tail. */
    method Complete() returns (r: Result<()>)
      requires Valid() && (allocator != null && dynamicWorker ==> allocator.active > 0)
      modifies this`dynamicCompleted, allocator
      ensures allocator == null ==> (r.Ok? <==> rangeEnd == Some(nextPage))
      ensures allocator != null ==> (r.Ok? <==> dynamicWorker && !old(allocator.failed))
      ensures allocator != null && r.Ok? ==>
                && allocator.active == old(allocator.active) - 1 && dynamicCompleted
                && allocator.free == old(allocator.free) + UsableRanges(nextPage, rangeEnd.value, Pending())
                && allocator.freeCount == old(allocator.freeCount) + Room()
    {
      if allocator != null {
        if !dynamicWorker {
          return Err("coordinator must finish");
        }
        if allocator.failed {
          return Err("dynamic allocator has failed");
        }
        allocator.ReturnTail(nextPage, rangeEnd.value);
        dynamicCompleted := true;
        allocator.active := allocator.active - 1;
        return Ok(());
      }
      if rangeEnd != Some(nextPage) {
        return Err("packed tree did not fill its reserved page range");
      }
      return Ok(());
    }

    /** Switches to shared block allocation; the writer owns no block yet. */
    method EnableDynamic(blockBytes: nat) returns (r: Result<()>)
      requires Valid() && 1 < nextPage
      modifies this`allocator, this`rangeEnd, this`base, this`mine
      ensures Valid()
      ensures r.Ok? <==> old(rangeEnd).None? && old(allocator) == null
      ensures r.Ok? ==> allocator != null && fresh(allocator) && rangeEnd == Some(nextPage)
                        && allocator.bootstrapEnd == allocator.next == nextPage && allocator.active == 0
                           && !allocator.failed
    {
      if rangeEnd.Some? || allocator != null {
        return Err("cannot enable dynamic allocation for this writer");
      }
      var blocks := blockBytes / pageSize;
      allocator := new BlockAllocator(nextPage, if blocks > 1 then blocks else 1, Pending());
      rangeEnd := Some(nextPage);
      mine, base := map[], nextPage;
      return Ok(());
    }

    /** Starts recording the pages of a new tree. */
    ghost method BeginTree()
      requires Valid()
      modifies this`mine, this`base
      ensures Valid() && mine == map[] && base >= nextPage && Room() == old(Room())
      ensures allocator == null ==> base == nextPage
    {
      mine := map[];
      base := if allocator != null && nextPage < allocator.bootstrapEnd then allocator.bootstrapEnd else nextPage;
    }

    /** A worker that takes its pages from the shared allocator. */
    method ForkDynamic(root: nat) returns (r: Result<PageWriter>)
      requires Valid()
      modifies allocator
      ensures r.Ok? ==> var w := r.value;
                && fresh(w) && w.Valid() && w.disk == disk && w.pageSize == pageSize && w.allocator == allocator != null
                && w.rangeEnd == Some(w.nextPage) && w.mine == map[] && w.assignedRoot == Some(root) && w.dynamicWorker
                && !w.dynamicCompleted && w.base == allocator.bootstrapEnd
      ensures r.Ok? <==> allocator != null && !dynamicWorker && 1 < root < allocator.bootstrapEnd
                         && root !in old(allocator.roots)
      ensures r.Ok? ==> allocator.active == old(allocator.active) + 1
                        && allocator.roots == old(allocator.roots) + {root}
    {
      if allocator == null {
        return Err("dynamic allocation is disabled");
      }
      if dynamicWorker {
        return Err("dynamic workers cannot fork");
      }
      var claimed := allocator.ClaimRoot(root);
      if claimed.Err? {
        return Err(claimed.message);
      }
      allocator.active := allocator.active + 1;
      var w := new PageWriter(disk, pageSize, 2);
      w.nextPage, w.rangeEnd, w.assignedRoot := 0, Some(0), Some(root);
      w.allocator, w.dynamicWorker, w.base := allocator, true, allocator.bootstrapEnd;
      return Ok(w);
    }
  }

  /** Outside the new pages and the lock-byte page the file is as before. */
  ghost predicate Untouched(before: File, after: File, mine: File, pending: nat) {
    forall p | p in before && p !in mine && p != pending :: p in after && after[p] == before[p]
  }

  /** From one state to a later one: pages were only appended. */
  ghost predicate Extended(before: File, mineBefore: File, after: File, mine: File, pending: nat) {
    Grows(mineBefore, mine) && Untouched(before, after, mine, pending)
  }

  lemma NothingWritten(pages: File, mine: File, pending: nat)
    ensures Extended(pages, mine, pages, mine, pending)
  {
  }

  lemma ExtendedOverLock(pages: File, mine: File, page: seq<byte>, pending: nat)
    ensures Extended(pages, mine, pages[pending := page], mine, pending)
  {
  }

  lemma ExtendedByPage(before: File, after: File, mine: File, id: nat, page: seq<byte>, pending: nat)
    requires Extended(before, mine, after, mine, pending) && id !in mine
    ensures Extended(before, mine, after[id := page], mine[id := page], pending)
  {
  }

  lemma ExtendedTransitive(a: File, m: File, b: File, m': File, c: File, m'': File, pending: nat)
    requires Extended(a, m, b, m', pending) && Extended(b, m', c, m'', pending)
    ensures Extended(a, m, c, m'', pending)
  {
  }
}
