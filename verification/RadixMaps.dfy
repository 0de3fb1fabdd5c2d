/** The two-level directory of pages that addresses integer IDs directly (`RadixMap` in `id_map.rs`). */
module RadixMaps {
  import opened Bytes
  import opened IdPages
  import opened Results

  // ---------------------------------------------------------------- addresses

  const PAGE_KEYS: nat := 0x10_0000
  const SIGN: nat := 0x8000_0000_0000_0000

  /** The ID with its sign bit flipped, split into region, page and slot. */
  function Coordinates(id: i64): (c: (nat, nat, Slot))
    ensures c.0 < U32 && c.1 < PAGE_KEYS
  {
    var word := ToU64(id);
    var sortable := if word >= SIGN then word - SIGN else word + SIGN;
    (sortable / U32, sortable % U32 / SLOTS, sortable % SLOTS)
  }

  function IdAt(region: nat, page: nat, slot: Slot): (id: i64)
    requires region < U32 && page < PAGE_KEYS
  {
    region * U32 + page * SLOTS + slot - SIGN
  }

  lemma CoordinatesAreExact(id: i64)
    ensures var (region, page, slot) := Coordinates(id); IdAt(region, page, slot) == id
  {
    var sortable := id + SIGN;
    assert sortable % SLOTS == sortable % U32 % SLOTS;
  }

  lemma IdAtIsExact(region: nat, page: nat, slot: Slot)
    requires region < U32 && page < PAGE_KEYS
    ensures Coordinates(IdAt(region, page, slot)) == (region, page, slot)
  {
    var sortable := region * U32 + (page * SLOTS + slot);
    assert sortable == IdAt(region, page, slot) + SIGN;
    assert page * SLOTS + slot < U32;
    assert sortable / U32 == region && sortable % U32 == page * SLOTS + slot;
    assert sortable % SLOTS == slot by {
      assert sortable == (region * (U32 / SLOTS) + page) * SLOTS + slot;
    }
  }

  // ---------------------------------------------------------------- directories

  function At<T>(directory: seq<Option<T>>, base: nat, key: nat): Option<T> {
    if key < base || key - base >= |directory| then None else directory[key - base]
  }

  function Nones<T>(n: nat): (s: seq<Option<T>>)
    ensures |s| == n
  {
    seq(n, _ => None)
  }

  ghost predicate Unchanged<T>(directory: seq<Option<T>>, base: nat, directory': seq<Option<T>>, base': nat) {
    forall key: nat :: At(directory', base', key) == At(directory, base, key)
  }

  /** Bytes held by the entries of a directory. */
  function Total<T>(directory: seq<Option<T>>, size: T -> nat): nat {
    if directory == [] then 0
    else Total(directory[..|directory| - 1], size)
         + match directory[|directory| - 1] case None => 0 case Some(t) => size(t)
  }

  function Held<T>(entry: Option<T>, size: T -> nat): nat {
    match entry
    case None => 0
    case Some(t) => size(t)
  }

  lemma {:induction false} TotalUpdate<T>(directory: seq<Option<T>>, size: T -> nat, i: nat, entry: Option<T>)
    requires i < |directory|
    ensures Total(directory[i := entry], size) + Held(directory[i], size) == Total(directory, size) + Held(entry, size)
    decreases |directory|
  {
    var k := |directory| - 1;
    if i < k {
      TotalUpdate(directory[..k], size, i, entry);
      assert directory[i := entry][..k] == directory[..k][i := entry];
    } else {
      assert directory[i := entry][..k] == directory[..k];
    }
  }

  lemma {:induction false} TotalConcat<T>(a: seq<Option<T>>, b: seq<Option<T>>, size: T -> nat)
    ensures Total(a + b, size) == Total(a, size) + Total(b, size)
    decreases |b|
  {
    if b == [] {
      assert a + b == a;
    } else {
      var k := |b| - 1;
      TotalConcat(a, b[..k], size);
      assert (a + b)[..|a| + k] == a + b[..k];
    }
  }

  lemma {:induction false} TotalNones<T>(n: nat, size: T -> nat)
    ensures Total(Nones(n), size) == 0
  {
    if n > 0 {
      TotalNones(n - 1, size);
      assert Nones<T>(n)[..n - 1] == Nones(n - 1);
    }
  }

  lemma TotalPadded<T>(before: nat, directory: seq<Option<T>>, after: nat, size: T -> nat)
    ensures Total(Nones(before) + directory + Nones(after), size) == Total(directory, size)
  {
    TotalNones(before, size);
    TotalNones(after, size);
    TotalConcat(Nones(before), directory, size);
    TotalConcat(Nones(before) + directory, Nones(after), size);
  }

  lemma PaddedUnchanged<T>(directory: seq<Option<T>>, base: nat, before: nat, after: nat, base': nat)
    requires directory == [] || base' + before == base
    ensures Unchanged(directory, base, Nones(before) + directory + Nones(after), base')
  {
    var directory' := Nones(before) + directory + Nones(after);
    forall key: nat ensures At(directory', base', key) == At(directory, base, key) {
      if base' <= key && key - base' < |directory'| {
        assert directory'[key - base'] ==
               if before <= key - base' < before + |directory| then directory[key - base' - before] else None;
      }
    }
  }

  lemma EntriesTimes(a: nat, b: nat, c: nat)
    ensures (a + b) * c == a * c + b * c
  {
  }

  /** Entries a directory needs so that `key` has one. */
  function LengthFor(length: nat, base: nat, key: nat): (n: nat)
    ensures n >= length
  {
    if length == 0 then 1
    else if key < base then length + (base - key)
    else if key - base < length then length else key - base + 1
  }

  /** It is the least length of a directory with an entry for `key` and all the entries there were. */
  lemma LengthIsLeast(length: nat, base: nat, key: nat, base': nat, n: nat)
    requires base' <= key < base' + n
    requires length > 0 ==> base' <= base && base + length <= base' + n
    ensures LengthFor(length, base, key) <= n
    ensures length > 0 ==> (key < base ==> LengthFor(length, base, key) == base + length - key)
                           && (key >= base + length ==> LengthFor(length, base, key) == key + 1 - base)
                           && (base <= key < base + length ==> LengthFor(length, base, key) == length)
  {
  }

  lemma AtSame<T>(directory: seq<Option<T>>, base: nat, directory': seq<Option<T>>, base': nat, key: nat)
    requires Unchanged(directory, base, directory', base')
    ensures At(directory', base', key) == At(directory, base, key)
  {
  }

  /** Makes room for `key`, growing the directory at either end, and charges the new entries.
      Growing reserves exactly what it needs. */
  method DirectorySlot<T>(directory: seq<Option<T>>, base: u32, key: u32, slotBytes: nat, used: nat, limit: nat,
                          ghost size: T -> nat)
    returns (r: Result<(seq<Option<T>>, u32, nat, nat)>)
    requires used <= limit
    ensures r.Ok? ==>
              var (directory', base', index, bytes) := r.value;
              && base' + index == key && index < |directory'|
              && Unchanged(directory, base, directory', base') && directory'[index] == At(directory, base, key)
              && Total(directory', size) == Total(directory, size)
              && |directory'| * slotBytes == |directory| * slotBytes + bytes && used + bytes <= limit
              && bytes == (LengthFor(|directory|, base, key) - |directory|) * slotBytes
    ensures r.Err? <==> used + (LengthFor(|directory|, base, key) - |directory|) * slotBytes > limit
  {
    hide Total, Nones, Unchanged;
    var from := if directory == [] then key else base;
    var prepend := SaturatingSub(from, key);
    var newBase := if from <= key then from else key;
    var index := key - newBase;
    var length := if |directory| + prepend >= index + 1 then |directory| + prepend else index + 1;
    assert length == LengthFor(|directory|, base, key);
    hide LengthFor;
    var grown := length - |directory|;
    var bytes := grown * slotBytes;
    EntriesTimes(|directory|, grown, slotBytes);
    if used + bytes > limit {
      return Err("budget exhausted");
    }
    var directory' := Nones(prepend) + directory + Nones(grown - prepend);
    TotalPadded(prepend, directory, grown - prepend, size);
    PaddedUnchanged(directory, base, prepend, grown - prepend, newBase);
    AtSame(directory, base, directory', newBase, key);
    return Ok((directory', newBase, index, bytes));
  }

  // ---------------------------------------------------------------- the map

  datatype Region = Region(base: u32, pages: seq<Option<Page>>)
  datatype Radix = Radix(base: u32, regions: seq<Option<Region>>, charged: nat)

  /** Sizes of a region entry, a page entry and a page, in bytes. */
  datatype Sizes = Sizes(region: nat, entry: nat, page: nat) {
    ghost function OfPage(p: Page): nat {
      page + PageBytes(p)
    }

    ghost function OfRegion(r: Region): nat {
      |r.pages| * entry + Total(r.pages, OfPage)
    }

    /** Everything a map holds. */
    ghost function OfRadix(m: Radix): nat {
      |m.regions| * region + Total(m.regions, OfRegion)
    }
  }

  const EMPTY_RADIX: Radix := Radix(0, [], 0)

  function PageAt(m: Radix, region: nat, page: nat): Option<Page> {
    match At(m.regions, m.base, region)
    case None => None
    case Some(r) => At(r.pages, r.base, page)
  }

  /** The nodes of a group's IDs that fall on one page. */
  ghost function NodesAt(view: map<i64, Node>, region: nat, page: nat): map<Slot, Node>
    requires region < U32 && page < PAGE_KEYS
  {
    map slot: Slot | slot < SLOTS && IdAt(region, page, slot) in view :: view[IdAt(region, page, slot)]
  }

  /** The map under construction holds exactly the IDs of `view`. */
  ghost predicate Holds(m: Radix, view: map<i64, Node>) {
    forall region: nat, page: nat ::
      match PageAt(m, region, page)
      case None => region < U32 && page < PAGE_KEYS ==> NodesAt(view, region, page) == map[]
      case Some(p) => region < U32 && page < PAGE_KEYS && Collects(p, NodesAt(view, region, page))
  }

  ghost predicate SamePages(m: Radix, m': Radix) {
    forall region: nat, page: nat :: PageAt(m', region, page) == PageAt(m, region, page)
  }

  /** A map under construction whose charges match what it holds. */
  ghost predicate Sound(m: Radix, sizes: Sizes) {
    m.charged == sizes.OfRadix(m)
  }

  lemma PutRegion(m: Radix, index: nat, r: Region, sizes: Sizes)
    requires index < |m.regions|
    ensures var m' := m.(regions := m.regions[index := Some(r)]);
            && sizes.OfRadix(m') + Held(m.regions[index], sizes.OfRegion) == sizes.OfRadix(m) + sizes.OfRegion(r)
            && (forall page: nat :: PageAt(m', m.base + index, page) == At(r.pages, r.base, page))
            && forall region: nat, page: nat | region != m.base + index ::
               PageAt(m', region, page) == PageAt(m, region, page)
  {
    TotalUpdate(m.regions, sizes.OfRegion, index, Some(r));
  }

  lemma PutPage(r: Region, index: nat, p: Page, sizes: Sizes)
    requires index < |r.pages|
    ensures var r' := r.(pages := r.pages[index := Some(p)]);
            && sizes.OfRegion(r') + Held(r.pages[index], sizes.OfPage) == sizes.OfRegion(r) + sizes.OfPage(p)
            && At(r'.pages, r'.base, r.base + index) == Some(p)
            && forall page: nat | page != r.base + index :: At(r'.pages, r'.base, page) == At(r.pages, r.base, page)
  {
    TotalUpdate(r.pages, sizes.OfPage, index, Some(p));
  }

  lemma GrowRegions(m: Radix, base: u32, regions: seq<Option<Region>>, bytes: nat, sizes: Sizes)
    requires Sound(m, sizes) && Unchanged(m.regions, m.base, regions, base)
    requires Total(regions, sizes.OfRegion) == Total(m.regions, sizes.OfRegion)
    requires |regions| * sizes.region == |m.regions| * sizes.region + bytes
    ensures SamePages(m, Radix(base, regions, m.charged + bytes))
            && Sound(Radix(base, regions, m.charged + bytes), sizes)
  {
  }

  /** Replacing a region by one with the same pages and a longer directory. */
  lemma GrowPages(m: Radix, index: nat, r: Region, base: u32, pages: seq<Option<Page>>, bytes: nat, sizes: Sizes)
    requires Sound(m, sizes) && index < |m.regions| && m.regions[index] == Some(r)
    requires Unchanged(r.pages, r.base, pages, base)
    requires Total(pages, sizes.OfPage) == Total(r.pages, sizes.OfPage)
    requires |pages| * sizes.entry == |r.pages| * sizes.entry + bytes
    ensures var m' := m.(regions := m.regions[index := Some(Region(base, pages))], charged := m.charged + bytes);
            SamePages(m, m') && Sound(m', sizes)
  {
    hide Total, PageAt, Unchanged, SamePages;
    PutRegion(m, index, Region(base, pages), sizes);
    SamePagesInRegion(m, index, r, base, pages, m.charged + bytes);
  }

  lemma SamePagesInRegion(m: Radix, index: nat, r: Region, base: u32, pages: seq<Option<Page>>, charged: nat)
    requires index < |m.regions| && m.regions[index] == Some(r) && Unchanged(r.pages, r.base, pages, base)
    ensures SamePages(m, m.(regions := m.regions[index := Some(Region(base, pages))], charged := charged))
  {
    var m' := m.(regions := m.regions[index := Some(Region(base, pages))], charged := charged);
    forall region: nat, page: nat ensures PageAt(m', region, page) == PageAt(m, region, page) {
      RegionIs(m, index, r, page);
      RegionIs(m', index, Region(base, pages), page);
      assert At(pages, base, page) == At(r.pages, r.base, page);
    }
  }

  lemma RegionIs(m: Radix, index: nat, r: Region, page: nat)
    requires index < |m.regions| && m.regions[index] == Some(r)
    ensures PageAt(m, m.base + index, page) == At(r.pages, r.base, page)
  {
  }

  /** An entry with an empty region in it holds no more than an empty entry. */
  lemma DefaultRegion(m: Radix, index: nat, sizes: Sizes)
    requires Sound(m, sizes) && index < |m.regions| && m.regions[index].None?
    ensures var m' := m.(regions := m.regions[index := Some(Region(0, []))]);
            SamePages(m, m') && Sound(m', sizes)
  {
    PutRegion(m, index, Region(0, []), sizes);
    assert sizes.OfRegion(Region(0, [])) == 0;
  }

  lemma SamePagesTransitive(a: Radix, b: Radix, c: Radix)
    requires SamePages(a, b) && SamePages(b, c)
    ensures SamePages(a, c)
  {
  }

  /** What adding an ID costs: new region entries, new page entries, a new page. */
  function RegionCost(m: Radix, region: u32, sizes: Sizes): nat {
    (LengthFor(|m.regions|, m.base, region) - |m.regions|) * sizes.region
  }

  function RegionAt(m: Radix, region: u32): Region {
    match At(m.regions, m.base, region)
    case None => Region(0, [])
    case Some(r) => r
  }

  function EntryCost(r: Region, page: u32, sizes: Sizes): nat {
    (LengthFor(|r.pages|, r.base, page) - |r.pages|) * sizes.entry
  }

  function InsertCost(m: Radix, id: i64, sizes: Sizes): nat {
    var (region, page, _) := Coordinates(id);
    RegionCost(m, region, sizes) + EntryCost(RegionAt(m, region), page, sizes)
    + if PageAt(m, region, page).None? then sizes.page + DENSE_BYTES else 0
  }

  /** The region for `key`, created when missing. */
  method FindRegion(m: Radix, region: u32, used: nat, limit: nat, sizes: Sizes)
    returns (r: Result<(Radix, nat, nat)>)
    requires Sound(m, sizes) && used <= limit
    ensures r.Ok? ==>
              var (m', used', index) := r.value;
              && Sound(m', sizes) && used' + m.charged == used + m'.charged && used' <= limit && SamePages(m, m')
              && index < |m'.regions| && m'.base + index == region && m'.regions[index] == Some(RegionAt(m, region))
              && used' == used + RegionCost(m, region, sizes)
    ensures r.Err? <==> used + RegionCost(m, region, sizes) > limit
  {
    hide Total, SamePages, Sound, Unchanged;
    var slot := DirectorySlot(m.regions, m.base, region, sizes.region, used, limit, sizes.OfRegion);
    if slot.Err? {
      return Err(slot.message);
    }
    var (regions, base, index, bytes) := slot.value;
    var m' := Radix(base, regions, m.charged + bytes);
    GrowRegions(m, base, regions, bytes, sizes);
    if regions[index].None? {
      DefaultRegion(m', index, sizes);
      SamePagesTransitive(m, m', m'.(regions := regions[index := Some(Region(0, []))]));
      m' := m'.(regions := regions[index := Some(Region(0, []))]);
    }
    return Ok((m', used + bytes, index));
  }

  /** The entry for `page` in a region's directory, and the region with room for it. */
  method FindEntry(m: Radix, index: nat, page: u32, used: nat, limit: nat, sizes: Sizes)
    returns (r: Result<(Radix, nat, nat)>)
    requires Sound(m, sizes) && used <= limit && index < |m.regions| && m.regions[index].Some?
    ensures r.Ok? ==>
              var (m', used', at) := r.value;
              && Sound(m', sizes) && used' + m.charged == used + m'.charged && used' <= limit && SamePages(m, m')
              && |m'.regions| == |m.regions| && m'.base == m.base && m'.regions[index].Some?
              && var found := m'.regions[index].value;
              && at < |found.pages| && found.base + at == page && found.pages[at] == PageAt(m', m'.base + index, page)
              && used' == used + EntryCost(m.regions[index].value, page, sizes)
    ensures r.Err? <==> used + EntryCost(m.regions[index].value, page, sizes) > limit
  {
    hide Total, SamePages, Sound, Unchanged;
    var found := m.regions[index].value;
    var entry := DirectorySlot(found.pages, found.base, page, sizes.entry, used, limit, sizes.OfPage);
    if entry.Err? {
      return Err(entry.message);
    }
    var (pages, base, at, bytes) := entry.value;
    GrowPages(m, index, found, base, pages, bytes, sizes);
    return Ok((m.(regions := m.regions[index := Some(Region(base, pages))], charged := m.charged + bytes),
               used + bytes, at));
  }

  lemma SameHolds(m: Radix, m': Radix, view: map<i64, Node>)
    requires Holds(m, view) && SamePages(m, m')
    ensures Holds(m', view)
  {
    hide Collects, NodesAt;
  }

  lemma SamePage(a: Radix, b: Radix, c: Radix, region: nat, page: nat)
    requires SamePages(a, b) && SamePages(b, c)
    ensures PageAt(c, region, page) == PageAt(a, region, page)
  {
  }

  lemma NewId(view: map<i64, Node>, id: i64, node: Node)
    requires id !in view
    ensures var (region, page, slot) := Coordinates(id);
            && NodesAt(view[id := node], region, page) == NodesAt(view, region, page)[slot := node]
            && slot !in NodesAt(view, region, page)
    ensures forall region: nat, page: nat | region < U32 && page < PAGE_KEYS
            && (region, page) != (Coordinates(id).0, Coordinates(id).1) ::
              NodesAt(view[id := node], region, page) == NodesAt(view, region, page)
  {
    CoordinatesAreExact(id);
    forall region: nat, page: nat, slot: Slot | region < U32 && page < PAGE_KEYS && IdAt(region, page, slot) == id
      ensures Coordinates(id) == (region, page, slot) {
      IdAtIsExact(region, page, slot);
    }
  }

  function WithPage(m: Radix, index: nat, at: nat, p: Page, bytes: nat): Radix
    requires index < |m.regions| && m.regions[index].Some? && at < |m.regions[index].value.pages|
  {
    var r := m.regions[index].value;
    m.(regions := m.regions[index := Some(r.(pages := r.pages[at := Some(p)]))], charged := m.charged + bytes)
  }

  /** Storing a page changes that page alone. */
  ghost predicate OnePageChanged(m: Radix, m': Radix, region: nat, page: nat, p: Page) {
    && PageAt(m', region, page) == Some(p)
    && forall r: nat, k: nat | (r, k) != (region, page) :: PageAt(m', r, k) == PageAt(m, r, k)
  }

  lemma PagePut(m: Radix, index: nat, at: nat, p: Page, bytes: int, sizes: Sizes)
    requires Sound(m, sizes) && index < |m.regions| && m.regions[index].Some? && at < |m.regions[index].value.pages|
    requires bytes + Held(m.regions[index].value.pages[at], sizes.OfPage) == sizes.OfPage(p)
    requires m.charged + bytes >= 0
    ensures var r := m.regions[index].value;
            var m' := m.(regions := m.regions[index := Some(r.(pages := r.pages[at := Some(p)]))],
                         charged := m.charged + bytes);
            OnePageChanged(m, m', m.base + index, r.base + at, p) && Sound(m', sizes)
  {
    hide Total;
    var r := m.regions[index].value;
    PutPage(r, at, p, sizes);
    PutRegion(m, index, r.(pages := r.pages[at := Some(p)]), sizes);
  }

  lemma PageStored(m: Radix, view: map<i64, Node>, region: nat, page: nat, p: Page, m': Radix, view': map<i64, Node>)
    requires Holds(m, view) && region < U32 && page < PAGE_KEYS && OnePageChanged(m, m', region, page, p)
    requires Collects(p, NodesAt(view', region, page))
    requires forall r: nat, k: nat | r < U32 && k < PAGE_KEYS
             && (r, k) != (region, page) :: NodesAt(view', r, k) == NodesAt(view, r, k)
    ensures Holds(m', view')
  {
    hide Collects, NodesAt, PageAt;
  }

  lemma CollectedAt(m: Radix, view: map<i64, Node>, region: nat, page: nat, sizes: Sizes)
    requires Holds(m, view) && region < U32 && page < PAGE_KEYS
    ensures var found := PageAt(m, region, page);
            && Collects(if found.Some? then found.value else EMPTY_PAGE, NodesAt(view, region, page))
            && (found.Some? ==> sizes.OfPage(found.value) == sizes.page + DENSE_BYTES)
  {
    EmptyCollects();
  }

  lemma CollectingBytes(p: Page, nodes: map<Slot, Node>, sizes: Sizes)
    requires Collects(p, nodes)
    ensures sizes.OfPage(p) == sizes.page + DENSE_BYTES
  {
  }

  /** The IDs after trying to add one. */
  ghost function Added(view: map<i64, Node>, id: i64, node: Node): map<i64, Node> {
    if id in view then view else view[id := node]
  }

  lemma AddedAt(view: map<i64, Node>, id: i64, node: Node)
    ensures var (region, page, slot) := Coordinates(id);
            && (id in view <==> slot in NodesAt(view, region, page))
            && NodesAt(Added(view, id, node), region, page)
               == (if id in view then NodesAt(view, region, page) else NodesAt(view, region, page)[slot := node])
            && forall r: nat, k: nat | r < U32 && k < PAGE_KEYS && (r, k) != (region, page) ::
                 NodesAt(Added(view, id, node), r, k) == NodesAt(view, r, k)
  {
    CoordinatesAreExact(id);
    if id !in view {
      NewId(view, id, node);
    }
  }

  /** Adds an ID unless it is there; `Err` means the budget does not allow it, and then the map keeps
      what it held. */
  method Insert(m: Radix, id: i64, node: Node, used: nat, limit: nat, sizes: Sizes, ghost view: map<i64, Node>)
    returns (m': Radix, used': nat, r: Result<bool>)
    requires Holds(m, view) && Sound(m, sizes) && used <= limit
    ensures Sound(m', sizes) && used' + m.charged == used + m'.charged && used' <= limit
    ensures r.Ok? ==> (r.value <==> id !in view) && Holds(m', Added(view, id, node))
    ensures r.Err? ==> Holds(m', view)
    ensures r.Ok? <==> used + InsertCost(m, id, sizes) <= limit
    ensures r.Ok? ==> used' == used + InsertCost(m, id, sizes)
  {
    hide Total, SamePages, Sound, Holds, LengthFor, RegionCost, EntryCost, Collects, NodesAt, Coordinates, PageAt,
         Added, OnePageChanged, Sizes.OfPage;
    m', used' := m, used;
    var (region, page, slot) := Coordinates(id);
    var found := FindRegion(m, region, used, limit, sizes);
    if found.Err? {
      return m', used', Err(found.message);
    }
    var index := found.value.2;
    SameHolds(m, found.value.0, view);
    m', used' := found.value.0, found.value.1;
    var entry := FindEntry(m', index, page, used', limit, sizes);
    if entry.Err? {
      return m', used', Err(entry.message);
    }
    SameHolds(m', entry.value.0, view);
    SamePage(m, m', entry.value.0, region, page);
    m', used' := entry.value.0, entry.value.1;
    var at := entry.value.2;
    var old' := m'.regions[index].value.pages[at];
    var bytes: nat := if old'.None? then sizes.page + DENSE_BYTES else 0;
    if used' + bytes > limit {
      return m', used', Err("budget exhausted");
    }
    AddedAt(view, id, node);
    CollectedAt(m', view, region, page, sizes);
    var p, inserted := IdPages.Insert(if old'.Some? then old'.value
                                      else EMPTY_PAGE, slot, node, NodesAt(view, region, page));
    CollectingBytes(p, NodesAt(Added(view, id, node), region, page), sizes);
    PagePut(m', index, at, p, bytes, sizes);
    PageStored(m', view, region, page, p, WithPage(m', index, at, p, bytes), Added(view, id, node));
    m', used' := WithPage(m', index, at, p, bytes), used' + bytes;
    return m', used', Ok(inserted);
  }

  // ---------------------------------------------------------------- sealing

  /** Slots of a page whose ID is among these. */
  ghost function SlotsOf(done: set<i64>, region: nat, page: nat): set<Slot>
    requires region < U32 && page < PAGE_KEYS
  {
    set slot: Slot | slot < SLOTS && IdAt(region, page, slot) in done
  }

  /** The sealed map: it knows the IDs of `view`, and the nodes of those in `done`. */
  ghost predicate Knows(m: Radix, view: map<i64, Node>, done: set<i64>) {
    forall region: nat, page: nat ::
      match PageAt(m, region, page)
      case None => region < U32 && page < PAGE_KEYS ==> NodesAt(view, region, page) == map[]
      case Some(p) => region < U32 && page < PAGE_KEYS && Answers(p, NodesAt(view, region, page),
                                                                  SlotsOf(done, region, page))
  }

  ghost predicate PageHolds(p: Page, view: map<i64, Node>, region: nat, page: nat) {
    region < U32 && page < PAGE_KEYS && Collects(p, NodesAt(view, region, page))
  }

  ghost predicate PageSealed(p: Page, view: map<i64, Node>, region: nat, page: nat) {
    region < U32 && page < PAGE_KEYS && Answers(p, NodesAt(view, region, page), {})
  }

  /** The pages of one region, all still building. */
  ghost predicate RegionHolds(r: Region, view: map<i64, Node>, key: nat) {
    forall i | 0 <= i < |r.pages| && r.pages[i].Some? :: PageHolds(r.pages[i].value, view, key, r.base + i)
  }

  /** The first `n` pages of the region are sealed, the others as they were. */
  ghost predicate SealedUpTo(r: Region, r': Region, view: map<i64, Node>, key: nat, n: nat) {
    && r'.base == r.base && |r'.pages| == |r.pages| && n <= |r.pages|
    && (forall i | n <= i < |r.pages| :: r'.pages[i] == r.pages[i])
    && (forall i | 0 <= i < n :: r'.pages[i].Some? <==> r.pages[i].Some?)
    && forall i | 0 <= i < n && r'.pages[i].Some? :: PageSealed(r'.pages[i].value, view, key, r.base + i)
  }

  lemma TotalAtLeast<T>(directory: seq<Option<T>>, size: T -> nat, i: nat)
    requires i < |directory|
    ensures Held(directory[i], size) <= Total(directory, size)
  {
    TotalUpdate(directory, size, i, None);
  }

  lemma TotalNext<T>(directory: seq<Option<T>>, size: T -> nat, i: nat)
    requires i < |directory|
    ensures Total(directory[..i + 1], size) == Total(directory[..i], size) + Held(directory[i], size)
  {
    assert directory[..i + 1][..i] == directory[..i];
  }

  lemma {:induction false} TotalPrefix<T>(directory: seq<Option<T>>, size: T -> nat, i: nat)
    requires i <= |directory|
    ensures Total(directory[..i], size) <= Total(directory, size)
    decreases |directory| - i
  {
    if i < |directory| {
      TotalNext(directory, size, i);
      TotalPrefix(directory, size, i + 1);
    } else {
      assert directory[..i] == directory;
    }
  }

  lemma HeldPage(r: Region, i: nat, sizes: Sizes)
    requires i < |r.pages| && r.pages[i].Some?
    ensures PageBytes(r.pages[i].value) <= sizes.OfRegion(r)
  {
    TotalAtLeast(r.pages, sizes.OfPage, i);
  }

  /** Seals the pages of one region in order until the budget refuses. */
  method SealRegion(r: Region, key: nat, used: nat, limit: nat, compress: bool, sizes: Sizes, ghost view: map<i64,
                    Node>)
    returns (r': Region, used': nat, ok: bool)
    requires RegionHolds(r, view, key) && sizes.OfRegion(r) <= used <= limit
    ensures ok ==> SealedUpTo(r, r', view, key, |r.pages|)
    ensures used' + sizes.OfRegion(r) == used + sizes.OfRegion(r') && used' <= limit
    ensures !compress ==> (ok <==> used + Total(r.pages, NeededBytes) <= limit)
    ensures !compress && ok ==> used' == used + Total(r.pages, NeededBytes)
  {
    hide Total, Collects, Answers, NodesAt, Sizes.OfRegion, PageBytes;
    r', used' := r, used;
    assert Total(r.pages[..0], NeededBytes) == 0 by {
      TotalEmpty(r.pages, NeededBytes);
    }
    for i := 0 to |r.pages|
      invariant SealedUpTo(r, r', view, key, i)
      invariant used' + sizes.OfRegion(r) == used + sizes.OfRegion(r') && used' <= limit
      invariant !compress ==> used' == used + Total(r.pages[..i], NeededBytes)
    {
      TotalNext(r.pages, NeededBytes, i);
      TotalPrefix(r.pages, NeededBytes, i + 1);
      if r'.pages[i].Some? {
        HeldPage(r', i, sizes);
        assert PageHolds(r.pages[i].value, view, key, r.base + i);
        var p, left, sealed := IdPages.Seal(r'.pages[i].value, used', limit, compress, NodesAt(view, key, r.base + i));
        PutPage(r', i, p, sizes);
        ghost var before := r';
        r', used' := r'.(pages := r'.pages[i := Some(p)]), left;
        if !sealed {
          return r', used', false;
        }
        assert PageSealed(p, view, key, r.base + i);
      }
    }
    assert r.pages[..|r.pages|] == r.pages;
    return r', used', true;
  }

  lemma TotalEmpty<T>(directory: seq<Option<T>>, size: T -> nat)
    ensures Total(directory[..0], size) == 0
  {
  }

  function NeededBy(r: Region): nat {
    Total(r.pages, NeededBytes)
  }

  /** The bytes the values of a whole map will need. */
  function NeededByAll(m: Radix): nat {
    Total(m.regions, NeededBy)
  }

  ghost predicate RegionSealed(r: Region, r': Region, view: map<i64, Node>, key: nat) {
    SealedUpTo(r, r', view, key, |r.pages|)
  }

  /** The first `n` regions are sealed, the others as they were. */
  ghost predicate RegionsSealed(m: Radix, m': Radix, view: map<i64, Node>, n: nat) {
    && m'.base == m.base && |m'.regions| == |m.regions| && n <= |m.regions|
    && (forall i | n <= i < |m.regions| :: m'.regions[i] == m.regions[i])
    && (forall i | 0 <= i < n :: m'.regions[i].Some? <==> m.regions[i].Some?)
    && forall i | 0 <= i < n && m'.regions[i].Some? :: RegionSealed(m.regions[i].value, m'.regions[i].value, view,
                                                                    m.base + i)
  }

  lemma RegionOf(m: Radix, view: map<i64, Node>, i: nat)
    requires Holds(m, view) && i < |m.regions| && m.regions[i].Some?
    ensures RegionHolds(m.regions[i].value, view, m.base + i)
  {
    hide Collects, NodesAt;
    var r := m.regions[i].value;
    forall j | 0 <= j < |r.pages| && r.pages[j].Some? ensures PageHolds(r.pages[j].value, view, m.base + i,
        r.base + j) {
      assert PageAt(m, m.base + i, r.base + j) == r.pages[j];
    }
  }

  lemma SealedPage(m: Radix, m': Radix, view: map<i64, Node>, region: nat, page: nat)
    requires RegionsSealed(m, m', view, |m.regions|)
    ensures PageAt(m', region, page).Some? <==> PageAt(m, region, page).Some?
    ensures PageAt(m', region, page).Some? ==> PageSealed(PageAt(m', region, page).value, view, region, page)
  {
    hide PageSealed;
    var i := region - m.base;
    if 0 <= i < |m.regions| && m'.regions[i].Some? {
      assert RegionSealed(m.regions[i].value, m'.regions[i].value, view, m.base + i);
      var r := m'.regions[i].value;
      assert 0 <= page - r.base < |r.pages| && r.pages[page - r.base].Some? ==>
          PageSealed(r.pages[page - r.base].value, view, m.base + i, r.base + (page - r.base));
    }
  }

  lemma SealedKnows(m: Radix, m': Radix, view: map<i64, Node>)
    requires Holds(m, view) && RegionsSealed(m, m', view, |m.regions|)
    ensures Knows(m', view, {})
  {
    hide Collects, NodesAt, Answers, PageAt, RegionsSealed;
    forall region: nat, page: nat
      ensures match PageAt(m', region, page)
              case None => region < U32 && page < PAGE_KEYS ==> NodesAt(view, region, page) == map[]
              case Some(p) => region < U32 && page < PAGE_KEYS
                              && Answers(p, NodesAt(view, region, page), SlotsOf({}, region, page)) {
      SealedPage(m, m', view, region, page);
      assert region < U32 && page < PAGE_KEYS ==> SlotsOf({}, region, page) == {};
    }
  }

  /** One more region: the map with `r` in its place, charged by the difference in the budget. */
  function Resealed(m: Radix, i: nat, r: Region, used: nat, left: nat): Radix
    requires i < |m.regions| && m.charged + left >= used
  {
    m.(regions := m.regions[i := Some(r)],
       charged := if left >= used then m.charged + (left - used) else m.charged - (used - left))
  }

  lemma ResealedStep(m: Radix, m': Radix, i: nat, r: Region, used: nat, left: nat, view: map<i64, Node>, sizes: Sizes)
    requires RegionsSealed(m, m', view, i) && i < |m.regions| && Sound(m', sizes) && m'.regions[i].Some?
    requires left + sizes.OfRegion(m'.regions[i].value) == used + sizes.OfRegion(r)
    ensures m'.charged + left >= used && Sound(Resealed(m', i, r, used, left), sizes)
    ensures SealedUpTo(m.regions[i].value, r, view, m.base + i, |m.regions[i].value.pages|) ==>
              RegionsSealed(m, Resealed(m', i, r, used, left), view, i + 1)
  {
    hide SealedUpTo, Total, Sizes.OfRegion;
    PutRegion(m', i, r, sizes);
    TotalAtLeast(m'.regions, sizes.OfRegion, i);
  }

  lemma NextRegion(m: Radix, m': Radix, i: nat, view: map<i64, Node>, sizes: Sizes)
    requires Holds(m, view) && RegionsSealed(m, m', view, i) && i < |m.regions| && Sound(m', sizes)
    ensures |m'.regions| == |m.regions| && m'.regions[i] == m.regions[i] && m'.base == m.base
    ensures m.regions[i].Some? ==> RegionHolds(m.regions[i].value, view, m.base + i)
                                   && sizes.OfRegion(m.regions[i].value) <= m'.charged
  {
    hide Total, Holds, Sizes.OfRegion, RegionHolds;
    TotalAtLeast(m'.regions, sizes.OfRegion, i);
    if m.regions[i].Some? {
      RegionOf(m, view, i);
    }
  }

  lemma SealStarts(m: Radix, view: map<i64, Node>)
    ensures RegionsSealed(m, m, view, 0)
  {
  }

  lemma SkipRegion(m: Radix, m': Radix, view: map<i64, Node>, i: nat)
    requires RegionsSealed(m, m', view, i) && i < |m.regions| && m.regions[i].None?
    ensures RegionsSealed(m, m', view, i + 1)
  {
  }

  /** Seals every page of a map until the budget refuses. */
  method Seal(m: Radix, used: nat, limit: nat, compress: bool, sizes: Sizes, ghost view: map<i64, Node>)
    returns (m': Radix, used': nat, ok: bool)
    requires Holds(m, view) && Sound(m, sizes) && m.charged <= used <= limit
    ensures ok ==> Knows(m', view, {})
    ensures Sound(m', sizes) && used' + m.charged == used + m'.charged && used' <= limit
    ensures !compress ==> (ok <==> used + NeededByAll(m) <= limit)
    ensures !compress && ok ==> used' == used + NeededByAll(m)
  {
    hide Total, Holds, Knows, RegionHolds, RegionsSealed, SealedUpTo, Sound, Sizes.OfRegion;
    m', used' := m, used;
    TotalEmpty(m.regions, NeededBy);
    SealStarts(m, view);
    for i := 0 to |m.regions|
      invariant RegionsSealed(m, m', view, i)
      invariant Sound(m', sizes) && used' + m.charged == used + m'.charged && used' <= limit
      invariant !compress ==> used' == used + Total(m.regions[..i], NeededBy)
    {
      TotalNext(m.regions, NeededBy, i);
      TotalPrefix(m.regions, NeededBy, i + 1);
      NextRegion(m, m', i, view, sizes);
      if m'.regions[i].Some? {
        var r, left, sealed := SealRegion(m'.regions[i].value, m.base + i, used', limit, compress, sizes, view);
        ResealedStep(m, m', i, r, used', left, view, sizes);
        m', used' := Resealed(m', i, r, used', left), left;
        if !sealed {
          return m', used', false;
        }
      } else {
        SkipRegion(m, m', view, i);
      }
    }
    assert m.regions[..|m.regions|] == m.regions;
    SealedKnows(m, m', view);
    return m', used', true;
  }

  // ---------------------------------------------------------------- storing and looking up

  lemma SlotIsDone(done: set<i64>, id: i64)
    ensures var (region, page, slot) := Coordinates(id);
            && SlotsOf(done + {id}, region, page) == SlotsOf(done, region, page) + {slot}
            && forall r: nat, k: nat | r < U32 && k < PAGE_KEYS
               && (r, k) != (region, page) :: SlotsOf(done + {id}, r, k) == SlotsOf(done, r, k)
  {
    CoordinatesAreExact(id);
    forall r: nat, k: nat, slot: Slot | r < U32 && k < PAGE_KEYS
        && IdAt(r, k, slot) == id ensures Coordinates(id) == (r, k, slot) {
      IdAtIsExact(r, k, slot);
    }
  }

  lemma ViewAt(view: map<i64, Node>, id: i64)
    ensures var (region, page, slot) := Coordinates(id);
            (id in view <==> slot in NodesAt(view, region, page))
                && (id in view ==> NodesAt(view, region, page)[slot] == view[id])
  {
    CoordinatesAreExact(id);
  }

  /** Stores the node of an ID the map knows. */
  method Set(m: Radix, id: i64, node: Node, ghost sizes: Sizes, ghost view: map<i64, Node>, ghost done: set<i64>)
      returns (r: Result<Radix>)
    requires Knows(m, view, done) && Sound(m, sizes) && (id in view ==> view[id] == node)
    ensures r.Ok? <==> id in view
    ensures r.Ok? ==> Knows(r.value, view, done + {id}) && Sound(r.value, sizes) && r.value.charged == m.charged
  {
    hide Coordinates, NodesAt, SlotsOf, Answers, Sound, Total, PageBytes;
    var (region, page, slot) := Coordinates(id);
    ViewAt(view, id);
    if PageAt(m, region, page).None? {
      return Err("integer-ID spool referenced an undeclared page");
    }
    var index := region - m.base;
    var found := m.regions[index].value;
    var at := page - found.base;
    var stored := IdPages.Set(found.pages[at].value, slot, node, NodesAt(view, region, page),
                              SlotsOf(done, region, page));
    if stored.Err? {
      return Err(stored.message);
    }
    var p := stored.value;
    SlotIsDone(done, id);
    PagePut(m, index, at, p, 0, sizes);
    hide PageAt;
    return Ok(WithPage(m, index, at, p, 0));
  }

  function Lookup(m: Radix, id: i64): Option<Node> {
    var (region, page, slot) := Coordinates(id);
    match PageAt(m, region, page)
    case None => None
    case Some(p) => IdPages.Lookup(p, slot)
  }

  /** A fully stored map answers every ID, present or not. */
  lemma LookupIsView(m: Radix, view: map<i64, Node>, done: set<i64>, id: i64)
    requires Knows(m, view, done) && view.Keys <= done
    ensures Lookup(m, id) == if id in view then Some(view[id]) else None
  {
    hide Coordinates, PageAt;
    var (region, page, slot) := Coordinates(id);
    ViewAt(view, id);
    CoordinatesAreExact(id);
  }

  lemma KnowsLess(m: Radix, view: map<i64, Node>, done: set<i64>, less: set<i64>)
    requires Knows(m, view, done) && less <= done
    ensures Knows(m, view, less)
  {
    forall region: nat, page: nat | PageAt(m, region, page).Some?
      ensures Answers(PageAt(m, region, page).value, NodesAt(view, region, page), SlotsOf(less, region, page)) {
    }
  }
}
