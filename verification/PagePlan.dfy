/** Predicting the size of an index tree from record lengths alone (`page_plan.rs`). */
module PagePlan {
  import opened Bytes
  import opened CellWriting
  import opened Layout
  import opened LeafWriting
  import opened PageAllocation
  import opened PageFile
  import opened PageFormat
  import opened Results
  import opened TreeContents
  import opened TreeWriting
  import opened Varints

  // ---------------------------------------------------------------- the prediction

  /** Stored size of an index record that stays on its page. */
  function PlannedCell(length: nat): nat {
    length + if length < 128 then 1 else if length < 16384 then 2 else 3
  }

  ghost function PlannedItems(lengths: seq<nat>): (items: seq<Item>)
    ensures |items| == |lengths|
  {
    seq(|lengths|, i requires 0 <= i < |lengths| =>
      Item(PlannedCell(lengths[i]), if i == 0 then 0 else PlannedCell(lengths[i - 1])))
  }

  /** The records are ones the planner accepts. */
  predicate Plannable(lengths: seq<nat>, u: nat)
    requires PageSize(u)
  {
    forall i | 0 <= i < |lengths| :: lengths[i] <= MaxLocal(Index, u)
  }

  ghost function PlannedBoundaries(lengths: seq<nat>, u: nat): seq<nat> {
    LeafFold(PlannedItems(lengths), u).boundaries
  }

  lemma PlannedCellIsSmall(length: nat, u: nat)
    requires PageSize(u) && length <= MaxLocal(Index, u)
    ensures 12 + 3 * Separator(PlannedCell(length)) <= u && PlannedCell(length) < U16 && PlannedCell(length) + 10 <= u
  {
  }

  lemma PlannedStep(lengths: seq<nat>, i: nat, u: nat)
    requires i < |lengths|
    ensures LeafFold(PlannedItems(lengths[..i + 1]), u)
         == LeafStep(LeafFold(PlannedItems(lengths[..i]), u),
                     Item(PlannedCell(lengths[i]), if i == 0 then 0 else PlannedCell(lengths[i - 1])), u)
  {
    var items := PlannedItems(lengths[..i + 1]);
    LeafFoldStep(items, i, u);
    assert items[..i + 1] == items && items[..i] == PlannedItems(lengths[..i]);
  }

  lemma {:induction false} PlannedBoundariesAreSmall(lengths: seq<nat>, u: nat)
    requires PageSize(u) && Plannable(lengths, u)
    ensures Small(PlannedBoundaries(lengths, u) + [0], u)
    decreases |lengths|
  {
    if lengths == [] {
      assert PlannedItems(lengths) == [];
    } else {
      var k := |lengths| - 1;
      PlannedBoundariesAreSmall(lengths[..k], u);
      PlannedStep(lengths, k, u);
      assert lengths[..k + 1] == lengths;
      if k > 0 {
        PlannedCellIsSmall(lengths[k - 1], u);
      }
      hide PageSize, LeafFold, PlannedItems, PlannedCell;
    }
  }

  /** The number of pages to reserve. */
  ghost function Planned(lengths: seq<nat>, u: nat): nat
    requires PageSize(u) && Plannable(lengths, u)
  {
    PlannedBoundariesAreSmall(lengths, u);
    var boundaries := PlannedBoundaries(lengths, u);
    if boundaries == [] then 0 else TreePages(boundaries + [0], u)
  }

  // ---------------------------------------------------------------- the prediction is exact

  ghost function RowLengths(rows: seq<Row>): (lengths: seq<nat>)
    ensures |lengths| == |rows|
  {
    seq(|rows|, i requires 0 <= i < |rows| => |rows[i].payload|)
  }

  lemma PlannedCellIsCell(u: nat, row: Row)
    requires PageSize(u) && |row.payload| <= MaxLocal(Index, u) && row.rowid == 0
    ensures PlannedCell(|row.payload|) == CellSize(Index, u, row) && RowPages(Index, u, row) == 0
  {
    var n := |row.payload|;
    VarintLengthIsMinimal(n);
    ShortVarint(n);
    assert Pow128(1) == 128 && Pow128(2) == 16384;
  }

  lemma {:induction false} NoOverflow(u: nat, rows: seq<Row>)
    requires PageSize(u) && AllStorable(Index, rows) && Plannable(RowLengths(rows), u)
    ensures OverflowTotal(Index, u, rows) == 0
    decreases |rows|
  {
    if rows != [] {
      var k := |rows| - 1;
      assert RowLengths(rows)[k] == |rows[k].payload|;
      assert forall i | 0 <= i < k :: RowLengths(rows[..k])[i] == RowLengths(rows)[i];
      NoOverflow(u, rows[..k]);
      PlannedCellIsCell(u, rows[k]);
    }
  }

  lemma PlannedItemsAreItems(u: nat, rows: seq<Row>)
    requires PageSize(u) && AllStorable(Index, rows) && Plannable(RowLengths(rows), u)
    ensures PlannedItems(RowLengths(rows)) == Items(Index, u, rows)
  {
    hide PageSize, PlannedCell, CellSize, RowPages;
    forall i | 0 <= i < |rows| ensures PlannedCell(RowLengths(rows)[i]) == CellSize(Index, u, rows[i]) {
      assert RowLengths(rows)[i] == |rows[i].payload|;
      PlannedCellIsCell(u, rows[i]);
    }
    forall i | 0 <= i < |rows| ensures PlannedItems(RowLengths(rows))[i] == Items(Index, u, rows)[i] {
      if i > 0 {
        assert PlannedCell(RowLengths(rows)[i - 1]) == CellSize(Index, u, rows[i - 1]);
      }
    }
  }

  /** The planner, which sees only lengths, predicts exactly what the writer appends. */
  lemma PlanIsExact(u: nat, rows: seq<Row>)
    requires PageSize(u) && AllStorable(Index, rows) && Plannable(RowLengths(rows), u)
    ensures Planned(RowLengths(rows), u) == Needed(Index, u, rows)
  {
    hide PageSize, PlannedItems, Items, LeafFold, RowLengths;
    NoOverflow(u, rows);
    PlannedItemsAreItems(u, rows);
  }

  // ---------------------------------------------------------------- one level

  /** All that is kept of a group of children: how many, and the last two boundaries. */
  datatype Group = Group(children: nat, last: nat, penultimate: nat)

  const EMPTY_GROUP: Group := Group(0, 0, 0)

  function Pushed(g: Group, boundary: nat): Group {
    Group(g.children + 1, boundary, g.last)
  }

  ghost function Summary(group: seq<nat>): Group {
    if group == [] then EMPTY_GROUP else Pushed(Summary(group[..|group| - 1]), group[|group| - 1])
  }

  lemma {:induction false} SummaryIs(group: seq<nat>)
    requires group != []
    ensures Summary(group).children == |group| && Summary(group).last == group[|group| - 1]
    ensures |group| >= 2 ==> Summary(group).penultimate == group[|group| - 2]
  {
    if |group| >= 2 {
      SummaryIs(group[..|group| - 1]);
    } else {
      assert group[..0] == [];
    }
  }

  /** Boundaries passed up by the groups that can no longer change. */
  ghost predicate LevelSeen(bs: seq<nat>, u: nat, previous: Option<Group>, group: Group, used: nat, next: seq<nat>) {
    var g := GroupFold(bs, u);
    && group == Summary(g.open)
    && previous == (if g.closed == [] then None else Some(Summary(g.closed[|g.closed| - 1])))
    && AtLeast(g.closed, 1)
    && next == (if g.closed == [] then [] else LastOfEach(g.closed)[..|g.closed| - 1])
    && used == 12 + (if g.open == [] then 0 else Separators(g.open[..|g.open| - 1]))
    && (bs != [] ==> g.open != [])
  }

  lemma LevelSeenStarts(u: nat)
    ensures LevelSeen([], u, None, EMPTY_GROUP, 12, [])
  {
  }

  lemma NextFold(bs: seq<nat>, b: nat, u: nat)
    ensures GroupFold(bs + [b], u) == GroupStep(GroupFold(bs, u), b, u)
  {
    hide Separators;
    assert (bs + [b])[..|bs|] == bs;
  }

  /** The open group is full: it is closed, and what the group before it passes up is known. */
  lemma StepCloses(bs: seq<nat>, u: nat, previous: Option<Group>, group: Group, used: nat, next: seq<nat>, b: nat)
    requires LevelSeen(bs, u, previous, group, used, next) && bs != []
    requires 12 + Separators(GroupFold(bs, u).open) > u
    ensures LevelSeen(bs + [b], u, Some(group), Pushed(EMPTY_GROUP, b), 12,
                      if previous.Some? then next + [previous.value.last] else next)
  {
    hide GroupFold, Separators;
    var g, h := GroupFold(bs, u), GroupFold(bs + [b], u);
    NextFold(bs, b, u);
    assert h == Groups(g.closed + [g.open], [b]) && AtLeast(h.closed, 1) && h.closed[|h.closed| - 1] == g.open;
    OneBoundary(b);
    if g.closed == [] {
      assert LastOfEach(h.closed)[..0] == [];
    } else {
      SummaryIs(g.closed[|g.closed| - 1]);
      LastsBefore(g.closed, g.open);
    }
  }

  lemma OneBoundary(b: nat)
    ensures Summary([b]) == Pushed(EMPTY_GROUP, b) && Separators([b][..0]) == 0
  {
    assert [b][..0] == [];
  }

  lemma LastsBefore(closed: seq<seq<nat>>, open: seq<nat>)
    requires closed != [] && open != [] && AtLeast(closed, 1) && AtLeast(closed + [open], 1)
    ensures LastOfEach(closed + [open])[..|closed|]
         == LastOfEach(closed)[..|closed| - 1] + [closed[|closed| - 1][|closed[|closed| - 1]| - 1]]
  {
    var longer := LastOfEach(closed + [open]);
    assert longer[..|closed|] == LastOfEach(closed);
  }

  /** The open group has room for one child more. */
  lemma StepStays(bs: seq<nat>, u: nat, previous: Option<Group>, group: Group, used: nat, next: seq<nat>, b: nat)
    requires LevelSeen(bs, u, previous, group, used, next)
    requires 12 + Separators(GroupFold(bs, u).open) <= u
    ensures LevelSeen(bs + [b], u, previous, Pushed(group, b), 12 + Separators(GroupFold(bs, u).open), next)
  {
    hide GroupFold, Separators;
    var g, h := GroupFold(bs, u), GroupFold(bs + [b], u);
    NextFold(bs, b, u);
    assert h == Groups(g.closed, g.open + [b]) && h.open[..|g.open|] == g.open;
    if g.open == [] {
      NoSeparators();
    }
  }

  lemma NoSeparators()
    ensures Separators([]) == 0
  {
  }

  lemma LevelSeenStep(bs: seq<nat>, u: nat, previous: Option<Group>, group: Group, used: nat, next: seq<nat>, b: nat)
    requires LevelSeen(bs, u, previous, group, used, next)
    ensures var additional := if group.children == 0 then 0 else 6 + group.last;
            if used + additional > u && bs != [] then
              LevelSeen(bs + [b], u, Some(group), Pushed(EMPTY_GROUP, b), 12,
                        if previous.Some? then next + [previous.value.last] else next)
            else u >= 12 ==> used + additional <= u && LevelSeen(bs + [b], u, previous, Pushed(group, b),
                                                                 used + additional, next)
  {
    hide *;
    var additional := if group.children == 0 then 0 else 6 + group.last;
    UsedSoFar(bs, u, previous, group, used, next);
    if used + additional > u && bs != [] {
      StepCloses(bs, u, previous, group, used, next, b);
    } else if u >= 12 {
      StepStays(bs, u, previous, group, used, next, b);
    }
  }

  lemma UsedSoFar(bs: seq<nat>, u: nat, previous: Option<Group>, group: Group, used: nat, next: seq<nat>)
    requires LevelSeen(bs, u, previous, group, used, next)
    ensures used + (if group.children == 0 then 0 else 6 + group.last) == 12 + Separators(GroupFold(bs, u).open)
    ensures bs == [] ==> GroupFold(bs, u).open == [] && used == 12 && group.children == 0
  {
    var open := GroupFold(bs, u).open;
    if open != [] {
      SummaryIs(open);
    }
  }

  lemma LevelSeenEnds(bs: seq<nat>, u: nat, previous: Option<Group>, group: Group, used: nat, next: seq<nat>)
    requires Small(bs, u) && u >= 12 && |bs| >= 2 && LevelSeen(bs, u, previous, group, used, next)
    ensures previous.None? <==> GroupFold(bs, u).closed == []
    ensures previous.Some? ==> previous.value.children >= 4
    ensures previous.Some? ==> NextLevel(bs, u) == next + [if group.children == 1 then previous.value.penultimate
                                                           else previous.value.last] + [group.last]
  {
    hide Join, Separators, Small;
    var g := GroupFold(bs, u);
    ClosedGroupsAreLarge(bs, u);
    SettledGroups(bs, u);
    hide GroupFold;
    if g.closed != [] {
      SummaryIs(g.closed[|g.closed| - 1]);
      SummaryIs(g.open);
      SettledLasts(g);
    }
  }

  /** The boundaries a level passes up, given the last two groups before borrowing. */
  lemma SettledLasts(g: Groups)
    requires AtLeast(g.closed, 2) && g.closed != [] && g.open != []
    ensures AtLeast(Settled(g), 1)
    ensures var lender := g.closed[|g.closed| - 1];
            LastOfEach(Settled(g)) == LastOfEach(g.closed)[..|g.closed| - 1]
              + [if |g.open| == 1 then lender[|lender| - 2] else lender[|lender| - 1]] + [g.open[|g.open| - 1]]
  {
    hide Join, Separators;
    var final := Settled(g);
    assert |final| == |g.closed| + 1;
  }

  /** Never passes on more boundaries than it read, so their 32-bit count cannot overflow. */
  method PlanLevel(children: seq<nat>, u: nat) returns (r: Result<Option<seq<nat>>>)
    requires Small(children, u) && u >= 12 && |children| >= 2
    ensures r.Ok?
    ensures r.value.None? <==> GroupFold(children, u).closed == []
    ensures r.value.Some? ==> r.value.value == NextLevel(children, u)
  {
    hide LevelSeen, GroupFold, NextLevel, Small, Summary;
    var next: seq<nat> := [];
    var previous: Option<Group> := None;
    var group := EMPTY_GROUP;
    var used: nat := 12;
    assert children[..0] == [];
    LevelSeenStarts(u);
    for i := 0 to |children|
      invariant i > 0 ==> group.children > 0
      invariant LevelSeen(children[..i], u, previous, group, used, next)
    {
      var boundary := children[i];
      LevelSeenStep(children[..i], u, previous, group, used, next, boundary);
      assert children[..i + 1] == children[..i] + [boundary];
      var additional := if group.children == 0 then 0 else 6 + group.last;
      if used + additional > u {
        if previous.Some? {
          next := next + [previous.value.last];
        }
        previous := Some(group);
        group := EMPTY_GROUP;
        used := 12;
      } else {
        used := used + additional;
      }
      group := Pushed(group, boundary);
    }
    assert children[..|children|] == children;
    LevelSeenEnds(children, u, previous, group, used, next);
    if previous.None? {
      return Ok(None);
    }
    var lender := previous.value;
    if group.children == 1 {
      if lender.children < 3 {
        return Err("planned interior group cannot lend a child");
      }
      lender := Group(lender.children - 1, lender.penultimate, lender.penultimate);
    }
    return Ok(Some(next + [lender.last] + [group.last]));
  }

  // ---------------------------------------------------------------- the planner

  /** Appends a boundary to the list kept for the level above; its length is a 32-bit count. */
  function Describe(boundaries: seq<nat>, boundary: nat): Result<seq<nat>> {
    if |boundaries| + 1 <= LAST_PAGE then Ok(boundaries + [boundary]) else Err("planned database page space exhausted")
  }

  class IndexPagePlan {
    const pageSize: PageBytes
    const maximum: nat
    var leaves: Option<seq<nat>>
    var used: nat
    var lastCell: nat

    ghost var lengths: seq<nat>

    ghost predicate Valid()
      reads this
    {
      && maximum == MaxLocal(Index, pageSize) && Plannable(lengths, pageSize)
      && Seen(lengths, pageSize, leaves, used, lastCell)
    }

    constructor (pageSize: PageBytes)
      ensures Valid() && this.pageSize == pageSize && lengths == []
    {
      var limit := (pageSize - 12) * 64 / 255 - 23;
      assert limit == MaxLocal(Index, pageSize);
      this.pageSize, maximum := pageSize, limit;
      leaves, used, lastCell, lengths := None, 8, 0, [];
    }

    /** One more record of `length` bytes. */
    method Push(length: nat) returns (r: Result<()>)
      requires Valid()
      modifies this
      ensures Valid()
      ensures r.Ok? ==> lengths == old(lengths) + [length]
      ensures r.Err? ==> lengths == old(lengths)
      ensures r.Ok? <==> length <= MaxLocal(Index, pageSize)
                         && |PlannedBoundaries(old(lengths) + [length], pageSize)| <= LAST_PAGE
    {
      hide PageSize, Seen, LeafFold;
      if length > maximum {
        return Err("planned index record requires overflow pages");
      }
      var prefix := if length < 128 then 1 else if length < 16384 then 2 else 3;
      var cell := length + prefix;
      SeenStep(lengths, pageSize, leaves, used, lastCell, length);
      if used + 2 + cell > pageSize {
        var described := Describe(if leaves.None? then [] else leaves.value, lastCell % U16);
        if described.Err? {
          return Err(described.message);
        }
        leaves := Some(described.value);
        used := 8;
      }
      used := used + 2 + cell;
      lastCell := cell;
      lengths := lengths + [length];
      return Ok(());
    }

    /** Pages to reserve behind the existing root. */
    method Finish() returns (r: Result<nat>)
      requires Valid()
      ensures r == if Planned(lengths, pageSize) <= LAST_PAGE then Ok(Planned(lengths, pageSize))
                   else Err("planned database page space exhausted")
    {
      hide PageSize, LeafFold, Small, TreePages, NextLevel;
      PlannedBoundariesAreSmall(lengths, pageSize);
      if leaves.None? {
        return Ok(0);
      }
      var described := Describe(leaves.value, 0);
      if described.Err? {
        TreePagesAtLeast(leaves.value + [0], pageSize);
        return Err(described.message);
      }
      var children := described.value;
      var pages: nat := |children|;
      TreePagesAtLeast(children, pageSize);
      while true
        invariant Small(children, pageSize) && 2 <= |children| <= LAST_PAGE && pages <= LAST_PAGE
        invariant pages + TreePages(children, pageSize) == Planned(lengths, pageSize) + |children|
        decreases |children|
      {
        TreePagesAbove(children, pageSize);
        NextLevelHalves(children, pageSize);
        var above := PlanLevel(children, pageSize);
        if above.value.None? {
          return Ok(pages);
        }
        var total := AddU32(pages, |above.value.value|);
        if total.Err? {
          return Err("planned database page space exhausted");
        }
        pages := total.value;
        children := above.value.value;
      }
    }
  }

  /** What the planner remembers of the lengths so far. */
  ghost predicate Seen(lengths: seq<nat>, u: nat, leaves: Option<seq<nat>>, used: nat, lastCell: nat) {
    var boundaries := PlannedBoundaries(lengths, u);
    && used == LeafFold(PlannedItems(lengths), u).used
    && leaves == (if boundaries == [] then None else Some(boundaries))
    && |boundaries| <= LAST_PAGE
    && lastCell == (if lengths == [] then 0 else PlannedCell(lengths[|lengths| - 1]))
  }

  lemma FoldPush(lengths: seq<nat>, length: nat, u: nat)
    ensures LeafFold(PlannedItems(lengths + [length]), u)
         == LeafStep(LeafFold(PlannedItems(lengths), u),
                     Item(PlannedCell(length), if lengths == [] then 0 else PlannedCell(lengths[|lengths| - 1])), u)
    ensures lengths == [] ==> LeafFold(PlannedItems(lengths), u) == Leaves([], 8)
  {
    hide PlannedCell;
    var longer := lengths + [length];
    PlannedStep(longer, |lengths|, u);
    assert longer[..|lengths|] == lengths && longer[..|lengths| + 1] == longer;
    if lengths == [] {
      assert PlannedItems(lengths) == [];
    }
  }

  lemma SeenStep(lengths: seq<nat>, u: nat, leaves: Option<seq<nat>>, used: nat, lastCell: nat, length: nat)
    requires PageSize(u) && Plannable(lengths, u) && length <= MaxLocal(Index, u)
             && Seen(lengths, u, leaves, used, lastCell)
    ensures Plannable(lengths + [length], u) && lastCell < U16
    ensures var cell := PlannedCell(length);
            var finished := if leaves.None? then [] else leaves.value;
            var count := |PlannedBoundaries(lengths + [length], u)|;
            if used + 2 + cell > u then
              && count == |finished| + 1
              && (count <= LAST_PAGE ==> Seen(lengths + [length], u, Some(finished + [lastCell]), 8 + 2 + cell, cell))
            else count <= LAST_PAGE && Seen(lengths + [length], u, leaves, used + 2 + cell, cell)
  {
    hide PageSize, LeafFold, PlannedItems, PlannedCell, MaxLocal;
    FoldPush(lengths, length, u);
    PlannedCellIsSmall(length, u);
    if lengths != [] {
      PlannedCellIsSmall(lengths[|lengths| - 1], u);
    }
  }

  /** `new`: only page sizes the format knows. */
  method NewPlan(pageSize: nat) returns (r: Result<IndexPagePlan>)
    ensures r.Ok? <==> PageSize(pageSize)
    ensures r.Ok? ==> fresh(r.value) && r.value.Valid() && r.value.lengths == [] && r.value.pageSize == pageSize
  {
    if !PageSize(pageSize) {
      return Err("unsupported planned page size");
    }
    var plan := new IndexPagePlan(pageSize);
    return Ok(plan);
  }

  lemma {:induction false} FoldGrows(lengths: seq<nat>, i: nat, u: nat)
    requires i <= |lengths|
    ensures |PlannedBoundaries(lengths[..i], u)| <= |PlannedBoundaries(lengths, u)|
    decreases |lengths| - i
  {
    hide LeafFold, PlannedItems;
    if i < |lengths| {
      FoldPush(lengths[..i], lengths[i], u);
      assert lengths[..i] + [lengths[i]] == lengths[..i + 1];
      FoldGrows(lengths, i + 1, u);
    } else {
      assert lengths[..i] == lengths;
    }
  }

  /** Too many leaves for the planner are too many for the file. */
  lemma PlannedIsLarge(lengths: seq<nat>, i: nat, u: nat)
    requires PageSize(u) && Plannable(lengths, u) && i <= |lengths|
    ensures Planned(lengths, u) >= |PlannedBoundaries(lengths[..i], u)|
  {
    hide LeafFold, PlannedItems, Small, MaxLocal;
    FoldGrows(lengths, i, u);
    PlannedBoundariesAreSmall(lengths, u);
    if PlannedBoundaries(lengths, u) != [] {
      TreePagesAtLeast(PlannedBoundaries(lengths, u) + [0], u);
    }
  }

  /** Plans a tree from its record lengths. */
  method Plan(pageSize: PageBytes, rows: seq<Row>) returns (r: Result<nat>)
    requires AllStorable(Index, rows)
    ensures r.Ok? ==> Plannable(RowLengths(rows), pageSize) && r.value == Needed(Index, pageSize, rows) <= LAST_PAGE
    ensures r.Err? && Plannable(RowLengths(rows), pageSize) ==> Needed(Index, pageSize, rows) > LAST_PAGE
  {
    hide PageSize, LeafFold, Planned, PlannedBoundaries, Needed;
    var plan := new IndexPagePlan(pageSize);
    ghost var lengths := RowLengths(rows);
    for i := 0 to |rows|
      invariant plan.Valid() && plan.lengths == lengths[..i]
    {
      assert lengths[i] == |rows[i].payload| && lengths[..i] + [lengths[i]] == lengths[..i + 1];
      var pushed := plan.Push(|rows[i].payload|);
      if pushed.Err? {
        if Plannable(lengths, pageSize) {
          PlannedIsLarge(lengths, i + 1, pageSize);
          PlanIsExact(pageSize, rows);
        }
        return Err(pushed.message);
      }
    }
    assert lengths[..|rows|] == lengths;
    PlanIsExact(pageSize, rows);
    r := plan.Finish();
  }

  /** The last usable page of a range is its last page. */
  lemma FullRange(start: nat, next: nat, end: nat, pending: nat)
    requires start <= next <= end && Available(next, end, pending) == 0
    requires Available(start, end, pending) == 0 ==> start == end
    requires Available(start, end, pending) > 0 ==> pending != end - 1
    ensures next == end
  {
  }

  /** Prepares a tree with the planner, writes it into exactly the range reserved for it, and
      completes the range. */
  method WritePlanned(writer: PageWriter, root: nat, rows: seq<Row>) returns (r: Result<()>, ghost depth: nat)
    requires writer.Valid() && writer.allocator == null && writer.rangeEnd.None? && 1 < root < writer.nextPage
    requires AllStorable(Index, rows)
    modifies writer`nextPage, writer`position, writer`mine, writer`base, writer.disk
    ensures writer.Valid()
    ensures r.Ok? <==> Plannable(RowLengths(rows), writer.pageSize)
                       && RangeEnd(old(writer.nextPage), Needed(Index, writer.pageSize, rows), writer.Pending()).Ok?
    ensures r.Ok? ==> Finished(writer.disk.pages, writer.pageSize, Index, root, depth, rows)
                      && Available(old(writer.nextPage), writer.nextPage, writer.Pending())
                         == Needed(Index, writer.pageSize, rows)
  {
    hide PageSize, Plannable, Needed, LockPage, Finished, OnlyTree, AllStorable, MaxLocal, Ascending;
    depth := 0;
    writer.BeginTree();
    var pages := Plan(writer.pageSize, rows);
    if pages.Err? {
      return Err(pages.message), depth;
    }
    var range := writer.Reserve(pages.value);
    if range.Err? {
      return Err(range.message), depth;
    }
    var fork := writer.Fork(root, range.value);
    ghost var room := fork.value.Room();
    ghost var taken, nodes;
    r, depth, taken, nodes := Tree(fork.value, root, Index, rows);
    assert r.Ok? && fork.value.Room() == 0;
    FullRange(range.value.0, fork.value.nextPage, range.value.1, writer.Pending());
    r := fork.value.Complete();
  }
}
