/** Where the greedy packer starts new pages.  The writer (`page_writer.rs`, `tree` and `level`) and
    the planner (`page_plan.rs`) both follow these folds; only lengths matter. */
module Layout {

  // ---------------------------------------------------------------- leaves

  /** A leaf cell: its length, and the length of the boundary left behind if a new leaf starts here. */
  datatype Item = Item(size: nat, boundary: nat)

  /** Boundaries of the finished leaves and the bytes used on the open one. */
  datatype Leaves = Leaves(boundaries: seq<nat>, used: nat)

  ghost function LeafFold(items: seq<Item>, u: nat): Leaves {
    if items == [] then Leaves([], 8)
    else LeafStep(LeafFold(items[..|items| - 1], u), items[|items| - 1], u)
  }

  function LeafStep(l: Leaves, item: Item, u: nat): Leaves {
    if l.used + 2 + item.size > u then Leaves(l.boundaries + [item.boundary], 8 + 2 + item.size)
    else Leaves(l.boundaries, l.used + 2 + item.size)
  }

  lemma LeafFoldStep(items: seq<Item>, i: nat, u: nat)
    requires i < |items|
    ensures LeafFold(items[..i + 1], u) == LeafStep(LeafFold(items[..i], u), items[i], u)
  {
    assert items[..i + 1][..i] == items[..i];
  }

  lemma {:induction false} LeafFoldGrows(items: seq<Item>, i: nat, u: nat)
    requires i <= |items|
    ensures |LeafFold(items[..i], u).boundaries| <= |LeafFold(items, u).boundaries|
    decreases |items| - i
  {
    if i < |items| {
      LeafFoldStep(items, i, u);
      LeafFoldGrows(items, i + 1, u);
    } else {
      assert items[..i] == items;
    }
  }

  // ---------------------------------------------------------------- one interior level

  /** Space a child takes on its parent page once another child follows it. */
  function Separator(boundary: nat): nat {
    6 + boundary
  }

  ghost function Separators(group: seq<nat>): nat {
    if group == [] then 0 else Separators(group[..|group| - 1]) + Separator(group[|group| - 1])
  }

  /** Groups that are full, and the group still open. */
  datatype Groups = Groups(closed: seq<seq<nat>>, open: seq<nat>)

  ghost function GroupFold(bs: seq<nat>, u: nat): Groups {
    if bs == [] then Groups([], []) else GroupStep(GroupFold(bs[..|bs| - 1], u), bs[|bs| - 1], u)
  }

  ghost function GroupStep(g: Groups, b: nat, u: nat): Groups {
    if 12 + Separators(g.open) > u then Groups(g.closed + [g.open], [b]) else Groups(g.closed, g.open + [b])
  }

  ghost predicate AtLeast<T>(groups: seq<seq<T>>, n: nat) {
    forall i | 0 <= i < |groups| :: |groups[i]| >= n
  }

  /** A last group of one child borrows one from the group before it. */
  ghost function Settled(g: Groups): seq<seq<nat>>
    requires AtLeast(g.closed, 1)
  {
    if g.closed != [] && |g.open| == 1 then
      var lender := g.closed[|g.closed| - 1];
      g.closed[..|g.closed| - 1] + [lender[..|lender| - 1], [lender[|lender| - 1]] + g.open]
    else g.closed + [g.open]
  }

  /** Three separators of this size fit on an interior page. */
  predicate Small(bs: seq<nat>, u: nat) {
    forall b | b in bs :: 12 + 3 * Separator(b) <= u
  }

  lemma {:induction false} ThreeFit(group: seq<nat>, u: nat)
    requires Small(group, u) && |group| <= 3
    ensures 3 * Separators(group) <= |group| * (u - 12)
    ensures 12 + Separators(group) <= u || group == []
  {
    if group != [] {
      assert Small(group[..|group| - 1], u);
      ThreeFit(group[..|group| - 1], u);
      assert 12 + 3 * Separator(group[|group| - 1]) <= u;
    }
  }

  /** A group is closed only when it holds at least four children: it can lend one and keep three. */
  lemma {:induction false} ClosedGroupsAreLarge(bs: seq<nat>, u: nat)
    requires Small(bs, u) && u >= 12
    ensures var g := GroupFold(bs, u);
            && AtLeast(g.closed, 4)
            && Small(g.open, u) && (bs != [] ==> g.open != [])
  {
    if bs != [] {
      var init := bs[..|bs| - 1];
      assert Small(init, u);
      ClosedGroupsAreLarge(init, u);
      var g := GroupFold(init, u);
      if 12 + Separators(g.open) > u && |g.open| <= 3 {
        ThreeFit(g.open, u);
        assert false;
      }
    }
  }

  /** All children but the last fit on a page. */
  ghost predicate FitsButLast(group: seq<nat>, u: nat) {
    group == [] || 12 + Separators(group[..|group| - 1]) <= u
  }

  ghost predicate FullGroup(group: seq<nat>, u: nat) {
    group != [] && FitsButLast(group, u) && 12 + Separators(group) > u
  }

  /** And only when it is full: its children together do not fit on a page, all but the last do. */
  lemma {:induction false} ClosedGroupsAreFull(bs: seq<nat>, u: nat)
    requires u >= 12
    ensures var g := GroupFold(bs, u);
            (forall i | 0 <= i < |g.closed| :: FullGroup(g.closed[i], u)) && FitsButLast(g.open, u)
  {
    hide FullGroup, FitsButLast, Separators;
    if bs == [] {
      NothingFits(u);
    } else {
      ClosedGroupsAreFull(bs[..|bs| - 1], u);
      OneMoreFits(GroupFold(bs[..|bs| - 1], u), bs[|bs| - 1], u);
    }
  }

  lemma NothingFits(u: nat)
    ensures FitsButLast([], u)
  {
  }

  lemma OneMoreFits(g: Groups, b: nat, u: nat)
    requires u >= 12 && (forall i | 0 <= i < |g.closed| :: FullGroup(g.closed[i], u)) && FitsButLast(g.open, u)
    ensures var h := GroupStep(g, b, u);
            (forall i | 0 <= i < |h.closed| :: FullGroup(h.closed[i], u)) && FitsButLast(h.open, u)
  {
    NoSeparators();
    hide Separators;
    assert (g.open + [b])[..|g.open|] == g.open && [b][..0] == [];
  }

  lemma NoSeparators()
    ensures Separators([]) == 0
  {
  }

  ghost function Join<T>(groups: seq<seq<T>>): seq<T> {
    if groups == [] then [] else Join(groups[..|groups| - 1]) + groups[|groups| - 1]
  }

  lemma JoinPush<T>(groups: seq<seq<T>>, last: seq<T>)
    ensures Join(groups + [last]) == Join(groups) + last
  {
    assert (groups + [last])[..|groups|] == groups;
  }

  lemma {:induction false} GroupFoldJoins(bs: seq<nat>, u: nat)
    ensures var g := GroupFold(bs, u); Join(g.closed) + g.open == bs
  {
    hide Join, Separators;
    if bs == [] {
      NothingJoins<nat>();
    } else {
      var init, b := bs[..|bs| - 1], bs[|bs| - 1];
      GroupFoldJoins(init, u);
      GroupStepJoins(GroupFold(init, u), b, u);
      assert bs == init + [b];
    }
  }

  lemma NothingJoins<T>()
    ensures Join<T>([]) + [] == []
  {
  }

  lemma GroupStepJoins(g: Groups, b: nat, u: nat)
    ensures var h := GroupStep(g, b, u); Join(h.closed) + h.open == (Join(g.closed) + g.open) + [b]
  {
    hide Join, Separators;
    JoinPush(g.closed, g.open);
    assert Join(g.closed) + (g.open + [b]) == (Join(g.closed) + g.open) + [b];
  }

  lemma {:induction false} JoinIsLong<T>(groups: seq<seq<T>>)
    requires AtLeast(groups, 2)
    ensures |Join(groups)| >= 2 * |groups|
  {
    if groups != [] {
      JoinIsLong(groups[..|groups| - 1]);
    }
  }

  /** Lending moves one child across the last group boundary. */
  lemma LendingJoins<T>(front: seq<seq<T>>, kept: seq<T>, lent: T, open: seq<T>)
    ensures Join(front + [kept, [lent] + open]) == Join(front + [kept + [lent]]) + open
  {
    assert front + [kept, [lent] + open] == front + [kept] + [[lent] + open];
    JoinPush(front, kept);
    JoinPush(front + [kept], [lent] + open);
    JoinPush(front, kept + [lent]);
    assert (Join(front) + kept) + ([lent] + open) == (Join(front) + (kept + [lent])) + open;
  }

  lemma SettledJoins(g: Groups)
    requires AtLeast(g.closed, 1)
    ensures Join(Settled(g)) == Join(g.closed) + g.open
    ensures |Settled(g)| == |g.closed| + 1
  {
    if g.closed != [] && |g.open| == 1 {
      var front, lender := g.closed[..|g.closed| - 1], g.closed[|g.closed| - 1];
      var kept, lent := lender[..|lender| - 1], lender[|lender| - 1];
      LendingJoins(front, kept, lent, g.open);
      assert lender == kept + [lent] && g.closed == front + [lender];
    } else {
      JoinPush(g.closed, g.open);
    }
  }

  /** The groups of one level: at least two children each, together all the children. */
  lemma SettledGroups(bs: seq<nat>, u: nat)
    requires Small(bs, u) && u >= 12 && |bs| >= 2
    ensures var g := GroupFold(bs, u);
            && AtLeast(g.closed, 1) && AtLeast(Settled(g), 2) && |Settled(g)| == |g.closed| + 1
            && Join(Settled(g)) == bs
            && (g.closed != [] && |g.open| == 1 ==> |g.closed[|g.closed| - 1]| >= 4)
    ensures 2 * |Settled(GroupFold(bs, u))| <= |bs|
  {
    var g := GroupFold(bs, u);
    ClosedGroupsAreLarge(bs, u);
    GroupFoldJoins(bs, u);
    hide GroupFold, Small, Join;
    SettledJoins(g);
    SettledArePairs(g, bs);
    JoinIsLong(Settled(g));
  }

  lemma SettledArePairs(g: Groups, bs: seq<nat>)
    requires AtLeast(g.closed, 4) && g.open != [] && Join(g.closed) + g.open == bs && |bs| >= 2
    ensures AtLeast(Settled(g), 2)
  {
    if g.closed == [] {
      assert g.open == bs;
    }
  }

  lemma {:induction false} JoinMembers<T>(groups: seq<seq<T>>, i: nat)
    requires i < |groups|
    ensures forall x | x in groups[i] :: x in Join(groups)
    decreases |groups|
  {
    if i < |groups| - 1 {
      JoinMembers(groups[..|groups| - 1], i);
    }
  }

  /** The children of a group fit on one interior page. */
  ghost predicate OnePage(group: seq<nat>, u: nat) {
    group != [] && 12 + Separators(group[..|group| - 1]) <= u
  }

  ghost predicate OnePageEach(groups: seq<seq<nat>>, u: nat) {
    forall i | 0 <= i < |groups| :: OnePage(groups[i], u)
  }

  lemma {:induction false} GroupsFit(bs: seq<nat>, u: nat)
    requires u >= 12
    ensures var g := GroupFold(bs, u);
            OnePageEach(g.closed, u) && (bs != [] ==> OnePage(g.open, u))
  {
    if bs != [] {
      GroupsFit(bs[..|bs| - 1], u);
      var g := GroupFold(bs[..|bs| - 1], u);
      var b := bs[|bs| - 1];
      assert (g.open + [b])[..|g.open|] == g.open;
      assert [b][..0] == [];
    }
  }

  lemma SettledFit(bs: seq<nat>, u: nat)
    requires Small(bs, u) && u >= 12 && |bs| >= 2
    ensures AtLeast(GroupFold(bs, u).closed, 1) && OnePageEach(Settled(GroupFold(bs, u)), u)
  {
    hide GroupFold;
    var g := GroupFold(bs, u);
    ClosedGroupsAreLarge(bs, u);
    GroupsFit(bs, u);
    if g.closed != [] && |g.open| == 1 {
      var lender := g.closed[|g.closed| - 1];
      var kept, lent := lender[..|lender| - 1], lender[|lender| - 1];
      GroupFoldJoins(bs, u);
      assert lent in bs by {
        JoinMembers(g.closed, |g.closed| - 1);
        assert lent in lender && lent in Join(g.closed) + g.open;
      }
      assert ([lent] + g.open)[..1] == [lent];
      assert [lent][..0] == [];
      assert Separators([lent]) == Separator(lent);
      assert Separators(kept) == Separators(kept[..|kept| - 1]) + Separator(kept[|kept| - 1]);
    }
  }

  // ---------------------------------------------------------------- whole trees

  /** The boundaries one level up: each group passes on that of its last child. */
  ghost function NextLevel(bs: seq<nat>, u: nat): seq<nat>
    requires Small(bs, u) && u >= 12 && |bs| >= 2
  {
    SettledGroups(bs, u);
    LastOfEach(Settled(GroupFold(bs, u)))
  }

  ghost function LastOfEach(groups: seq<seq<nat>>): (r: seq<nat>)
    requires AtLeast(groups, 1)
    ensures |r| == |groups|
  {
    seq(|groups|, i requires 0 <= i < |groups| && |groups[i]| >= 1 => groups[i][|groups[i]| - 1])
  }

  /** Each level has at most half as many pages as the one below. */
  lemma NextLevelHalves(bs: seq<nat>, u: nat)
    requires Small(bs, u) && u >= 12 && |bs| >= 2
    ensures 1 <= |NextLevel(bs, u)| && 2 * |NextLevel(bs, u)| <= |bs| && Small(NextLevel(bs, u), u)
  {
    SettledGroups(bs, u);
    var groups := Settled(GroupFold(bs, u));
    forall i | 0 <= i < |groups| ensures NextLevel(bs, u)[i] in bs {
      JoinMembers(groups, i);
      assert groups[i][|groups[i]| - 1] in groups[i];
    }
  }

  /** Pages appended for a list of at least two children: the children themselves and every
      level of parents above them, except the root. */
  ghost function TreePages(bs: seq<nat>, u: nat): (pages: nat)
    requires Small(bs, u) && u >= 12 && |bs| >= 2
    ensures pages >= |bs|
    decreases |bs|
  {
    NextLevelHalves(bs, u);
    if GroupFold(bs, u).closed == [] then |bs| else |bs| + TreePages(NextLevel(bs, u), u)
  }
}
