/** What is known about one level of interior pages while it is being written (`level` in
    `page_writer.rs`). */
module LevelWriting {
  import opened Bytes
  import opened Layout
  import opened LeafWriting
  import opened PageFile
  import opened PageFormat
  import opened Results
  import opened TreeContents
  import opened Varints

  // ---------------------------------------------------------------- groups of subtrees

  datatype SubGroups = SubGroups(closed: seq<seq<Sub>>, open: seq<Sub>)

  /** The groups the level loop has formed from the children read so far. */
  ghost function SubFold(subs: seq<Sub>, u: nat): SubGroups {
    if subs == [] then SubGroups([], []) else SubStep(SubFold(subs[..|subs| - 1], u), subs[|subs| - 1], u)
  }

  ghost function SubStep(g: SubGroups, s: Sub, u: nat): SubGroups {
    if 12 + Separators(Lengths(g.open)) > u then SubGroups(g.closed + [g.open], [s])
        else SubGroups(g.closed, g.open + [s])
  }

  ghost function LengthsEach(groups: seq<seq<Sub>>): (l: seq<seq<nat>>)
    ensures |l| == |groups|
  {
    seq(|groups|, i requires 0 <= i < |groups| => Lengths(groups[i]))
  }

  /** The groups depend on lengths only. */
  lemma {:induction false} SubFoldLengths(subs: seq<Sub>, u: nat)
    ensures var g := SubFold(subs, u);
            GroupFold(Lengths(subs), u) == Groups(LengthsEach(g.closed), Lengths(g.open))
  {
    if subs != [] {
      var init, s := subs[..|subs| - 1], subs[|subs| - 1];
      SubFoldLengths(init, u);
      var g := SubFold(init, u);
      assert Lengths(subs)[..|subs| - 1] == Lengths(init);
      assert LengthsEach(g.closed + [g.open]) == LengthsEach(g.closed) + [Lengths(g.open)];
      assert Lengths(g.open + [s]) == Lengths(g.open) + [|s.boundary|];
      assert Lengths([s]) == [|s.boundary|];
    }
  }

  lemma SubFoldStep(subs: seq<Sub>, i: nat, u: nat)
    requires i < |subs|
    ensures SubFold(subs[..i + 1], u) == SubStep(SubFold(subs[..i], u), subs[i], u)
  {
    assert subs[..i + 1][..i] == subs[..i];
  }

  lemma {:induction false} SubFoldJoins(subs: seq<Sub>, u: nat)
    ensures var g := SubFold(subs, u); Join(g.closed) + g.open == subs
  {
    if subs != [] {
      var init, s := subs[..|subs| - 1], subs[|subs| - 1];
      SubFoldJoins(init, u);
      var g := SubFold(init, u);
      JoinPush(g.closed, g.open);
      assert subs == init + [s];
      assert Join(g.closed) + (g.open + [s]) == (Join(g.closed) + g.open) + [s];
    }
  }

  /** The groups after a last group of one child has borrowed another. */
  ghost function SubSettled(g: SubGroups): seq<seq<Sub>>
    requires AtLeast(g.closed, 1)
  {
    if g.closed != [] && |g.open| == 1 then
      var lender := g.closed[|g.closed| - 1];
      g.closed[..|g.closed| - 1] + [lender[..|lender| - 1], [lender[|lender| - 1]] + g.open]
    else g.closed + [g.open]
  }

  lemma SubSettledLengths(g: SubGroups)
    requires AtLeast(g.closed, 1)
    ensures AtLeast(LengthsEach(g.closed), 1)
    ensures LengthsEach(SubSettled(g)) == Settled(Groups(LengthsEach(g.closed), Lengths(g.open)))
  {
    if g.closed != [] && |g.open| == 1 {
      var lender := g.closed[|g.closed| - 1];
      var last := |lender| - 1;
      assert Lengths(lender[..last]) == Lengths(lender)[..last];
      assert Lengths([lender[last]] + g.open) == [|lender[last].boundary|] + Lengths(g.open);
    }
  }

  lemma SubSettledJoins(g: SubGroups)
    requires AtLeast(g.closed, 1)
    ensures Join(SubSettled(g)) == Join(g.closed) + g.open
  {
    if g.closed != [] && |g.open| == 1 {
      var front, lender := g.closed[..|g.closed| - 1], g.closed[|g.closed| - 1];
      var kept, lent := lender[..|lender| - 1], lender[|lender| - 1];
      LendingJoins(front, kept, lent, g.open);
      assert lender == kept + [lent] && g.closed == front + [lender];
    } else {
      JoinPush(g.closed, g.open);
    }
  }

  /** The final groups of a level: each fills one page and has at least two children. */
  lemma FinalGroups(subs: seq<Sub>, u: nat)
    requires Small(Lengths(subs), u) && u >= 12 && |subs| >= 2
    ensures var g := SubFold(subs, u);
            && AtLeast(g.closed, 4) && g.open != []
            && var final := SubSettled(g);
               && Join(final) == subs && AtLeast(final, 2) && OnePageEach(LengthsEach(final), u)
               && NextLevel(Lengths(subs), u) == LastOfEach(LengthsEach(final))
               && |final| == |g.closed| + 1 && 2 * |final| <= |subs|
  {
    hide SubFold, GroupFold, Small, Join, OnePageEach;
    var g := SubFold(subs, u);
    SubFoldLengths(subs, u);
    ClosedGroupsAreLarge(Lengths(subs), u);
    LengthsEachLengths(g.closed, 4);
    SubFoldJoins(subs, u);
    SettledGroups(Lengths(subs), u);
    SettledFit(Lengths(subs), u);
    SubSettledLengths(g);
    SubSettledJoins(g);
    LengthsEachLengths(SubSettled(g), 2);
  }

  lemma LengthsEachLengths(groups: seq<seq<Sub>>, n: nat)
    requires AtLeast(LengthsEach(groups), n)
    ensures AtLeast(groups, n)
  {
    assert forall i | 0 <= i < |groups| :: |LengthsEach(groups)[i]| == |groups[i]|;
  }

  lemma {:induction false} JoinSplit<T>(groups: seq<seq<T>>, m: nat)
    requires m < |groups|
    ensures Join(groups) == Join(groups[..m]) + groups[m] + Join(groups[m + 1..])
  {
    var last := |groups| - 1;
    if m == last {
      assert groups[m + 1..] == [];
    } else {
      JoinSplit(groups[..last], m);
      assert groups[..last][..m] == groups[..m] && groups[..last][m + 1..] == groups[m + 1..][..last - m - 1];
      assert groups[m + 1..][|groups[m + 1..]| - 1] == groups[last];
    }
  }

  // ---------------------------------------------------------------- what a group needs

  ghost predicate Ready(file: File, u: nat, kind: Kind, depth: nat, subs: seq<Sub>)
    requires PageSize(u)
  {
    && SubTrees(file, u, kind, depth, subs)
    && (kind == Table ==> AllSearchable(file, u, depth, subs))
    && subs != [] && (kind == Table ==> Ascending(Contents(kind, subs)))
  }

  lemma ReadyGrows(file: File, file': File, u: nat, kind: Kind, depth: nat, subs: seq<Sub>)
    requires PageSize(u) && Grows(file, file') && Ready(file, u, kind, depth, subs)
    ensures Ready(file', u, kind, depth, subs)
  {
    SubTreesGrow(file, file', u, kind, depth, subs);
    if kind == Table {
      forall i | 0 <= i < |subs| ensures Searchable(file', u, subs[i].page, depth, subs[i].rows) {
        SearchableGrows(file, file', u, subs[i].page, depth, subs[i].rows);
      }
    }
  }

  lemma LeftIsContents(kind: Kind, subs: seq<Sub>)
    requires subs != []
    ensures Left(kind, subs) == Contents(kind, subs) + if kind == Index then [subs[|subs| - 1].separator] else []
  {
  }

  /** A contiguous part of a ready list is ready. */
  lemma SliceIsReady(file: File, u: nat, kind: Kind, depth: nat, a: seq<Sub>, group: seq<Sub>, b: seq<Sub>)
    requires PageSize(u) && Ready(file, u, kind, depth, a + group + b) && group != []
    ensures Ready(file, u, kind, depth, group)
    ensures b != [] ==> Boundary(file, u, kind, group[|group| - 1])
  {
    hide SubTrees, AllSearchable, Boundary;
    SliceOfSubTrees(file, u, kind, depth, a, group, b);
    if kind == Table {
      SliceOfContents(a, group, b);
      MiddleAscends(Left(kind, a), Contents(kind, group), Left(kind, b));
    }
  }

  lemma SliceOfContents(a: seq<Sub>, group: seq<Sub>, b: seq<Sub>)
    requires group != []
    ensures Contents(Table, a + group + b) == Left(Table, a) + Contents(Table, group) + Left(Table, b)
  {
    LeftOfConcat(Table, a + group, b);
    LeftOfConcat(Table, a, group);
    LeftIsContents(Table, a + group + b);
    LeftIsContents(Table, group);
    assert Left(Table, a + group + b) == Contents(Table, a + group + b) && Left(Table, group) == Contents(Table, group);
  }

  lemma MiddleAscends(a: seq<Row>, b: seq<Row>, c: seq<Row>)
    requires Ascending(a + b + c)
    ensures Ascending(b)
  {
    var all := a + b + c;
    forall i, j | 0 <= i < j < |b| ensures b[i].rowid < b[j].rowid {
      assert all[|a| + i] == b[i] && all[|a| + j] == b[j];
    }
  }

  lemma SliceOfSubTrees(file: File, u: nat, kind: Kind, depth: nat, a: seq<Sub>, group: seq<Sub>, b: seq<Sub>)
    requires PageSize(u) && SubTrees(file, u, kind, depth, a + group + b) && group != []
    requires kind == Table ==> AllSearchable(file, u, depth, a + group + b)
    ensures SubTrees(file, u, kind, depth, group)
    ensures kind == Table ==> AllSearchable(file, u, depth, group)
    ensures b != [] ==> Boundary(file, u, kind, group[|group| - 1])
  {
    hide SubTree, Boundary, Searchable;
    var subs := a + group + b;
    forall i | 0 <= i < |group|
      ensures SubTree(file, u, kind, depth, group[i])
      ensures i < |group| - 1 || b != [] ==> Boundary(file, u, kind, group[i])
      ensures kind == Table ==> Searchable(file, u, group[i].page, depth, group[i].rows)
    {
      assert subs[|a| + i] == group[i];
    }
  }

  // ---------------------------------------------------------------- parents

  /** The subtree a group becomes. */
  ghost function Merged(kind: Kind, page: nat, group: seq<Sub>): Sub
    requires group != []
  {
    var last := group[|group| - 1];
    Sub(page, last.boundary, Contents(kind, group), last.separator)
  }

  ghost predicate ParentOf(file: File, u: nat, kind: Kind, depth: nat, parent: Sub, group: seq<Sub>)
    requires PageSize(u)
  {
    && group != [] && parent == Merged(kind, parent.page, group)
    && SubTree(file, u, kind, depth + 1, parent)
    && (kind == Table ==> Searchable(file, u, parent.page, depth + 1, parent.rows))
    && parent.page in file && forall s | s in group :: IsChild(file, u, kind, parent.page, s.page)
  }

  ghost predicate ParentsOf(file: File, u: nat, kind: Kind, depth: nat, parents: seq<Sub>, groups: seq<seq<Sub>>)
    requires PageSize(u)
  {
    |parents| == |groups| && forall m | 0 <= m < |parents| :: ParentOf(file, u, kind, depth, parents[m], groups[m])
  }

  lemma ParentsGrow(file: File, file': File, u: nat, kind: Kind, depth: nat, parents: seq<Sub>, groups: seq<seq<Sub>>)
    requires PageSize(u) && Grows(file, file') && ParentsOf(file, u, kind, depth, parents, groups)
    ensures ParentsOf(file', u, kind, depth, parents, groups)
  {
    hide ParentOf, Grows;
    forall m | 0 <= m < |parents| ensures ParentOf(file', u, kind, depth, parents[m], groups[m]) {
      ParentGrows(file, file', u, kind, depth, parents[m], groups[m]);
    }
  }

  lemma ParentGrows(file: File, file': File, u: nat, kind: Kind, depth: nat, parent: Sub, group: seq<Sub>)
    requires PageSize(u) && Grows(file, file') && ParentOf(file, u, kind, depth, parent, group)
    ensures ParentOf(file', u, kind, depth, parent, group)
  {
    hide ReadTree, Searchable, IsChild, PageSize, Contents;
    ReadTreeGrows(file, file', u, kind, parent.page, depth + 1);
    if kind == Table {
      SearchableGrows(file, file', u, parent.page, depth + 1, parent.rows);
    }
    forall s | s in group ensures IsChild(file', u, kind, parent.page, s.page) {
      IsChildGrows(file, file', u, kind, parent.page, s.page);
    }
  }

  lemma ContentsAreThere(kind: Kind, group: seq<Sub>)
    requires group != [] && group[|group| - 1].rows != []
    ensures Contents(kind, group) != []
  {
  }

  /** A parent page over a ready group is a subtree one level up. */
  lemma ParentPage(file: File, u: nat, kind: Kind, depth: nat, page: nat, group: seq<Sub>)
    requires PageSize(u) && page in file && |file[page]| == u && page < U32 && IsParent(file[page], kind, group)
    requires Ready(file, u, kind, depth, group)
    ensures ParentOf(file, u, kind, depth, Merged(kind, page, group), group)
  {
    hide IsChild, IsParent, ReadTree, Searchable, Contents;
    ParentIsRead(file, u, kind, depth, page, group);
    assert SubTree(file, u, kind, depth, group[|group| - 1]);
    ContentsAreThere(kind, group);
    if kind == Table {
      ParentIsSearchable(file, u, depth, page, group);
    }
    GroupAreChildren(file, u, kind, depth, page, group);
  }

  lemma GroupAreChildren(file: File, u: nat, kind: Kind, depth: nat, page: nat, group: seq<Sub>)
    requires PageSize(u) && page in file && |file[page]| == u && IsParent(file[page], kind, group)
    requires Ready(file, u, kind, depth, group)
    ensures forall s | s in group :: IsChild(file, u, kind, page, s.page)
  {
    hide IsChild, IsParent, ReadTree, Searchable;
    forall s | s in group ensures IsChild(file, u, kind, page, s.page) {
      var k :| 0 <= k < |group| && group[k] == s;
      PagesAreSmall(file, u, kind, depth, group);
      GroupIsChildren(file, u, kind, page, group, k);
    }
  }

  lemma PagesAreSmall(file: File, u: nat, kind: Kind, depth: nat, subs: seq<Sub>)
    requires PageSize(u) && Ready(file, u, kind, depth, subs)
    ensures forall i | 0 <= i < |subs| :: subs[i].page < U32
  {
    forall i | 0 <= i < |subs| ensures subs[i].page < U32 {
      assert SubTree(file, u, kind, depth, subs[i]);
    }
  }

  lemma {:induction false} LeftOfParents(file: File, u: nat, kind: Kind, depth: nat, parents: seq<Sub>,
                                         groups: seq<seq<Sub>>)
    requires PageSize(u) && ParentsOf(file, u, kind, depth, parents, groups)
    ensures Left(kind, parents) == Left(kind, Join(groups))
    decreases |parents|
  {
    if parents != [] {
      var m := |parents| - 1;
      LeftOfParents(file, u, kind, depth, parents[..m], groups[..m]);
      LeftOfConcat(kind, Join(groups[..m]), groups[m]);
      assert ParentOf(file, u, kind, depth, parents[m], groups[m]);
      LeftIsContents(kind, groups[m]);
      var a, b := Left(kind, parents[..m]), Contents(kind, groups[m]);
      if kind == Index {
        assert a + b + [parents[m].separator] == a + (b + [parents[m].separator]);
      } else {
        assert Left(kind, groups[m]) == b;
      }
    }
  }

  /** Replacing every group by its parent keeps the contents of the level. */
  lemma ParentsAreReady(file: File, u: nat, kind: Kind, depth: nat, subs: seq<Sub>, parents: seq<Sub>,
                        groups: seq<seq<Sub>>)
    requires PageSize(u) && Ready(file, u, kind, depth, subs) && Join(groups) == subs && AtLeast(groups, 1)
    requires ParentsOf(file, u, kind, depth, parents, groups)
    ensures Ready(file, u, kind, depth + 1, parents) && Contents(kind, parents) == Contents(kind, subs)
    ensures AtLeast(LengthsEach(groups), 1) && Lengths(parents) == LastOfEach(LengthsEach(groups))
  {
    hide SubTrees, AllSearchable, Ascending, Left;
    LeftOfParents(file, u, kind, depth, parents, groups);
    LastOfGroups(groups);
    assert ParentOf(file, u, kind, depth, parents[|parents| - 1], groups[|groups| - 1]);
    SameContents(kind, parents, subs);
    ParentBoundaries(file, u, kind, depth, subs, parents, groups);
    ParentLengths(file, u, kind, depth, parents, groups);
  }

  lemma LastOfGroups<T>(groups: seq<seq<T>>)
    requires AtLeast(groups, 1) && Join(groups) != []
    ensures groups != []
    ensures var last := groups[|groups| - 1]; Join(groups)[|Join(groups)| - 1] == last[|last| - 1]
  {
  }

  lemma SameContents(kind: Kind, a: seq<Sub>, b: seq<Sub>)
    requires a != [] && b != [] && Left(kind, a) == Left(kind, b) && a[|a| - 1].separator == b[|b| - 1].separator
    ensures Contents(kind, a) == Contents(kind, b)
  {
    LeftIsContents(kind, a);
    LeftIsContents(kind, b);
    var x, y := Contents(kind, a), Contents(kind, b);
    assert |x| == |y|;
    assert Left(kind, a)[..|x|] == x && Left(kind, b)[..|y|] == y;
  }

  lemma ParentLengths(file: File, u: nat, kind: Kind, depth: nat, parents: seq<Sub>, groups: seq<seq<Sub>>)
    requires PageSize(u) && ParentsOf(file, u, kind, depth, parents, groups) && AtLeast(groups, 1)
    ensures AtLeast(LengthsEach(groups), 1)
    ensures Lengths(parents) == LastOfEach(LengthsEach(groups))
  {
    forall m | 0 <= m < |parents|
      ensures |LengthsEach(groups)[m]| >= 1 && Lengths(parents)[m]
              == LengthsEach(groups)[m][|LengthsEach(groups)[m]| - 1]
    {
      assert ParentOf(file, u, kind, depth, parents[m], groups[m]);
    }
  }

  lemma ParentBoundaries(file: File, u: nat, kind: Kind, depth: nat, subs: seq<Sub>, parents: seq<Sub>,
                         groups: seq<seq<Sub>>)
    requires PageSize(u) && Ready(file, u, kind, depth, subs) && Join(groups) == subs && AtLeast(groups, 1)
    requires ParentsOf(file, u, kind, depth, parents, groups)
    ensures SubTrees(file, u, kind, depth + 1, parents)
    ensures kind == Table ==> AllSearchable(file, u, depth + 1, parents)
  {
    hide SubTree, Searchable;
    forall m | 0 <= m < |parents| ensures SubTree(file, u, kind, depth + 1, parents[m]) {
      assert ParentOf(file, u, kind, depth, parents[m], groups[m]);
    }
    forall m | 0 <= m < |parents| - 1 ensures Boundary(file, u, kind, parents[m]) {
      ParentBoundary(file, u, kind, depth, subs, parents, groups, m);
    }
    forall m | 0 <= m < |parents| && kind == Table ensures Searchable(file, u, parents[m].page, depth + 1,
                                                                      parents[m].rows) {
      assert ParentOf(file, u, kind, depth, parents[m], groups[m]);
    }
  }

  lemma ParentBoundary(file: File, u: nat, kind: Kind, depth: nat, subs: seq<Sub>, parents: seq<Sub>,
                       groups: seq<seq<Sub>>, m: nat)
    requires PageSize(u) && Ready(file, u, kind, depth, subs) && Join(groups) == subs && AtLeast(groups, 1)
    requires ParentsOf(file, u, kind, depth, parents, groups) && m < |parents| - 1
    ensures Boundary(file, u, kind, parents[m])
  {
    var group := groups[m];
    assert ParentOf(file, u, kind, depth, parents[m], group);
    var a, b := Join(groups[..m]), Join(groups[m + 1..]);
    JoinSplit(groups, m);
    assert b != [] by {
      JoinSplit(groups[m + 1..], 0);
    }
    SliceIsReady(file, u, kind, depth, a, group, b);
    var last := group[|group| - 1];
    assert SubTree(file, u, kind, depth, last);
    hide Ready, SubTree, SubTrees, ParentsOf, Join, Left, Encodes;
    if kind == Table {
      assert parents[m].rows == Left(kind, group[..|group| - 1]) + last.rows;
    }
  }

  // ---------------------------------------------------------------- state of the level loop

  /** After the children in `read`: the open group, the deferred group before it, and the parents
      of all groups before that. */
  ghost predicate LevelState(file: File, u: nat, kind: Kind, depth: nat, read: seq<Sub>, previous: Option<seq<Child>>,
                             group: seq<Child>, used: nat, next: seq<Child>, parents: seq<Sub>)
    requires PageSize(u)
  {
    var g := SubFold(read, u);
    && group == ChildrenOf(g.open)
    && previous == (if g.closed == [] then None else Some(ChildrenOf(g.closed[|g.closed| - 1])))
    && |parents| == (if g.closed == [] then 0 else |g.closed| - 1)
    && next == ChildrenOf(parents)
    && ParentsOf(file, u, kind, depth, parents, g.closed[..|parents|])
    && used == 12 + if g.open == [] then 0 else Separators(Lengths(g.open[..|g.open| - 1]))
  }

  lemma LevelStarts(file: File, u: nat, kind: Kind, depth: nat)
    requires PageSize(u)
    ensures LevelState(file, u, kind, depth, [], None, [], 12, [], [])
  {
  }

  /** Space used on the page of the open group once another child follows. */
  function Additional(group: seq<Child>): nat {
    if group == [] then 0 else 6 + |group[|group| - 1].boundary|
  }

  lemma UsedWithNext(file: File, u: nat, kind: Kind, depth: nat, read: seq<Sub>, previous: Option<seq<Child>>,
                     group: seq<Child>, used: nat, next: seq<Child>, parents: seq<Sub>)
    requires PageSize(u) && LevelState(file, u, kind, depth, read, previous, group, used, next, parents)
    ensures used + Additional(group) == 12 + Separators(Lengths(SubFold(read, u).open))
  {
    var open := SubFold(read, u).open;
    if open != [] {
      assert Lengths(open)[..|open| - 1] == Lengths(open[..|open| - 1]);
    }
  }

  /** The child joins the open group. */
  lemma LevelJoin(file: File, u: nat, kind: Kind, depth: nat, read: seq<Sub>, previous: Option<seq<Child>>,
                  group: seq<Child>, used: nat, next: seq<Child>, parents: seq<Sub>, s: Sub)
    requires PageSize(u) && LevelState(file, u, kind, depth, read, previous, group, used, next, parents)
    requires used + Additional(group) <= u
    ensures LevelState(file, u, kind, depth, read + [s], previous, group + [Child(s.page, s.boundary)],
                       used + Additional(group), next, parents)
  {
    hide ParentsOf, Separators, Lengths, PageSize;
    UsedWithNext(file, u, kind, depth, read, previous, group, used, next, parents);
    assert (read + [s])[..|read|] == read;
    var open := SubFold(read, u).open;
    assert (open + [s])[..|open|] == open;
    assert ChildrenOf(open + [s]) == ChildrenOf(open) + [Child(s.page, s.boundary)];
  }

  /** The child starts a new group; the deferred group, if any, has just become a parent. */
  lemma LevelCut(file: File, file': File, u: nat, kind: Kind, depth: nat, read: seq<Sub>, previous: Option<seq<Child>>,
                 group: seq<Child>, used: nat, next: seq<Child>, parents: seq<Sub>, s: Sub, next': seq<Child>,
                     parents': seq<Sub>)
    requires PageSize(u) && LevelState(file, u, kind, depth, read, previous, group, used, next, parents)
             && Grows(file, file')
    requires used + Additional(group) > u && next' == ChildrenOf(parents')
    requires if previous.None? then parents' == parents
             else |parents'| == |parents| + 1 && parents'[..|parents|] == parents
                  && ParentOf(file', u, kind, depth, parents'[|parents|], SubFold(read, u).closed[|parents|])
    ensures LevelState(file', u, kind, depth, read + [s], Some(group), [Child(s.page, s.boundary)], 12, next', parents')
  {
    UsedWithNext(file, u, kind, depth, read, previous, group, used, next, parents);
    assert (read + [s])[..|read|] == read;
    var g := SubFold(read, u);
    var now := SubFold(read + [s], u);
    assert now == SubGroups(g.closed + [g.open], [s]);
    assert ChildrenOf([s]) == [Child(s.page, s.boundary)] && [s][..0] == [];
    hide ParentsOf, ParentOf, SubFold, Separators;
    ParentsGrow(file, file', u, kind, depth, parents, g.closed[..|parents|]);
    if previous.Some? {
      ParentsPush(file', u, kind, depth, parents, parents', g.closed);
    }
    assert now.closed[..|parents'|] == g.closed[..|parents'|];
  }

  lemma ParentsPush(file: File, u: nat, kind: Kind, depth: nat, parents: seq<Sub>, parents': seq<Sub>,
                    groups: seq<seq<Sub>>)
    requires PageSize(u) && |parents| < |groups| && ParentsOf(file, u, kind, depth, parents, groups[..|parents|])
    requires |parents'| == |parents| + 1 && parents'[..|parents|] == parents
    requires ParentOf(file, u, kind, depth, parents'[|parents|], groups[|parents|])
    ensures ParentsOf(file, u, kind, depth, parents', groups[..|parents'|])
  {
    hide ParentOf;
    forall m | 0 <= m < |parents'| ensures ParentOf(file, u, kind, depth, parents'[m], groups[..|parents'|][m]) {
      if m < |parents| {
        assert parents'[m] == parents'[..|parents|][m] && groups[..|parents'|][m] == groups[..|parents|][m];
      }
    }
  }

  /** Groups are contiguous parts of the level, so they are ready to become parents. */
  lemma GroupIsReady(file: File, u: nat, kind: Kind, depth: nat, subs: seq<Sub>, groups: seq<seq<Sub>>, rest: seq<Sub>,
                     m: nat)
    requires PageSize(u) && Ready(file, u, kind, depth, subs) && Join(groups) + rest == subs && m < |groups|
             && groups[m] != []
    ensures Ready(file, u, kind, depth, groups[m])
  {
    hide Ready, Join;
    JoinSplit(groups, m);
    var a, b := Join(groups[..m]), Join(groups[m + 1..]);
    LaterRows(a, groups[m], b, rest);
    SliceIsReady(file, u, kind, depth, a, groups[m], b + rest);
  }

  lemma LaterRows<T>(a: seq<T>, b: seq<T>, c: seq<T>, d: seq<T>)
    ensures (a + b + c) + d == a + b + (c + d)
  {
  }

  /** A group the loop has closed can be written. */
  lemma ClosedIsReady(file: File, u: nat, kind: Kind, depth: nat, subs: seq<Sub>, i: nat, m: nat)
    requires PageSize(u) && Ready(file, u, kind, depth, subs) && Small(Lengths(subs), u) && i <= |subs|
    requires m < |SubFold(subs[..i], u).closed|
    ensures var group := SubFold(subs[..i], u).closed[m];
            Ready(file, u, kind, depth, group) && |group| >= 4 && OnePage(Lengths(group), u)
  {
    hide Ready, Join, SubFold, GroupFold, Small, OnePage;
    var read := subs[..i];
    var g := SubFold(read, u);
    SmallPrefix(subs, i, u);
    SubFoldLengths(read, u);
    ClosedGroupsAreLarge(Lengths(read), u);
    GroupsFit(Lengths(read), u);
    SubFoldJoins(read, u);
    assert |LengthsEach(g.closed)[m]| >= 4 && OnePage(LengthsEach(g.closed)[m], u);
    LaterRows([], Join(g.closed), g.open, subs[i..]);
    assert [] + Join(g.closed) == Join(g.closed) && subs[..i] + subs[i..] == subs;
    GroupIsReady(file, u, kind, depth, subs, g.closed, g.open + subs[i..], m);
  }

  lemma SmallPrefix(subs: seq<Sub>, i: nat, u: nat)
    requires Small(Lengths(subs), u) && i <= |subs|
    ensures Small(Lengths(subs[..i]), u)
  {
    assert Lengths(subs[..i]) == Lengths(subs)[..i];
  }

  /** A final group can be written. */
  lemma FinalIsReady(file: File, u: nat, kind: Kind, depth: nat, subs: seq<Sub>, m: nat)
    requires PageSize(u) && Ready(file, u, kind, depth, subs) && Small(Lengths(subs), u) && |subs| >= 2
    requires AtLeast(SubFold(subs, u).closed, 1) && m < |SubSettled(SubFold(subs, u))|
    ensures var group := SubSettled(SubFold(subs, u))[m];
            Ready(file, u, kind, depth, group) && |group| >= 2 && OnePage(Lengths(group), u)
  {
    FinalGroups(subs, u);
    var final := SubSettled(SubFold(subs, u));
    assert |final[m]| >= 2 && OnePage(LengthsEach(final)[m], u);
    assert Join(final) + [] == subs;
    GroupIsReady(file, u, kind, depth, subs, final, [], m);
  }
}
