/** The writer, the shared allocator and the freelist together: what holds of the file when a run of the
    allocator has passed its gate (`page_writer.rs`). */
module Publishing {
  import opened AllocatorProtocol
  import opened Bytes
  import opened PageAllocation
  import opened PageFile
  import opened PageFormat
  import Freelist
  import TreeWriting

  // ---------------------------------------------------------------- the gate leads to the freelist

  lemma StepNext(c: Config, s: State, id: nat, a: Action)
    requires Enabled(c, s, id, a) && s.next <= LAST_PAGE
    ensures Effect(c, s, id, a).next <= LAST_PAGE
  {
    hide LockPage, UsableRanges, Skip, Spooled;
    if a.Spool? {
      SpoolChanges(s, id);
    }
  }

  lemma {:induction false} NextStaysSmall(c: Config, states: seq<State>, ids: seq<nat>, actions: seq<Action>, i: nat)
    requires Run(c, states, ids, actions) && i < |states| && c.bootstrapEnd <= LAST_PAGE
    ensures states[i].next <= LAST_PAGE
  {
    hide Enabled, Effect;
    if i > 0 {
      NextStaysSmall(c, states, ids, actions, i - 1);
      assert Enabled(c, states[i - 1], ids[i - 1], actions[i - 1])
             && states[i] == Effect(c, states[i - 1], ids[i - 1], actions[i - 1]);
      StepNext(c, states[i - 1], ids[i - 1], actions[i - 1]);
    }
  }

  /** What the coordinator gives back when it finishes: the spool and the rest of its own block. */
  function Returned(c: Config, s: State): seq<Range>
    requires COORDINATOR in s.writers
  {
    s.spool + UsableRanges(s.writers[COORDINATOR].next, s.writers[COORDINATOR].end, c.Pending())
  }

  lemma CommonPage(a: Range, b: Range) returns (p: nat)
    requires a.0 < a.1 && b.0 < b.1 && !(a.1 <= b.0 || b.1 <= a.0)
    ensures a.0 <= p < a.1 && b.0 <= p < b.1
  {
    p := if a.0 > b.0 then a.0 else b.0;
  }

  lemma SeparateConcat(a: seq<Range>, b: seq<Range>)
    requires Separate(a) && Separate(b) && forall p: nat :: !(In(a, p) && In(b, p))
    ensures Separate(a + b)
  {
    forall i, j | 0 <= i < |a| && 0 <= j < |b| ensures a[i].1 <= b[j].0 || b[j].1 <= a[i].0 {
      if !(a[i].1 <= b[j].0 || b[j].1 <= a[i].0) {
        var p := CommonPage(a[i], b[j]);
        assert In(a, p) && In(b, p);
      }
    }
  }

  lemma InConcat(a: seq<Range>, b: seq<Range>, p: nat)
    ensures In(a + b, p) <==> In(a, p) || In(b, p)
  {
    if In(a, p) {
      var i :| 0 <= i < |a| && a[i].0 <= p < a[i].1;
      assert (a + b)[i] == a[i];
    }
    if In(b, p) {
      var i :| 0 <= i < |b| && b[i].0 <= p < b[i].1;
      assert (a + b)[|a| + i] == b[i];
    }
  }

  lemma ReturnedIsSeparate(c: Config, s: State, owner: map<nat, Owner>)
    requires Ownership(c, s, owner) && COORDINATOR in s.writers && s.writers[COORDINATOR].pc.Idle?
    ensures Separate(Returned(c, s)) && s.freeCount == Pages(s.spool)
    ensures forall p: nat | In(Returned(c, s), p) :: p < s.next
  {
    hide Ownership, In, Separate, UsableRanges, LockPage, Pages;
    var w := s.writers[COORDINATOR];
    var tail := UsableRanges(w.next, w.end, c.Pending());
    OwnedOk(c, s, owner, COORDINATOR);
    assert w.next <= w.end by { BlockInOrder(c, w); }
    UsableAreSeparate(w.next, w.end, c.Pending());
    FreeFacts(c, s, owner);
    forall p: nat ensures !(In(s.spool, p) && In(tail, p)) && (In(tail, p) ==> p < s.next) {
      if In(tail, p) {
        TailIsHeld(c, w, p);
        HeldIsNotFree(c, s, owner, COORDINATOR, p);
      }
    }
    SeparateConcat(s.spool, tail);
    forall p: nat | In(Returned(c, s), p) ensures p < s.next {
      InConcat(s.spool, tail, p);
    }
  }

  lemma BlockInOrder(c: Config, w: Writer)
    requires WriterOk(c, w)
    ensures w.next <= w.end
  {
  }

  lemma TailIsHeld(c: Config, w: Writer, p: nat)
    requires w.next <= p < w.end && p != c.Pending()
    ensures Holds(c, w, p)
  {
  }

  function Below(n: nat): (s: set<nat>)
    ensures |s| == n && forall i: nat :: i in s <==> i < n
  {
    if n == 0 then {} else Below(n - 1) + {n - 1}
  }

  function Elements(pages: seq<nat>): set<nat> {
    set i | 0 <= i < |pages| :: pages[i]
  }

  lemma DistinctAreFew(pages: seq<nat>, n: nat)
    requires Freelist.Distinct(pages) && forall p | p in pages :: p < n
    ensures |pages| <= n
  {
    DistinctCount(pages);
    forall p | p in Elements(pages) ensures p in Below(n) {
      assert p in pages;
    }
    Fewer(Elements(pages), Below(n));
  }

  lemma {:induction false} Fewer(a: set<nat>, b: set<nat>)
    requires a <= b
    ensures |a| <= |b|
    decreases a
  {
    if a != {} {
      var x :| x in a;
      Fewer(a - {x}, b - {x});
    }
  }

  lemma {:induction false} DistinctCount(pages: seq<nat>)
    requires Freelist.Distinct(pages)
    ensures |Elements(pages)| == |pages|
  {
    if pages != [] {
      var k := |pages| - 1;
      DistinctCount(pages[..k]);
      assert pages[k] !in Elements(pages[..k]);
      assert Elements(pages) == Elements(pages[..k]) + {pages[k]};
    }
  }

  lemma PagesBelow(ranges: seq<Range>, n: nat)
    requires Separate(ranges) && forall p: nat | In(ranges, p) :: p < n
    ensures Pages(ranges) <= n
  {
    hide Separate, In, Pages, Freelist.Distinct;
    Freelist.ExpandedIsDistinct(ranges);
    Freelist.ExpandedIs(ranges);
    DistinctAreFew(Freelist.Expanded(ranges), n);
  }

  /** When the coordinator is about to pass its gate, what it gives back is fit for rebuilding the
      freelist: separate ranges of pages of the file, with the count that goes with them. */
  lemma PassedRunCanFinish(c: Config, states: seq<State>, ids: seq<nat>, actions: seq<Action>, i: nat)
    requires Run(c, states, ids, actions) && i < |states| && c.bootstrapEnd <= LAST_PAGE
    requires states[i].phase.NoneActive?
    ensures COORDINATOR in states[i].writers
    ensures var s, returned := states[i], Returned(c, states[i]);
            && Separate(returned) && (forall p: nat | In(returned, p) :: p < U32)
            && s.freeCount == Pages(s.spool) && Pages(returned) < U32
  {
    var owner := Reached(c, states, ids, actions, i);
    NextStaysSmall(c, states, ids, actions, i);
    hide Run, Ownership, Stored, In, Separate, Pages, UsableRanges, LockPage;
    assert Gate(states[i]) && Quiet(states[i]);
    ReturnedIsSeparate(c, states[i], owner);
    PagesBelow(Returned(c, states[i]), states[i].next);
  }

  // ---------------------------------------------------------------- every tree is published

  /** The pages a writer wrote are not among those given back. */
  lemma WrittenIsKept(c: Config, s: State, id: nat, p: nat)
    requires Complete(c, s) && Stored(c, s) && id in s.writers && p in s.writers[id].image
    ensures !In(s.spool, p) && p in s.disk && s.disk[p] == s.writers[id].image[p]
  {
    hide In, Separate, Pages;
    var w := s.writers[id];
    assert WriterStored(c, w, s.disk) && WrittenOnce(c, s, p);
    if p !in w.written {
      assert p in w.roots && w.roots <= s.roots && p in s.roots;
    }
  }

  lemma FinishedRunState(c: Config, states: seq<State>, ids: seq<nat>, actions: seq<Action>, i: nat)
    requires Run(c, states, ids, actions) && i < |states| && states[i].phase.Finished?
    ensures Complete(c, states[i]) && Stored(c, states[i])
  {
    hide Run, Complete, Stored, Ownership;
    var owner := Reached(c, states, ids, actions, i);
    FinishedRunIsComplete(c, states, ids, actions);
    assert states[i] in states;
  }

  /** In a run that finished, every tree a writer wrote, whoever wrote it, can be read from the published
      file, whatever rebuilding the freelist then does to the pages given back. */
  lemma TreesArePublished(c: Config, states: seq<State>, ids: seq<nat>, actions: seq<Action>, i: nat, id: nat,
                          own: File, kind: Kind, root: nat, depth: nat, rows: seq<Row>, disk: File)
    requires Run(c, states, ids, actions) && i < |states| && states[i].phase.Finished? && id in states[i].writers
    requires Grows(own, states[i].writers[id].image) && TreeWriting.Finished(own, c.pageSize, kind, root, depth, rows)
    requires forall p | p in states[i].disk && !In(states[i].spool, p) :: p in disk && disk[p] == states[i].disk[p]
    ensures TreeWriting.Finished(disk, c.pageSize, kind, root, depth, rows)
  {
    FinishedRunState(c, states, ids, actions, i);
    hide Run, Complete, Stored, In, TreeWriting.Finished;
    forall p | p in own ensures p in disk && disk[p] == own[p] {
      WrittenIsKept(c, states[i], id, p);
    }
    TreeWriting.FinishedGrows(own, disk, c.pageSize, kind, root, depth, rows);
  }

  // ---------------------------------------------------------------- from the writer's steps to its image

  /** The step puts a page into the file: an append, or a root. */
  ghost predicate Writes(c: Config, s: State, id: nat, a: Action, p: nat, page: seq<byte>) {
    && Enabled(c, s, id, a)
    && if a.Append? then a.page == page && p == Skip(s.writers[id].next, c.Pending())
       else a == WriteRoot(p, page)
  }

  predicate ReplacesRoot(who: nat, a: Action, id: nat, p: nat) {
    who == id && a.WriteRoot? && a.root == p
  }

  lemma WritesIntoImage(c: Config, s: State, id: nat, a: Action, p: nat, page: seq<byte>)
    requires Writes(c, s, id, a, p, page)
    ensures var s' := Effect(c, s, id, a); id in s'.writers && p in s'.writers[id].image
                                           && s'.writers[id].image[p] == page
  {
    hide LockPage;
  }

  /** An appended page is new to its writer. */
  lemma AppendIsNew(c: Config, s: State, owner: map<nat, Owner>, id: nat, page: seq<byte>)
    requires Ownership(c, s, owner) && Stored(c, s) && Enabled(c, s, id, Append(page))
    ensures Skip(s.writers[id].next, c.Pending()) !in s.writers[id].image
    ensures Skip(s.writers[id].next, c.Pending()) >= c.bootstrapEnd
  {
    hide Ownership, LockPage, In, Separate, Pages;
    OwnedOk(c, s, owner, id);
    var w := s.writers[id];
    assert WriterStored(c, w, s.disk) && w.roots <= s.roots;
    assert w.next <= Skip(w.next, c.Pending()) < w.end;
  }

  /** Whoever steps, a page that was written stays in its writer's image until its root is replaced. */
  lemma StepKeepsImage(c: Config, s: State, owner: map<nat, Owner>, who: nat, a: Action, id: nat, p: nat)
    requires Ownership(c, s, owner) && Stored(c, s) && Enabled(c, s, who, a)
    requires id in s.writers && p in s.writers[id].image && !ReplacesRoot(who, a, id, p)
    ensures var s' := Effect(c, s, who, a);
            id in s'.writers && p in s'.writers[id].image && s'.writers[id].image[p] == s.writers[id].image[p]
  {
    hide Ownership, Stored, Effect, Enabled;
    StepRoots(c, s, who, a);
    if who == id {
      if a.Append? {
        AppendIsNew(c, s, owner, id, a.page);
      }
      OwnImageAfter(c, s, id, a);
    }
  }

  /** What a step does to the image of its own writer. */
  lemma OwnImageAfter(c: Config, s: State, id: nat, a: Action)
    requires Enabled(c, s, id, a) && id in s.writers
    ensures var w, s' := s.writers[id], Effect(c, s, id, a);
            && id in s'.writers
            && s'.writers[id].image == if a.Append? then w.image[Skip(w.next, c.Pending()) := a.page]
                                       else if a.WriteRoot? then w.image[a.root := a.page]
                                       else w.image
  {
    hide LockPage, UsableRanges, Available, Swapped, Spooled, Skip, RootIsFree;
    if a.Swap? {
      SwapKeepsImage(c, s, id);
    } else if a.Spool? {
      SpoolKeepsImage(s, id);
    }
  }

  lemma SwapKeepsImage(c: Config, s: State, id: nat)
    requires id in s.writers && s.writers[id].pc.Swapping?
    ensures var s' := Swapped(c, s, id); id in s'.writers && s'.writers[id].image == s.writers[id].image
  {
    hide LockPage, RangeEnd;
  }

  lemma SpoolKeepsImage(s: State, id: nat)
    requires id in s.writers && Spooling(s.writers[id].pc)
    ensures var s' := Spooled(s, id); id in s'.writers && s'.writers[id].image == s.writers[id].image
  {
  }

  lemma {:induction false} WrittenStays(c: Config, states: seq<State>, ids: seq<nat>, actions: seq<Action>, j: nat,
                                        i: nat, id: nat, p: nat, page: seq<byte>)
    requires Run(c, states, ids, actions) && j < i < |states| && ids[j] == id
    requires Writes(c, states[j], id, actions[j], p, page)
    requires forall k | j < k < i :: !ReplacesRoot(ids[k], actions[k], id, p)
    ensures id in states[i].writers && p in states[i].writers[id].image && states[i].writers[id].image[p] == page
    decreases i
  {
    hide Writes, Effect, Enabled, Ownership, Stored;
    assert Enabled(c, states[i - 1], ids[i - 1], actions[i - 1])
           && states[i] == Effect(c, states[i - 1], ids[i - 1], actions[i - 1]);
    if j == i - 1 {
      WritesIntoImage(c, states[j], id, actions[j], p, page);
    } else {
      WrittenStays(c, states, ids, actions, j, i - 1, id, p, page);
      var owner := Reached(c, states, ids, actions, i - 1);
      StepKeepsImage(c, states[i - 1], owner, ids[i - 1], actions[i - 1], id, p);
    }
  }

  /** The two together: a tree that `TreeWriting.Tree` promises to stand on its own pages can be read from the
      published file, when the writer took the steps that put those pages there and has not replaced the root. */
  lemma WrittenTreeIsPublished(c: Config, states: seq<State>, ids: seq<nat>, actions: seq<Action>, i: nat, id: nat,
                               file: File, mine: File, kind: Kind, root: nat, depth: nat, rows: seq<Row>,
                               steps: map<nat, nat>, disk: File)
    requires Run(c, states, ids, actions) && i < |states| && states[i].phase.Finished? && id in states[i].writers
    requires TreeWriting.OnItsOwn(file, mine, c.pageSize, kind, root, depth, rows)
    requires forall p | p in mine || p == root ::
               && p in steps && steps[p] < i && ids[steps[p]] == id
               && Writes(c, states[steps[p]], id, actions[steps[p]], p, file[p])
    requires forall p, k | (p in mine || p == root) && steps[p] < k < i :: !ReplacesRoot(ids[k], actions[k], id, p)
    requires forall p | p in states[i].disk && !In(states[i].spool, p) :: p in disk && disk[p] == states[i].disk[p]
    ensures TreeWriting.Finished(disk, c.pageSize, kind, root, depth, rows)
  {
    hide Run, Writes, In, TreeWriting.Finished;
    var own, image := TreeWriting.OwnPages(file, mine, root), states[i].writers[id].image;
    forall p | p in own ensures p in image && image[p] == own[p] {
      WrittenStays(c, states, ids, actions, steps[p], i, id, p, file[p]);
      assert own[p] == file[p];
    }
    TreesArePublished(c, states, ids, actions, i, id, own, kind, root, depth, rows, disk);
  }
}
